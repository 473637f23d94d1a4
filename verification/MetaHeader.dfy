/** Object metadata as HTTP headers and back (`MetaToHttpHeader` and
    `FetchMetaFromHttpHeader` in pkg/cloudprovider/objectstore.go). */
module MetaHeader {
  import opened Images
  import Text

  type Header = map<string, seq<string>>

  // ---------- Canonical header keys, as documented for Go's net/http ----------

  /** A character that may occur in a header key. */
  predicate IsToken(c: char) {
    || '0' <= c <= '9' || 'a' <= c <= 'z' || 'A' <= c <= 'Z'
    || c in "!#$%&'*+-.^_`|~"
  }

  predicate AllTokens(s: string) {
    forall k :: 0 <= k < |s| ==> IsToken(s[k])
  }

  function CanonChar(c: char, upper: bool): (r: char)
    ensures (r == '-') == (c == '-')
  {
    if upper && 'a' <= c <= 'z' then c - ('a' - 'A')
    else if !upper && 'A' <= c <= 'Z' then c + ('a' - 'A')
    else c
  }

  /** Upper case at the start and after each hyphen, lower case elsewhere. */
  function CanonFrom(s: string, upper: bool): (r: string)
    ensures |r| == |s|
  {
    if s == "" then "" else [CanonChar(s[0], upper)] + CanonFrom(s[1..], s[0] == '-')
  }

  /** `http.CanonicalHeaderKey`; a key with any other character is left alone. */
  function Canonical(s: string): string {
    if AllTokens(s) then CanonFrom(s, true) else s
  }

  predicate IsCanonical(s: string) {
    Canonical(s) == s
  }

  /** Whether the character after `s` starts a word. */
  predicate StartsWord(s: string, upper: bool) {
    if s == "" then upper else s[|s| - 1] == '-'
  }

  lemma {:induction false} CanonConcat(a: string, b: string, upper: bool)
    ensures CanonFrom(a + b, upper) == CanonFrom(a, upper) + CanonFrom(b, StartsWord(a, upper))
  {
    if a == "" {
      assert a + b == b;
    } else {
      assert (a + b)[1..] == a[1..] + b;
      CanonConcat(a[1..], b, a[0] == '-');
    }
  }

  lemma {:induction false} CanonIdempotent(s: string, upper: bool)
    ensures CanonFrom(CanonFrom(s, upper), upper) == CanonFrom(s, upper)
    ensures AllTokens(s) ==> AllTokens(CanonFrom(s, upper))
  {
    if s != "" {
      CanonIdempotent(s[1..], s[0] == '-');
      var r := CanonFrom(s, upper);
      assert r[1..] == CanonFrom(s[1..], s[0] == '-');
      if AllTokens(s) {
        assert AllTokens(s[1..]) && IsToken(s[0]) && IsToken(r[0]);
      }
    }
  }

  lemma CanonicalIdempotent(s: string)
    ensures IsCanonical(Canonical(s))
  {
    CanonIdempotent(s, true);
  }

  /** Only the last casing counts. */
  lemma {:induction false} CanonAbsorbs(s: string, upper0: bool, upper: bool)
    ensures CanonFrom(CanonFrom(s, upper0), upper) == CanonFrom(s, upper)
  {
    if s != "" {
      CanonAbsorbs(s[1..], s[0] == '-', s[0] == '-');
      assert CanonFrom(s, upper0)[1..] == CanonFrom(s[1..], s[0] == '-');
    }
  }

  lemma {:induction false} CanonKeepsTokens(s: string, upper: bool)
    ensures AllTokens(CanonFrom(s, upper)) <==> AllTokens(s)
  {
    if s != "" {
      var r := CanonFrom(s, upper);
      CanonKeepsTokens(s[1..], s[0] == '-');
      TokensCons(s);
      TokensCons(r);
    }
  }

  lemma TokensCons(s: string)
    requires s != ""
    ensures AllTokens(s) <==> IsToken(s[0]) && AllTokens(s[1..])
  {
    assert s == [s[0]] + s[1..];
    TokensConcat([s[0]], s[1..]);
  }

  lemma TokensConcat(a: string, b: string)
    ensures AllTokens(a + b) <==> AllTokens(a) && AllTokens(b)
  {
    assert forall i :: 0 <= i < |a| ==> (a + b)[i] == a[i];
    assert forall i :: 0 <= i < |b| ==> (a + b)[|a| + i] == b[i];
  }

  // ---------- http.Header ----------

  function SetHeader(h: Header, k: string, v: string): Header {
    h[Canonical(k) := [v]]
  }

  function AddHeader(h: Header, k: string, v: string): Header {
    Append(h, Canonical(k), [v])
  }

  /** The values appended to those of a key in canonical form. */
  function Append(h: Header, c: string, vals: seq<string>): Header {
    if vals == [] then h else h[c := (if c in h then h[c] else []) + vals]
  }

  lemma AppendMore(h: Header, c: string, vals: seq<string>, v: string)
    ensures Append(Append(h, c, vals), c, [v]) == Append(h, c, vals + [v])
  {
    if vals != [] {
      var old_ := if c in h then h[c] else [];
      assert (old_ + vals) + [v] == old_ + (vals + [v]);
      assert h[c := old_ + vals][c := old_ + vals + [v]] == h[c := old_ + (vals + [v])];
    } else {
      assert vals + [v] == [v];
    }
  }

  function GetHeader(h: Header, k: string): string {
    if Canonical(k) in h && h[Canonical(k)] != [] then h[Canonical(k)][0] else ""
  }

  // ---------- Metadata to headers ----------

  /** The names MetaToHttpHeader passes on as they are. */
  const STANDARD: seq<string> := ["Cache-Control", "Content-Type", "Content-Disposition",
                                  "Content-Encoding", "Content-Language", "Content-MD5"]

  /** The names FetchMetaFromHttpHeader reads back as they are. */
  const FETCHED: seq<string> := ["Content-Type", "Content-Encoding", "Content-Disposition",
                                 "Content-Language", "Cache-Control"]

  predicate Usable(meta: Header, k: string) {
    k in meta && meta[k] != [] && meta[k][0] != ""
  }

  /** The header a metadata key becomes. */
  function Target(metaPrefix: string, k: string): string {
    if Canonical(k) in STANDARD then Canonical(k) else Canonical(metaPrefix + Canonical(k))
  }

  /** Each usable key has its header, and each header comes from a usable key with its first value. */
  ghost predicate IsHeaderOf(metaPrefix: string, meta: Header, todo: set<string>, hdr: Header) {
    && (forall k :: Usable(meta, k) && k !in todo ==> Target(metaPrefix, k) in hdr)
    && (forall h :: h in hdr ==>
          exists k :: Usable(meta, k) && k !in todo && Target(metaPrefix, k) == h && hdr[h] == [meta[k][0]])
  }

  /** The keys are visited in any order. */
  method MetaToHttpHeader(metaPrefix: string, meta: Header) returns (hdr: Header)
    ensures IsHeaderOf(metaPrefix, meta, {}, hdr)
  {
    hdr := map[];
    var todo := meta.Keys;
    while todo != {}
      invariant todo <= meta.Keys
      invariant IsHeaderOf(metaPrefix, meta, todo, hdr)
      decreases |todo|
    {
      var k :| k in todo;
      ghost var before, left := hdr, todo;
      todo := todo - {k};
      if meta[k] != [] && meta[k][0] != "" {
        var c := Canonical(k);
        CanonicalIdempotent(k);
        if c in STANDARD {
          hdr := SetHeader(hdr, c, meta[k][0]);
        } else {
          hdr := SetHeader(hdr, metaPrefix + c, meta[k][0]);
        }
        HeaderSet(metaPrefix, meta, left, k, before, hdr);
      } else {
        HeaderSkipped(metaPrefix, meta, left, k, hdr);
      }
    }
  }

  lemma HeaderSet(metaPrefix: string, meta: Header, todo: set<string>, k: string, before: Header, after: Header)
    requires IsHeaderOf(metaPrefix, meta, todo, before) && k in todo && Usable(meta, k)
    requires after == before[Target(metaPrefix, k) := [meta[k][0]]]
    ensures IsHeaderOf(metaPrefix, meta, todo - {k}, after)
  {
    forall h | h in after
      ensures exists x :: Usable(meta, x) && x !in todo - {k} && Target(metaPrefix, x) == h && after[h] == [meta[x][0]]
    {
      if h == Target(metaPrefix, k) {
        assert Usable(meta, k) && k !in todo - {k};
      } else {
        var x :| Usable(meta, x) && x !in todo && Target(metaPrefix, x) == h && before[h] == [meta[x][0]];
        assert x !in todo - {k};
      }
    }
  }

  lemma HeaderSkipped(metaPrefix: string, meta: Header, todo: set<string>, k: string, hdr: Header)
    requires IsHeaderOf(metaPrefix, meta, todo, hdr) && !Usable(meta, k)
    ensures IsHeaderOf(metaPrefix, meta, todo - {k}, hdr)
  {
    forall h | h in hdr
      ensures exists x :: Usable(meta, x) && x !in todo - {k} && Target(metaPrefix, x) == h && hdr[h] == [meta[x][0]]
    {
      var x :| Usable(meta, x) && x !in todo && Target(metaPrefix, x) == h && hdr[h] == [meta[x][0]];
      assert x !in todo - {k};
    }
  }

  // ---------- Headers to metadata ----------

  predicate CanonicalKeys(h: Header) {
    forall k :: k in h ==> IsCanonical(k)
  }

  predicate Prefixed(p: string, h: string) {
    Text.HasPrefix(Canonical(h), Canonical(p))
  }

  /** The key under which a header with the prefix is read. */
  function Stripped(p: string, h: string): string
    requires Prefixed(p, h)
  {
    Canonical(Canonical(h)[|Canonical(p)|..])
  }

  function ValuesOf(headers: Header, h: string): seq<string> {
    if h in headers then headers[h] else []
  }

  /** What the loop body makes of one header. */
  function ReadHeader(p: string, h: string, vals: seq<string>, meta: Header): Header {
    if Prefixed(p, h) then Append(meta, Stripped(p, h), vals) else meta
  }

  /** The headers read in this order. */
  function ReadAll(p: string, headers: Header, order: seq<string>): Header {
    if order == [] then map[]
    else
      var h := order[|order| - 1];
      ReadHeader(p, h, ValuesOf(headers, h), ReadAll(p, headers, order[..|order| - 1]))
  }

  /** The metadata fetched when the headers come up in this order. */
  ghost predicate FetchedIn(p: string, headers: Header, order: seq<string>, meta: Header) {
    OrderOf(order, headers.Keys) && NamesRead(Getter(headers), ReadAll(p, headers, order), (set n | n in FETCHED), meta)
  }

  /** For any prefix and any headers. */
  method FetchMetaFromHttpHeader(metaPrefix: string, headers: Header) returns (meta: Header)
    ensures exists order :: FetchedIn(metaPrefix, headers, order, meta)
  {
    var prefixed := ReadPrefixed(metaPrefix, headers);
    forall n | n in FETCHED ensures IsCanonical(n) {
      FetchedIsCanonical(n);
    }
    meta := ReadNames(headers, prefixed, FETCHED);
    ghost var order :| OrderOf(order, headers.Keys) && prefixed == ReadAll(metaPrefix, headers, order);
    assert FetchedIn(metaPrefix, headers, order, meta);
  }

  /** The loop over the headers, visited in any order. */
  method ReadPrefixed(metaPrefix: string, headers: Header) returns (meta: Header)
    ensures exists order :: OrderOf(order, headers.Keys) && meta == ReadAll(metaPrefix, headers, order)
  {
    var prefix := Canonical(metaPrefix);
    meta := map[];
    var todo := headers.Keys;
    ghost var order: seq<string> := [];
    while todo != {}
      invariant todo <= headers.Keys && OrderOf(order, headers.Keys - todo)
      invariant meta == ReadAll(metaPrefix, headers, order)
      decreases |todo|
    {
      var key :| key in todo;
      var hdr := Canonical(key);
      if Text.HasPrefix(hdr, prefix) {
        meta := AddValues(meta, hdr[|prefix|..], headers[key]);
      }
      OrderSnoc(order, headers.Keys, todo, key);
      assert (order + [key])[..|order|] == order;
      todo, order := todo - {key}, order + [key];
    }
    assert headers.Keys - todo == headers.Keys;
  }

  method AddValues(meta0: Header, key: string, vals: seq<string>) returns (meta: Header)
    ensures meta == Append(meta0, Canonical(key), vals)
  {
    meta := meta0;
    var n := 0;
    while n < |vals|
      invariant 0 <= n <= |vals|
      invariant meta == Append(meta0, Canonical(key), vals[..n])
    {
      AppendMore(meta0, Canonical(key), vals[..n], vals[n]);
      meta := AddHeader(meta, key, vals[n]);
      assert vals[..n + 1] == vals[..n] + [vals[n]];
      n := n + 1;
    }
    assert vals[..n] == vals;
  }

  /** `Get`, as a function of the name. */
  function Getter(headers: Header): string -> string {
    k => GetHeader(headers, k)
  }

  /** What reading some names as they are makes of the prefixed metadata. */
  ghost predicate NamesRead(get: string -> string, prefixed: Header, names: set<string>, meta: Header) {
    && (forall k :: k in meta <==> k in prefixed || (k in names && get(k) != ""))
    && (forall k :: k in meta ==> meta[k] == if k in names && get(k) != "" then [get(k)] else prefixed[k])
  }

  lemma NameRead(get: string -> string, prefixed: Header, names: set<string>, name: string, before: Header)
    requires NamesRead(get, prefixed, names, before)
    ensures NamesRead(get, prefixed, names + {name}, if get(name) != "" then before[name := [get(name)]] else before)
  {
  }

  /** The loop over the standard names. */
  method ReadNames(headers: Header, prefixed: Header, names: seq<string>) returns (meta: Header)
    requires forall n :: n in names ==> IsCanonical(n)
    ensures NamesRead(Getter(headers), prefixed, (set n | n in names), meta)
  {
    meta := prefixed;
    ghost var done: set<string> := {};
    var i := 0;
    while i < |names|
      invariant 0 <= i <= |names|
      invariant done == set n | n in names[..i]
      invariant NamesRead(Getter(headers), prefixed, done, meta)
    {
      var val := GetHeader(headers, names[i]);
      assert names[i] in names;
      NameRead(Getter(headers), prefixed, done, names[i], meta);
      if |val| > 0 {
        meta := SetHeader(meta, names[i], val);
      }
      assert names[..i + 1] == names[..i] + [names[i]];
      done := done + {names[i]};
      i := i + 1;
    }
    assert names[..i] == names;
  }

  /** Character `i` of the canonical form depends on itself and the one before it. */
  lemma {:induction false} CanonAt(s: string, upper: bool, i: int)
    requires 0 <= i < |s|
    ensures CanonFrom(s, upper)[i] == CanonChar(s[i], if i == 0 then upper else s[i - 1] == '-')
  {
    if i > 0 {
      CanonAt(s[1..], s[0] == '-', i - 1);
    }
  }

  predicate WellCasedAt(s: string, i: int)
    requires 0 <= i < |s|
  {
    IsToken(s[i]) && CanonChar(s[i], i == 0 || s[i - 1] == '-') == s[i]
  }

  lemma WellCasedIsCanonical(s: string)
    requires forall i :: 0 <= i < |s| ==> WellCasedAt(s, i)
    ensures IsCanonical(s) && AllTokens(s)
  {
    forall i | 0 <= i < |s| ensures CanonFrom(s, true)[i] == s[i] {
      CanonAt(s, true, i);
      assert WellCasedAt(s, i);
    }
    assert forall i :: 0 <= i < |s| ==> WellCasedAt(s, i) ==> IsToken(s[i]);
    assert CanonFrom(s, true) == s;
  }

  lemma FetchedIsCanonical(name: string)
    requires name in FETCHED
    ensures IsCanonical(name) && AllTokens(name)
  {
    assert forall i :: 0 <= i < |name| ==> WellCasedAt(name, i);
    WellCasedIsCanonical(name);
  }

  /** `META_HEADER_CONTENT_MD5` is not in canonical form, so the switch never meets it. */
  lemma ContentMd5IsNotCanonical()
    ensures !IsCanonical("Content-MD5")
    ensures forall k :: Canonical(k) != "Content-MD5"
  {
    var s := "Content-MD5";
    CanonAt(s, true, 9);
    assert AllTokens(s);
    forall k ensures Canonical(k) != s {
      CanonicalIdempotent(k);
    }
  }

  // ---------- Reading headers that go to different keys ----------

  /** No two headers with the prefix are read under the same key. */
  ghost predicate ReadApart(p: string, headers: Header) {
    forall g, h ::
      g in headers && h in headers && Prefixed(p, g) && Prefixed(p, h) && Stripped(p, g) == Stripped(p, h) ==> g == h
  }

  /** Header `h` is read under the key `k`. */
  predicate ReadAs(p: string, headers: Header, h: string, k: string) {
    h in headers && headers[h] != [] && Prefixed(p, h) && Stripped(p, h) == k
  }

  /** Then each key gets the values of its header, in whatever order they are read. */
  lemma {:induction false} ReadAllIs(p: string, headers: Header, order: seq<string>, h: string, k: string)
    requires ReadApart(p, headers) && ReadAs(p, headers, h, k)
    requires forall x :: x in order ==> x in headers && multiset(order)[x] <= 1
    ensures k in ReadAll(p, headers, order) <==> h in order
    ensures h in order ==> ReadAll(p, headers, order)[k] == headers[h]
  {
    if order != [] {
      var init, last := order[..|order| - 1], order[|order| - 1];
      assert order == init + [last];
      OnceInInit(order);
      ReadAllIs(p, headers, init, h, k);
      ReadLast(p, headers, init, last, h, k);
    }
  }

  lemma ReadSnoc(p: string, headers: Header, order: seq<string>, h: string)
    ensures ReadAll(p, headers, order + [h]) == ReadHeader(p, h, ValuesOf(headers, h), ReadAll(p, headers, order))
  {
    assert (order + [h])[..|order|] == order;
  }

  /** Only its own header changes what a key holds. */
  lemma ReadLast(p: string, headers: Header, init: seq<string>, last: string, h: string, k: string)
    requires ReadApart(p, headers) && ReadAs(p, headers, h, k) && last in headers
    requires k in ReadAll(p, headers, init) ==> h in init
    requires h in init ==> last != h
    ensures var (before, after) := (ReadAll(p, headers, init), ReadAll(p, headers, init + [last]));
      if last == h then k in after && after[k] == headers[h]
      else (k in after <==> k in before) && (k in before ==> after[k] == before[k])
  {
    ReadSnoc(p, headers, init, last);
    assert [] + headers[h] == headers[h];
  }

  lemma OnceInInit(order: seq<string>)
    requires order != [] && forall x :: x in order ==> multiset(order)[x] <= 1
    ensures order[|order| - 1] !in order[..|order| - 1]
    ensures forall x :: x in order[..|order| - 1] ==> x in order && multiset(order[..|order| - 1])[x] <= 1
  {
    var init, last := order[..|order| - 1], order[|order| - 1];
    assert order == init + [last];
    assert multiset(order) == multiset(init) + multiset{last};
    assert last in order && multiset(order)[last] == multiset(init)[last] + 1;
    forall x | x in init ensures x in order && multiset(init)[x] <= 1 && x != last {
      assert x in multiset(init);
    }
  }

  lemma {:induction false} ReadFrom(p: string, headers: Header, order: seq<string>, k: string) returns (h: string)
    requires k in ReadAll(p, headers, order)
    ensures h in order && ReadAs(p, headers, h, k)
  {
    var init, last := order[..|order| - 1], order[|order| - 1];
    assert order == init + [last];
    ReadHere(p, headers, init, last, k);
    if k in ReadAll(p, headers, init) {
      h := ReadFrom(p, headers, init, k);
    } else {
      h := last;
    }
  }

  lemma ReadHere(p: string, headers: Header, init: seq<string>, last: string, k: string)
    requires k in ReadAll(p, headers, init + [last])
    ensures k in ReadAll(p, headers, init) || ReadAs(p, headers, last, k)
  {
    ReadSnoc(p, headers, init, last);
  }

  /** Canonical headers are, whatever the prefix of header characters. */
  lemma CanonicalReadApart(p: string, headers: Header)
    requires AllTokens(p) && CanonicalKeys(headers)
    ensures ReadApart(p, headers)
  {
    CanonKeepsTokens(p, true);
    CanonIdempotent(p, true);
    forall g, h | g in headers && h in headers && Prefixed(p, g) && Prefixed(p, h) && Stripped(p, g) == Stripped(p, h)
      ensures g == h
    {
      RestOfCanonical(Canonical(p), g);
      RestOfCanonical(Canonical(p), h);
    }
  }

  lemma RestOfCanonical(c: string, h: string)
    requires AllTokens(c) && IsCanonical(c) && IsCanonical(h) && Text.HasPrefix(h, c)
    ensures var k := Canonical(h[|c|..]);
      h == c + if AllTokens(k) then CanonFrom(k, StartsWord(c, true)) else k
  {
    var rest := h[|c|..];
    assert h == c + rest;
    TokensConcat(c, rest);
    CanonKeepsTokens(rest, true);
    if AllTokens(rest) {
      CanonConcat(c, rest, true);
      CanonAbsorbs(rest, true, StartsWord(c, true));
      SameAfterPrefix(c, rest, CanonFrom(rest, StartsWord(c, true)));
    }
  }

  /** Whatever the order, each key gets the standard header's value or else the values of the one header read under
      it. */
  lemma FetchedValue(p: string, headers: Header, order: seq<string>, meta: Header, k: string)
    requires ReadApart(p, headers) && FetchedIn(p, headers, order, meta)
    ensures k in meta <==> (k in FETCHED && GetHeader(headers, k) != "") || exists h :: ReadAs(p, headers, h, k)
    ensures k in FETCHED && GetHeader(headers, k) != "" ==> meta[k] == [GetHeader(headers, k)]
    ensures !(k in FETCHED && GetHeader(headers, k) != "") ==>
              forall h :: ReadAs(p, headers, h, k) ==> meta[k] == headers[h]
  {
    forall x | x in order ensures x in headers && multiset(order)[x] <= 1 {
      OrderMember(order, headers.Keys, x);
    }
    if k in ReadAll(p, headers, order) {
      var h := ReadFrom(p, headers, order, k);
    }
    forall h | ReadAs(p, headers, h, k)
      ensures k in ReadAll(p, headers, order) && ReadAll(p, headers, order)[k] == headers[h]
    {
      OrderMember(order, headers.Keys, h);
      ReadAllIs(p, headers, order, h, k);
    }
  }

  // ---------- Round trip ----------

  /** No standard name that is read back starts with the prefix in canonical form; the empty prefix does no harm. */
  predicate NoClash(c: string) {
    c == "" || forall n :: n in FETCHED ==> !Text.HasPrefix(n, c)
  }

  /** The metadata that survives: keys with a first value that is not empty, that value alone. */
  function FirstValues(meta: Header): Header {
    map k | k in meta && Usable(meta, k) :: [meta[k][0]]
  }

  /** A key that a prefix can carry: canonical, and of header characters unless the prefix is canonical. */
  predicate Carries(p: string, k: string) {
    IsCanonical(k) && (AllTokens(k) || IsCanonical(p))
  }

  lemma StandardNames(k: string)
    ensures k in STANDARD <==> k in FETCHED || k == "Content-MD5"
  {
    assert forall i :: 0 <= i < |STANDARD| ==> STANDARD[i] in FETCHED || STANDARD[i] == "Content-MD5";
    assert forall i :: 0 <= i < |FETCHED| ==> FETCHED[i] in STANDARD;
    assert STANDARD[5] == "Content-MD5";
  }

  lemma TargetIs(p: string, k: string)
    requires IsCanonical(k)
    ensures Target(p, k) == if k in FETCHED then k else Canonical(p + k)
    ensures IsCanonical(Target(p, k))
  {
    ContentMd5IsNotCanonical();
    StandardNames(k);
    CanonicalIdempotent(p + k);
  }

  /** The prefix and the key, put together and brought into canonical form, can be taken apart again. */
  lemma StoredForm(p: string, k: string)
    requires Carries(p, k)
    ensures var t := Canonical(p + k); IsCanonical(t) && Prefixed(p, t) && Stripped(p, t) == k
  {
    var (t, c) := (Canonical(p + k), Canonical(p));
    CanonicalIdempotent(p + k);
    TokensConcat(p, k);
    if AllTokens(p + k) {
      CanonConcat(p, k, true);
      var r := CanonFrom(k, StartsWord(p, true));
      CanonAbsorbs(k, StartsWord(p, true), true);
      CanonKeepsTokens(k, StartsWord(p, true));
      SameAfterPrefix(c, r, r);
      assert t == c + r && Canonical(r) == k;
    } else {
      SameAfterPrefix(c, k, k);
      assert t == c + k;
    }
  }

  lemma SameAfterPrefix(p: string, k: string, x: string)
    ensures p + k == p + x ==> k == x
    ensures Text.HasPrefix(p + k, p) && (p + k)[|p|..] == k
  {
    assert (p + k)[|p|..] == k && (p + x)[|p|..] == x;
  }

  /** Where a key is stored tells which key it was. */
  lemma TargetReads(p: string, k: string)
    requires Carries(p, k) && NoClash(Canonical(p))
    ensures var t := Target(p, k);
      && (Prefixed(p, t) ==> Stripped(p, t) == k)
      && (if k in FETCHED then t == k else Prefixed(p, t) && t !in FETCHED)
  {
    TargetIs(p, k);
    if k in FETCHED {
      FetchedIsCanonical(k);
      NothingStripped(p, k);
    } else {
      StoredForm(p, k);
      var t := Target(p, k);
      if t in FETCHED {
        FetchedIsCanonical(t);
        NothingStripped(p, t);
      }
    }
  }

  lemma NothingStripped(p: string, h: string)
    requires IsCanonical(h)
    ensures Canonical(p) == "" ==> Prefixed(p, h) && Stripped(p, h) == h
  {
    assert h[0..] == h;
  }

  lemma TargetInjective(p: string, k: string, x: string)
    requires Carries(p, k) && Carries(p, x) && NoClash(Canonical(p))
    ensures Target(p, k) == Target(p, x) ==> k == x
  {
    TargetReads(p, k);
    TargetReads(p, x);
  }

  /** The key that header `h` was stored for. */
  lemma Origin(p: string, meta: Header, hdr: Header, h: string) returns (k: string)
    requires IsHeaderOf(p, meta, {}, hdr) && h in hdr
    ensures Usable(meta, k) && Target(p, k) == h && hdr[h] == [meta[k][0]]
  {
    k :| Usable(meta, k) && k !in {} && Target(p, k) == h && hdr[h] == [meta[k][0]];
  }

  ghost predicate AllCarried(p: string, meta: Header) {
    forall k :: k in meta ==> Carries(p, k)
  }

  lemma StoredReadApart(p: string, meta: Header, hdr: Header)
    requires NoClash(Canonical(p)) && AllCarried(p, meta) && IsHeaderOf(p, meta, {}, hdr)
    ensures ReadApart(p, hdr)
  {
    forall g, h | g in hdr && h in hdr && Prefixed(p, g) && Prefixed(p, h) && Stripped(p, g) == Stripped(p, h)
      ensures g == h
    {
      var x := Origin(p, meta, hdr, g);
      var y := Origin(p, meta, hdr, h);
      TargetReads(p, x);
      TargetReads(p, y);
    }
  }

  /** The header stored for a key holds its first value. */
  lemma StoredValue(p: string, meta: Header, hdr: Header, k: string)
    requires NoClash(Canonical(p)) && AllCarried(p, meta) && IsHeaderOf(p, meta, {}, hdr) && Usable(meta, k)
    ensures Target(p, k) in hdr && hdr[Target(p, k)] == [meta[k][0]]
  {
    var x := Origin(p, meta, hdr, Target(p, k));
    TargetInjective(p, k, x);
  }

  /** What is read under the prefix is a key's first value. */
  lemma PrefixedValue(p: string, meta: Header, hdr: Header, order: seq<string>, k: string)
    requires NoClash(Canonical(p)) && AllCarried(p, meta) && IsHeaderOf(p, meta, {}, hdr) && OrderOf(order, hdr.Keys)
    ensures k in ReadAll(p, hdr, order) ==> Usable(meta, k) && ReadAll(p, hdr, order)[k] == [meta[k][0]]
    ensures Usable(meta, k) && k !in FETCHED ==> k in ReadAll(p, hdr, order)
  {
    StoredReadApart(p, meta, hdr);
    forall x | x in order ensures x in hdr && multiset(order)[x] <= 1 {
      OrderMember(order, hdr.Keys, x);
    }
    if k in ReadAll(p, hdr, order) {
      var h := ReadFrom(p, hdr, order, k);
      var x := Origin(p, meta, hdr, h);
      TargetReads(p, x);
      ReadAllIs(p, hdr, order, h, k);
    }
    if Usable(meta, k) && k !in FETCHED {
      StoredValue(p, meta, hdr, k);
      TargetReads(p, k);
      OrderMember(order, hdr.Keys, Target(p, k));
      ReadAllIs(p, hdr, order, Target(p, k), k);
    }
  }

  /** What a standard name holds is that key's first value. */
  lemma NamedValue(p: string, meta: Header, hdr: Header, k: string)
    requires NoClash(Canonical(p)) && AllCarried(p, meta) && IsHeaderOf(p, meta, {}, hdr) && k in FETCHED
    ensures GetHeader(hdr, k) == if Usable(meta, k) then meta[k][0] else ""
  {
    FetchedIsCanonical(k);
    if Usable(meta, k) {
      StoredValue(p, meta, hdr, k);
      TargetReads(p, k);
    } else if k in hdr {
      var x := Origin(p, meta, hdr, k);
      TargetReads(p, x);
      assert false;
    }
  }

  /** Fetching undoes storing: whatever orders the loops take, every key comes back with its
      first value, and nothing else does. Content-Md5 is no exception. */
  lemma FetchUndoesStore(p: string, meta: Header, hdr: Header, order: seq<string>, back: Header)
    requires NoClash(Canonical(p)) && AllCarried(p, meta)
    requires IsHeaderOf(p, meta, {}, hdr) && FetchedIn(p, hdr, order, back)
    ensures back == FirstValues(meta)
  {
    forall k ensures (k in back <==> Usable(meta, k)) && (k in back ==> back[k] == [meta[k][0]]) {
      KeyComesBack(p, meta, hdr, order, back, k);
    }
  }

  lemma KeyComesBack(p: string, meta: Header, hdr: Header, order: seq<string>, back: Header, k: string)
    requires NoClash(Canonical(p)) && AllCarried(p, meta)
    requires IsHeaderOf(p, meta, {}, hdr) && FetchedIn(p, hdr, order, back)
    ensures (k in back <==> Usable(meta, k)) && (k in back ==> back[k] == [meta[k][0]])
  {
    PrefixedValue(p, meta, hdr, order, k);
    if k in FETCHED {
      NamedValue(p, meta, hdr, k);
    }
  }

  // ---------- Exactly which prefixes work ----------

  /** Each standard name that is read back has one hyphen, after `Content` or `Cache`. */
  lemma HyphenIn(name: string, i: int)
    requires name in FETCHED && 0 <= i < |name|
    ensures name[i] == '-' <==> i == if name == "Cache-Control" then 5 else 7
    ensures name == "Cache-Control" ==> |name| == 13
    ensures name != "Cache-Control" ==> |name| in {12, 16, 19}
  {
  }

  /** The metadata comes back with its first values, whatever orders the loops take. */
  ghost predicate ComesBack(p: string, meta: Header) {
    forall hdr: Header, order: seq<string>, back: Header ::
      IsHeaderOf(p, meta, {}, hdr) && FetchedIn(p, hdr, order, back) ==> back == FirstValues(meta)
  }

  /** All metadata whose keys are canonical and of header characters does. */
  ghost predicate TokenKeysRoundTrip(p: string) {
    forall meta: Header :: CanonicalKeys(meta) && (forall k :: k in meta ==> AllTokens(k)) ==> ComesBack(p, meta)
  }

  /** All metadata whose keys are canonical does. */
  ghost predicate AllKeysRoundTrip(p: string) {
    forall meta: Header :: CanonicalKeys(meta) ==> ComesBack(p, meta)
  }

  lemma DoesNotComeBack(p: string, meta: Header, hdr: Header, order: seq<string>, back: Header)
    requires IsHeaderOf(p, meta, {}, hdr) && FetchedIn(p, hdr, order, back) && back != FirstValues(meta)
    ensures !ComesBack(p, meta)
  {
  }

  lemma CarriedComesBack(p: string, meta: Header)
    requires NoClash(Canonical(p)) && AllCarried(p, meta)
    ensures ComesBack(p, meta)
  {
    forall hdr: Header, order: seq<string>, back: Header
      | IsHeaderOf(p, meta, {}, hdr) && FetchedIn(p, hdr, order, back)
      ensures back == FirstValues(meta)
    {
      FetchUndoesStore(p, meta, hdr, order, back);
    }
  }

  /** For any prefix: metadata with keys of header characters makes the round trip exactly when no
      standard name that is read back starts with the canonical form of the prefix, or that is empty. */
  lemma TokenKeysRoundTripIff(p: string)
    ensures TokenKeysRoundTrip(p) <==> NoClash(Canonical(p))
  {
    if NoClash(Canonical(p)) {
      forall meta: Header | CanonicalKeys(meta) && forall k :: k in meta ==> AllTokens(k) ensures ComesBack(p, meta) {
        CarriedComesBack(p, meta);
      }
    } else {
      var n :| n in FETCHED && Text.HasPrefix(n, Canonical(p));
      ClashBreaks(p, n);
    }
  }

  /** All metadata with canonical keys does exactly when, moreover, the prefix is canonical. */
  lemma AllKeysRoundTripIff(p: string)
    ensures AllKeysRoundTrip(p) <==> NoClash(Canonical(p)) && IsCanonical(p)
  {
    if AllKeysRoundTrip(p) {
      TokenKeysRoundTripIff(p);
      if !IsCanonical(p) {
        NotCanonicalBreaks(p);
      }
    }
    if NoClash(Canonical(p)) && IsCanonical(p) {
      forall meta: Header | CanonicalKeys(meta) ensures ComesBack(p, meta) {
        CarriedComesBack(p, meta);
      }
    }
  }

  /** Under a clashing prefix the rest of the standard name, stored as metadata, comes back
      twice: as itself and as the standard name. */
  lemma ClashBreaks(p: string, n: string)
    requires n in FETCHED && Canonical(p) != "" && Text.HasPrefix(n, Canonical(p))
    ensures !TokenKeysRoundTrip(p)
  {
    var rest := n[|Canonical(p)|..];
    assert n == Canonical(p) + rest;
    RestBreaks(p, n, rest);
  }

  lemma RestBreaks(p: string, n: string, rest: string)
    requires n in FETCHED && Canonical(p) != "" && n == Canonical(p) + rest
    ensures !TokenKeysRoundTrip(p)
  {
    var key := Canonical(rest);
    RestIsNoName(p, n, rest);
    RestMeetsName(p, n, rest);
    ClashCase(p, n, key);
    OneKey(key);
    OneBreaks(p, map[key := ["x"]]);
  }

  lemma OneBreaks(p: string, meta: Header)
    requires CanonicalKeys(meta) && (forall k :: k in meta ==> AllTokens(k)) && !ComesBack(p, meta)
    ensures !TokenKeysRoundTrip(p)
  {
  }

  lemma ClashCase(p: string, n: string, key: string)
    requires n in FETCHED && IsCanonical(n) && Prefixed(p, n) && Stripped(p, n) == key
    requires IsCanonical(key) && key !in FETCHED && Canonical(p + key) == n && key != n
    ensures !ComesBack(p, map[key := ["x"]])
  {
    OneStored(p, key, n);
    OneRead(p, n, key);
    OneExtra(key, n);
    DoesNotComeBack(p, map[key := ["x"]], map[n := ["x"]], [n], map[key := ["x"], n := ["x"]]);
  }

  lemma OneExtra(k: string, n: string)
    requires k != n
    ensures map[k := ["x"], n := ["x"]] != FirstValues(map[k := ["x"]])
  {
    var back: Header := map[k := ["x"], n := ["x"]];
    assert n in back && n !in FirstValues(map[k := ["x"]]);
  }

  lemma OneKey(k: string)
    requires IsCanonical(k) && AllTokens(k)
    ensures CanonicalKeys(map[k := ["x"]]) && forall x :: x in map[k := ["x"]] ==> AllTokens(x)
  {
  }

  lemma RestIsNoName(p: string, n: string, rest: string)
    requires n in FETCHED && Canonical(p) != "" && n == Canonical(p) + rest
    ensures IsCanonical(n) && AllTokens(p) && AllTokens(rest)
    ensures IsCanonical(Canonical(rest)) && AllTokens(Canonical(rest)) && Canonical(rest) !in FETCHED && |rest| < |n|
  {
    FetchedIsCanonical(n);
    TokensConcat(Canonical(p), rest);
    CanonKeepsTokens(p, true);
    CanonKeepsTokens(rest, true);
    CanonicalIdempotent(rest);
    var m := Canonical(rest);
    if m in FETCHED {
      var i := if m == "Cache-Control" then 5 else 7;
      HyphenIn(m, 0);
      HyphenIn(m, i);
      CanonAt(rest, true, i);
      assert rest[i] == '-' && n[|Canonical(p)| + i] == '-';
      HyphenIn(n, |Canonical(p)| + i);
    }
  }

  lemma RestMeetsName(p: string, n: string, rest: string)
    requires IsCanonical(n) && AllTokens(p) && AllTokens(rest) && n == Canonical(p) + rest
    ensures Canonical(p + Canonical(rest)) == n && Prefixed(p, n) && Stripped(p, n) == Canonical(rest)
  {
    var c := Canonical(p);
    var b := StartsWord(p, true);
    CanonKeepsTokens(p, true);
    CanonKeepsTokens(rest, true);
    TokensConcat(c, rest);
    TokensConcat(p, Canonical(rest));
    CanonConcat(p, Canonical(rest), true);
    CanonAbsorbs(rest, true, b);
    CanonConcat(c, rest, true);
    CanonIdempotent(p, true);
    SameStart(p);
    SameAfterPrefix(c, rest, rest);
  }

  lemma SameStart(p: string)
    ensures StartsWord(CanonFrom(p, true), true) == StartsWord(p, true)
  {
    if p != "" {
      CanonAt(p, true, |p| - 1);
    }
  }

  lemma OneStored(p: string, k: string, h: string)
    requires IsCanonical(k) && k !in FETCHED && Canonical(p + k) == h
    ensures IsHeaderOf(p, map[k := ["x"]], {}, map[h := ["x"]])
  {
    TargetIs(p, k);
    assert Usable(map[k := ["x"]], k);
  }

  lemma OneRead(p: string, n: string, key: string)
    requires n in FETCHED && IsCanonical(n) && Prefixed(p, n) && Stripped(p, n) == key
    ensures FetchedIn(p, map[n := ["x"]], [n], map[key := ["x"], n := ["x"]])
  {
    OnlyHeader(p, n);
    FirstValue(key);
    OnlyName(n);
    NameAdded(Getter(map[n := ["x"]]), key, n);
  }

  lemma FirstValue(k: string)
    ensures Append(map[], k, ["x"]) == map[k := ["x"]]
  {
    assert [] + ["x"] == ["x"];
  }

  lemma NameAdded(get: string -> string, key: string, n: string)
    requires n in FETCHED && forall k :: k in FETCHED ==> get(k) == if k == n then "x" else ""
    ensures NamesRead(get, map[key := ["x"]], (set x | x in FETCHED), map[key := ["x"], n := ["x"]])
  {
  }

  lemma OnlyHeader(p: string, h: string)
    ensures OrderOf([h], map[h := ["x"]].Keys)
    ensures ReadAll(p, map[h := ["x"]], [h]) == ReadHeader(p, h, ["x"], map[])
  {
    assert map[h := ["x"]].Keys == {h} && [] + [h] == [h];
    ReadSnoc(p, map[h := ["x"]], [], h);
  }

  /** Of the standard names only this one is read. */
  lemma OnlyName(h: string)
    requires IsCanonical(h)
    ensures forall k :: k in FETCHED ==> Getter(map[h := ["x"]])(k) == if k == h then "x" else ""
  {
    forall k | k in FETCHED ensures GetHeader(map[h := ["x"]], k) == if k == h then "x" else "" {
      FetchedIsCanonical(k);
    }
  }

  /** A key with other than header characters keeps what it is joined to as it is, so that a prefix that is
      not canonical is not found again. */
  lemma NotCanonicalBreaks(p: string)
    requires !IsCanonical(p)
    ensures !AllKeysRoundTrip(p)
  {
    var meta, hdr: Header := map["my key" := ["x"]], map[p + "my key" := ["x"]];
    SpacedKey(p);
    OneStored(p, "my key", p + "my key");
    NothingRead(p, p + "my key");
    assert "my key" in FirstValues(meta);
    DoesNotComeBack(p, meta, hdr, [p + "my key"], map[]);
    assert CanonicalKeys(meta);
  }

  lemma SpacedKey(p: string)
    requires !IsCanonical(p)
    ensures IsCanonical("my key") && "my key" !in FETCHED
    ensures Canonical(p + "my key") == p + "my key" && !Prefixed(p, p + "my key") && p + "my key" !in FETCHED
  {
    assert !IsToken("my key"[2]);
    TokensConcat(p, "my key");
    assert (p + "my key")[..|p|] == p;
    if p + "my key" in FETCHED {
      FetchedIsCanonical(p + "my key");
    }
    if "my key" in FETCHED {
      FetchedIsCanonical("my key");
    }
  }

  lemma NothingRead(p: string, h: string)
    requires IsCanonical(h) && !Prefixed(p, h) && h !in FETCHED
    ensures FetchedIn(p, map[h := ["x"]], [h], map[])
  {
    OnlyHeader(p, h);
    OnlyName(h);
  }

  // ---------- The usual prefixes ----------

  /** Of the prefixes up to a hyphen, the ones that clash are `Content-` and `Cache-`, in any case. */
  lemma ClashIff(p: string)
    requires Text.HasSuffix(p, "-")
    ensures NoClash(Canonical(p)) <==> Canonical(p) != "Content-" && Canonical(p) != "Cache-"
  {
    var c := Canonical(p);
    if AllTokens(p) {
      CanonAt(p, true, |p| - 1);
    }
    assert p[|p| - 1] == '-' && c != "" && c[|c| - 1] == '-';
    forall n | n in FETCHED && Text.HasPrefix(n, c) ensures c == "Content-" || c == "Cache-" {
      ClashesAtHyphen(c, n);
    }
    TheseClash();
  }

  lemma TheseClash()
    ensures !NoClash("Content-") && !NoClash("Cache-")
  {
    var n, m := "Content-Type", "Cache-Control";
    assert FETCHED[0] == n && FETCHED[4] == m;
    assert n[..8] == "Content-" && m[..6] == "Cache-";
    assert Text.HasPrefix(n, "Content-") && Text.HasPrefix(m, "Cache-");
  }

  lemma ClashesAtHyphen(c: string, n: string)
    requires n in FETCHED && Text.HasPrefix(n, c) && c != "" && c[|c| - 1] == '-'
    ensures c == "Content-" || c == "Cache-"
  {
    HyphenIn(n, |c| - 1);
    assert c == n[..|c|];
    FirstWord(n);
  }

  lemma FirstWord(n: string)
    requires n in FETCHED
    ensures if n == "Cache-Control" then |n| >= 6 && n[..6] == "Cache-" else |n| >= 8 && n[..8] == "Content-"
  {
  }

  /** The prefix of Aliyun's object storage carries every key of header characters, but not every key. */
  lemma OssPrefix()
    ensures TokenKeysRoundTrip("x-oss-meta-") && !AllKeysRoundTrip("x-oss-meta-")
  {
    var p := "x-oss-meta-";
    TokenKeysRoundTripIff(p);
    AllKeysRoundTripIff(p);
    OssInCapitals();
    assert p[10..] == "-";
    ClashIff(p);
  }

  lemma OssInCapitals()
    ensures var c := Canonical("x-oss-meta-"); c != "x-oss-meta-" && c != "Content-" && c != "Cache-"
  {
    var p := "x-oss-meta-";
    assert AllTokens(p);
    CanonAt(p, true, 0);
    assert Canonical(p)[0] == 'X';
  }

  // ---------- Names and characters, one by one ----------

  predicate OneOfFive(n: string) {
    n == "Cache-Control" || n == "Content-Type" || n == "Content-Disposition" || n == "Content-Encoding"
    || n == "Content-Language"
  }

  lemma FiveNames(n: string)
    ensures n in FETCHED <==> OneOfFive(n)
  {
    assert FETCHED[0] == "Content-Type" && FETCHED[1] == "Content-Encoding" && FETCHED[2] == "Content-Disposition"
        && FETCHED[3] == "Content-Language" && FETCHED[4] == "Cache-Control";
  }

  /** The five names are passed on as they are, under any prefix; any other canonical key is put behind the prefix,
      and the whole brought into canonical form. */
  lemma NamesPassedOn(p: string, k: string)
    requires OneOfFive(k) || IsCanonical(k)
    ensures Target(p, k) == if OneOfFive(k) then k else Canonical(p + k)
  {
    FiveNames(k);
    if OneOfFive(k) {
      FetchedIsCanonical(k);
    }
    TargetIs(p, k);
  }

  /** Each of the five names is fetched with the first value of its header, if that is not empty. */
  lemma NamesFetched(p: string, headers: Header, order: seq<string>, meta: Header, n: string)
    requires FetchedIn(p, headers, order, meta) && OneOfFive(n)
    requires n in headers && headers[n] != [] && headers[n][0] != ""
    ensures n in meta && meta[n] == [headers[n][0]]
  {
    FiveNames(n);
    FetchedIsCanonical(n);
    GetCanonical(headers, n);
  }

  lemma GetCanonical(headers: Header, n: string)
    requires IsCanonical(n) && n in headers && headers[n] != []
    ensures GetHeader(headers, n) == headers[n][0]
  {
  }

  /** A header character is a printing ASCII character, and not a delimiter (section 3.2.6 of RFC 7230). */
  lemma TokensAre(c: char)
    ensures IsToken(c) <==>
      33 as char <= c <= 126 as char
      && c !in ['"', '(', ')', ',', '/', ':', ';', '<', '=', '>', '?', '@', '[', '\\', ']', '{', '}']
  {
  }

  /** Of a key of header characters: letters at its start and behind a hyphen become upper case, other letters lower
      case, and everything else stays. */
  lemma CanonicalAt(s: string, i: int)
    requires AllTokens(s) && 0 <= i < |s|
    ensures |Canonical(s)| == |s|
    ensures var (c, r) := (s[i], Canonical(s)[i]);
      if 'a' <= c <= 'z' then r == if i == 0 || s[i - 1] == '-' then c - 32 as char else c
      else if 'A' <= c <= 'Z' then r == if i == 0 || s[i - 1] == '-' then c else c + 32 as char
      else r == c
  {
    CanonAt(s, true, i);
  }
}
