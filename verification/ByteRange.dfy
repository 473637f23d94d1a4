/** Byte ranges and their header form (`SGetObjectRange`, `String` and `ParseRange` in
    pkg/cloudprovider/objectstore.go; byte ranges are section 2.1 of RFC 7233). */
module ByteRange {
  const MAX_INT64: int := 0x7FFF_FFFF_FFFF_FFFF
  const MIN_INT64: int := -0x8000_0000_0000_0000

  datatype SGetObjectRange = SGetObjectRange(Start: int, End: int) {
    function SizeBytes(): int { End - Start + 1 }

    /** `String`: the header value, empty for the whole object. */
    function String(): string {
      if Start > 0 && End > 0 then "bytes=" + Decimal(Start) + "-" + Decimal(End)
      else if Start > 0 && End <= 0 then "bytes=" + Decimal(Start) + "-"
      else if Start <= 0 && End > 0 then "bytes=0-" + Decimal(End)
      else ""
    }
  }

  // ---------- Decimal numbers ----------

  function Digit(d: int): char
    requires 0 <= d < 10
  {
    '0' + (d as char)
  }

  predicate IsDigit(c: char) { '0' <= c <= '9' }

  /** `%d` of a number that is not negative. */
  function Decimal(n: int): (s: string)
    requires n >= 0
    ensures s != "" && forall k :: 0 <= k < |s| ==> IsDigit(s[k])
  {
    if n < 10 then [Digit(n)] else Decimal(n / 10) + [Digit(n % 10)]
  }

  /** The number a string of digits denotes. */
  function ValueOf(s: string): (n: int)
    requires forall k :: 0 <= k < |s| ==> IsDigit(s[k])
    ensures n >= 0
  {
    if s == "" then 0
    else
      assert IsDigit(s[|s| - 1]);
      ValueOf(s[..|s| - 1]) * 10 + (s[|s| - 1] as int - '0' as int)
  }

  /** `strconv.ParseInt(s, 10, 64)` with its error ignored: 0 for no digits, the
      largest value for too many. */
  function ParseInt(s: string): int
    requires forall k :: 0 <= k < |s| ==> IsDigit(s[k])
  {
    if ValueOf(s) > MAX_INT64 then MAX_INT64 else ValueOf(s)
  }

  lemma {:induction false} DecimalRoundTrip(n: int)
    requires n >= 0
    ensures ValueOf(Decimal(n)) == n
  {
    if n >= 10 {
      DecimalRoundTrip(n / 10);
      assert Decimal(n)[..|Decimal(n)| - 1] == Decimal(n / 10);
    }
  }

  // ---------- The expression `(bytes=)?(\d*)-(\d*)` ----------

  /** The digits of `s` from `p` on, as far as they go. */
  function DigitsFrom(s: string, p: int): (d: string)
    requires 0 <= p <= |s|
    ensures |d| <= |s| - p && d == s[p..p + |d|]
    ensures forall k :: 0 <= k < |d| ==> IsDigit(d[k])
    ensures p + |d| < |s| ==> !IsDigit(s[p + |d|])
    decreases |s| - p
  {
    if p < |s| && IsDigit(s[p]) then [s[p]] + DigitsFrom(s, p + 1) else ""
  }

  datatype Match = NoMatch | Match(first: string, second: string)

  /** `(\d*)-(\d*)` at position `p`. */
  function MatchNumbers(s: string, p: int): (m: Match)
    requires 0 <= p <= |s|
    ensures m.Match? ==> (forall k :: 0 <= k < |m.first| ==> IsDigit(m.first[k]))
    ensures m.Match? ==> (forall k :: 0 <= k < |m.second| ==> IsDigit(m.second[k]))
  {
    var a := DigitsFrom(s, p);
    var q := p + |a|;
    if q < |s| && s[q] == '-' then Match(a, DigitsFrom(s, q + 1)) else NoMatch
  }

  const PREFIX := "bytes="

  /** The whole expression at position `p`, the optional prefix taken when it can be. */
  function MatchAt(s: string, p: int): (m: Match)
    requires 0 <= p <= |s|
    ensures m.Match? ==> (forall k :: 0 <= k < |m.first| ==> IsDigit(m.first[k]))
    ensures m.Match? ==> (forall k :: 0 <= k < |m.second| ==> IsDigit(m.second[k]))
  {
    if p + |PREFIX| <= |s| && s[p..p + |PREFIX|] == PREFIX && MatchNumbers(s, p + |PREFIX|).Match?
    then MatchNumbers(s, p + |PREFIX|)
    else MatchNumbers(s, p)
  }

  /** The leftmost match at or after `p`. */
  function FindFrom(s: string, p: int): (m: Match)
    requires 0 <= p <= |s|
    ensures m.Match? ==> (forall k :: 0 <= k < |m.first| ==> IsDigit(m.first[k]))
    ensures m.Match? ==> (forall k :: 0 <= k < |m.second| ==> IsDigit(m.second[k]))
    decreases |s| - p
  {
    if MatchAt(s, p).Match? || p == |s| then MatchAt(s, p) else FindFrom(s, p + 1)
  }

  function ParseRange(rangeStr: string): SGetObjectRange {
    match FindFrom(rangeStr, 0)
    case NoMatch => SGetObjectRange(0, 0)
    case Match(a, b) => SGetObjectRange(ParseInt(a), ParseInt(b))
  }

  // ---------- Round trip ----------

  function Clamp(n: int): int { if n < 0 then 0 else n }

  /** Digits up to a character that is not one are read as they are. */
  lemma {:induction false} DigitsFromRun(s: string, p: int, d: string)
    requires 0 <= p && p + |d| <= |s| && s[p..p + |d|] == d
    requires forall k :: 0 <= k < |d| ==> IsDigit(d[k])
    requires p + |d| == |s| || !IsDigit(s[p + |d|])
    ensures DigitsFrom(s, p) == d
    decreases |d|
  {
    if d != "" {
      assert s[p] == d[0];
      assert s[p + 1..p + 1 + |d[1..]|] == d[1..];
      DigitsFromRun(s, p + 1, d[1..]);
    }
  }

  lemma Layout(p: string, a: string, b: string, s: string)
    requires s == p + a + "-" + b
    ensures |s| == |p| + |a| + 1 + |b|
    ensures s[0..|p|] == p && s[|p|..|p| + |a|] == a && s[|p| + |a|] == '-'
    ensures s[|p| + |a| + 1..|p| + |a| + 1 + |b|] == b
  {
    assert s == (p + a) + ("-" + b);
  }

  lemma NumbersMatch(s: string, p: int, a: string, b: string)
    requires forall k :: 0 <= k < |a| ==> IsDigit(a[k])
    requires forall k :: 0 <= k < |b| ==> IsDigit(b[k])
    requires 0 <= p && |s| == p + |a| + 1 + |b|
    requires s[p..p + |a|] == a && s[p + |a|] == '-' && s[p + |a| + 1..p + |a| + 1 + |b|] == b
    ensures MatchNumbers(s, p) == Match(a, b)
  {
    DigitsFromRun(s, p, a);
    DigitsFromRun(s, p + |a| + 1, b);
    NumbersAre(s, p, a, b);
  }

  lemma NumbersAre(s: string, p: int, a: string, b: string)
    requires 0 <= p && p + |a| < |s| && s[p + |a|] == '-'
    requires DigitsFrom(s, p) == a && DigitsFrom(s, p + |a| + 1) == b
    ensures MatchNumbers(s, p) == Match(a, b)
  {
  }

  /** `bytes=a-b` is read as the digits `a` and `b`. */
  lemma HeaderMatches(a: string, b: string)
    requires forall k :: 0 <= k < |a| ==> IsDigit(a[k])
    requires forall k :: 0 <= k < |b| ==> IsDigit(b[k])
    ensures FindFrom(PREFIX + a + "-" + b, 0) == Match(a, b)
  {
    var s := PREFIX + a + "-" + b;
    Layout(PREFIX, a, b, s);
    NumbersMatch(s, |PREFIX|, a, b);
    assert MatchAt(s, 0) == Match(a, b);
  }

  lemma ParseDecimal(n: int)
    requires 0 <= n <= MAX_INT64
    ensures ParseInt(Decimal(n)) == n
  {
    DecimalRoundTrip(n);
  }

  /** Parsing what `String` prints gives the range back, its negative ends clamped to
      zero, for every pair of 64-bit ends. */
  lemma ParseRangeInvertsString(r: SGetObjectRange)
    requires MIN_INT64 <= r.Start <= MAX_INT64 && MIN_INT64 <= r.End <= MAX_INT64
    ensures ParseRange(r.String()) == SGetObjectRange(Clamp(r.Start), Clamp(r.End))
  {
    var a := if r.Start > 0 then Decimal(r.Start) else "0";
    var b := if r.End > 0 then Decimal(r.End) else "";
    if r.Start > 0 || r.End > 0 {
      assert r.String() == PREFIX + a + "-" + b;
      HeaderMatches(a, b);
      assert a == Decimal(Clamp(r.Start));
      ParseDecimal(Clamp(r.Start));
      ParseDecimal(Clamp(r.End));
    } else {
      assert FindFrom("", 0) == NoMatch;
    }
  }

  /** Whatever was parsed, printing it and parsing again changes nothing. */
  lemma ParseRangeIsStable(s: string)
    ensures ParseRange(ParseRange(s).String()) == ParseRange(s)
  {
    ParseRangeInvertsString(ParseRange(s));
  }

  /** A header is printed exactly for the ranges that are not the whole object, and
      distinct ranges without negative ends print distinct headers. */
  lemma StringIsInjective(r: SGetObjectRange, q: SGetObjectRange)
    requires 0 <= r.Start <= MAX_INT64 && 0 <= r.End <= MAX_INT64
    requires 0 <= q.Start <= MAX_INT64 && 0 <= q.End <= MAX_INT64
    ensures r.String() == q.String() <==> r == q
  {
    ParseRangeInvertsString(r);
    ParseRangeInvertsString(q);
  }

  /** How ranges read in a header: from, to, and both. */
  lemma HeaderTexts()
    ensures SGetObjectRange(0, 0).String() == "" && SGetObjectRange(0, 9).String() == "bytes=0-9"
    ensures SGetObjectRange(5, 9).String() == "bytes=5-9" && SGetObjectRange(5, 0).String() == "bytes=5-"
    ensures SGetObjectRange(0, 499).String() == "bytes=0-499" && SGetObjectRange(0, 499).SizeBytes() == 500
  {
    assert Decimal(499) == Decimal(49) + ['9'] && Decimal(49) == Decimal(4) + ['9'] && Decimal(4) == ['4'];
    assert Decimal(9) == ['9'] && Decimal(5) == ['5'];
  }
}
