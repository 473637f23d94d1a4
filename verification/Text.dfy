/** The string operations of Go's `strings` package that the modelled code relies on.
    A string is a sequence of characters compared by code, as Go compares bytes. */
module Text {
  import Sorting

  /** `a < b` in Go: the lexicographic order. */
  predicate Less(a: string, b: string) {
    |b| > 0 && (|a| == 0 || a[0] < b[0] || (a[0] == b[0] && Less(a[1..], b[1..])))
  }

  /** The first place where the texts differ, if that is before either ends. */
  ghost predicate DiffersFirst(a: string, b: string, k: int) {
    0 <= k < |a| && k < |b| && a[..k] == b[..k] && a[k] != b[k]
  }

  /** A text comes before another exactly when it begins the other or has the lesser character where they
      first differ. */
  lemma {:induction false} LessIff(a: string, b: string)
    ensures Less(a, b) <==> (a <= b && a != b) || exists k :: DiffersFirst(a, b, k) && a[k] < b[k]
  {
    if a != "" && b != "" {
      if a[0] != b[0] {
        assert DiffersFirst(a, b, 0);
        forall k | DiffersFirst(a, b, k) ensures k == 0 {
          SameHead(a, b, k);
        }
      } else {
        LessIff(a[1..], b[1..]);
        assert a == [a[0]] + a[1..] && b == [b[0]] + b[1..];
        forall k ensures DiffersFirst(a, b, k) <==> DiffersFirst(a[1..], b[1..], k - 1) {
          DiffersLater(a, b, k);
        }
        if k :| DiffersFirst(a, b, k) && a[k] < b[k] {
          assert DiffersFirst(a[1..], b[1..], k - 1);
        }
        if k :| DiffersFirst(a[1..], b[1..], k) && a[1..][k] < b[1..][k] {
          assert DiffersFirst(a, b, k + 1);
        }
      }
    }
  }

  lemma SameHead(a: string, b: string, k: int)
    requires DiffersFirst(a, b, k)
    ensures k > 0 ==> a[0] == b[0]
  {
    if k > 0 {
      assert a[0] == a[..k][0] && b[0] == b[..k][0];
    }
  }

  lemma DiffersLater(a: string, b: string, k: int)
    requires a != "" && b != "" && a[0] == b[0]
    ensures DiffersFirst(a, b, k) <==> DiffersFirst(a[1..], b[1..], k - 1)
  {
    if 0 < k <= |a| && k <= |b| {
      assert a[..k] == [a[0]] + a[1..][..k - 1];
      assert b[..k] == [b[0]] + b[1..][..k - 1];
      assert a[1..][..k - 1] == a[..k][1..] && b[1..][..k - 1] == b[..k][1..];
    }
  }

  lemma {:induction false} LessIrreflexive(a: string)
    ensures !Less(a, a)
  {
    if a != [] {
      LessIrreflexive(a[1..]);
    }
  }

  lemma {:induction false} LessTransitive(a: string, b: string, c: string)
    requires Less(a, b) && Less(b, c)
    ensures Less(a, c)
  {
    if a != [] && a[0] == b[0] && b[0] == c[0] {
      LessTransitive(a[1..], b[1..], c[1..]);
    }
  }

  lemma {:induction false} LessTotal(a: string, b: string)
    ensures Less(a, b) || a == b || Less(b, a)
  {
    if a != [] && b != [] && a[0] == b[0] {
      LessTotal(a[1..], b[1..]);
      assert a == [a[0]] + a[1..] && b == [b[0]] + b[1..];
    }
  }

  /** The order of strings is a strict total order. */
  lemma LessIsTotalOrder()
    ensures Sorting.StrictTotalOrder(Less)
  {
    forall x ensures !Less(x, x) {
      LessIrreflexive(x);
    }
    forall x, y, z | Less(x, y) && Less(y, z) ensures Less(x, z) {
      LessTransitive(x, y, z);
    }
    forall x, y | x != y ensures Less(x, y) || Less(y, x) {
      LessTotal(x, y);
    }
    forall x, y, z | !Less(x, y) && !Less(y, z) ensures !Less(x, z) {
      LessTotal(x, y);
      LessTotal(y, z);
      if Less(x, z) && Less(y, x) {
        LessTransitive(y, x, z);
      }
    }
  }

  /** A common beginning does not matter. */
  lemma {:induction false} LessBehind(p: string, a: string, b: string)
    ensures Less(p + a, p + b) <==> Less(a, b)
  {
    if p == [] {
      assert p + a == a && p + b == b;
    } else {
      LessBehind(p[1..], a, b);
      LessBehindOne(p[0], p[1..] + a, p[1..] + b);
      HeadFirst(p, a);
      HeadFirst(p, b);
    }
  }

  lemma LessBehindOne(c: char, a: string, b: string)
    ensures Less([c] + a, [c] + b) <==> Less(a, b)
  {
    assert ([c] + a)[1..] == a && ([c] + b)[1..] == b;
  }

  lemma HeadFirst(p: string, a: string)
    requires p != []
    ensures p + a == [p[0]] + (p[1..] + a)
  {
  }

  lemma Regrouped(a: string, b: string, c: string, d: string)
    ensures a + b + c + d == a + (b + c + d)
  {
  }

  lemma TailWithin(s: string, t: string, n: int)
    requires 0 <= n <= |s|
    ensures (s + t)[n..] == s[n..] + t
  {
  }

  /** `strings.HasPrefix`. */
  predicate HasPrefix(s: string, p: string) {
    p <= s
  }

  /** `strings.HasSuffix`. */
  predicate HasSuffix(s: string, p: string) {
    |p| <= |s| && s[|s| - |p|..] == p
  }

  /** `strings.Contains`. */
  predicate Contains(s: string, sub: string) {
    exists k :: 0 <= k <= |s| - |sub| && OccursAt(s, sub, k)
  }

  predicate OccursAt(s: string, sub: string, k: int) {
    0 <= k <= |s| - |sub| && s[k..k + |sub|] == sub
  }

  /** A string is the least of all the strings that start with it. */
  lemma {:induction false} PrefixIsLeast(p: string, s: string)
    requires HasPrefix(s, p)
    ensures s == p || Less(p, s)
  {
    if p != [] {
      PrefixIsLeast(p[1..], s[1..]);
      assert p == [p[0]] + p[1..] && s == [s[0]] + s[1..];
    }
  }

  /** `strings.Replace(s, old, new, 1)`: the first occurrence only; an empty
      `old` matches before the first character. */
  function ReplaceFirst(s: string, old_: string, new_: string): string {
    if old_ <= s then new_ + s[|old_|..]
    else if s == [] then s
    else [s[0]] + ReplaceFirst(s[1..], old_, new_)
  }

  lemma {:induction false} ReplaceBySelf(s: string, x: string)
    ensures ReplaceFirst(s, x, x) == s
  {
    if !(x <= s) && s != [] {
      ReplaceBySelf(s[1..], x);
    }
  }

  /** `strings.Index`: where `x` first occurs, or -1. */
  function Index(s: string, x: string): int {
    if x <= s then 0
    else if s == [] then -1
    else if Index(s[1..], x) < 0 then -1
    else Index(s[1..], x) + 1
  }

  lemma {:induction false} IndexIsFirst(s: string, x: string)
    ensures -1 <= Index(s, x)
    ensures Index(s, x) >= 0 ==> OccursAt(s, x, Index(s, x))
    ensures forall k :: OccursAt(s, x, k) ==> 0 <= Index(s, x) <= k
  {
    forall k ensures OccursAt(s, x, k) <==> (k == 0 && x <= s) || (k > 0 && s != [] && OccursAt(s[1..], x, k - 1)) {
      OccursLater(s, x, k);
    }
    if !(x <= s) && s != [] {
      IndexIsFirst(s[1..], x);
    }
  }

  lemma OccursLater(s: string, x: string, k: int)
    ensures OccursAt(s, x, k) <==> (k == 0 && x <= s) || (k > 0 && s != [] && OccursAt(s[1..], x, k - 1))
  {
    if 0 < k <= |s| - |x| {
      SliceOfTail(s, k, k + |x|);
    }
  }

  lemma SliceOfTail(s: string, k: int, n: int)
    requires 0 < k <= n <= |s|
    ensures s[k..n] == s[1..][k - 1..n - 1]
  {
    var (a, b) := (s[k..n], s[1..][k - 1..n - 1]);
    forall i | 0 <= i < n - k ensures a[i] == b[i] {
      assert a[i] == s[k + i];
    }
  }

  lemma ContainsIff(s: string, x: string)
    ensures Contains(s, x) <==> Index(s, x) >= 0
  {
    IndexIsFirst(s, x);
  }

  lemma {:induction false} ReplaceAbsent(s: string, x: string, y: string)
    requires Index(s, x) < 0
    ensures ReplaceFirst(s, x, y) == s
  {
    if s != [] {
      ReplaceAbsent(s[1..], x, y);
    }
  }

  lemma {:induction false} ReplaceAtIndex(s: string, x: string, y: string)
    requires Index(s, x) >= 0
    ensures Index(s, x) + |x| <= |s|
    ensures ReplaceFirst(s, x, y) == s[..Index(s, x)] + y + s[Index(s, x) + |x|..]
  {
    if x <= s {
      assert s[..0] + y == y;
    } else {
      var t, i := s[1..], Index(s, x);
      ReplaceAtIndex(t, x, y);
      AroundLater(s, i, |x|, y);
      assert ReplaceFirst(s, x, y) == [s[0]] + ReplaceFirst(t, x, y);
    }
  }

  ghost predicate FirstAt(s: string, x: string, i: int) {
    OccursAt(s, x, i) && forall k :: 0 <= k < i ==> !OccursAt(s, x, k)
  }

  /** The replacement takes the place of the first occurrence; without one nothing changes. */
  lemma ReplacedFirst(s: string, x: string, y: string)
    ensures forall i :: FirstAt(s, x, i) ==> ReplaceFirst(s, x, y) == s[..i] + y + s[i + |x|..]
    ensures !Contains(s, x) ==> ReplaceFirst(s, x, y) == s
  {
    IndexIsFirst(s, x);
    ContainsIff(s, x);
    if Index(s, x) >= 0 {
      ReplaceAtIndex(s, x, y);
      forall i | FirstAt(s, x, i) ensures i == Index(s, x) {
        assert OccursAt(s, x, Index(s, x));
      }
    } else {
      ReplaceAbsent(s, x, y);
    }
  }

  lemma AroundLater(s: string, i: int, n: int, y: string)
    requires 0 < i <= |s| - n && n >= 0
    ensures [s[0]] + (s[1..][..i - 1] + y + s[1..][i - 1 + n..]) == s[..i] + y + s[i + n..]
  {
    assert [s[0]] + s[1..][..i - 1] == s[..i];
    assert s[1..][i - 1 + n..] == s[i + n..];
  }

  /** `strings.Join` with separator `sep`. */
  function Join(parts: seq<string>, sep: string): string {
    if parts == [] then ""
    else if |parts| == 1 then parts[0]
    else parts[0] + sep + Join(parts[1..], sep)
  }

  /** What comes after the last separator does not depend on where the text comes from. */
  lemma LastSplit(a: string, x: string, b: string, y: string, sep: char)
    requires a + [sep] + x == b + [sep] + y && sep !in x && sep !in y
    ensures a == b && x == y
  {
    SeparatorAfter(a, x, b, y, sep);
    SeparatorAfter(b, y, a, x, sep);
    SameLengthSplit(a, x, b, y, sep);
  }

  /** What comes before the first separator does not either. */
  lemma FirstSplit(a: string, x: string, b: string, y: string, sep: char)
    requires a + [sep] + x == b + [sep] + y && sep !in a && sep !in b
    ensures a == b && x == y
  {
    CharacterAt(a, x, b, y, sep);
    CharacterAt(b, y, a, x, sep);
    SameLengthSplit(a, x, b, y, sep);
  }

  lemma SeparatorAfter(a: string, x: string, b: string, y: string, sep: char)
    requires a + [sep] + x == b + [sep] + y
    ensures |a| < |b| ==> sep in x
  {
    if |a| < |b| {
      assert x[|b| - |a| - 1] == (a + [sep] + x)[|b|] == (b + [sep] + y)[|b|] == sep;
    }
  }

  lemma SameLengthSplit(a: string, x: string, b: string, y: string, sep: char)
    requires a + [sep] + x == b + [sep] + y
    ensures |a| == |b| ==> a == b && x == y
  {
    var s := a + [sep] + x;
    assert s[..|a|] == a && s[|a| + 1..] == x;
    assert s[..|b|] == b && s[|b| + 1..] == y;
  }

  lemma CharacterAt(a: string, x: string, b: string, y: string, ch: char)
    requires a + [ch] + x == b + [ch] + y
    ensures |a| < |b| ==> b[|a|] == ch
  {
    if |a| < |b| {
      assert b[|a|] == (b + [ch] + y)[|a|] == (a + [ch] + x)[|a|] == ch;
    }
  }
}
