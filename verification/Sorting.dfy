/** `sort.Sort` of Go's standard library, as its callers see it: it permutes the
    slice, and leaves it in order whenever the caller's `Less` is a strict weak
    order. The order of equivalent elements is not specified. */
module Sorting {

  ghost predicate StrictWeakOrder<T(!new)>(lt: (T, T) -> bool) {
    && (forall x :: !lt(x, x))
    && (forall x, y, z :: lt(x, y) && lt(y, z) ==> lt(x, z))
    && (forall x, y, z :: !lt(x, y) && !lt(y, z) ==> !lt(x, z))
  }

  ghost predicate SortedBy<T(!new)>(lt: (T, T) -> bool, s: seq<T>) {
    forall i, j :: 0 <= i < j < |s| ==> !lt(s[j], s[i])
  }

  ghost predicate StrictTotalOrder<T(!new)>(lt: (T, T) -> bool) {
    StrictWeakOrder(lt) && forall x, y :: x != y ==> lt(x, y) || lt(y, x)
  }

  /** There is only one way to sort the same elements by a total order. */
  lemma {:induction false} SortedUnique<T(!new)>(lt: (T, T) -> bool, s: seq<T>, t: seq<T>)
    requires StrictTotalOrder(lt) && SortedBy(lt, s) && SortedBy(lt, t)
    requires multiset(s) == multiset(t)
    ensures s == t
  {
    assert |s| == |multiset(s)| == |multiset(t)| == |t|;
    if s != [] {
      LeastFirst(lt, s, t);
      LeastFirst(lt, t, s);
      assert s == [s[0]] + s[1..] && t == [t[0]] + t[1..];
      TailElements(s);
      TailElements(t);
      SortedUnique(lt, s[1..], t[1..]);
    }
  }

  /** No element of a permutation comes before the first of a sorted sequence. */
  lemma LeastFirst<T(!new)>(lt: (T, T) -> bool, s: seq<T>, t: seq<T>)
    requires StrictWeakOrder(lt) && SortedBy(lt, s) && multiset(s) == multiset(t) && s != [] && t != []
    ensures !lt(t[0], s[0])
  {
    assert t[0] in multiset(t);
    var k :| 0 <= k < |s| && s[k] == t[0];
  }

  lemma TailElements<T>(s: seq<T>)
    requires s != []
    ensures multiset(s[1..]) == multiset(s) - multiset{s[0]}
  {
    assert s == [s[0]] + s[1..];
  }

  /** `less` looks at positions of the slice being sorted and may read other
      elements too; it agrees with `lt` when this does not matter, however the
      elements `m` are arranged. */
  ghost predicate Agrees<T(!new)>(less: (seq<T>, int, int) -> bool, lt: (T, T) -> bool, m: multiset<T>) {
    forall s: seq<T>, i, j ::
      multiset(s) == m && 0 <= i < |s| && 0 <= j < |s| ==> less(s, i, j) == lt(s[i], s[j])
  }

  /** The first `n` elements are in order, not looking at position `gap`. */
  ghost predicate OrderedBut<T(!new)>(lt: (T, T) -> bool, s: seq<T>, n: int, gap: int) {
    forall p, q :: 0 <= p < q < n && q < |s| && q != gap ==> !lt(s[q], s[p])
  }

  function Swapped<T>(s: seq<T>, i: int): (t: seq<T>)
    requires 0 < i < |s|
    ensures |t| == |s| && multiset(t) == multiset(s)
  {
    s[i - 1 := s[i]][i := s[i - 1]]
  }

  lemma SwapKeepsOrder<T(!new)>(lt: (T, T) -> bool, s: seq<T>, n: int, j: int)
    requires StrictWeakOrder(lt) && 0 < j < n <= |s|
    requires OrderedBut(lt, s, n, j) && lt(s[j], s[j - 1])
    ensures OrderedBut(lt, Swapped(s, j), n, j - 1)
  {
    var t := Swapped(s, j);
    forall p, q | 0 <= p < q < n && q != j - 1 ensures !lt(t[q], t[p]) {
      assert t[p] == s[p] || p == j || p == j - 1;
    }
  }

  lemma GapFilled<T(!new)>(lt: (T, T) -> bool, s: seq<T>, n: int, j: int)
    requires StrictWeakOrder(lt) && 0 <= j < n <= |s|
    requires OrderedBut(lt, s, n, j) && (j > 0 ==> !lt(s[j], s[j - 1]))
    ensures OrderedBut(lt, s, n, n)
  {
    forall p | 0 <= p < j ensures !lt(s[j], s[p]) {
      assert p < j - 1 ==> !lt(s[j - 1], s[p]);
    }
  }

  method Sort<T(!new)>(a: array<T>, less: (seq<T>, int, int) -> bool, ghost lt: (T, T) -> bool)
    modifies a
    ensures multiset(a[..]) == multiset(old(a[..]))
    ensures StrictWeakOrder(lt) && Agrees(less, lt, multiset(old(a[..]))) ==> SortedBy(lt, a[..])
  {
    ghost var m := multiset(a[..]);
    ghost var ordered := StrictWeakOrder(lt) && Agrees(less, lt, m);
    var i := 0;
    while i < a.Length
      invariant 0 <= i <= a.Length
      invariant multiset(a[..]) == m
      invariant ordered ==> OrderedBut(lt, a[..], i, i)
    {
      SinkDown(a, i, less, lt);
      i := i + 1;
    }
  }

  /** Moves the element at `i` down to its place among the ordered ones before it. */
  method SinkDown<T(!new)>(a: array<T>, i: int, less: (seq<T>, int, int) -> bool, ghost lt: (T, T) -> bool)
    requires 0 <= i < a.Length
    modifies a
    ensures multiset(a[..]) == multiset(old(a[..]))
    ensures StrictWeakOrder(lt) && Agrees(less, lt, multiset(old(a[..]))) && OrderedBut(lt, old(a[..]), i, i)
      ==> OrderedBut(lt, a[..], i + 1, i + 1)
  {
    ghost var m := multiset(a[..]);
    ghost var ordered := StrictWeakOrder(lt) && Agrees(less, lt, m) && OrderedBut(lt, a[..], i, i);
    var j := i;
    while j > 0 && less(a[..], j, j - 1)
      invariant 0 <= j <= i
      invariant multiset(a[..]) == m
      invariant ordered ==> OrderedBut(lt, a[..], i + 1, j)
    {
      ghost var s := a[..];
      a[j - 1], a[j] := a[j], a[j - 1];
      assert a[..] == Swapped(s, j);
      if ordered {
        SwapKeepsOrder(lt, s, i + 1, j);
      }
      j := j - 1;
    }
    if ordered {
      ghost var s := a[..];
      assert j > 0 ==> less(s, j, j - 1) == lt(s[j], s[j - 1]);
      GapFilled(lt, s, i + 1, j);
    }
  }
}
