/** The multiset of the values a function takes on the elements of a sequence:
    what two lists have in common once the differences `f` erases are ignored. */
module Images {

  ghost function Image<A, B>(f: A -> B, s: seq<A>): multiset<B> {
    if s == [] then multiset{}
    else Image(f, s[..|s| - 1]) + multiset{f(s[|s| - 1])}
  }

  lemma ImageSnoc<A, B>(f: A -> B, s: seq<A>, x: A)
    ensures Image(f, s + [x]) == Image(f, s) + multiset{f(x)}
  {
    assert (s + [x])[..|s|] == s;
  }

  lemma ImageTake<A, B>(f: A -> B, s: seq<A>, i: int)
    requires 0 <= i < |s|
    ensures Image(f, s[..i + 1]) == Image(f, s[..i]) + multiset{f(s[i])}
  {
    assert s[..i + 1][..i] == s[..i];
  }

  lemma SnocOfConcat<A>(s: seq<A>, t: seq<A>)
    requires t != []
    ensures s + t == (s + t[..|t| - 1]) + [t[|t| - 1]]
  {
  }

  lemma {:induction false} ImageConcat<A, B>(f: A -> B, s: seq<A>, t: seq<A>)
    ensures Image(f, s + t) == Image(f, s) + Image(f, t)
  {
    if t == [] {
      assert s + t == s;
    } else {
      ImageConcat(f, s, t[..|t| - 1]);
      SnocOfConcat(s, t);
      ImageSnoc(f, s + t[..|t| - 1], t[|t| - 1]);
    }
  }

  /** The first `n` elements of `whole` are, as far as `f` can tell, split between two lists. */
  ghost predicate Accounts<A, B>(f: A -> B, left: seq<A>, right: seq<A>, whole: seq<A>, n: int) {
    0 <= n <= |whole| && Image(f, left) + Image(f, right) == Image(f, whole[..n])
  }

  lemma AccountLeft<A, B>(f: A -> B, left: seq<A>, right: seq<A>, whole: seq<A>, n: int, x: A)
    requires Accounts(f, left, right, whole, n) && n < |whole| && f(x) == f(whole[n])
    ensures Accounts(f, left + [x], right, whole, n + 1)
  {
    ImageTake(f, whole, n);
    ImageSnoc(f, left, x);
  }

  lemma AccountRight<A, B>(f: A -> B, left: seq<A>, right: seq<A>, whole: seq<A>, n: int, x: A)
    requires Accounts(f, left, right, whole, n) && n < |whole| && f(x) == f(whole[n])
    ensures Accounts(f, left, right + [x], whole, n + 1)
  {
    ImageTake(f, whole, n);
    ImageSnoc(f, right, x);
  }

  /** Replacing elements by others that `f` cannot tell apart changes no account. */
  lemma AccountReplaced<A, B>(f: A -> B, left: seq<A>, right: seq<A>, left1: seq<A>, right1: seq<A>, whole: seq<A>,
                              n: int)
    requires Accounts(f, left, right, whole, n)
    requires |left1| == |left| && forall k :: 0 <= k < |left| ==> f(left1[k]) == f(left[k])
    requires |right1| == |right| && forall k :: 0 <= k < |right| ==> f(right1[k]) == f(right[k])
    ensures Accounts(f, left1, right1, whole, n)
  {
    ImageEqual(f, left1, left);
    ImageEqual(f, right1, right);
  }

  lemma AccountAll<A, B>(f: A -> B, left: seq<A>, right: seq<A>, whole: seq<A>, n: int)
    requires Accounts(f, left, right, whole, n) && n == |whole|
    ensures Image(f, left) + Image(f, right) == Image(f, whole)
  {
    assert whole[..n] == whole;
  }

  /** Functions that agree on the elements of two lists, place by place, have the same image. */
  lemma {:induction false} ImageEqual<A, B>(f: A -> B, s: seq<A>, t: seq<A>)
    requires |s| == |t| && forall k :: 0 <= k < |s| ==> f(s[k]) == f(t[k])
    ensures Image(f, s) == Image(f, t)
  {
    if s != [] {
      ImageEqual(f, s[..|s| - 1], t[..|t| - 1]);
    }
  }

  lemma {:induction false} ImageMember<A, B>(f: A -> B, s: seq<A>, k: int)
    requires 0 <= k < |s|
    ensures f(s[k]) in Image(f, s)
  {
    if k < |s| - 1 {
      ImageMember(f, s[..|s| - 1], k);
    }
  }

  lemma {:induction false} ImageWitness<A, B>(f: A -> B, s: seq<A>, y: B) returns (k: int)
    requires y in Image(f, s)
    ensures 0 <= k < |s| && f(s[k]) == y
  {
    if y == f(s[|s| - 1]) {
      k := |s| - 1;
    } else {
      k := ImageWitness(f, s[..|s| - 1], y);
    }
  }

  lemma ImageMiddle<A, B>(f: A -> B, u: seq<A>, x: A, v: seq<A>)
    ensures Image(f, u + [x] + v) == Image(f, u + v) + multiset{f(x)}
  {
    ImageConcat(f, u + [x], v);
    ImageSnoc(f, u, x);
    ImageConcat(f, u, v);
  }

  /** The image is taken of the multiset of elements: their order does not matter. */
  lemma {:induction false} ImagePermuted<A, B>(f: A -> B, s: seq<A>, t: seq<A>)
    requires multiset(s) == multiset(t)
    ensures Image(f, s) == Image(f, t)
  {
    if s == [] {
      assert |t| == |multiset(t)| == 0;
    } else {
      var s0, x := s[..|s| - 1], s[|s| - 1];
      assert s == s0 + [x];
      assert x in multiset(t);
      var k :| 0 <= k < |t| && t[k] == x;
      var u, v := t[..k], t[k + 1..];
      assert t == u + [x] + v;
      assert multiset(s) == multiset(s0) + multiset{x};
      assert multiset(t) == multiset(u + v) + multiset{x};
      CancelOne(multiset(s0), multiset(u + v), x);
      ImagePermuted(f, s0, u + v);
      ImageMiddle(f, u, x, v);
    }
  }

  lemma {:induction false} ImageSize<A, B>(f: A -> B, s: seq<A>)
    ensures |Image(f, s)| == |s|
  {
    if s != [] {
      ImageSize(f, s[..|s| - 1]);
    }
  }

  /** The function applied to each element. */
  function Mapped<A, B>(f: A -> B, s: seq<A>): seq<B> {
    seq(|s|, k requires 0 <= k < |s| => f(s[k]))
  }

  lemma MappedSnoc<A, B>(f: A -> B, s: seq<A>, x: A)
    ensures Mapped(f, s + [x]) == Mapped(f, s) + [f(x)]
  {
  }

  lemma MappedConcat<A, B>(f: A -> B, s: seq<A>, t: seq<A>)
    ensures Mapped(f, s + t) == Mapped(f, s) + Mapped(f, t)
  {
  }

  lemma {:induction false} MappedImage<A, B>(f: A -> B, s: seq<A>)
    ensures multiset(Mapped(f, s)) == Image(f, s)
  {
    if s != [] {
      MappedImage(f, s[..|s| - 1]);
      assert Mapped(f, s) == Mapped(f, s[..|s| - 1]) + [f(s[|s| - 1])];
    }
  }

  lemma ConsEqual<A>(x: A, s: seq<A>, y: A, t: seq<A>)
    ensures [x] + s == [y] + t <==> x == y && s == t
  {
    if [x] + s == [y] + t {
      assert x == ([x] + s)[0] && s == ([x] + s)[1..];
      assert y == ([y] + t)[0] && t == ([y] + t)[1..];
    }
  }

  /** The elements of `s` that satisfy `p`, in their order. */
  function Filter<A>(p: A -> bool, s: seq<A>): seq<A> {
    if s == [] then []
    else
      var r := Filter(p, s[..|s| - 1]);
      if p(s[|s| - 1]) then r + [s[|s| - 1]] else r
  }

  lemma {:induction false} FilterMember<A>(p: A -> bool, s: seq<A>, x: A)
    ensures x in Filter(p, s) <==> x in s && p(x)
  {
    if s != [] {
      FilterMember(p, s[..|s| - 1], x);
      assert s == s[..|s| - 1] + [s[|s| - 1]];
    }
  }

  lemma FilterSnoc<A>(p: A -> bool, s: seq<A>, x: A)
    ensures Filter(p, s + [x]) == if p(x) then Filter(p, s) + [x] else Filter(p, s)
  {
    assert (s + [x])[..|s|] == s;
  }

  /** Filtering twice is filtering by both. */
  lemma {:induction false} FilterTwice<A>(p: A -> bool, q: A -> bool, r: A -> bool, s: seq<A>)
    requires forall x :: r(x) == (p(x) && q(x))
    ensures Filter(q, Filter(p, s)) == Filter(r, s)
  {
    if s != [] {
      FilterTwice(p, q, r, s[..|s| - 1]);
      FilterSnoc(q, Filter(p, s[..|s| - 1]), s[|s| - 1]);
    }
  }

  lemma FilterTake<A>(p: A -> bool, s: seq<A>, i: int)
    requires 0 <= i < |s|
    ensures Filter(p, s[..i + 1]) == if p(s[i]) then Filter(p, s[..i]) + [s[i]] else Filter(p, s[..i])
  {
    assert s[..i + 1][..i] == s[..i];
  }

  /** Filters whose conditions exclude each other split the filter of their disjunction. */
  lemma {:induction false} FilterSplit<A, B>(f: A -> B, p: A -> bool, q: A -> bool, r: A -> bool, s: seq<A>)
    requires forall x :: x in s ==> (r(x) <==> p(x) || q(x)) && !(p(x) && q(x))
    ensures Image(f, Filter(r, s)) == Image(f, Filter(p, s)) + Image(f, Filter(q, s))
  {
    if s != [] {
      var s0, x := s[..|s| - 1], s[|s| - 1];
      FilterSplit(f, p, q, r, s0);
      ImageSnoc(f, Filter(r, s0), x);
      ImageSnoc(f, Filter(p, s0), x);
      ImageSnoc(f, Filter(q, s0), x);
    }
  }

  lemma {:induction false} FilterAll<A>(p: A -> bool, s: seq<A>)
    requires forall x :: x in s ==> p(x)
    ensures Filter(p, s) == s
  {
    if s != [] {
      FilterAll(p, s[..|s| - 1]);
      assert s == s[..|s| - 1] + [s[|s| - 1]];
    }
  }

  lemma {:induction false} FilterNone<A>(p: A -> bool, s: seq<A>)
    requires forall x :: x in s ==> !p(x)
    ensures Filter(p, s) == []
  {
    if s != [] {
      FilterNone(p, s[..|s| - 1]);
      assert s == s[..|s| - 1] + [s[|s| - 1]];
    }
  }

  lemma {:induction false} FilterAgree<A>(p: A -> bool, q: A -> bool, s: seq<A>)
    requires forall x :: x in s ==> p(x) == q(x)
    ensures Filter(p, s) == Filter(q, s)
  {
    if s != [] {
      FilterAgree(p, q, s[..|s| - 1]);
    }
  }

  lemma {:induction false} FilterConcat<A>(p: A -> bool, s: seq<A>, t: seq<A>)
    ensures Filter(p, s + t) == Filter(p, s) + Filter(p, t)
  {
    if t == [] {
      assert s + t == s;
    } else {
      FilterConcat(p, s, t[..|t| - 1]);
      SnocOfConcat(s, t);
      FilterSnoc(p, s + t[..|t| - 1], t[|t| - 1]);
    }
  }

  /** When `f` cannot tell two lists apart, nothing that is computed from `f` can:
      neither the filter `q` of it nor the image `h` of it. */
  lemma {:induction false} ImageFactors<A, B, C>(f: A -> B, h: B -> C, q: B -> bool,
                                                g: A -> C, p: A -> bool, s: seq<A>, t: seq<A>)
    requires Image(f, s) == Image(f, t)
    requires forall x :: g(x) == h(f(x)) && p(x) == q(f(x))
    ensures Image(g, Filter(p, s)) == Image(g, Filter(p, t))
  {
    ImageSize(f, s);
    ImageSize(f, t);
    if s != [] {
      var s0, x := s[..|s| - 1], s[|s| - 1];
      var k := ImageWitness(f, t, f(x));
      var u, y, v := t[..k], t[k], t[k + 1..];
      assert t == u + [y] + v;
      ImageMiddle(f, u, y, v);
      CancelOne(Image(f, s0), Image(f, u + v), f(x));
      ImageFactors(f, h, q, g, p, s0, u + v);
      assert g(x) == g(y) && p(x) == p(y);
      FilterMiddle(p, u, y, v);
      if p(x) {
        ImageSnoc(g, Filter(p, s0), x);
        ImageMiddle(g, Filter(p, u), y, Filter(p, v));
      }
    }
  }

  lemma CancelOne<B>(a: multiset<B>, b: multiset<B>, x: B)
    requires a + multiset{x} == b + multiset{x}
    ensures a == b
  {
    assert a == (a + multiset{x}) - multiset{x};
    assert b == (b + multiset{x}) - multiset{x};
  }

  lemma FilterMiddle<A>(p: A -> bool, u: seq<A>, x: A, v: seq<A>)
    ensures Filter(p, u + [x] + v) == (if p(x) then Filter(p, u) + [x] else Filter(p, u)) + Filter(p, v)
    ensures Filter(p, u + v) == Filter(p, u) + Filter(p, v)
  {
    FilterConcat(p, u + [x], v);
    FilterSnoc(p, u, x);
    FilterConcat(p, u, v);
  }

  /** An order in which a loop over a map can take its keys: each once. */
  ghost predicate OrderOf<A>(order: seq<A>, keys: set<A>) {
    multiset(order) == multiset(keys)
  }

  lemma {:induction false} SomeOrder<A>(keys: set<A>) returns (order: seq<A>)
    ensures OrderOf(order, keys)
  {
    order := [];
    if keys != {} {
      var k :| k in keys;
      var rest := SomeOrder(keys - {k});
      order := rest + [k];
      assert keys - {k} + {k} == keys;
    }
  }

  lemma OrderMember<A>(order: seq<A>, keys: set<A>, k: A)
    requires OrderOf(order, keys)
    ensures k in order <==> k in keys
  {
    assert k in order <==> k in multiset(order);
  }

  lemma OrderSnoc<A>(order: seq<A>, keys: set<A>, todo: set<A>, k: A)
    requires todo <= keys && k in todo && OrderOf(order, keys - todo)
    ensures OrderOf(order + [k], keys - (todo - {k}))
  {
    assert keys - (todo - {k}) == (keys - todo) + {k};
    assert multiset((keys - todo) + {k}) == multiset(keys - todo) + multiset{k};
  }

  // ---------- What two lists have in common ----------

  /** No element of one list has an image that an element of the other has. */
  lemma DisjointImages<A, B>(f: A -> B, a: seq<A>, b: seq<A>)
    ensures (forall u, r :: u in a && r in b ==> f(u) != f(r)) <==> Image(f, a) !! Image(f, b)
  {
    if u, r :| u in a && r in b && f(u) == f(r) {
      var k :| 0 <= k < |a| && a[k] == u;
      var l :| 0 <= l < |b| && b[l] == r;
      ImageMember(f, a, k);
      ImageMember(f, b, l);
    } else {
      forall x ensures !(x in Image(f, a) && x in Image(f, b)) {
        if x in Image(f, a) && x in Image(f, b) {
          var k := ImageWitness(f, a, x);
          var l := ImageWitness(f, b, x);
          assert false;
        }
      }
    }
  }

  lemma SplitApart<T>(c: multiset<T>, u: multiset<T>, r: multiset<T>)
    ensures u !! r <==> (c + u) * (c + r) == c
    ensures u !! r ==> (c + u) - (c + r) == u && (c + r) - (c + u) == r
  {
    if (c + u) * (c + r) == c {
      forall x ensures !(x in u && x in r) {
        assert ((c + u) * (c + r))[x] == c[x];
      }
    }
  }

  /** Two wholes that share `c` have nothing else in common exactly when what is left of each is disjoint. */
  lemma DifferencesIff<T>(s: multiset<T>, d: multiset<T>, c: multiset<T>, u: multiset<T>, r: multiset<T>)
    requires s == c + u && d == c + r
    ensures c == s * d && u == s - d && r == d - s <==> u !! r
  {
    SplitApart(c, u, r);
  }
}
