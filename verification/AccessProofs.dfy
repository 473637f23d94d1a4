/** What the comparison of access-group rules guarantees. */
module AccessProofs {
  import opened Images
  import opened AccessRules
  import Sorting
  import Text

  // ---------- Conservation, for any input ----------

  function NoId(r: AccessGroupRule): AccessGroupRule { r.(Id := "") }

  function TextOf(r: AccessGroupRule): string { r.String() }

  /** The rule's text and the Id it carries. */
  function Label(r: AccessGroupRule): (string, string) { (r.String(), r.Id) }

  /** The rule up to its priority. */
  function Core(r: AccessGroupRule): AccessGroupRule { r.(Priority := 0) }

  function Supported(t: Limits): AccessGroupRule -> bool {
    (r: AccessGroupRule) => r.UserAccessType in t.Supported
  }

  function Cores(rules: seq<AccessGroupRule>): seq<AccessGroupRule> {
    seq(|rules|, k requires 0 <= k < |rules| => Core(rules[k]))
  }

  /** The rules not read yet are as they were. */
  ghost predicate Unread(src0: seq<AccessGroupRule>, dest0: seq<AccessGroupRule>, m: Merge) {
    && m.Valid() && |m.src| == |src0| && |m.dest| == |dest0|
    && (forall k :: m.i <= k < |src0| ==> m.src[k] == src0[k])
    && (forall k :: m.j <= k < |dest0| ==> m.dest[k] == dest0[k])
  }

  /** What was read of the destination was kept or removed, what was read of the source was
      matched or not, and the additions are the unmatched rules that are supported, renumbered. */
  ghost predicate Conserved(t: Limits, src0: seq<AccessGroupRule>, dest0: seq<AccessGroupRule>, m: Merge) {
    && Accounts(NoId, m.common, m.removed, dest0, m.j)
    && Accounts(Label, m.common, m.unmatched, src0, m.i)
    && Cores(m.added) == Cores(Filter(Supported(t), m.unmatched))
  }

  lemma KeepConserves(t: Limits, src0: seq<AccessGroupRule>, dest0: seq<AccessGroupRule>, m: Merge)
    requires Unread(src0, dest0, m) && Conserved(t, src0, dest0, m) && m.i < |m.src| && m.j < |m.dest|
    requires m.dest[m.j].String() == m.src[m.i].String()
    ensures Conserved(t, src0, dest0, KeepStep(m))
  {
    KeepDest(dest0, m);
    KeepSrc(src0, m);
  }

  lemma KeepDest(dest0: seq<AccessGroupRule>, m: Merge)
    requires m.Valid() && m.i < |m.src| && m.j < |m.dest| == |dest0| && m.dest[m.j] == dest0[m.j]
    requires Accounts(NoId, m.common, m.removed, dest0, m.j)
    ensures Accounts(NoId, KeepStep(m).common, m.removed, dest0, m.j + 1)
  {
    AccountLeft(NoId, m.common, m.removed, dest0, m.j, m.dest[m.j].(Id := m.src[m.i].Id));
  }

  lemma KeepSrc(src0: seq<AccessGroupRule>, m: Merge)
    requires m.Valid() && m.i < |m.src| == |src0| && m.j < |m.dest| && m.src[m.i] == src0[m.i]
    requires m.dest[m.j].String() == m.src[m.i].String()
    requires Accounts(Label, m.common, m.unmatched, src0, m.i)
    ensures Accounts(Label, KeepStep(m).common, m.unmatched, src0, m.i + 1)
  {
    var kept := m.dest[m.j].(Id := m.src[m.i].Id);
    KeptLooksAlike(m.src[m.i], m.dest[m.j]);
    AccountLeft(Label, m.common, m.unmatched, src0, m.i, kept);
    assert KeepStep(m).common == m.common + [kept];
  }

  lemma KeptLooksAlike(s: AccessGroupRule, d: AccessGroupRule)
    requires d.String() == s.String()
    ensures Label(d.(Id := s.Id)) == Label(s) && NoId(d.(Id := s.Id)) == NoId(d)
  {
  }

  lemma RemoveConserves(t: Limits, src0: seq<AccessGroupRule>, dest0: seq<AccessGroupRule>, m: Merge)
    requires Unread(src0, dest0, m) && Conserved(t, src0, dest0, m) && m.j < |m.dest|
    ensures Conserved(t, src0, dest0, RemoveStep(m))
  {
    AccountRight(NoId, m.common, m.removed, dest0, m.j, m.dest[m.j]);
  }

  lemma AddConserves(t: Limits, src0: seq<AccessGroupRule>, dest0: seq<AccessGroupRule>, m: Merge)
    requires Unread(src0, dest0, m) && Conserved(t, src0, dest0, m) && m.i < |m.src|
    ensures Conserved(t, src0, dest0, AddStep(t, m))
  {
    AddSrc(t, src0, m);
    AddCores(t, m);
    AddLeaves(t, m);
  }

  lemma AddSrc(t: Limits, src0: seq<AccessGroupRule>, m: Merge)
    requires m.Valid() && m.i < |m.src| == |src0| && m.src[m.i] == src0[m.i]
    requires Accounts(Label, m.common, m.unmatched, src0, m.i)
    ensures Accounts(Label, m.common, AddStep(t, m).unmatched, src0, m.i + 1)
  {
    AccountRight(Label, m.common, m.unmatched, src0, m.i, m.src[m.i]);
  }

  lemma AddLeaves(t: Limits, m: Merge)
    requires m.Valid() && m.i < |m.src|
    ensures var n := AddStep(t, m);
      n.common == m.common && n.removed == m.removed && n.j == m.j && n.i == m.i + 1
  {
  }

  lemma AddCores(t: Limits, m: Merge)
    requires m.Valid() && m.i < |m.src| && Cores(m.added) == Cores(Filter(Supported(t), m.unmatched))
    ensures var n := AddStep(t, m); Cores(n.added) == Cores(Filter(Supported(t), n.unmatched))
  {
    var r := m.src[m.i];
    FilterSnoc(Supported(t), m.unmatched, r);
    if r.UserAccessType in t.Supported {
      CoresSnoc(m.added, r.(Priority := t.NextPriority(m.priority)));
      CoresSnoc(Filter(Supported(t), m.unmatched), r);
    }
  }

  lemma CoresSnoc(rules: seq<AccessGroupRule>, r: AccessGroupRule)
    ensures Cores(rules + [r]) == Cores(rules) + [Core(r)]
  {
  }

  lemma StepConserves(t: Limits, src0: seq<AccessGroupRule>, dest0: seq<AccessGroupRule>, m: Merge)
    requires Unread(src0, dest0, m) && Conserved(t, src0, dest0, m) && m.Running()
    ensures Conserved(t, src0, dest0, Step(t, m))
  {
    if m.i < |m.src| && m.j < |m.dest| && m.dest[m.j].String() == m.src[m.i].String() {
      KeepConserves(t, src0, dest0, m);
    } else if m.i >= |m.src| || (m.j < |m.dest| && Text.Less(m.dest[m.j].String(), m.src[m.i].String())) {
      RemoveConserves(t, src0, dest0, m);
    } else {
      AddConserves(t, src0, dest0, m);
    }
  }

  lemma StepUnread(t: Limits, src0: seq<AccessGroupRule>, dest0: seq<AccessGroupRule>, m: Merge)
    requires Unread(src0, dest0, m) && m.Running()
    ensures Unread(src0, dest0, Step(t, m))
  {
  }

  lemma {:induction false} RunConserves(t: Limits, src0: seq<AccessGroupRule>, dest0: seq<AccessGroupRule>, m: Merge)
    requires Unread(src0, dest0, m) && Conserved(t, src0, dest0, m)
    ensures var n := Run(t, m); Conserved(t, src0, dest0, n) && n.i == |src0| && n.j == |dest0|
    decreases |m.src| - m.i + |m.dest| - m.j
  {
    if m.Running() {
      StepConserves(t, src0, dest0, m);
      StepUnread(t, src0, dest0, m);
      RunConserves(t, src0, dest0, Step(t, m));
    }
  }

  /** Whatever the priorities and the sort directions: kept and removed rules are together
      the destination's up to Ids; kept and unmatched rules carry the texts and Ids of the
      source's; and what is added is the unmatched rules with supported access types, in order. */
  lemma MergeConserves(t: Limits, src: seq<AccessGroupRule>, dest: seq<AccessGroupRule>)
    ensures var m := Run(t, Start(t, src, dest));
      && Image(NoId, m.common) + Image(NoId, m.removed) == Image(NoId, dest)
      && Image(Label, m.common) + Image(Label, m.unmatched) == Image(Label, src)
      && Cores(m.added) == Cores(Filter(Supported(t), m.unmatched))
  {
    RunConserves(t, src, dest, Start(t, src, dest));
    var m := Run(t, Start(t, src, dest));
    AccountAll(NoId, m.common, m.removed, dest, m.j);
    AccountAll(Label, m.common, m.unmatched, src, m.i);
  }

  /** Unmatched rules are source rules, as they were. */
  lemma {:induction false} UnmatchedFromSource(t: Limits, src0: seq<AccessGroupRule>, dest0: seq<AccessGroupRule>,
                                               m: Merge)
    requires Unread(src0, dest0, m) && forall u :: u in m.unmatched ==> u in src0
    ensures forall u :: u in Run(t, m).unmatched ==> u in src0
    decreases |m.src| - m.i + |m.dest| - m.j
  {
    if m.Running() {
      StepUnread(t, src0, dest0, m);
      UnmatchedFromSource(t, src0, dest0, Step(t, m));
    }
  }

  /** The same, in terms of texts. */
  lemma MergeConservesTexts(t: Limits, src: seq<AccessGroupRule>, dest: seq<AccessGroupRule>)
    ensures var m := Run(t, Start(t, src, dest));
      && Image(TextOf, m.common) + Image(TextOf, m.removed) == Image(TextOf, dest)
      && Image(TextOf, m.common) + Image(TextOf, m.unmatched) == Image(TextOf, src)
  {
    MergeConserves(t, src, dest);
    var m := Run(t, Start(t, src, dest));
    Coarser(NoId, TextOf, m.common, m.removed, dest);
    CoarserLabel(m.common, m.unmatched, src);
  }

  lemma Coarser(f: AccessGroupRule -> AccessGroupRule, h: AccessGroupRule -> string,
                a: seq<AccessGroupRule>, b: seq<AccessGroupRule>, c: seq<AccessGroupRule>)
    requires Image(f, a) + Image(f, b) == Image(f, c)
    requires forall r :: TextOf(r) == h(f(r))
    ensures Image(TextOf, a) + Image(TextOf, b) == Image(TextOf, c)
  {
    ImageConcat(f, a, b);
    ImageFactors(f, h, r => true, TextOf, r => true, a + b, c);
    FilterAll((r: AccessGroupRule) => true, a + b);
    FilterAll((r: AccessGroupRule) => true, c);
    ImageConcat(TextOf, a, b);
  }

  lemma CoarserLabel(a: seq<AccessGroupRule>, b: seq<AccessGroupRule>, c: seq<AccessGroupRule>)
    requires Image(Label, a) + Image(Label, b) == Image(Label, c)
    ensures Image(TextOf, a) + Image(TextOf, b) == Image(TextOf, c)
  {
    ImageConcat(Label, a, b);
    ImageFactors(Label, (l: (string, string)) => l.0, l => true, TextOf, r => true, a + b, c);
    FilterAll((r: AccessGroupRule) => true, a + b);
    FilterAll((r: AccessGroupRule) => true, c);
    ImageConcat(TextOf, a, b);
  }

  // ---------- Exactness ----------

  /** The kept rules are the multiset intersection of both sides, the others the differences. */
  ghost predicate Exact(src: seq<AccessGroupRule>, dest: seq<AccessGroupRule>, m: Merge) {
    var (s, d) := (Image(TextOf, src), Image(TextOf, dest));
    && Image(TextOf, m.common) == s * d
    && Image(TextOf, m.unmatched) == s - d
    && Image(TextOf, m.removed) == d - s
  }

  /** No text is both removed and unmatched. */
  ghost predicate Disjoint(m: Merge) {
    forall u, r :: u in m.unmatched && r in m.removed ==> u.String() != r.String()
  }

  /** Exactness is just that: no rule is removed only to be added again. */
  lemma ExactIffDisjoint(t: Limits, src: seq<AccessGroupRule>, dest: seq<AccessGroupRule>)
    ensures var m := Run(t, Start(t, src, dest)); Exact(src, dest, m) <==> Disjoint(m)
  {
    MergeConservesTexts(t, src, dest);
    var m := Run(t, Start(t, src, dest));
    DisjointIff(m);
    DifferencesIff(Image(TextOf, src), Image(TextOf, dest), Image(TextOf, m.common), Image(TextOf, m.unmatched),
                   Image(TextOf, m.removed));
  }

  lemma DisjointIff(m: Merge)
    ensures Disjoint(m) <==> Image(TextOf, m.unmatched) !! Image(TextOf, m.removed)
  {
    DisjointImages(TextOf, m.unmatched, m.removed);
  }

  /** The texts ascend. */
  ghost predicate TextsAscend(rules: seq<AccessGroupRule>) {
    forall k, l :: 0 <= k < l < |rules| ==> !Text.Less(rules[l].String(), rules[k].String())
  }

  /** Everything set aside lies below everything still to be read on the other side. */
  ghost predicate SetApart(src0: seq<AccessGroupRule>, dest0: seq<AccessGroupRule>, m: Merge) {
    && 0 <= m.i && 0 <= m.j
    && (forall u, l :: u in m.unmatched && m.j <= l < |dest0| ==> Text.Less(u.String(), dest0[l].String()))
    && (forall r, k :: r in m.removed && m.i <= k < |src0| ==> Text.Less(r.String(), src0[k].String()))
    && Disjoint(m)
  }

  lemma BelowAll(x: string, rules: seq<AccessGroupRule>, k: int)
    requires TextsAscend(rules) && 0 <= k < |rules| && Text.Less(x, rules[k].String())
    ensures forall l :: k <= l < |rules| ==> Text.Less(x, rules[l].String())
  {
    forall l | k <= l < |rules| ensures Text.Less(x, rules[l].String()) {
      Text.LessTotal(rules[k].String(), rules[l].String());
      if k < l && Text.Less(rules[k].String(), rules[l].String()) {
        Text.LessTransitive(x, rules[k].String(), rules[l].String());
      }
    }
  }

  lemma StepSetsApart(t: Limits, src0: seq<AccessGroupRule>, dest0: seq<AccessGroupRule>, m: Merge)
    requires TextsAscend(src0) && TextsAscend(dest0)
    requires Unread(src0, dest0, m) && SetApart(src0, dest0, m) && m.Running()
    ensures SetApart(src0, dest0, Step(t, m))
  {
    if m.i < |m.src| && m.j < |m.dest| && m.dest[m.j].String() == m.src[m.i].String() {
    } else if m.i >= |m.src| || (m.j < |m.dest| && Text.Less(m.dest[m.j].String(), m.src[m.i].String())) {
      RemoveSetsApart(src0, dest0, m);
    } else {
      AddSetsApart(t, src0, dest0, m);
    }
  }

  lemma RemoveSetsApart(src0: seq<AccessGroupRule>, dest0: seq<AccessGroupRule>, m: Merge)
    requires TextsAscend(src0) && Unread(src0, dest0, m) && SetApart(src0, dest0, m) && m.j < |m.dest|
    requires m.i >= |m.src| || Text.Less(m.dest[m.j].String(), m.src[m.i].String())
    ensures SetApart(src0, dest0, RemoveStep(m))
  {
    var d := m.dest[m.j];
    if m.i < |m.src| {
      BelowAll(d.String(), src0, m.i);
    }
    forall u | u in m.unmatched ensures u.String() != d.String() {
      Text.LessIrreflexive(d.String());
    }
  }

  lemma AddSetsApart(t: Limits, src0: seq<AccessGroupRule>, dest0: seq<AccessGroupRule>, m: Merge)
    requires TextsAscend(dest0) && Unread(src0, dest0, m) && SetApart(src0, dest0, m) && m.i < |m.src|
    requires m.j >= |m.dest| || !(Text.Less(m.dest[m.j].String(), m.src[m.i].String())
                                  || m.dest[m.j].String() == m.src[m.i].String())
    ensures SetApart(src0, dest0, AddStep(t, m))
  {
    var s := m.src[m.i];
    if m.j < |m.dest| {
      Text.LessTotal(m.dest[m.j].String(), s.String());
      BelowAll(s.String(), dest0, m.j);
    }
    forall r | r in m.removed ensures r.String() != s.String() {
      Text.LessIrreflexive(s.String());
    }
  }

  lemma {:induction false} RunSetsApart(t: Limits, src0: seq<AccessGroupRule>, dest0: seq<AccessGroupRule>, m: Merge)
    requires TextsAscend(src0) && TextsAscend(dest0)
    requires Unread(src0, dest0, m) && SetApart(src0, dest0, m)
    ensures Disjoint(Run(t, m))
    decreases |m.src| - m.i + |m.dest| - m.j
  {
    if m.Running() {
      StepSetsApart(t, src0, dest0, m);
      StepUnread(t, src0, dest0, m);
      RunSetsApart(t, src0, dest0, Step(t, m));
    }
  }

  /** When the texts of both lists ascend, the answer is exact. */
  lemma AscendingIsExact(t: Limits, src: seq<AccessGroupRule>, dest: seq<AccessGroupRule>)
    requires TextsAscend(src) && TextsAscend(dest)
    ensures Exact(src, dest, Run(t, Start(t, src, dest)))
  {
    RunSetsApart(t, src, dest, Start(t, src, dest));
    ExactIffDisjoint(t, src, dest);
  }

  // ---------- Which sort directions are exact ----------

  ghost predicate OnePriority(rules: seq<AccessGroupRule>) {
    forall a, b :: a in rules && b in rules ==> a.Priority == b.Priority
  }

  lemma OnePriorityAscends(rules: seq<AccessGroupRule>)
    requires OnePriority(rules) && Sorting.SortedBy(SortedOrder(true), rules)
    ensures TextsAscend(rules)
  {
    forall k, l | 0 <= k < l < |rules| ensures !Text.Less(rules[l].String(), rules[k].String()) {
      assert rules[k] in rules && rules[l] in rules;
      assert !SortedOrder(true)(rules[l], rules[k]);
    }
  }

  /** With one priority on each side the answer is exact, for all rules. */
  ghost predicate AlwaysExact(srcUp: bool, destUp: bool) {
    forall t: Limits, src: seq<AccessGroupRule>, dest: seq<AccessGroupRule> ::
      SortedFor(t, srcUp, destUp, src, dest) ==> Exact(src, dest, Run(t, Start(t, src, dest)))
  }

  ghost predicate SortedFor(t: Limits, srcUp: bool, destUp: bool, src: seq<AccessGroupRule>,
                            dest: seq<AccessGroupRule>) {
    && (t.MinPriority < t.MaxPriority <==> destUp)
    && OnePriority(src) && Sorting.SortedBy(SortedOrder(srcUp), src)
    && OnePriority(dest) && Sorting.SortedBy(SortedOrder(destUp), dest)
  }

  /** That is so exactly when both sides have MinPriority < MaxPriority. Sorted the other
      way, as for a provider whose numbers fall (100 to 1), the merge removes rules only
      to add them again. */
  lemma AlwaysExactIff(srcUp: bool, destUp: bool)
    ensures AlwaysExact(srcUp, destUp) <==> srcUp && destUp
  {
    if srcUp && destUp {
      forall t: Limits, src: seq<AccessGroupRule>, dest: seq<AccessGroupRule> | SortedFor(t, srcUp, destUp, src, dest)
        ensures Exact(src, dest, Run(t, Start(t, src, dest)))
      {
        OnePriorityAscends(src);
        OnePriorityAscends(dest);
        AscendingIsExact(t, src, dest);
      }
    } else {
      var t := if destUp then Limits(1, 100, AliyunLimits().Supported) else AliyunLimits();
      var a, b := Bare("a"), Bare("b");
      var src := if srcUp then [a, b] else [b, a];
      var dest := if destUp then [a, b] else if srcUp then [b, a] else [a];
      BareSorted(srcUp);
      BareSorted(destUp);
      assert SortedFor(t, srcUp, destUp, src, dest);
      NotExactHere(t, srcUp, destUp, src, dest);
    }
  }

  function Bare(s: string): AccessGroupRule {
    AccessGroupRule("", "", 1, "RW", "all_squash", s)
  }

  lemma BareOrder()
    ensures var (a, b) := (Bare("a").String(), Bare("b").String());
      a != b && Text.Less(a, b) && !Text.Less(b, a)
  {
    var p := "RW" + "-" + "all_squash" + "-";
    assert Text.Less("a", "b") && !Text.Less("b", "a");
    Text.LessBehind(p, "a", "b");
    Text.LessBehind(p, "b", "a");
    Text.LessIrreflexive(Bare("a").String());
    assert Bare("a").String() == p + "a" && Bare("b").String() == p + "b";
  }

  lemma BareSorted(up: bool)
    ensures var s := if up then [Bare("a"), Bare("b")] else [Bare("b"), Bare("a")];
      OnePriority(s) && Sorting.SortedBy(SortedOrder(up), s)
    ensures OnePriority([Bare("a")]) && Sorting.SortedBy(SortedOrder(up), [Bare("a")])
  {
    BareOrder();
  }

  /** A rule is removed only to be added again. */
  ghost predicate Readds(m: Merge) {
    exists a, r :: a in m.added && r in m.removed && a.String() == r.String()
  }

  /** In each of the other directions a rule with a supported access type is. */
  lemma NotExactHere(t: Limits, srcUp: bool, destUp: bool, src: seq<AccessGroupRule>, dest: seq<AccessGroupRule>)
    requires !(srcUp && destUp) && "all_squash" in t.Supported
    requires src == if srcUp then [Bare("a"), Bare("b")] else [Bare("b"), Bare("a")]
    requires dest == if destUp then [Bare("a"), Bare("b")] else if srcUp then [Bare("b"), Bare("a")] else [Bare("a")]
    ensures Readds(Run(t, Start(t, src, dest))) && !Exact(src, dest, Run(t, Start(t, src, dest)))
  {
    BareOrder();
    var (a, b) := (Bare("a"), Bare("b"));
    var m := Run(t, Start(t, src, dest));
    if srcUp {
      AddKeepRemove(t, a, b);
    } else if destUp {
      RemoveKeepAdd(t, a, b);
    } else {
      RemoveAddAdd(t, a, b);
    }
    var x :| x in m.added && x.String() == a.String();
    assert a in m.unmatched && a in m.removed;
    ExactIffDisjoint(t, src, dest);
  }

  /** Two rules in the order of their texts, the first supported. */
  ghost predicate TwoRules(t: Limits, a: AccessGroupRule, b: AccessGroupRule) {
    && a.String() != b.String() && Text.Less(a.String(), b.String()) && !Text.Less(b.String(), a.String())
    && a.UserAccessType in t.Supported
  }

  /** The rule `a` was removed, and added again. */
  ghost predicate ReaddsRule(m: Merge, a: AccessGroupRule) {
    a in m.removed && a in m.unmatched && exists x :: x in m.added && x.String() == a.String()
  }

  lemma LastStep(t: Limits, m: Merge)
    requires m.Valid() && m.Running() && !Step(t, m).Running()
    ensures Run(t, m) == Step(t, m)
  {
    assert Run(t, Step(t, m)) == Step(t, m);
  }

  lemma AddedLast(t: Limits, m: Merge)
    requires m.Valid() && m.i < |m.src| && m.src[m.i].UserAccessType in t.Supported
    ensures var n := AddStep(t, m);
      n.added != [] && n.added[|n.added| - 1].String() == m.src[m.i].String() && n.added[|n.added| - 1] in n.added
  {
  }

  lemma AddKeepRemove(t: Limits, a: AccessGroupRule, b: AccessGroupRule)
    requires TwoRules(t, a, b)
    ensures ReaddsRule(Run(t, Start(t, [a, b], [b, a])), a)
  {
    var m0 := Start(t, [a, b], [b, a]);
    var m1 := AddStep(t, m0);
    AddedLast(t, m0);
    assert Step(t, m0) == m1;
    var m2 := KeepStep(m1);
    assert Step(t, m1) == m2;
    LastStep(t, m2);
    assert Run(t, m0) == Run(t, m1) == Run(t, m2);
  }

  lemma RemoveKeepAdd(t: Limits, a: AccessGroupRule, b: AccessGroupRule)
    requires TwoRules(t, a, b)
    ensures ReaddsRule(Run(t, Start(t, [b, a], [a, b])), a)
  {
    var m0 := Start(t, [b, a], [a, b]);
    var m1 := RemoveStep(m0);
    assert Step(t, m0) == m1;
    var m2 := KeepStep(m1);
    assert Step(t, m1) == m2;
    LastStep(t, m2);
    AddedLast(t, m2);
    assert Run(t, m0) == Run(t, m1) == Run(t, m2);
  }

  lemma RemoveAddAdd(t: Limits, a: AccessGroupRule, b: AccessGroupRule)
    requires TwoRules(t, a, b)
    ensures ReaddsRule(Run(t, Start(t, [b, a], [a])), a)
  {
    var m0 := Start(t, [b, a], [a]);
    var m1 := RemoveStep(m0);
    assert Step(t, m0) == m1;
    var m2 := AddStep(t, m1);
    assert Step(t, m1) == m2;
    LastStep(t, m2);
    AddedLast(t, m2);
    assert Run(t, m0) == Run(t, m1) == Run(t, m2);
  }

  /** So it goes with Aliyun's bounds: the group has one rule, the source that rule and another, all of
      one priority; the rule is removed and added again. */
  lemma AliyunReadds()
    ensures SortedFor(AliyunLimits(), false, false, [Bare("b"), Bare("a")], [Bare("a")])
    ensures Readds(Run(AliyunLimits(), Start(AliyunLimits(), [Bare("b"), Bare("a")], [Bare("a")])))
  {
    BareSorted(false);
    assert AliyunLimits().Supported[0] == "all_squash";
    NotExactHere(AliyunLimits(), false, false, [Bare("b"), Bare("a")], [Bare("a")]);
  }

  // ---------- Nothing to do ----------

  function Texts(rules: seq<AccessGroupRule>): seq<string> { Mapped(TextOf, rules) }

  lemma TextsCons(s: seq<AccessGroupRule>, i: int)
    requires 0 <= i < |s|
    ensures Texts(s[i..]) == [s[i].String()] + Texts(s[i + 1..])
  {
    var whole, rest := Texts(s[i..]), Texts(s[i + 1..]);
    assert whole[0] == TextOf(s[i]);
    forall k | 0 <= k < |rest| ensures whole[k + 1] == rest[k] {
      assert s[i..][k + 1] == s[i + 1..][k];
    }
  }

  lemma StepMatchesIff(t: Limits, m: Merge)
    requires m.Valid() && m.Running()
    ensures var n := Step(t, m);
      Texts(m.src[m.i..]) == Texts(m.dest[m.j..])
      <==> n.i > m.i && n.j > m.j && Texts(n.src[n.i..]) == Texts(n.dest[n.j..])
  {
    var n := Step(t, m);
    if m.i < |m.src| && m.j < |m.dest| {
      TextsCons(m.src, m.i);
      TextsCons(m.dest, m.j);
      ConsEqual(m.src[m.i].String(), Texts(m.src[m.i + 1..]), m.dest[m.j].String(), Texts(m.dest[m.j + 1..]));
      if n.i > m.i && n.j > m.j {
        assert n.src[n.i..] == m.src[m.i + 1..] && n.dest[n.j..] == m.dest[m.j + 1..];
      }
    } else {
      assert |Texts(m.src[m.i..])| != |Texts(m.dest[m.j..])|;
    }
  }

  lemma {:induction false} RunMatchesAllIff(t: Limits, m: Merge)
    requires m.Valid()
    ensures var n := Run(t, m); |n.unmatched| >= |m.unmatched| && |n.removed| >= |m.removed|
    ensures var n := Run(t, m);
      |n.unmatched| == |m.unmatched| && |n.removed| == |m.removed| <==> Texts(m.src[m.i..]) == Texts(m.dest[m.j..])
    decreases |m.src| - m.i + |m.dest| - m.j
  {
    if m.Running() {
      StepMatchesIff(t, m);
      RunMatchesAllIff(t, Step(t, m));
    }
  }

  /** Nothing is unmatched or removed exactly when both sorted lists carry the same texts in the same order. */
  lemma NothingToDoIffSameTexts(t: Limits, src: seq<AccessGroupRule>, dest: seq<AccessGroupRule>)
    ensures var m := Run(t, Start(t, src, dest)); m.unmatched == [] && m.removed == [] <==> Texts(src) == Texts(dest)
  {
    RunMatchesAllIff(t, Start(t, src, dest));
    assert src[0..] == src && dest[0..] == dest;
  }

  /** When both sides hold the same rules, priorities and texts, and sort the same way,
      nothing is added and nothing removed, whatever the priorities. */
  lemma SameRulesNothingToDo(t: Limits, up: bool, src: seq<AccessGroupRule>, dest: seq<AccessGroupRule>)
    requires Sorting.SortedBy(SortedOrder(up), src) && Sorting.SortedBy(SortedOrder(up), dest)
    requires Image(Key, src) == Image(Key, dest)
    ensures var m := Run(t, Start(t, src, dest)); m.added == [] && m.removed == [] && m.unmatched == []
  {
    SameKeysSameTexts(up, src, dest);
    NothingToDoIffSameTexts(t, src, dest);
    MergeConserves(t, src, dest);
    assert |Cores(Run(t, Start(t, src, dest)).added)| == 0;
  }

  lemma SameKeysSameTexts(up: bool, src: seq<AccessGroupRule>, dest: seq<AccessGroupRule>)
    requires Sorting.SortedBy(SortedOrder(up), src) && Sorting.SortedBy(SortedOrder(up), dest)
    requires Image(Key, src) == Image(Key, dest)
    ensures Texts(src) == Texts(dest)
  {
    var s, d := Mapped(Key, src), Mapped(Key, dest);
    MappedImage(Key, src);
    MappedImage(Key, dest);
    OrdersAreOrders(up);
    KeysSorted(up, src);
    KeysSorted(up, dest);
    Sorting.SortedUnique(KeyOrder(up), s, d);
    TextsOfKeys(src, dest);
  }

  lemma TextsOfKeys(src: seq<AccessGroupRule>, dest: seq<AccessGroupRule>)
    requires Mapped(Key, src) == Mapped(Key, dest)
    ensures Texts(src) == Texts(dest)
  {
    var s, d := Mapped(Key, src), Mapped(Key, dest);
    assert |src| == |s| == |d| == |dest|;
    forall k | 0 <= k < |src| ensures Texts(src)[k] == Texts(dest)[k] {
      assert Key(src[k]) == s[k] == d[k] == Key(dest[k]);
      assert Texts(src)[k] == TextOf(src[k]) == Key(src[k]).1;
      assert Texts(dest)[k] == TextOf(dest[k]) == Key(dest[k]).1;
    }
  }

  lemma KeysSorted(up: bool, rules: seq<AccessGroupRule>)
    requires Sorting.SortedBy(SortedOrder(up), rules)
    ensures Sorting.SortedBy(KeyOrder(up), Mapped(Key, rules))
  {
    var keys := Mapped(Key, rules);
    forall i, j | 0 <= i < j < |keys| ensures !KeyOrder(up)(keys[j], keys[i]) {
      assert !SortedOrder(up)(rules[j], rules[i]);
    }
  }

  // ---------- Priorities ----------

  /** The first priority lies between the bounds exactly when they differ or are not positive. */
  lemma MiddleInBoundsIff(t: Limits)
    ensures t.InBounds(t.Middle()) <==> t.MinPriority != t.MaxPriority || t.MinPriority <= 0
  {
  }

  ghost predicate AllInBounds(t: Limits, m: Merge) {
    && m.Valid() && t.InBounds(m.priority)
    && (forall r :: r in m.added ==> t.InBounds(r.Priority))
    && (forall k :: m.j <= k < |m.dest| ==> t.InBounds(m.dest[k].Priority))
  }

  lemma {:induction false} RunStaysInBounds(t: Limits, m: Merge)
    requires AllInBounds(t, m)
    ensures AllInBounds(t, Run(t, m))
    decreases |m.src| - m.i + |m.dest| - m.j
  {
    if m.Running() {
      RunStaysInBounds(t, Step(t, m));
    }
  }

  ghost predicate AddsStayInBounds(t: Limits) {
    forall src: seq<AccessGroupRule>, dest: seq<AccessGroupRule> ::
      RulesInBounds(t, dest) ==> RulesInBounds(t, Run(t, Start(t, src, dest)).added)
  }

  ghost predicate RulesInBounds(t: Limits, rules: seq<AccessGroupRule>) {
    forall r :: r in rules ==> t.InBounds(r.Priority)
  }

  /** Every added priority lies between the bounds, whenever the destination's do, exactly
      when the bounds differ or are not positive, or no rule can be added at all. */
  lemma AddsStayInBoundsIff(t: Limits)
    ensures AddsStayInBounds(t) <==> t.MinPriority != t.MaxPriority || t.MinPriority <= 0 || t.Supported == []
  {
    MiddleInBoundsIff(t);
    if t.MinPriority != t.MaxPriority || t.MinPriority <= 0 {
      forall src: seq<AccessGroupRule>, dest: seq<AccessGroupRule> | RulesInBounds(t, dest)
        ensures RulesInBounds(t, Run(t, Start(t, src, dest)).added)
      {
        RunStaysInBounds(t, Start(t, src, dest));
      }
    } else if t.Supported == [] {
      forall src: seq<AccessGroupRule>, dest: seq<AccessGroupRule>
        ensures Run(t, Start(t, src, dest)).added == []
      {
        NoneSupported(t, Start(t, src, dest));
      }
    } else {
      var r := Bare("a").(UserAccessType := t.Supported[0]);
      var m0 := Start(t, [r], []);
      var m1 := Step(t, m0);
      assert Run(t, m1) == m1 && Run(t, m0) == m1;
      assert m1.added == [r.(Priority := t.NextPriority(t.Middle()))];
      assert m1.added[0] in m1.added && !t.InBounds(m1.added[0].Priority);
      assert RulesInBounds(t, []);
    }
  }

  lemma {:induction false} NoneSupported(t: Limits, m: Merge)
    requires m.Valid() && t.Supported == []
    ensures Run(t, m).added == m.added
    decreases |m.src| - m.i + |m.dest| - m.j
  {
    if m.Running() {
      NoneSupported(t, Step(t, m));
    }
  }
}
