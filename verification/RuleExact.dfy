/** When the rule merge answers with exactly what two lists have in common and what they have not. */
module RuleExact {
  import opened Images
  import opened SecRules
  import opened RuleMerge
  import opened RuleMergeProofs
  import Text

  lemma BaseText(show: RuleBody -> string, r: SecurityRule)
    ensures Base(r).String(show) == r.String(show)
  {
  }

  /** The texts of both lists are accounted for. */
  lemma TextsAccounted(show: RuleBody -> string, t: Target, src: seq<SecurityRule>, dest: seq<SecurityRule>)
    ensures var (m, text) := (Run(show, t, Start(t, src, dest)), TextOf(show));
      && Image(text, m.common) + Image(text, m.del) == Image(text, dest)
      && Image(text, m.common) + Image(text, m.add) == Image(text, src)
  {
    MergeConserves(show, t, src, dest);
    var m := Run(show, t, Start(t, src, dest));
    forall r: SecurityRule ensures TextOf(show)(r) == TextOf(show)(Base(r)) {
      BaseText(show, r);
    }
    Coarser(Base, TextOf(show), TextOf(show), m.common, m.del, dest);
    Coarser(Label(show), (l: (string, string)) => l.0, TextOf(show), m.common, m.add, src);
  }

  lemma Coarser<A, B, C>(f: A -> B, h: B -> C, g: A -> C, a: seq<A>, b: seq<A>, c: seq<A>)
    requires Image(f, a) + Image(f, b) == Image(f, c)
    requires forall r :: g(r) == h(f(r))
    ensures Image(g, a) + Image(g, b) == Image(g, c)
  {
    ImageConcat(f, a, b);
    ImageFactors(f, h, r => true, g, r => true, a + b, c);
    FilterAll((r: A) => true, a + b);
    FilterAll((r: A) => true, c);
    ImageConcat(g, a, b);
  }

  /** The kept rules are the multiset intersection of both sides, the others the differences. */
  ghost predicate Exact(show: RuleBody -> string, src: seq<SecurityRule>, dest: seq<SecurityRule>, m: Merge) {
    var (s, d) := (Image(TextOf(show), src), Image(TextOf(show), dest));
    && Image(TextOf(show), m.common) == s * d
    && Image(TextOf(show), m.add) == s - d
    && Image(TextOf(show), m.del) == d - s
  }

  /** No text is both deleted and added. */
  ghost predicate Disjoint(show: RuleBody -> string, m: Merge) {
    forall a, d :: a in m.add && d in m.del ==> a.String(show) != d.String(show)
  }

  /** The merge is exact if and only if no text is deleted only to be added again. */
  lemma ExactIffDisjoint(show: RuleBody -> string, t: Target, src: seq<SecurityRule>, dest: seq<SecurityRule>)
    ensures var m := Run(show, t, Start(t, src, dest)); Exact(show, src, dest, m) <==> Disjoint(show, m)
  {
    TextsAccounted(show, t, src, dest);
    var (m, text) := (Run(show, t, Start(t, src, dest)), TextOf(show));
    DisjointIff(show, m);
    DifferencesIff(Image(text, src), Image(text, dest), Image(text, m.common), Image(text, m.add), Image(text, m.del));
  }

  lemma DisjointIff(show: RuleBody -> string, m: Merge)
    ensures Disjoint(show, m) <==> Image(TextOf(show), m.add) !! Image(TextOf(show), m.del)
  {
    DisjointImages(TextOf(show), m.add, m.del);
    forall a, d ensures TextOf(show)(a) != TextOf(show)(d) <==> a.String(show) != d.String(show) {
    }
  }

  /** The texts ascend. */
  ghost predicate TextsAscend(show: RuleBody -> string, rules: seq<SecurityRule>) {
    forall k, l :: 0 <= k < l < |rules| ==> !Text.Less(rules[l].String(show), rules[k].String(show))
  }

  /** Everything set aside lies below everything still to be read on the other side. */
  ghost predicate SetApart(show: RuleBody -> string, src0: seq<SecurityRule>, dest0: seq<SecurityRule>, m: Merge) {
    && 0 <= m.i && 0 <= m.j
    && (forall a, l :: a in m.add && m.j <= l < |dest0| ==> Text.Less(a.String(show), dest0[l].String(show)))
    && (forall d, k :: d in m.del && m.i <= k < |src0| ==> Text.Less(d.String(show), src0[k].String(show)))
    && Disjoint(show, m)
  }

  lemma BelowAll(show: RuleBody -> string, x: string, rules: seq<SecurityRule>, k: int)
    requires TextsAscend(show, rules) && 0 <= k < |rules| && Text.Less(x, rules[k].String(show))
    ensures forall l :: k <= l < |rules| ==> Text.Less(x, rules[l].String(show))
  {
    forall l | k <= l < |rules| ensures Text.Less(x, rules[l].String(show)) {
      Text.LessTotal(rules[k].String(show), rules[l].String(show));
      if k < l && Text.Less(rules[k].String(show), rules[l].String(show)) {
        Text.LessTransitive(x, rules[k].String(show), rules[l].String(show));
      }
    }
  }

  lemma DeleteSetsApart(show: RuleBody -> string, src0: seq<SecurityRule>, dest0: seq<SecurityRule>, m: Merge)
    requires TextsAscend(show, src0) && Unread(src0, dest0, m) && SetApart(show, src0, dest0, m) && m.j < |m.dest|
    requires m.i >= |m.src| || Text.Less(m.dest[m.j].String(show), m.src[m.i].String(show))
    ensures SetApart(show, src0, dest0, DeleteStep(m))
  {
    var d := m.dest[m.j];
    if m.i < |m.src| {
      BelowAll(show, d.String(show), src0, m.i);
    }
    forall a | a in m.add ensures a.String(show) != d.String(show) {
      Text.LessIrreflexive(d.String(show));
    }
  }

  /** Additions keep their texts through a step, and the new one has its source rule's. */
  lemma AddedTexts(show: RuleBody -> string, t: Target, m: Merge, a: SecurityRule)
    requires m.Valid() && m.i < |m.src| && a in AddStep(t, m).add
    ensures a.String(show) == m.src[m.i].String(show) || exists b :: b in m.add && b.String(show) == a.String(show)
  {
    var n := AddStep(t, m);
    var x :| 0 <= x < |n.add| && n.add[x] == a;
    if x < |m.add| {
      assert m.add[x] in m.add && m.add[x].String(show) == a.String(show);
    }
  }

  lemma AddSetsApart(show: RuleBody -> string, t: Target, src0: seq<SecurityRule>, dest0: seq<SecurityRule>, m: Merge)
    requires TextsAscend(show, dest0) && Unread(src0, dest0, m) && SetApart(show, src0, dest0, m) && m.i < |m.src|
    requires m.j >= |m.dest| || Text.Less(m.src[m.i].String(show), m.dest[m.j].String(show))
    ensures SetApart(show, src0, dest0, AddStep(t, m))
  {
    var (n, s) := (AddStep(t, m), m.src[m.i].String(show));
    if m.j < |m.dest| {
      BelowAll(show, s, dest0, m.j);
    }
    forall a, l | a in n.add && n.j <= l < |dest0| ensures Text.Less(a.String(show), dest0[l].String(show)) {
      AddedTexts(show, t, m, a);
    }
    forall a, d | a in n.add && d in n.del ensures a.String(show) != d.String(show) {
      AddedTexts(show, t, m, a);
      Text.LessIrreflexive(s);
    }
  }

  lemma StepSetsApart(show: RuleBody -> string, t: Target, src0: seq<SecurityRule>, dest0: seq<SecurityRule>, m: Merge)
    requires TextsAscend(show, src0) && TextsAscend(show, dest0)
    requires Unread(src0, dest0, m) && SetApart(show, src0, dest0, m) && m.Running()
    ensures SetApart(show, src0, dest0, Step(show, t, m))
  {
    if m.i < |m.src| && m.j < |m.dest| {
      var (d, s) := (m.dest[m.j].String(show), m.src[m.i].String(show));
      Text.LessTotal(d, s);
      if Text.Less(d, s) {
        Text.LessIrreflexive(d);
        DeleteSetsApart(show, src0, dest0, m);
      } else if d != s {
        AddSetsApart(show, t, src0, dest0, m);
      }
    } else if m.i >= |m.src| {
      DeleteSetsApart(show, src0, dest0, m);
    } else {
      AddSetsApart(show, t, src0, dest0, m);
    }
  }

  lemma {:induction false} RunSetsApart(show: RuleBody -> string, t: Target, src0: seq<SecurityRule>,
                                        dest0: seq<SecurityRule>, m: Merge)
    requires TextsAscend(show, src0) && TextsAscend(show, dest0)
    requires Unread(src0, dest0, m) && SetApart(show, src0, dest0, m)
    ensures Disjoint(show, Run(show, t, m))
    decreases |m.src| - m.i + |m.dest| - m.j
  {
    if m.Running() {
      StepSetsApart(show, t, src0, dest0, m);
      StepUnread(show, t, src0, dest0, m);
      RunSetsApart(show, t, src0, dest0, Step(show, t, m));
    }
  }

  /** When the texts of both lists ascend, the merge is exact. */
  lemma AscendingIsExact(show: RuleBody -> string, t: Target, src: seq<SecurityRule>, dest: seq<SecurityRule>)
    requires TextsAscend(show, src) && TextsAscend(show, dest)
    ensures Exact(show, src, dest, Run(show, t, Start(t, src, dest)))
  {
    RunSetsApart(show, t, src, dest, Start(t, src, dest));
    ExactIffDisjoint(show, t, src, dest);
  }

  /** Added rules bear the destination's bounds. */
  ghost predicate AllTagged(t: Target, rules: seq<SecurityRule>) {
    forall r :: r in rules ==> r.minPriority == t.MinPriority && r.maxPriority == t.MaxPriority
  }

  lemma AddTags(t: Target, m: Merge)
    requires m.Valid() && m.i < |m.src| && AllTagged(t, m.add)
    ensures AllTagged(t, AddStep(t, m).add)
  {
    var n := AddStep(t, m);
    forall x | 0 <= x < |n.add|
      ensures n.add[x].minPriority == t.MinPriority && n.add[x].maxPriority == t.MaxPriority
    {
      if x < |m.add| {
        assert m.add[x] in m.add;
      }
    }
  }

  lemma {:induction false} RunTags(show: RuleBody -> string, t: Target, m: Merge)
    requires m.Valid() && AllTagged(t, m.add)
    ensures AllTagged(t, Run(show, t, m).add)
    decreases |m.src| - m.i + |m.dest| - m.j
  {
    if m.Running() {
      if m.i < |m.src| {
        AddTags(t, m);
      }
      RunTags(show, t, Step(show, t, m));
    }
  }

  lemma AddedTagged(show: RuleBody -> string, t: Target, src: seq<SecurityRule>, dest: seq<SecurityRule>)
    ensures AllTagged(t, Run(show, t, Start(t, src, dest)).add)
  {
    RunTags(show, t, Start(t, src, dest));
  }
}
