/** What every run of the rule merge guarantees. */
module RuleMergeProofs {
  import opened Images
  import opened SecRules
  import opened RuleMerge
  import Text

  // ---------- What a rule keeps through the merge ----------

  /** The rule with its shifts undone. */
  function Unshifted(r: SecurityRule): SecurityRule {
    r.WithPriority(r.Priority() - r.offset).(offset := 0)
  }

  /** The rule up to its Id and its shifts. */
  function Base(r: SecurityRule): SecurityRule {
    Unshifted(r).(Id := "")
  }

  function TextOf(show: RuleBody -> string): SecurityRule -> string {
    (r: SecurityRule) => r.String(show)
  }

  /** The rule's text and the Id it carries. */
  function Label(show: RuleBody -> string): SecurityRule -> (string, string) {
    (r: SecurityRule) => (r.String(show), r.Id)
  }

  /** The rule up to the numbers the merge assigns. */
  function Core(r: SecurityRule): SecurityRule {
    r.WithPriority(0).WithBounds(0, 0).(offset := 0)
  }

  function Texts(show: RuleBody -> string, rules: seq<SecurityRule>): seq<string> {
    seq(|rules|, n requires 0 <= n < |rules| => rules[n].String(show))
  }

  // ---------- Conservation ----------

  /** The rules not read yet are as they were. */
  ghost predicate Unread(src0: seq<SecurityRule>, dest0: seq<SecurityRule>, m: Merge) {
    && m.Valid() && |m.src| == |src0| && |m.dest| == |dest0|
    && (forall k :: m.i <= k < |src0| ==> m.src[k] == src0[k])
    && (forall k :: m.j <= k < |dest0| ==> m.dest[k] == dest0[k])
  }

  ghost predicate DeletedVerbatim(dest0: seq<SecurityRule>, m: Merge) {
    forall r :: r in m.del ==> r in dest0
  }

  /** The rule is the one assigned, moved by the shifts it has been through since. */
  predicate ShiftedSince(a: SecurityRule, given: SecurityRule) {
    a == given.AddPriority(a.offset - given.offset)
  }

  /** The added rule is a source rule, renumbered. */
  predicate AddedFrom(src0: seq<SecurityRule>, src: seq<SecurityRule>, a: SecurityRule, from: int) {
    && 0 <= from < |src0| == |src| && Core(a) == Core(src0[from])
    && src[from].offset == src0[from].offset && ShiftedSince(a, src[from])
  }

  /** The added rules are source rules in their order, renumbered: each is the rule that was
      written back to the source list when it was added, with the offset it came with, and
      shifted since. */
  ghost predicate AddsInOrder(src0: seq<SecurityRule>, src: seq<SecurityRule>, i: int,
                              add: seq<SecurityRule>, addFrom: seq<int>) {
    && |addFrom| == |add| && |src| == |src0| && 0 <= i <= |src0|
    && (forall k, l :: 0 <= k < l < |addFrom| ==> addFrom[k] < addFrom[l])
    && (forall k :: 0 <= k < |addFrom| ==> 0 <= addFrom[k] < i)
    && (forall k :: 0 <= k < |addFrom| ==> AddedFrom(src0, src, add[k], addFrom[k]))
  }

  lemma AddStepInOrder(t: Target, src0: seq<SecurityRule>, m: Merge)
    requires m.Valid() && AddsInOrder(src0, m.src, m.i, m.add, m.addFrom)
    requires m.i < |m.src| && m.src[m.i] == src0[m.i]
    ensures var n := AddStep(t, m); AddsInOrder(src0, n.src, n.i, n.add, n.addFrom)
  {
    var (n, k) := (AddStep(t, m), if Fires(t, m) then t.GetOffset(m.priority).1 else 0);
    forall x | 0 <= x < |n.add| ensures AddedFrom(src0, n.src, n.add[x], n.addFrom[x]) {
      if x < |m.add| {
        assert n.add[x] == m.add[x].AddPriority(k);
        ShiftKeeps(src0, m.src, m.i, n.src[m.i], m.add[x], m.addFrom[x], k);
      } else {
        NewRule(src0, m.src, m.i, n.src[m.i].Priority(), t.MinPriority, t.MaxPriority);
      }
    }
  }

  lemma ShiftKeeps(src0: seq<SecurityRule>, src: seq<SecurityRule>, i: int, r: SecurityRule,
                   a: SecurityRule, from: int, k: int)
    requires AddedFrom(src0, src, a, from) && from < i < |src|
    ensures AddedFrom(src0, src[i := r], a.AddPriority(k), from)
  {
  }

  lemma NewRule(src0: seq<SecurityRule>, src: seq<SecurityRule>, i: int, p: int, min: int, max: int)
    requires 0 <= i < |src0| == |src| && src[i] == src0[i]
    ensures var r := src[i].WithPriority(p).WithBounds(min, max); AddedFrom(src0, src[i := r], r, i)
  {
  }

  /** What was read of the destination was kept or deleted; what was read of the
      source was kept or added. */
  ghost predicate Conserved(show: RuleBody -> string, src0: seq<SecurityRule>, dest0: seq<SecurityRule>, m: Merge) {
    && Accounts(Base, m.common, m.del, dest0, m.j)
    && Accounts(Label(show), m.common, m.add, src0, m.i)
  }

  lemma KeepConserves(show: RuleBody -> string, src0: seq<SecurityRule>, dest0: seq<SecurityRule>, m: Merge)
    requires Unread(src0, dest0, m) && Conserved(show, src0, dest0, m) && m.i < |m.src| && m.j < |m.dest|
    requires m.dest[m.j].String(show) == m.src[m.i].String(show)
    ensures Conserved(show, src0, dest0, KeepStep(m))
  {
    var r := m.dest[m.j].(Id := m.src[m.i].Id);
    AccountLeft(Base, m.common, m.del, dest0, m.j, r);
    AccountLeft(Label(show), m.common, m.add, src0, m.i, r);
  }

  lemma DeleteConserves(show: RuleBody -> string, src0: seq<SecurityRule>, dest0: seq<SecurityRule>, m: Merge)
    requires Unread(src0, dest0, m) && Conserved(show, src0, dest0, m) && m.j < |m.dest|
    ensures Conserved(show, src0, dest0, DeleteStep(m))
  {
    AccountRight(Base, m.common, m.del, dest0, m.j, m.dest[m.j]);
  }

  lemma AddConserves(show: RuleBody -> string, t: Target, src0: seq<SecurityRule>, dest0: seq<SecurityRule>, m: Merge)
    requires Unread(src0, dest0, m) && Conserved(show, src0, dest0, m) && m.i < |m.src|
    ensures Conserved(show, src0, dest0, AddStep(t, m))
  {
    var n := AddStep(t, m);
    var k := if Fires(t, m) then t.GetOffset(m.priority).1 else 0;
    var r := n.src[m.i];
    AccountShiftedBase(m.common, m.del, dest0, m.j, k);
    AccountShiftedLabel(show, m.common, m.add, src0, m.i, k);
    assert Label(show)(r) == Label(show)(src0[m.i]);
    AccountRight(Label(show), Shift(m.common, k), Shift(m.add, k), src0, m.i, r);
  }

  lemma AccountShiftedBase(common: seq<SecurityRule>, del: seq<SecurityRule>, dest: seq<SecurityRule>, j: int, k: int)
    requires Accounts(Base, common, del, dest, j)
    ensures Accounts(Base, Shift(common, k), del, dest, j)
  {
    AccountReplaced(Base, common, del, Shift(common, k), del, dest, j);
  }

  lemma AccountShiftedLabel(show: RuleBody -> string, common: seq<SecurityRule>, add: seq<SecurityRule>,
                            src: seq<SecurityRule>, i: int, k: int)
    requires Accounts(Label(show), common, add, src, i)
    ensures Accounts(Label(show), Shift(common, k), Shift(add, k), src, i)
  {
    AccountReplaced(Label(show), common, add, Shift(common, k), Shift(add, k), src, i);
  }

  lemma StepConserves(show: RuleBody -> string, t: Target, src0: seq<SecurityRule>, dest0: seq<SecurityRule>, m: Merge)
    requires Unread(src0, dest0, m) && Conserved(show, src0, dest0, m) && m.Running()
    ensures Conserved(show, src0, dest0, Step(show, t, m))
  {
    if m.i >= |m.src| || (m.j < |m.dest| && Text.Less(m.dest[m.j].String(show), m.src[m.i].String(show))) {
      DeleteConserves(show, src0, dest0, m);
    }
    if m.i < |m.src| {
      AddConserves(show, t, src0, dest0, m);
      if m.j < |m.dest| && m.dest[m.j].String(show) == m.src[m.i].String(show) {
        KeepConserves(show, src0, dest0, m);
      }
    }
  }

  lemma StepUnread(show: RuleBody -> string, t: Target, src0: seq<SecurityRule>, dest0: seq<SecurityRule>, m: Merge)
    requires Unread(src0, dest0, m) && m.Running()
    ensures Unread(src0, dest0, Step(show, t, m))
  {
  }

  lemma {:induction false} RunConserves(show: RuleBody -> string, t: Target,
                                        src0: seq<SecurityRule>, dest0: seq<SecurityRule>, m: Merge)
    requires Unread(src0, dest0, m) && Conserved(show, src0, dest0, m)
    ensures var n := Run(show, t, m); Conserved(show, src0, dest0, n) && n.i == |src0| && n.j == |dest0|
    decreases |m.src| - m.i + |m.dest| - m.j
  {
    if m.Running() {
      StepConserves(show, t, src0, dest0, m);
      StepUnread(show, t, src0, dest0, m);
      RunConserves(show, t, src0, dest0, Step(show, t, m));
    }
  }

  lemma {:induction false} RunInOrder(show: RuleBody -> string, t: Target,
                                      src0: seq<SecurityRule>, dest0: seq<SecurityRule>, m: Merge)
    requires Unread(src0, dest0, m) && DeletedVerbatim(dest0, m)
    requires AddsInOrder(src0, m.src, m.i, m.add, m.addFrom)
    ensures var n := Run(show, t, m); DeletedVerbatim(dest0, n) && AddsInOrder(src0, n.src, n.i, n.add, n.addFrom)
    decreases |m.src| - m.i + |m.dest| - m.j
  {
    if m.Running() {
      var n := Step(show, t, m);
      if n.i > m.i && n.j == m.j {
        AddStepInOrder(t, src0, m);
      }
      RunInOrder(show, t, src0, dest0, n);
    }
  }

  /** The merge conserves rules: kept and deleted rules are together the destination
      list up to ids and shifts, and kept and added rules carry exactly the texts and
      ids of the source list. */
  ghost predicate Conserves(show: RuleBody -> string, src: seq<SecurityRule>, dest: seq<SecurityRule>,
                            common: seq<SecurityRule>, add: seq<SecurityRule>, del: seq<SecurityRule>) {
    && Image(Base, common) + Image(Base, del) == Image(Base, dest)
    && Image(Label(show), common) + Image(Label(show), add) == Image(Label(show), src)
  }

  lemma MergeConserves(show: RuleBody -> string, t: Target, src: seq<SecurityRule>, dest: seq<SecurityRule>)
    ensures var m := Run(show, t, Start(t, src, dest));
      Conserves(show, src, dest, m.common, m.add, m.del) && DeletedVerbatim(dest, m)
  {
    RunConserves(show, t, src, dest, Start(t, src, dest));
    RunInOrder(show, t, src, dest, Start(t, src, dest));
    var m := Run(show, t, Start(t, src, dest));
    AccountAll(Base, m.common, m.del, dest, m.j);
    AccountAll(Label(show), m.common, m.add, src, m.i);
  }

  /** Added rules are source rules in their order. Each holds the priority the merge assigned to it in
      the source list, moved by exactly what its offset has grown by; for a rule that enters with
      offset 0, its priority less its offset is the priority assigned. */
  lemma AddedAsAssigned(show: RuleBody -> string, t: Target, src: seq<SecurityRule>, dest: seq<SecurityRule>)
    ensures var m := Run(show, t, Start(t, src, dest));
      && AddsInOrder(src, m.src, |src|, m.add, m.addFrom)
      && (forall k :: 0 <= k < |m.add| ==>
            m.add[k].Priority() - (m.add[k].offset - src[m.addFrom[k]].offset) == m.src[m.addFrom[k]].Priority())
  {
    RunInOrder(show, t, src, dest, Start(t, src, dest));
    var m := Run(show, t, Start(t, src, dest));
    forall k | 0 <= k < |m.add|
      ensures m.add[k].Priority() - (m.add[k].offset - src[m.addFrom[k]].offset) == m.src[m.addFrom[k]].Priority()
    {
      assert ShiftedSince(m.add[k], m.src[m.addFrom[k]]);
    }
  }

  // ---------- Nothing to do exactly when the lists agree ----------

  lemma {:induction false} RunGrows(show: RuleBody -> string, t: Target, m: Merge)
    requires m.Valid()
    ensures var n := Run(show, t, m); |n.add| >= |m.add| && |n.del| >= |m.del| && |n.common| >= |m.common|
    decreases |m.src| - m.i + |m.dest| - m.j
  {
    if m.Running() {
      RunGrows(show, t, Step(show, t, m));
    }
  }

  /** The unread lists carry the same texts exactly when the step keeps and those after it do. */
  lemma StepMatchesIff(show: RuleBody -> string, t: Target, m: Merge)
    requires m.Valid() && m.Running()
    ensures var n := Step(show, t, m);
      Texts(show, m.src[m.i..]) == Texts(show, m.dest[m.j..])
      <==> n.i > m.i && n.j > m.j && Texts(show, n.src[n.i..]) == Texts(show, n.dest[n.j..])
  {
    var n := Step(show, t, m);
    if m.i < |m.src| && m.j < |m.dest| {
      TextsCons(show, m.src, m.i);
      TextsCons(show, m.dest, m.j);
      ConsEqual(m.src[m.i].String(show), Texts(show, m.src[m.i + 1..]), m.dest[m.j].String(show),
                Texts(show, m.dest[m.j + 1..]));
      if n.i > m.i && n.j > m.j {
        assert n.src[n.i..] == m.src[m.i + 1..] && n.dest[n.j..] == m.dest[m.j + 1..];
      }
    } else {
      assert |Texts(show, m.src[m.i..])| != |Texts(show, m.dest[m.j..])|;
    }
  }

  lemma {:induction false} RunMatchesAllIff(show: RuleBody -> string, t: Target, m: Merge)
    requires m.Valid()
    ensures var n := Run(show, t, m);
      |n.add| == |m.add| && |n.del| == |m.del| <==> Texts(show, m.src[m.i..]) == Texts(show, m.dest[m.j..])
    decreases |m.src| - m.i + |m.dest| - m.j
  {
    if m.Running() {
      var n := Step(show, t, m);
      StepMatchesIff(show, t, m);
      RunGrows(show, t, n);
      RunMatchesAllIff(show, t, n);
    }
  }

  lemma TextsCons(show: RuleBody -> string, s: seq<SecurityRule>, i: int)
    requires 0 <= i < |s|
    ensures Texts(show, s[i..]) == [s[i].String(show)] + Texts(show, s[i + 1..])
  {
  }

  /** The merge adds and deletes nothing exactly when both lists carry the same texts in the same order. */
  lemma NothingToDoIffSameTexts(show: RuleBody -> string, t: Target, src: seq<SecurityRule>, dest: seq<SecurityRule>)
    ensures var m := Run(show, t, Start(t, src, dest));
      m.add == [] && m.del == [] <==> Texts(show, src) == Texts(show, dest)
  {
    RunMatchesAllIff(show, t, Start(t, src, dest));
    assert src[0..] == src && dest[0..] == dest;
  }

  // ---------- Assigned priorities ----------

  ghost predicate RunWithin(t: Target, m: Merge) {
    && m.Valid() && t.Within(m.priority)
    && (forall k :: 0 <= k < |m.add| ==> t.Within(m.add[k].Priority()))
    && (forall k :: m.j <= k < |m.dest| && m.dest[k].ExternalId != DEFAULT_DEST_RULE_ID ==>
          t.Within(m.dest[k].Priority()))
  }

  lemma {:induction false} RunStaysWithin(show: RuleBody -> string, t: Target, m: Merge)
    requires RunWithin(t, m)
    ensures RunWithin(t, Run(show, t, m))
    decreases |m.src| - m.i + |m.dest| - m.j
  {
    if m.Running() {
      RunStaysWithin(show, t, Step(show, t, m));
    }
  }

  /** Through every back-shift no added rule passes MaxPriority in the provider's
      direction, as long as no real destination rule has. */
  lemma AddedStayWithin(show: RuleBody -> string, t: Target, src: seq<SecurityRule>, dest: seq<SecurityRule>)
    requires forall r :: r in dest && r.ExternalId != DEFAULT_DEST_RULE_ID ==> t.Within(r.Priority())
    ensures forall r :: r in Run(show, t, Start(t, src, dest)).add ==> t.Within(r.Priority())
  {
    RunStaysWithin(show, t, Start(t, src, dest));
  }

  /** How far the priority must move between the source rules `k - 1` and `k`. */
  function Jump(t: Target, src0: seq<SecurityRule>, src: seq<SecurityRule>, k: int): int
    requires 0 < k < |src0| == |src|
  {
    if !t.IsOnlySupportAllowRules && src[k - 1].Priority() != src0[k].Priority() then t.Direction() else 0
  }

  /** While nothing matches, the added rules climb by exactly the jumps. */
  ghost predicate Climbing(t: Target, src0: seq<SecurityRule>, src: seq<SecurityRule>, priority: int,
                           add: seq<SecurityRule>) {
    && |src| == |src0| && |add| <= |src0|
    && (add != [] ==> add[|add| - 1].Priority() == priority == src[|add| - 1].Priority())
    && (forall k :: 0 < k < |add| ==> add[k].Priority() - add[k - 1].Priority() == Jump(t, src0, src, k))
  }

  /** All source rules read so far were added. */
  ghost predicate NoMatchYet(t: Target, src0: seq<SecurityRule>, m: Merge) {
    && m.Valid() && m.common == [] && |m.add| == m.i && |m.src| == |src0|
    && (forall k :: m.i <= k < |src0| ==> m.src[k] == src0[k])
    && (forall k :: 0 <= k < m.i ==> Core(m.add[k]) == Core(src0[k]))
    && Climbing(t, src0, m.src, m.priority, m.add)
  }

  lemma ShiftClimbs(t: Target, src0: seq<SecurityRule>, src: seq<SecurityRule>, priority: int,
                    add: seq<SecurityRule>, k: int, r: SecurityRule, p: int)
    requires Climbing(t, src0, src, priority, add) && |add| < |src0| && r.Priority() == p
    requires add != [] ==> p - (priority + k) == Jump(t, src0, src, |add|)
    ensures Climbing(t, src0, src[|add| := r], p, Shift(add, k) + [r])
  {
    var add1, src1 := Shift(add, k) + [r], src[|add| := r];
    forall x | 0 < x < |add1| ensures add1[x].Priority() - add1[x - 1].Priority() == Jump(t, src0, src1, x) {
      assert add1[x - 1].Priority() == add[x - 1].Priority() + k;
      assert x < |add| ==> add1[x].Priority() == add[x].Priority() + k;
      assert src1[x - 1] == src[x - 1];
    }
  }

  lemma AddClimbs(t: Target, src0: seq<SecurityRule>, m: Merge)
    requires NoMatchYet(t, src0, m) && m.i < |m.src|
    ensures NoMatchYet(t, src0, AddStep(t, m))
  {
    var (p, k) := if Fires(t, m) then t.GetOffset(m.priority) else (m.priority, 0);
    var r := m.src[m.i].WithPriority(p).WithBounds(t.MinPriority, t.MaxPriority);
    ShiftClimbs(t, src0, m.src, m.priority, m.add, k, r, p);
    CoresShifted(src0, m.add, k, r);
  }

  lemma CoresShifted(src0: seq<SecurityRule>, add: seq<SecurityRule>, k: int, r: SecurityRule)
    requires |add| < |src0| && Core(r) == Core(src0[|add|])
    requires forall x :: 0 <= x < |add| ==> Core(add[x]) == Core(src0[x])
    ensures var more := Shift(add, k) + [r]; forall x :: 0 <= x < |more| ==> Core(more[x]) == Core(src0[x])
  {
    var more := Shift(add, k) + [r];
    forall x | 0 <= x < |more| ensures Core(more[x]) == Core(src0[x]) {
      assert x < |add| ==> more[x] == add[x].AddPriority(k);
    }
  }

  lemma {:induction false} RunClimbs(show: RuleBody -> string, t: Target, src0: seq<SecurityRule>, m: Merge)
    requires NoMatchYet(t, src0, m)
    ensures Run(show, t, m).common == [] ==> NoMatchYet(t, src0, Run(show, t, m))
    decreases |m.src| - m.i + |m.dest| - m.j
  {
    if m.Running() {
      var n := Step(show, t, m);
      if n.common != [] {
        RunGrows(show, t, n);
      } else {
        if n.i > m.i {
          AddClimbs(t, src0, m);
        }
        RunClimbs(show, t, src0, n);
      }
    }
  }

  /** When no rule matches, the whole source list is added in its order, and the final
      priorities move by one towards MaxPriority exactly where the test fired, back-shifts included. */
  lemma UnmatchedClimb(show: RuleBody -> string, t: Target, src: seq<SecurityRule>, dest: seq<SecurityRule>)
    ensures var m := Run(show, t, Start(t, src, dest));
      m.common == [] ==>
        && |m.add| == |src| == |m.src|
        && (forall k :: 0 <= k < |src| ==> Core(m.add[k]) == Core(src[k]))
        && (forall k :: 0 < k < |src| ==> m.add[k].Priority() - m.add[k - 1].Priority() == Jump(t, src, m.src, k))
  {
    RunClimbs(show, t, src, Start(t, src, dest));
  }
}
