/** The priorities that a run of the rule merge hands out: when they stay between the bounds, and
    when the rules kept and added follow the order of the source. */
module RulePriorities {
  import opened SecRules
  import opened RuleMerge
  import opened RuleMergeProofs
  import Text

  // ---------- The bound the priorities move towards ----------

  ghost predicate AllWithin(t: Target, rules: seq<SecurityRule>) {
    forall r :: r in rules ==> t.Within(r.Priority())
  }

  predicate IsReal(r: SecurityRule) { r.ExternalId != DEFAULT_DEST_RULE_ID }

  ghost predicate RealWithin(t: Target, dest: seq<SecurityRule>) {
    forall r :: r in dest && IsReal(r) ==> t.Within(r.Priority())
  }

  /** Whatever the source, through every back-shift, no added rule passes MaxPriority in the
      provider's direction, if and only if no real destination rule has passed it. */
  lemma AddsWithinIff(show: RuleBody -> string, t: Target, dest: seq<SecurityRule>)
    ensures (forall src: seq<SecurityRule> :: AllWithin(t, Run(show, t, Start(t, src, dest)).add))
      <==> RealWithin(t, dest)
  {
    if RealWithin(t, dest) {
      forall src: seq<SecurityRule> ensures AllWithin(t, Run(show, t, Start(t, src, dest)).add) {
        AddedStayWithin(show, t, src, dest);
      }
    } else {
      var r :| r in dest && IsReal(r) && !t.Within(r.Priority());
      var k :| 0 <= k < |dest| && dest[k] == r;
      var src := Follower(show, dest, k);
      FollowerAdded(show, t, dest, k);
      assert Run(show, t, Start(t, src, dest)).add[0] in Run(show, t, Start(t, src, dest)).add;
    }
  }

  /** Longer than the text of any of the rules. */
  function LongText(show: RuleBody -> string, rules: seq<SecurityRule>): string {
    if rules == [] then "-" else LongText(show, rules[..|rules| - 1]) + rules[|rules| - 1].String(show)
  }

  lemma {:induction false} LongTextIsLonger(show: RuleBody -> string, rules: seq<SecurityRule>, k: int)
    requires 0 <= k < |rules|
    ensures |rules[k].String(show)| < |LongText(show, rules)|
  {
    LongTextIsNotEmpty(show, rules[..|rules| - 1]);
    if k < |rules| - 1 {
      LongTextIsLonger(show, rules[..|rules| - 1], k);
    }
  }

  lemma {:induction false} LongTextIsNotEmpty(show: RuleBody -> string, rules: seq<SecurityRule>)
    ensures |LongText(show, rules)| > 0
  {
    if rules != [] {
      LongTextIsNotEmpty(show, rules[..|rules| - 1]);
    }
  }

  /** Rule `k` again, for a peer group so named that no other rule has the text. */
  function Stranger(show: RuleBody -> string, dest: seq<SecurityRule>, k: int): SecurityRule
    requires 0 <= k < |dest|
  {
    dest[k].(PeerSecgroupId := LongText(show, dest))
  }

  lemma StrangerIsNew(show: RuleBody -> string, dest: seq<SecurityRule>, k: int, j: int)
    requires 0 <= k < |dest| && 0 <= j < |dest|
    ensures Stranger(show, dest, k).String(show) != dest[j].String(show)
  {
    LongTextIsNotEmpty(show, dest);
    LongTextIsLonger(show, dest, j);
    var x := Stranger(show, dest, k);
    assert |x.String(show)| == |show(x.rule.body)| + 1 + |x.PeerSecgroupId|;
  }

  /** A source that follows the destination up to rule `k` and has one rule more. */
  function Follower(show: RuleBody -> string, dest: seq<SecurityRule>, k: int): seq<SecurityRule>
    requires 0 <= k < |dest|
  {
    dest[..k + 1] + [Stranger(show, dest, k)]
  }

  lemma {:induction false} OnlyDeletes(show: RuleBody -> string, t: Target, m: Merge)
    requires m.Valid() && m.i == |m.src|
    ensures Run(show, t, m).add == m.add
    decreases |m.dest| - m.j
  {
    if m.Running() {
      OnlyDeletes(show, t, Step(show, t, m));
    }
  }

  /** The last source rule, with the priority of the one before and a text of its own, is added
      at the priority reached. */
  lemma {:induction false} LastAdded(show: RuleBody -> string, t: Target, m: Merge)
    requires m.Valid() && 0 < m.i == |m.src| - 1 && m.add == []
    requires m.src[m.i - 1].Priority() == m.src[m.i].Priority()
    requires forall j :: m.j <= j < |m.dest| ==> m.dest[j].String(show) != m.src[m.i].String(show)
    ensures var add := Run(show, t, m).add; |add| == 1 && add[0].Priority() == m.priority
    decreases |m.dest| - m.j
  {
    if m.j < |m.dest| && Text.Less(m.dest[m.j].String(show), m.src[m.i].String(show)) {
      LastAdded(show, t, DeleteStep(m));
    } else {
      OnlyDeletes(show, t, AddStep(t, m));
    }
  }

  /** The run over the follower has kept everything so far. */
  ghost predicate Following(show: RuleBody -> string, dest: seq<SecurityRule>, k: int, m: Merge)
    requires 0 <= k < |dest|
  {
    && m.Valid() && m.i == m.j <= k + 1 && m.add == []
    && m.src == Follower(show, dest, k) && |m.dest| == |dest|
    && (forall j :: m.j <= j < |dest| ==> m.dest[j] == dest[j])
    && (m.i == k + 1 ==> m.priority == dest[k].Priority())
  }

  lemma {:induction false} FollowingAdds(show: RuleBody -> string, t: Target, dest: seq<SecurityRule>, k: int, m: Merge)
    requires 0 <= k < |dest| && IsReal(dest[k]) && Following(show, dest, k, m)
    ensures var add := Run(show, t, m).add; |add| == 1 && add[0].Priority() == dest[k].Priority()
    decreases k + 1 - m.i
  {
    if m.i == k + 1 {
      forall j | m.j <= j < |m.dest| ensures m.dest[j].String(show) != m.src[m.i].String(show) {
        StrangerIsNew(show, dest, k, j);
      }
      LastAdded(show, t, m);
    } else {
      assert Step(show, t, m) == KeepStep(m);
      FollowingAdds(show, t, dest, k, KeepStep(m));
    }
  }

  lemma FollowerAdded(show: RuleBody -> string, t: Target, dest: seq<SecurityRule>, k: int)
    requires 0 <= k < |dest| && IsReal(dest[k])
    ensures var add := Run(show, t, Start(t, Follower(show, dest, k), dest)).add;
      |add| == 1 && add[0].Priority() == dest[k].Priority()
  {
    FollowingAdds(show, t, dest, k, Start(t, Follower(show, dest, k), dest));
  }

  // ---------- Both bounds ----------

  /** How far `b` lies ahead of `a` on the way to MaxPriority. */
  function Ahead(t: Target, a: int, b: int): int {
    if t.Rising() then b - a else a - b
  }

  predicate Between(t: Target, p: int) {
    Ahead(t, t.MinPriority, p) >= 0 && Ahead(t, p, t.MaxPriority) >= 0
  }

  /** The next step adds a source rule. */
  predicate Adds(show: RuleBody -> string, m: Merge)
    requires m.Valid()
  {
    && m.i < |m.src|
    && (m.j < |m.dest| ==>
          var d, s := m.dest[m.j].String(show), m.src[m.i].String(show); d != s && !Text.Less(d, s))
  }

  /** How often the test for a new priority fires once a rule has been added. */
  function Fired(show: RuleBody -> string, t: Target, m: Merge): nat
    requires m.Valid()
    decreases |m.src| - m.i + |m.dest| - m.j
  {
    if !m.Running() then 0
    else (if Adds(show, m) && m.add != [] && Fires(t, m) then 1 else 0) + Fired(show, t, Step(show, t, m))
  }

  /** The next step shifts back what came before: the test fires with the priority at MaxPriority. */
  predicate ShiftsBack(show: RuleBody -> string, t: Target, m: Merge)
    requires m.Valid()
  {
    Adds(show, m) && Fires(t, m) && Ahead(t, m.priority, t.MaxPriority) <= 0
  }

  function BackShifts(show: RuleBody -> string, t: Target, m: Merge): nat
    requires m.Valid()
    decreases |m.src| - m.i + |m.dest| - m.j
  {
    if !m.Running() then 0
    else (if ShiftsBack(show, t, m) then 1 else 0) + BackShifts(show, t, Step(show, t, m))
  }

  /** Every addition to come gets a priority that is as far from MinPriority as back-shifts follow it. */
  predicate RoomBehind(show: RuleBody -> string, t: Target, m: Merge)
    requires m.Valid()
    decreases |m.src| - m.i + |m.dest| - m.j
  {
    m.Running() ==>
      var n := Step(show, t, m);
      && (Adds(show, m) ==> Ahead(t, t.MinPriority, n.priority) >= BackShifts(show, t, n))
      && RoomBehind(show, t, n)
  }

  /** All additions so far are `far` ahead of MinPriority. */
  ghost predicate AllAhead(t: Target, add: seq<SecurityRule>, far: int) {
    forall x :: 0 <= x < |add| ==> Ahead(t, t.MinPriority, add[x].Priority()) >= far
  }

  lemma ShiftAheadIff(t: Target, add: seq<SecurityRule>, k: int, far: int, r: SecurityRule)
    ensures AllAhead(t, Shift(add, k) + [r], far)
      <==> AllAhead(t, add, far - if t.Rising() then k else -k) && Ahead(t, t.MinPriority, r.Priority()) >= far
  {
    var (more, less) := (Shift(add, k) + [r], far - if t.Rising() then k else -k);
    forall x | 0 <= x < |add|
      ensures Ahead(t, t.MinPriority, more[x].Priority()) >= far
        <==> Ahead(t, t.MinPriority, add[x].Priority()) >= less
    {
      assert more[x] == add[x].AddPriority(k);
    }
    assert more[|add|] == r;
    if AllAhead(t, more, far) {
      forall x | 0 <= x < |add| ensures Ahead(t, t.MinPriority, add[x].Priority()) >= less {
        assert Ahead(t, t.MinPriority, more[x].Priority()) >= far;
      }
    }
  }

  lemma StepAheadIff(show: RuleBody -> string, t: Target, m: Merge, far: int)
    requires m.Valid() && m.Running()
    ensures var n := Step(show, t, m);
      AllAhead(t, n.add, far)
      <==> AllAhead(t, m.add, far + if ShiftsBack(show, t, m) then 1 else 0)
           && (Adds(show, m) ==> Ahead(t, t.MinPriority, n.priority) >= far)
  {
    if Adds(show, m) {
      var k := if Fires(t, m) then t.GetOffset(m.priority).1 else 0;
      ShiftAheadIff(t, m.add, k, far, Step(show, t, m).src[m.i]);
    }
  }

  lemma {:induction false} RunAheadIff(show: RuleBody -> string, t: Target, m: Merge)
    requires m.Valid()
    ensures AllAhead(t, Run(show, t, m).add, 0)
      <==> AllAhead(t, m.add, BackShifts(show, t, m)) && RoomBehind(show, t, m)
    decreases |m.src| - m.i + |m.dest| - m.j
  {
    if m.Running() {
      var n := Step(show, t, m);
      RunAheadIff(show, t, n);
      StepAheadIff(show, t, m, BackShifts(show, t, n));
    }
  }

  /** For any lists: no addition ends up before MinPriority if and only if each gets a priority that is as
      far from MinPriority as back-shifts follow it. */
  lemma AddsAfterMinIff(show: RuleBody -> string, t: Target, src: seq<SecurityRule>, dest: seq<SecurityRule>)
    ensures (forall r :: r in Run(show, t, Start(t, src, dest)).add ==> Ahead(t, t.MinPriority, r.Priority()) >= 0)
      <==> RoomBehind(show, t, Start(t, src, dest))
  {
    RunAheadIff(show, t, Start(t, src, dest));
    var add := Run(show, t, Start(t, src, dest)).add;
    if forall r :: r in add ==> Ahead(t, t.MinPriority, r.Priority()) >= 0 {
      assert forall x :: 0 <= x < |add| ==> add[x] in add;
    }
  }

  ghost predicate NoReal(dest: seq<SecurityRule>, j: int) {
    forall k :: 0 <= j <= k < |dest| ==> !IsReal(dest[k])
  }

  /** How far the priority has come since the first addition, shifts included. */
  function Climb(t: Target, m: Merge): int {
    if m.add == [] then 0 else Ahead(t, m.add[0].Priority(), m.priority)
  }

  /** Without real destination rules: what holds of the priority and of the first addition. */
  ghost predicate Climbs(t: Target, m: Merge) {
    && Between(t, m.priority) && Climb(t, m) >= 0
    && (Climb(t, m) <= Ahead(t, t.MinPriority, m.priority) || m.priority == t.MaxPriority)
  }

  /** All additions lie between the first one and the priority reached. */
  ghost predicate Spanned(t: Target, m: Merge) {
    forall k :: 0 <= k < |m.add| ==>
      Ahead(t, m.add[0].Priority(), m.add[k].Priority()) >= 0 && Ahead(t, m.add[k].Priority(), m.priority) >= 0
  }

  /** A new priority is one ahead of those given before, which may be shifted back for it. */
  lemma OffsetMoves(t: Target, priority: int)
    ensures var (p, k) := t.GetOffset(priority);
      Ahead(t, priority + k, p) == 1 && (p == priority || (k == 0 && Ahead(t, p, t.MaxPriority) >= 0))
    ensures Ahead(t, priority, t.MaxPriority) > 0 <==> t.GetOffset(priority).0 != priority
  {
  }

  lemma AddStepClimbs(t: Target, m: Merge)
    requires m.Valid() && m.i < |m.src| && Climbs(t, m)
    ensures var n := AddStep(t, m);
      Climbs(t, n) && n.add != [] && Climb(t, n) == Climb(t, m) + if m.add != [] && Fires(t, m) then 1 else 0
  {
    OffsetMoves(t, m.priority);
    var n := AddStep(t, m);
    var k := if Fires(t, m) then t.GetOffset(m.priority).1 else 0;
    if m.add != [] {
      assert n.add[0] == m.add[0].AddPriority(k);
    }
  }

  lemma AddStepSpans(t: Target, m: Merge)
    requires m.Valid() && m.i < |m.src| && Spanned(t, m)
    ensures Spanned(t, AddStep(t, m))
  {
    OffsetMoves(t, m.priority);
    var n := AddStep(t, m);
    var k := if Fires(t, m) then t.GetOffset(m.priority).1 else 0;
    forall x | 0 <= x < |m.add| ensures n.add[x].Priority() == m.add[x].Priority() + k {
      assert n.add[x] == m.add[x].AddPriority(k);
    }
  }

  lemma {:induction false} RunClimbsBy(show: RuleBody -> string, t: Target, m: Merge)
    requires m.Valid() && NoReal(m.dest, m.j) && Climbs(t, m) && Spanned(t, m)
    ensures var n := Run(show, t, m);
      Climbs(t, n) && Spanned(t, n) && Climb(t, n) == Climb(t, m) + Fired(show, t, m)
    decreases |m.src| - m.i + |m.dest| - m.j
  {
    if m.Running() {
      if Adds(show, m) {
        AddStepClimbs(t, m);
        AddStepSpans(t, m);
      }
      RunClimbsBy(show, t, Step(show, t, m));
    }
  }

  /** Without real destination rules all additions lie between both bounds if and only if, after the
      first addition, the test fires no more often than the bounds are apart. */
  lemma BothBoundsIff(show: RuleBody -> string, t: Target, src: seq<SecurityRule>, dest: seq<SecurityRule>)
    requires NoReal(dest, 0)
    ensures (forall r :: r in Run(show, t, Start(t, src, dest)).add ==> Between(t, r.Priority()))
      <==> Fired(show, t, Start(t, src, dest)) <= Ahead(t, t.MinPriority, t.MaxPriority)
  {
    var m := Start(t, src, dest);
    assert |dest| > 0 ==> !IsReal(dest[0]);
    RunClimbsBy(show, t, m);
    var n := Run(show, t, m);
    if n.add != [] {
      assert n.add[0] in n.add;
      BetweenFromFirst(t, n);
    }
  }

  lemma BetweenFromFirst(t: Target, n: Merge)
    requires Between(t, n.priority) && Spanned(t, n) && n.add != []
    ensures Between(t, n.add[0].Priority()) ==> forall r :: r in n.add ==> Between(t, r.Priority())
  {
  }

  // ---------- The order of kept and added rules ----------

  /** Where a rule of the source went: place `at` of the rules added, or of those kept, and then the
      place `with` of the destination rule it matches. */
  datatype Place = Place(from: int, added: bool, at: int, with: int)

  /** The next step keeps a destination rule. */
  predicate Keeps(show: RuleBody -> string, m: Merge)
    requires m.Valid()
  {
    m.i < |m.src| && m.j < |m.dest| && m.dest[m.j].String(show) == m.src[m.i].String(show)
  }

  function Placing(show: RuleBody -> string, m: Merge): seq<Place>
    requires m.Valid()
  {
    if Keeps(show, m) then if IsReal(m.dest[m.j]) then [Place(m.i, false, |m.common|, m.j)] else []
    else if Adds(show, m) then [Place(m.i, true, |m.add|, m.j)]
    else []
  }

  /** The real rules kept and the rules added, one after the other as the source has them. */
  function Line(show: RuleBody -> string, t: Target, m: Merge, line: seq<Place>): seq<Place>
    requires m.Valid()
    decreases |m.src| - m.i + |m.dest| - m.j
  {
    if !m.Running() then line else Line(show, t, Step(show, t, m), line + Placing(show, m))
  }

  predicate Fits(m: Merge, p: Place) {
    0 <= p.at < if p.added then |m.add| else |m.common|
  }

  function RuleAt(m: Merge, p: Place): SecurityRule
    requires Fits(m, p)
  {
    if p.added then m.add[p.at] else m.common[p.at]
  }

  ghost predicate AllFit(m: Merge, line: seq<Place>) {
    forall x :: 0 <= x < |line| ==> Fits(m, line[x])
  }

  ghost predicate Listed(line: seq<Place>, added: bool, at: int) {
    exists x :: 0 <= x < |line| && line[x].added == added && line[x].at == at
  }

  /** The line runs through the source in its order. */
  ghost predicate InSourceOrder(show: RuleBody -> string, src: seq<SecurityRule>, m: Merge, line: seq<Place>) {
    && AllFit(m, line)
    && (forall x, y :: 0 <= x < y < |line| ==> line[x].from < line[y].from)
    && (forall x :: 0 <= x < |line| ==> 0 <= line[x].from < m.i <= |src|)
    && (forall x :: 0 <= x < |line| ==> RuleAt(m, line[x]).String(show) == src[line[x].from].String(show))
  }

  /** Every rule added and every real rule kept is on the line, and no synthetic one is. */
  ghost predicate AllListed(m: Merge, line: seq<Place>) {
    && AllFit(m, line)
    && (forall at :: 0 <= at < |m.add| ==> Listed(line, true, at))
    && (forall at :: 0 <= at < |m.common| && IsReal(m.common[at]) ==> Listed(line, false, at))
    && (forall x :: 0 <= x < |line| && !line[x].added ==> IsReal(RuleAt(m, line[x])))
  }

  /** What a step does to the rules on the line: all are moved by the same offset. */
  ghost predicate Moved(m: Merge, n: Merge, k: int) {
    && |m.add| <= |n.add| && |m.common| <= |n.common|
    && (forall x :: 0 <= x < |m.add| ==> n.add[x] == m.add[x].AddPriority(k))
    && (forall x :: 0 <= x < |m.common| ==> n.common[x] == m.common[x].AddPriority(k))
  }

  function OffsetOf(show: RuleBody -> string, t: Target, m: Merge): int
    requires m.Valid()
  {
    if Adds(show, m) && Fires(t, m) then t.GetOffset(m.priority).1 else 0
  }

  lemma StepMoves(show: RuleBody -> string, t: Target, m: Merge)
    requires m.Valid() && m.Running()
    ensures Moved(m, Step(show, t, m), OffsetOf(show, t, m))
  {
    var n, k := Step(show, t, m), OffsetOf(show, t, m);
    forall r: SecurityRule ensures r.AddPriority(0) == r {
    }
    if Adds(show, m) {
      forall x | 0 <= x < |m.add| ensures n.add[x] == m.add[x].AddPriority(k) {
        assert Shift(m.add, k)[x] == m.add[x].AddPriority(k);
      }
    }
  }

  lemma MovedRule(m: Merge, n: Merge, k: int, p: Place)
    requires Moved(m, n, k) && Fits(m, p)
    ensures Fits(n, p) && RuleAt(n, p) == RuleAt(m, p).AddPriority(k)
  {
  }

  lemma StepInSourceOrder(show: RuleBody -> string, t: Target, src: seq<SecurityRule>, m: Merge, line: seq<Place>)
    requires m.Valid() && m.Running() && |m.src| == |src| && InSourceOrder(show, src, m, line)
    requires m.i < |src| ==> m.src[m.i] == src[m.i]
    ensures InSourceOrder(show, src, Step(show, t, m), line + Placing(show, m))
  {
    var n, k, more := Step(show, t, m), OffsetOf(show, t, m), line + Placing(show, m);
    StepMoves(show, t, m);
    forall x | 0 <= x < |more|
      ensures Fits(n, more[x]) && RuleAt(n, more[x]).String(show) == src[more[x].from].String(show)
    {
      if x < |line| {
        MovedRule(m, n, k, line[x]);
      }
    }
  }

  lemma StepListed(show: RuleBody -> string, t: Target, m: Merge, line: seq<Place>)
    requires m.Valid() && m.Running() && AllListed(m, line)
    ensures AllListed(Step(show, t, m), line + Placing(show, m))
  {
    var n, k, more := Step(show, t, m), OffsetOf(show, t, m), line + Placing(show, m);
    StepMoves(show, t, m);
    forall x | 0 <= x < |more| ensures Fits(n, more[x]) && (!more[x].added ==> IsReal(RuleAt(n, more[x]))) {
      if x < |line| {
        MovedRule(m, n, k, line[x]);
      }
    }
    ListedStays(line, Placing(show, m));
    forall at | 0 <= at < |n.add| ensures Listed(more, true, at) {
      if at == |m.add| {
        assert more[|line|].added && more[|line|].at == at;
      }
    }
    forall at | 0 <= at < |n.common| && IsReal(n.common[at]) ensures Listed(more, false, at) {
      if at == |m.common| {
        assert !more[|line|].added && more[|line|].at == at;
      }
    }
  }

  lemma ListedStays(line: seq<Place>, rest: seq<Place>)
    ensures forall added, at :: Listed(line, added, at) ==> Listed(line + rest, added, at)
  {
    forall added, at | Listed(line, added, at) ensures Listed(line + rest, added, at) {
      var x :| 0 <= x < |line| && line[x].added == added && line[x].at == at;
      assert (line + rest)[x] == line[x];
    }
  }

  lemma {:induction false} RunListed(show: RuleBody -> string, t: Target,
                                     src: seq<SecurityRule>, dest: seq<SecurityRule>, m: Merge, line: seq<Place>)
    requires Unread(src, dest, m) && InSourceOrder(show, src, m, line) && AllListed(m, line)
    ensures var (n, all) := (Run(show, t, m), Line(show, t, m, line));
      InSourceOrder(show, src, n, all) && AllListed(n, all)
    decreases |m.src| - m.i + |m.dest| - m.j
  {
    if m.Running() {
      StepInSourceOrder(show, t, src, m, line);
      StepListed(show, t, m, line);
      StepUnread(show, t, src, dest, m);
      RunListed(show, t, src, dest, Step(show, t, m), line + Placing(show, m));
    }
  }

  /** The line lists exactly the real rules kept and the rules added, in the order of the source. */
  lemma LineInterleaves(show: RuleBody -> string, t: Target, src: seq<SecurityRule>, dest: seq<SecurityRule>)
    ensures var m := Start(t, src, dest);
      var (n, line) := (Run(show, t, m), Line(show, t, m, []));
      InSourceOrder(show, src, n, line) && AllListed(n, line)
  {
    RunListed(show, t, src, dest, Start(t, src, dest), []);
  }

  /** The priorities along the line never turn back from MaxPriority. */
  ghost predicate Monotone(t: Target, m: Merge, line: seq<Place>)
    requires AllFit(m, line)
  {
    forall x :: 0 < x < |line| ==>
      Ahead(t, RuleAt(m, line[x - 1]).Priority(), RuleAt(m, line[x]).Priority()) >= 0
  }

  /** The last rule of the line has the priority reached. */
  ghost predicate EndsAt(m: Merge, line: seq<Place>)
    requires AllFit(m, line)
  {
    line != [] ==> RuleAt(m, line[|line| - 1]).Priority() == m.priority
  }

  /** `fires` new priorities after `base` have room before `next`, or `next` is as far as they go. */
  predicate RoomFor(t: Target, base: int, fires: int, next: int) {
    Ahead(t, base, next) >= 0 && (fires <= Ahead(t, base, next) || Ahead(t, next, t.MaxPriority) <= 0)
  }

  /** Between a matched rule (at first: what the merge starts from) and the next one, the test fires no
      more often than their priorities differ, or the next one is at MaxPriority already. */
  predicate Roomy(show: RuleBody -> string, t: Target, m: Merge, base: int, fires: int, begun: bool)
    requires m.Valid()
    decreases |m.src| - m.i + |m.dest| - m.j
  {
    m.Running() ==>
      && (begun && Matches(show, m) ==> RoomFor(t, base, fires, m.dest[m.j].Priority()))
      && Roomy(show, t, Step(show, t, m), BaseAfter(show, m, base), FiresAfter(show, t, m, fires),
               begun || Placing(show, m) != [])
  }

  /** The next step keeps a real rule: its priority is the new base, and the count starts again. */
  predicate Matches(show: RuleBody -> string, m: Merge)
    requires m.Valid()
  {
    Keeps(show, m) && IsReal(m.dest[m.j])
  }

  function BaseAfter(show: RuleBody -> string, m: Merge, base: int): int
    requires m.Valid()
  {
    if Matches(show, m) then m.dest[m.j].Priority() else base
  }

  function FiresAfter(show: RuleBody -> string, t: Target, m: Merge, fires: int): int
    requires m.Valid()
  {
    if Matches(show, m) then 0 else if Adds(show, m) && Fires(t, m) then fires + 1 else fires
  }

  /** The priority after so many new ones: as many ahead, but no further than MaxPriority. */
  predicate Reached(t: Target, base: int, fires: int, priority: int) {
    && 0 <= Ahead(t, base, priority) <= fires
    && (Ahead(t, base, priority) == fires || Ahead(t, priority, t.MaxPriority) <= 0)
    && (priority == base || Ahead(t, priority, t.MaxPriority) >= 0)
  }

  lemma ReachedNext(show: RuleBody -> string, t: Target, m: Merge, base: int, fires: int)
    requires m.Valid() && m.Running() && Reached(t, base, fires, m.priority)
    ensures Reached(t, BaseAfter(show, m, base), FiresAfter(show, t, m, fires), Step(show, t, m).priority)
  {
  }

  lemma RoomForIff(t: Target, base: int, fires: int, priority: int, next: int)
    requires Reached(t, base, fires, priority)
    ensures RoomFor(t, base, fires, next) <==> Ahead(t, priority, next) >= 0
  {
  }

  lemma MovedMonotoneIff(t: Target, m: Merge, n: Merge, k: int, line: seq<Place>)
    requires Moved(m, n, k) && AllFit(m, line)
    ensures AllFit(n, line) && (Monotone(t, n, line) <==> Monotone(t, m, line))
    ensures line != [] && EndsAt(m, line) ==> RuleAt(n, line[|line| - 1]).Priority() == m.priority + k
  {
    forall x | 0 <= x < |line| ensures Fits(n, line[x]) && RuleAt(n, line[x]) == RuleAt(m, line[x]).AddPriority(k) {
      MovedRule(m, n, k, line[x]);
    }
    forall x | 0 < x < |line|
      ensures Ahead(t, RuleAt(n, line[x - 1]).Priority(), RuleAt(n, line[x]).Priority())
        == Ahead(t, RuleAt(m, line[x - 1]).Priority(), RuleAt(m, line[x]).Priority())
    {
      assert Fits(n, line[x - 1]) && Fits(n, line[x]);
    }
  }

  lemma MonotoneSnocIff(t: Target, m: Merge, line: seq<Place>, p: Place)
    requires AllFit(m, line) && Fits(m, p)
    ensures AllFit(m, line + [p])
    ensures Monotone(t, m, line + [p]) <==>
      Monotone(t, m, line)
      && (line != [] ==> Ahead(t, RuleAt(m, line[|line| - 1]).Priority(), RuleAt(m, p).Priority()) >= 0)
  {
    var more := line + [p];
    forall x | 0 <= x < |line| ensures more[x] == line[x] {
    }
    if Monotone(t, m, more) {
      forall x | 0 < x < |line|
        ensures Ahead(t, RuleAt(m, line[x - 1]).Priority(), RuleAt(m, line[x]).Priority()) >= 0
      {
        assert more[x] == line[x] && more[x - 1] == line[x - 1];
      }
      if line != [] {
        assert more[|line|] == p && more[|line| - 1] == line[|line| - 1];
      }
    }
  }

  lemma StepMonotoneIff(show: RuleBody -> string, t: Target, m: Merge, line: seq<Place>)
    requires m.Valid() && m.Running() && AllFit(m, line) && EndsAt(m, line)
    ensures var (n, more) := (Step(show, t, m), line + Placing(show, m));
      && AllFit(n, more) && EndsAt(n, more)
      && (Monotone(t, n, more) <==>
            Monotone(t, m, line)
            && (line != [] && Matches(show, m) ==>
                  Ahead(t, m.priority, m.dest[m.j].Priority()) >= 0))
  {
    var n, k := Step(show, t, m), OffsetOf(show, t, m);
    StepMoves(show, t, m);
    MovedMonotoneIff(t, m, n, k, line);
    if Placing(show, m) == [] {
      assert line + Placing(show, m) == line;
    } else {
      var p := Placing(show, m)[0];
      assert Placing(show, m) == [p];
      OffsetMoves(t, m.priority);
      MonotoneSnocIff(t, n, line, p);
    }
  }

  lemma {:induction false} RunMonotoneIff(show: RuleBody -> string, t: Target, m: Merge, line: seq<Place>,
                                          base: int, fires: int)
    requires m.Valid() && AllFit(m, line) && EndsAt(m, line) && Reached(t, base, fires, m.priority)
    ensures var (n, all) := (Run(show, t, m), Line(show, t, m, line));
      AllFit(n, all)
      && (Monotone(t, n, all) <==> Monotone(t, m, line) && Roomy(show, t, m, base, fires, line != []))
    decreases |m.src| - m.i + |m.dest| - m.j
  {
    if m.Running() {
      var n, more := Step(show, t, m), line + Placing(show, m);
      StepMonotoneIff(show, t, m, line);
      ReachedNext(show, t, m, base, fires);
      if Matches(show, m) {
        RoomForIff(t, base, fires, m.priority, m.dest[m.j].Priority());
      }
      RunMonotoneIff(show, t, n, more, BaseAfter(show, m, base), FiresAfter(show, t, m, fires));
    }
  }

  /** Kept and added rules together follow the order of the source if and only if between consecutive
      matched rules the test fires no more often than their priorities differ, unless the second one
      is at MaxPriority. */
  lemma OrderKeptIff(show: RuleBody -> string, t: Target, src: seq<SecurityRule>, dest: seq<SecurityRule>)
    ensures var m := Start(t, src, dest);
      var (n, line) := (Run(show, t, m), Line(show, t, m, []));
      AllFit(n, line) && (Monotone(t, n, line) <==> Roomy(show, t, m, m.priority, 0, false))
  {
    var m := Start(t, src, dest);
    RunMonotoneIff(show, t, m, [], m.priority, 0);
  }

  // ---------- Instances ----------

  function Sample(text: string, priority: int): SecurityRule {
    SecurityRule(0, 0, 0, EmbeddedRule(priority, RuleBody(DIR_IN, RULE_ALLOW, "any", text)), "", "", "", "")
  }

  function MatchText(): RuleBody -> string {
    (b: RuleBody) => b.Match
  }

  /** A real rule beyond MaxPriority carries the rule added behind it there. */
  lemma PastMax()
    ensures var t := Target(1, 100, false);
      var add := Run(MatchText(), t, Start(t, [Sample("a", 1), Sample("b", 1)], [Sample("a", 101)])).add;
      |add| == 1 && add[0].Priority() == 101
  {
    var t, show := Target(1, 100, false), MatchText();
    var m0 := Start(t, [Sample("a", 1), Sample("b", 1)], [Sample("a", 101)]);
    var m1 := Step(show, t, m0);
    var m2 := Step(show, t, m1);
    assert m1.priority == 101 && !m2.Running();
  }

  /** Three priorities do not fit between two bounds: the first rule is shifted below MinPriority. */
  lemma BelowMin()
    ensures var t := Target(1, 2, false);
      var add := Run(MatchText(), t, Start(t, [Sample("a", 1), Sample("b", 2), Sample("c", 3)], [])).add;
      |add| == 3 && add[0].Priority() == 0 && add[1].Priority() == 1 && add[2].Priority() == 2
  {
    var t, show := Target(1, 2, false), MatchText();
    var m0 := Start(t, [Sample("a", 1), Sample("b", 2), Sample("c", 3)], []);
    var m1 := Step(show, t, m0);
    var m2 := Step(show, t, m1);
    var m3 := Step(show, t, m2);
    assert m1.priority == 1 && m2.priority == 2 && !m3.Running();
  }

  /** Two rules are added before the one that is kept: the second one comes after it. */
  lemma TurnsBack()
    ensures var t := Target(1, 100, false);
      var m := Run(MatchText(), t, Start(t, [Sample("a", 1), Sample("b", 2), Sample("c", 3)], [Sample("c", 1)]));
      && |m.add| == 2 && m.addFrom == [0, 1] && |m.common| == 1
      && m.add[1].Priority() == 2 && m.common[0].Priority() == 1
  {
    var t, show := Target(1, 100, false), MatchText();
    var m0 := Start(t, [Sample("a", 1), Sample("b", 2), Sample("c", 3)], [Sample("c", 1)]);
    var m1 := Step(show, t, m0);
    assert m1 == AddStep(t, m0) && m1.priority == 1;
    var m2 := Step(show, t, m1);
    assert m2 == AddStep(t, m1) && m2.priority == 2;
    var m3 := Step(show, t, m2);
    assert m3 == KeepStep(m2) && !m3.Running();
  }
}
