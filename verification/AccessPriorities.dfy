/** The priorities that the comparison of access-group rules gives to what it adds, from the bounds
    and the matched rules alone. */
module AccessPriorities {
  import opened AccessRules
  import opened AccessProofs
  import Text

  /** The middle between the lower bound less one and the upper one, halves cut off towards zero. */
  predicate IsMiddle(t: Limits, p: int) {
    var s := t.MinPriority + t.MaxPriority - 1;
    if s % 2 == 0 then 2 * p == s else if s > 0 then 2 * p == s - 1 else 2 * p == s + 1
  }

  predicate StrictlyBetween(t: Limits, p: int) {
    t.MinPriority < p < t.MaxPriority || t.MaxPriority < p < t.MinPriority
  }

  /** One step towards MaxPriority from a priority strictly between the bounds, none from any other. */
  predicate StepsTo(t: Limits, p: int, q: int) {
    if !StrictlyBetween(t, p) then q == p
    else if t.MinPriority < t.MaxPriority then q == p + 1
    else q == p - 1
  }

  /** Where a source rule went: place `at` of the rules added, or of those kept. */
  datatype Place = Place(from: int, added: bool, at: int)

  predicate Keeps(m: Merge)
    requires m.Valid()
  {
    m.i < |m.src| && m.j < |m.dest| && m.dest[m.j].String() == m.src[m.i].String()
  }

  predicate Passes(m: Merge)
    requires m.Valid()
  {
    && m.i < |m.src|
    && (m.j < |m.dest| ==>
          var d, s := m.dest[m.j].String(), m.src[m.i].String(); d != s && !Text.Less(d, s))
  }

  function Placing(t: Limits, m: Merge): seq<Place>
    requires m.Valid()
  {
    if Keeps(m) then [Place(m.i, false, |m.common|)]
    else if Passes(m) && m.src[m.i].UserAccessType in t.Supported then [Place(m.i, true, |m.added|)]
    else []
  }

  /** The rules kept and the rules added, one after the other as the source has them. */
  function Line(t: Limits, m: Merge, line: seq<Place>): seq<Place>
    requires m.Valid()
    decreases |m.src| - m.i + |m.dest| - m.j
  {
    if !m.Running() then line else Line(t, Step(t, m), line + Placing(t, m))
  }

  predicate Fits(m: Merge, p: Place) {
    0 <= p.at < if p.added then |m.added| else |m.common|
  }

  function RuleAt(m: Merge, p: Place): AccessGroupRule
    requires Fits(m, p)
  {
    if p.added then m.added[p.at] else m.common[p.at]
  }

  ghost predicate Listed(line: seq<Place>, added: bool, at: int) {
    exists x :: 0 <= x < |line| && line[x].added == added && line[x].at == at
  }

  /** The line lists the rules added and kept, each of them, in the order of the source and with its texts. */
  ghost predicate Lists(src: seq<AccessGroupRule>, m: Merge, line: seq<Place>) {
    && (forall x :: 0 <= x < |line| ==> PlaceOf(src, m, line[x]))
    && (forall x, y :: 0 <= x < y < |line| ==> line[x].from < line[y].from)
    && (forall at :: 0 <= at < |m.added| ==> Listed(line, true, at))
    && (forall at :: 0 <= at < |m.common| ==> Listed(line, false, at))
  }

  predicate PlaceOf(src: seq<AccessGroupRule>, m: Merge, p: Place) {
    && Fits(m, p) && 0 <= p.from < m.i <= |src|
    && RuleAt(m, p).String() == src[p.from].String()
  }

  /** An addition's priority, by the one of the entry before it; the first one's by the middle. */
  ghost predicate StepsAt(t: Limits, m: Merge, line: seq<Place>, x: int)
    requires 0 <= x < |line| && Fits(m, line[x]) && (x > 0 ==> Fits(m, line[x - 1]))
  {
    if x > 0 then StepsTo(t, RuleAt(m, line[x - 1]).Priority, RuleAt(m, line[x]).Priority)
    else exists mid :: IsMiddle(t, mid) && StepsTo(t, mid, RuleAt(m, line[x]).Priority)
  }

  ghost predicate AllStep(t: Limits, m: Merge, line: seq<Place>)
    requires forall x :: 0 <= x < |line| ==> Fits(m, line[x])
  {
    forall x :: 0 <= x < |line| && line[x].added ==> StepsAt(t, m, line, x)
  }

  /** The priority reached is that of the last entry, or the middle. */
  ghost predicate At(t: Limits, m: Merge, line: seq<Place>)
    requires forall x :: 0 <= x < |line| ==> Fits(m, line[x])
  {
    if line == [] then IsMiddle(t, m.priority) else RuleAt(m, line[|line| - 1]).Priority == m.priority
  }

  ghost predicate Holds(t: Limits, src: seq<AccessGroupRule>, m: Merge, line: seq<Place>) {
    Lists(src, m, line) && AllStep(t, m, line) && At(t, m, line)
  }

  lemma MiddleIs(t: Limits)
    ensures IsMiddle(t, t.Middle())
  {
  }

  lemma NextSteps(t: Limits, p: int)
    ensures StepsTo(t, p, t.NextPriority(p))
  {
  }

  /** Adding to the lists moves nothing. */
  lemma Grown(src: seq<AccessGroupRule>, m: Merge, n: Merge, p: Place)
    requires PlaceOf(src, m, p) && m.added <= n.added && m.common <= n.common && m.i <= n.i <= |src|
    ensures PlaceOf(src, n, p) && RuleAt(n, p) == RuleAt(m, p)
  {
  }

  lemma GrownLine(t: Limits, src: seq<AccessGroupRule>, m: Merge, n: Merge, line: seq<Place>)
    requires Holds(t, src, m, line) && m.added <= n.added && m.common <= n.common && m.i <= n.i <= |src|
    ensures forall x :: 0 <= x < |line| ==> PlaceOf(src, n, line[x]) && RuleAt(n, line[x]) == RuleAt(m, line[x])
    ensures AllStep(t, n, line)
  {
    forall x | 0 <= x < |line| ensures PlaceOf(src, n, line[x]) && RuleAt(n, line[x]) == RuleAt(m, line[x]) {
      Grown(src, m, n, line[x]);
    }
    forall x | 0 <= x < |line| && line[x].added ensures StepsAt(t, n, line, x) {
      assert StepsAt(t, m, line, x);
    }
  }

  lemma SnocSteps(t: Limits, m: Merge, line: seq<Place>, p: Place, priority: int)
    requires (forall x :: 0 <= x < |line| ==> Fits(m, line[x])) && Fits(m, p) && AllStep(t, m, line)
    requires if line == [] then IsMiddle(t, priority) else RuleAt(m, line[|line| - 1]).Priority == priority
    requires p.added ==> StepsTo(t, priority, RuleAt(m, p).Priority)
    ensures AllStep(t, m, line + [p])
  {
    var more := line + [p];
    forall x | 0 <= x < |more| && more[x].added ensures StepsAt(t, m, more, x) {
      if x < |line| {
        assert StepsAt(t, m, line, x);
        assert more[x] == line[x] && (x > 0 ==> more[x - 1] == line[x - 1]);
      } else {
        assert more[x] == p && (x > 0 ==> more[x - 1] == line[x - 1]);
      }
    }
  }

  lemma SnocListed(line: seq<Place>, p: Place)
    ensures Listed(line + [p], p.added, p.at)
    ensures forall added, at :: Listed(line, added, at) ==> Listed(line + [p], added, at)
  {
    assert (line + [p])[|line|] == p;
    forall added, at | Listed(line, added, at) ensures Listed(line + [p], added, at) {
      var x :| 0 <= x < |line| && line[x].added == added && line[x].at == at;
      assert (line + [p])[x] == line[x];
    }
  }

  lemma SnocHolds(t: Limits, src: seq<AccessGroupRule>, m: Merge, n: Merge, line: seq<Place>, p: Place)
    requires Holds(t, src, m, line) && m.added <= n.added && m.common <= n.common && m.i < n.i <= |src|
    requires PlaceOf(src, n, p) && p.from == m.i && RuleAt(n, p).Priority == n.priority
    requires |n.added| == |m.added| + if p.added then 1 else 0
    requires |n.common| == |m.common| + if p.added then 0 else 1
    requires p.at == if p.added then |m.added| else |m.common|
    requires p.added ==> StepsTo(t, m.priority, n.priority)
    ensures Holds(t, src, n, line + [p])
  {
    var more := line + [p];
    GrownLine(t, src, m, n, line);
    SnocSteps(t, n, line, p, m.priority);
    SnocListed(line, p);
    forall x | 0 <= x < |more| ensures PlaceOf(src, n, more[x]) {
      assert x < |line| ==> more[x] == line[x];
    }
    assert more[|more| - 1] == p;
  }

  lemma StepHolds(t: Limits, src: seq<AccessGroupRule>, m: Merge, line: seq<Place>)
    requires m.Valid() && m.Running() && |m.src| == |src| && Holds(t, src, m, line)
    requires m.i < |src| ==> m.src[m.i] == src[m.i]
    ensures Holds(t, src, Step(t, m), line + Placing(t, m))
  {
    var n := Step(t, m);
    if Placing(t, m) == [] {
      assert line + [] == line;
      GrownLine(t, src, m, n, line);
    } else {
      NextSteps(t, m.priority);
      SnocHolds(t, src, m, n, line, Placing(t, m)[0]);
    }
  }

  lemma {:induction false} RunHolds(t: Limits, src: seq<AccessGroupRule>, dest: seq<AccessGroupRule>, m: Merge,
                                    line: seq<Place>)
    requires Unread(src, dest, m) && Holds(t, src, m, line)
    ensures Holds(t, src, Run(t, m), Line(t, m, line))
    decreases |m.src| - m.i + |m.dest| - m.j
  {
    if m.Running() {
      StepHolds(t, src, m, line);
      StepUnread(t, src, dest, m);
      RunHolds(t, src, dest, Step(t, m), line + Placing(t, m));
    }
  }

  /** For any lists and bounds: every addition is one step ahead, towards MaxPriority, of the rule kept or added
      before it, or of the middle if it is the first, as long as that is strictly between the bounds; otherwise it
      has the same priority. */
  lemma AddedStepwise(t: Limits, src: seq<AccessGroupRule>, dest: seq<AccessGroupRule>)
    ensures var (m, line) := (Run(t, Start(t, src, dest)), Line(t, Start(t, src, dest), []));
      Lists(src, m, line) && AllStep(t, m, line)
  {
    MiddleIs(t);
    RunHolds(t, src, dest, Start(t, src, dest), []);
  }

  // ---------- Additions between two matches ----------

  /** The entries from `x` to `y` are all additions. */
  ghost predicate AllAdded(line: seq<Place>, x: int, y: int) {
    0 <= x <= y < |line| && forall z :: x <= z <= y ==> line[z].added
  }

  /** Between two matches, an addition strictly between the bounds has a priority that no addition after it has. */
  lemma {:induction false} ApartWithin(t: Limits, m: Merge, line: seq<Place>, x: int, y: int)
    requires (forall z :: 0 <= z < |line| ==> Fits(m, line[z])) && AllStep(t, m, line)
    requires AllAdded(line, x, y) && x < y && StrictlyBetween(t, RuleAt(m, line[x]).Priority)
    ensures var (p, q) := (RuleAt(m, line[x]).Priority, RuleAt(m, line[y]).Priority);
      if t.MinPriority < t.MaxPriority then p < q <= t.MaxPriority else p > q >= t.MaxPriority
    decreases y
  {
    assert StepsAt(t, m, line, y);
    if x < y - 1 {
      ApartWithin(t, m, line, x, y - 1);
    }
  }

  /** As many steps from `p` towards MaxPriority as are asked for, up to it; none from `p` on or outside a bound. */
  function StepsFrom(t: Limits, p: int, steps: nat): int {
    if !StrictlyBetween(t, p) then p
    else if t.MinPriority < t.MaxPriority then if p + steps < t.MaxPriority then p + steps else t.MaxPriority
    else if p - steps > t.MaxPriority then p - steps else t.MaxPriority
  }

  /** The `y`-th entry after a kept rule, with nothing but additions in between, is that many steps ahead of it. */
  lemma {:induction false} StepsAfterMatch(t: Limits, m: Merge, line: seq<Place>, x: int, y: int)
    requires (forall z :: 0 <= z < |line| ==> Fits(m, line[z])) && AllStep(t, m, line)
    requires 0 <= x < y < |line| && AllAdded(line, x + 1, y)
    ensures RuleAt(m, line[y]).Priority == StepsFrom(t, RuleAt(m, line[x]).Priority, y - x)
    decreases y
  {
    assert StepsAt(t, m, line, y);
    if x < y - 1 {
      StepsAfterMatch(t, m, line, x, y - 1);
    }
  }

  /** The additions before any match are that many steps ahead of the middle. */
  lemma {:induction false} StepsAtFirst(t: Limits, m: Merge, line: seq<Place>, mid: int, y: int)
    requires (forall z :: 0 <= z < |line| ==> Fits(m, line[z])) && AllStep(t, m, line)
    requires AllAdded(line, 0, y) && IsMiddle(t, mid)
    ensures RuleAt(m, line[y]).Priority == StepsFrom(t, mid, y + 1)
    decreases y
  {
    assert StepsAt(t, m, line, y);
    if y > 0 {
      StepsAtFirst(t, m, line, mid, y - 1);
    }
  }

  /** An empty Aliyun group and two rules: they get 49 and 48. */
  lemma AliyunFirstTwo()
    ensures var m := Run(AliyunLimits(), Start(AliyunLimits(), [Bare("a"), Bare("b")], []));
      |m.added| == 2 && m.added[0].Priority == 49 && m.added[1].Priority == 48
  {
    var t := AliyunLimits();
    var m0 := Start(t, [Bare("a"), Bare("b")], []);
    var m1 := Step(t, m0);
    var m2 := Step(t, m1);
    assert t.Supported[0] == "all_squash";
    assert m1 == AddStep(t, m0) && m2 == AddStep(t, m1) && !m2.Running();
  }
}
