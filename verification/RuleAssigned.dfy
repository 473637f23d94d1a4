/** The priorities that the rule merge assigns, from the priorities of both lists alone. */
module RuleAssigned {
  import opened SecRules
  import opened RuleMerge
  import opened RuleMergeProofs
  import opened RulePriorities

  /** The priority the first addition starts from, where nothing was matched before it. */
  function FirstPriority(t: Target, dest: seq<SecurityRule>): int {
    if |dest| > 0 && dest[0].ExternalId != DEFAULT_DEST_RULE_ID then dest[0].rule.Priority else t.MinPriority
  }

  /** So many steps from `p` towards MaxPriority, but none past it. */
  function Towards(t: Target, p: int, steps: nat): int {
    if t.MinPriority < t.MaxPriority then
      if p >= t.MaxPriority then p else if p + steps >= t.MaxPriority then t.MaxPriority else p + steps
    else
      if p <= t.MaxPriority then p else if p - steps <= t.MaxPriority then t.MaxPriority else p - steps
  }

  /** The place and its match lie in both lists. */
  predicate InLists(src: seq<SecurityRule>, dest: seq<SecurityRule>, p: Place) {
    0 <= p.from < |src| && (!p.added ==> 0 <= p.with < |dest|)
  }

  /** The priority a rule has in the lists when its turn comes: the one assigned to an addition, which `now`
      holds, or the one of the matched destination rule. */
  function Given(now: seq<SecurityRule>, dest: seq<SecurityRule>, p: Place): int
    requires InLists(now, dest, p)
  {
    if p.added then now[p.from].rule.Priority else dest[p.with].rule.Priority
  }

  /** The test for a new priority: it compares the rule with what the one before it holds by now. */
  predicate TestFires(t: Target, src: seq<SecurityRule>, now: seq<SecurityRule>, i: int)
    requires 0 <= i < |src| == |now|
  {
    !t.IsOnlySupportAllowRules && i > 0 && now[i - 1].rule.Priority != src[i].rule.Priority
  }

  function Steps(t: Target, src: seq<SecurityRule>, now: seq<SecurityRule>, i: int): nat
    requires 0 <= i < |src| == |now|
  {
    if TestFires(t, src, now, i) then 1 else 0
  }

  ghost predicate AllInLists(src: seq<SecurityRule>, dest: seq<SecurityRule>, line: seq<Place>) {
    forall x :: 0 <= x < |line| ==> InLists(src, dest, line[x])
  }

  /** Every addition is given the priority of the entry before it, or the first one, moved a step if
      the test fires. */
  ghost predicate GivenInTurn(t: Target, src: seq<SecurityRule>, dest: seq<SecurityRule>, now: seq<SecurityRule>,
                              line: seq<Place>)
    requires |now| == |src| && AllInLists(src, dest, line)
  {
    forall x :: 0 <= x < |line| && line[x].added ==> GivenAfter(t, src, dest, now, line, x)
  }

  predicate GivenAfter(t: Target, src: seq<SecurityRule>, dest: seq<SecurityRule>, now: seq<SecurityRule>,
                       line: seq<Place>, x: int)
    requires |now| == |src| && 0 <= x < |line| && InLists(src, dest, line[x])
    requires x > 0 ==> InLists(src, dest, line[x - 1])
  {
    var before := if x == 0 then FirstPriority(t, dest) else Given(now, dest, line[x - 1]);
    Given(now, dest, line[x]) == Towards(t, before, Steps(t, src, now, line[x].from))
  }

  /** What the next addition starts from. */
  function Next(t: Target, dest: seq<SecurityRule>, now: seq<SecurityRule>, line: seq<Place>): int
    requires AllInLists(now, dest, line)
  {
    if line == [] then FirstPriority(t, dest) else Given(now, dest, line[|line| - 1])
  }

  /** What holds of a run so far. */
  ghost predicate Assigns(t: Target, src: seq<SecurityRule>, dest: seq<SecurityRule>, m: Merge, line: seq<Place>) {
    && Unread(src, dest, m) && AllInLists(src, dest, line)
    && (forall x :: 0 <= x < |line| ==> line[x].from < m.i)
    && GivenInTurn(t, src, dest, m.src, line) && m.priority == Next(t, dest, m.src, line)
  }

  lemma NextOffset(t: Target, p: int)
    ensures t.GetOffset(p).0 == Towards(t, p, 1)
  {
  }

  /** Writing a later rule back changes nothing that was given before. */
  lemma GivenStays(t: Target, src: seq<SecurityRule>, dest: seq<SecurityRule>, now: seq<SecurityRule>, i: int,
                   r: SecurityRule, line: seq<Place>)
    requires |now| == |src| && 0 <= i < |src| && AllInLists(src, dest, line)
    requires forall x :: 0 <= x < |line| ==> line[x].from < i
    ensures GivenInTurn(t, src, dest, now, line) ==> GivenInTurn(t, src, dest, now[i := r], line)
    ensures Next(t, dest, now[i := r], line) == Next(t, dest, now, line)
  {
    if GivenInTurn(t, src, dest, now, line) {
      forall x | 0 <= x < |line| && line[x].added ensures GivenAfter(t, src, dest, now[i := r], line, x) {
        assert GivenAfter(t, src, dest, now, line, x);
      }
    }
  }

  lemma GivenSnoc(t: Target, src: seq<SecurityRule>, dest: seq<SecurityRule>, now: seq<SecurityRule>,
                  line: seq<Place>, p: Place)
    requires |now| == |src| && AllInLists(src, dest, line) && InLists(src, dest, p)
    requires GivenInTurn(t, src, dest, now, line)
    requires p.added ==> Given(now, dest, p) == Towards(t, Next(t, dest, now, line), Steps(t, src, now, p.from))
    ensures AllInLists(src, dest, line + [p]) && GivenInTurn(t, src, dest, now, line + [p])
    ensures Next(t, dest, now, line + [p]) == Given(now, dest, p)
  {
    var more := line + [p];
    forall x | 0 <= x < |more| && more[x].added ensures GivenAfter(t, src, dest, now, more, x) {
      if x < |line| {
        assert GivenAfter(t, src, dest, now, line, x);
        assert more[x] == line[x] && (x > 0 ==> more[x - 1] == line[x - 1]);
      } else {
        assert more[x] == p && (x > 0 ==> more[x - 1] == line[x - 1]);
      }
    }
  }

  lemma AddAssigns(t: Target, src: seq<SecurityRule>, dest: seq<SecurityRule>, m: Merge, line: seq<Place>, p: Place)
    requires Assigns(t, src, dest, m, line) && m.i < |m.src| && p.added && p.from == m.i
    ensures Assigns(t, src, dest, AddStep(t, m), line + [p])
  {
    var n := AddStep(t, m);
    NextOffset(t, m.priority);
    GivenStays(t, src, dest, m.src, m.i, n.src[m.i], line);
    GivenSnoc(t, src, dest, n.src, line, p);
  }

  lemma KeepAssigns(t: Target, src: seq<SecurityRule>, dest: seq<SecurityRule>, m: Merge, line: seq<Place>, p: Place)
    requires Assigns(t, src, dest, m, line) && m.i < |m.src| && m.j < |m.dest|
    requires !p.added && p.from == m.i && p.with == m.j
    ensures Assigns(t, src, dest, KeepStep(m), if IsReal(m.dest[m.j]) then line + [p] else line)
  {
    if IsReal(m.dest[m.j]) {
      GivenSnoc(t, src, dest, m.src, line, p);
    }
  }

  lemma StepAssigns(show: RuleBody -> string, t: Target, src: seq<SecurityRule>, dest: seq<SecurityRule>,
                    m: Merge, line: seq<Place>)
    requires Assigns(t, src, dest, m, line) && m.Running()
    ensures Assigns(t, src, dest, Step(show, t, m), line + Placing(show, m))
  {
    if Keeps(show, m) {
      KeepAssigns(t, src, dest, m, line, Place(m.i, false, |m.common|, m.j));
    } else if Adds(show, m) {
      AddAssigns(t, src, dest, m, line, Place(m.i, true, |m.add|, m.j));
    }
    assert line + [] == line;
  }

  lemma {:induction false} RunAssigns(show: RuleBody -> string, t: Target, src: seq<SecurityRule>,
                                      dest: seq<SecurityRule>, m: Merge, line: seq<Place>)
    requires Assigns(t, src, dest, m, line)
    ensures Assigns(t, src, dest, Run(show, t, m), Line(show, t, m, line))
    decreases |m.src| - m.i + |m.dest| - m.j
  {
    if m.Running() {
      StepAssigns(show, t, src, dest, m, line);
      RunAssigns(show, t, src, dest, Step(show, t, m), line + Placing(show, m));
    }
  }

  // ---------- In closed form ----------

  /** The last real match up to entry `x`, or the first priority where there is none. */
  function BaseOf(t: Target, dest: seq<SecurityRule>, line: seq<Place>, x: int): int
    requires -1 <= x < |line| && forall y :: 0 <= y < |line| && !line[y].added ==> 0 <= line[y].with < |dest|
    decreases x
  {
    if x < 0 then FirstPriority(t, dest)
    else if !line[x].added then dest[line[x].with].rule.Priority
    else BaseOf(t, dest, line, x - 1)
  }

  /** How often the test has fired since. */
  function FiringsOf(t: Target, src: seq<SecurityRule>, now: seq<SecurityRule>, line: seq<Place>, x: int): nat
    requires -1 <= x < |line| && |now| == |src| && forall y :: 0 <= y < |line| ==> 0 <= line[y].from < |src|
    decreases x
  {
    if x < 0 || !line[x].added then 0
    else Steps(t, src, now, line[x].from) + FiringsOf(t, src, now, line, x - 1)
  }

  lemma TowardsAgain(t: Target, p: int, a: nat, b: nat)
    ensures Towards(t, Towards(t, p, a), b) == Towards(t, p, a + b)
  {
  }

  lemma {:induction false} GivenIs(t: Target, src: seq<SecurityRule>, dest: seq<SecurityRule>, now: seq<SecurityRule>,
                                   line: seq<Place>, x: int)
    requires |now| == |src| && AllInLists(src, dest, line) && GivenInTurn(t, src, dest, now, line) && 0 <= x < |line|
    ensures Given(now, dest, line[x])
      == Towards(t, BaseOf(t, dest, line, x), FiringsOf(t, src, now, line, x))
    decreases x
  {
    if line[x].added {
      assert GivenAfter(t, src, dest, now, line, x);
      if x > 0 {
        GivenIs(t, src, dest, now, line, x - 1);
        TowardsAgain(t, BaseOf(t, dest, line, x), FiringsOf(t, src, now, line, x - 1),
                     Steps(t, src, now, line[x].from));
      }
    }
  }

  /** The priority assigned to every addition is that of the last real match before it or, where there is none,
      that of the first destination rule if it is real and MinPriority otherwise, moved towards
      MaxPriority once for each time the test has fired since, but not past it. */
  lemma AssignedPriorities(show: RuleBody -> string, t: Target, src: seq<SecurityRule>, dest: seq<SecurityRule>)
    ensures var (m, line) := (Run(show, t, Start(t, src, dest)), Line(show, t, Start(t, src, dest), []));
      && |m.src| == |src| && AllInLists(src, dest, line)
      && (forall x :: 0 <= x < |line| && line[x].added ==>
            m.src[line[x].from].rule.Priority
              == Towards(t, BaseOf(t, dest, line, x), FiringsOf(t, src, m.src, line, x)))
  {
    RunAssigns(show, t, src, dest, Start(t, src, dest), []);
    var (m, line) := (Run(show, t, Start(t, src, dest)), Line(show, t, Start(t, src, dest), []));
    forall x | 0 <= x < |line| && line[x].added
      ensures m.src[line[x].from].rule.Priority
        == Towards(t, BaseOf(t, dest, line, x), FiringsOf(t, src, m.src, line, x))
    {
      GivenIs(t, src, dest, m.src, line, x);
    }
  }

  /** The first addition, where nothing real was matched before it: the priority of the first destination
      rule, if it is real, or MinPriority, and at most one step from it. */
  lemma FirstAssigned(show: RuleBody -> string, t: Target, src: seq<SecurityRule>, dest: seq<SecurityRule>)
    ensures var (m, line) := (Run(show, t, Start(t, src, dest)), Line(show, t, Start(t, src, dest), []));
      line != [] && line[0].added ==>
        && 0 <= line[0].from < |m.src|
        && var (p, first) := (m.src[line[0].from].rule.Priority, FirstPriority(t, dest));
           p == first || (line[0].from > 0 && p == Towards(t, first, 1))
  {
    AssignedPriorities(show, t, src, dest);
  }

  // ---------- What is left of it in the end ----------

  /** The last entry ends with the priority given to it; each one before, as far behind the next as that is an
      addition the test fired for (one), another addition (none), or a match (as the given ones are). */
  ghost predicate EndsInTurn(t: Target, src: seq<SecurityRule>, dest: seq<SecurityRule>, m: Merge, line: seq<Place>)
    requires |m.src| == |src| && AllInLists(src, dest, line) && AllFit(m, line)
  {
    && (line != [] ==> RuleAt(m, line[|line| - 1]).rule.Priority == Given(m.src, dest, line[|line| - 1]))
    && (forall x :: 0 < x < |line| ==> Behind(t, src, dest, m, line, x))
  }

  predicate Behind(t: Target, src: seq<SecurityRule>, dest: seq<SecurityRule>, m: Merge, line: seq<Place>, x: int)
    requires |m.src| == |src| && 0 < x < |line|
    requires InLists(src, dest, line[x - 1]) && InLists(src, dest, line[x]) && Fits(m, line[x - 1]) && Fits(m, line[x])
  {
    Ahead(t, RuleAt(m, line[x - 1]).rule.Priority, RuleAt(m, line[x]).rule.Priority)
      == if line[x].added then Steps(t, src, m.src, line[x].from)
         else Ahead(t, Given(m.src, dest, line[x - 1]), Given(m.src, dest, line[x]))
  }

  ghost predicate Ends(t: Target, src: seq<SecurityRule>, dest: seq<SecurityRule>, m: Merge, line: seq<Place>) {
    && Assigns(t, src, dest, m, line) && AllFit(m, line) && EndsAt(m, line)
    && (forall x :: 0 < x < |line| ==> Behind(t, src, dest, m, line, x))
  }

  /** A step moves all entries alike, and writes nothing before its own place. */
  lemma BehindStays(show: RuleBody -> string, t: Target, src: seq<SecurityRule>, dest: seq<SecurityRule>, m: Merge,
                    line: seq<Place>, more: seq<Place>, x: int)
    requires Assigns(t, src, dest, m, line) && m.Running() && AllFit(m, line)
    requires 0 < x < |line| <= |more| && more[x - 1] == line[x - 1] && more[x] == line[x]
    requires Behind(t, src, dest, m, line, x)
    ensures var n := Step(show, t, m);
      Fits(n, more[x - 1]) && Fits(n, more[x]) && |n.src| == |src| && Behind(t, src, dest, n, more, x)
  {
    var n, k := Step(show, t, m), OffsetOf(show, t, m);
    StepMoves(show, t, m);
    MovedRule(m, n, k, line[x - 1]);
    MovedRule(m, n, k, line[x]);
    assert line[x].from < m.i && line[x - 1].from < m.i;
  }

  lemma NewBehind(show: RuleBody -> string, t: Target, src: seq<SecurityRule>, dest: seq<SecurityRule>, m: Merge,
                  line: seq<Place>, p: Place)
    requires Ends(t, src, dest, m, line) && m.Running() && Placing(show, m) == [p]
    ensures var n := Step(show, t, m);
      && Fits(n, p) && InLists(src, dest, p) && |n.src| == |src|
      && RuleAt(n, p).Priority() == n.priority
      && (line != [] ==> Fits(n, line[|line| - 1]) && Behind(t, src, dest, n, line + [p], |line|))
  {
    var n, k := Step(show, t, m), OffsetOf(show, t, m);
    StepMoves(show, t, m);
    Reaches(show, t, src, dest, m, p);
    if line != [] {
      var last := line[|line| - 1];
      MovedRule(m, n, k, last);
      assert (line + [p])[|line|] == p && (line + [p])[|line| - 1] == last;
      assert Given(n.src, dest, last) == Given(m.src, dest, last) == m.priority;
    }
  }

  /** The entry of a step has the priority reached, as far ahead of the one before as its kind tells. */
  lemma Reaches(show: RuleBody -> string, t: Target, src: seq<SecurityRule>, dest: seq<SecurityRule>, m: Merge,
                p: Place)
    requires Unread(src, dest, m) && m.Running() && Placing(show, m) == [p]
    ensures var n := Step(show, t, m);
      && Fits(n, p) && InLists(src, dest, p) && RuleAt(n, p).Priority() == n.priority
      && Given(n.src, dest, p) == n.priority
      && Ahead(t, m.priority + OffsetOf(show, t, m), n.priority)
        == if p.added then Steps(t, src, n.src, p.from) else Ahead(t, m.priority, n.priority)
  {
    OffsetMoves(t, m.priority);
  }

  lemma StepEnds(show: RuleBody -> string, t: Target, src: seq<SecurityRule>, dest: seq<SecurityRule>, m: Merge,
                 line: seq<Place>)
    requires Ends(t, src, dest, m, line) && m.Running()
    ensures Ends(t, src, dest, Step(show, t, m), line + Placing(show, m))
  {
    var n, more := Step(show, t, m), line + Placing(show, m);
    StepAssigns(show, t, src, dest, m, line);
    StepMonotoneIff(show, t, m, line);
    forall x | 0 < x < |more| ensures Behind(t, src, dest, n, more, x) {
      if x < |line| {
        BehindStays(show, t, src, dest, m, line, more, x);
      } else {
        assert Placing(show, m) == [more[x]];
        NewBehind(show, t, src, dest, m, line, more[x]);
      }
    }
  }

  lemma {:induction false} RunEnds(show: RuleBody -> string, t: Target, src: seq<SecurityRule>,
                                   dest: seq<SecurityRule>, m: Merge, line: seq<Place>)
    requires Ends(t, src, dest, m, line)
    ensures Ends(t, src, dest, Run(show, t, m), Line(show, t, m, line))
    decreases |m.src| - m.i + |m.dest| - m.j
  {
    if m.Running() {
      StepEnds(show, t, src, dest, m, line);
      RunEnds(show, t, src, dest, Step(show, t, m), line + Placing(show, m));
    }
  }

  /** With the priorities assigned, this decides the final priority of every rule added and every real rule kept. */
  lemma FinalPriorities(show: RuleBody -> string, t: Target, src: seq<SecurityRule>, dest: seq<SecurityRule>)
    ensures var (m, line) := (Run(show, t, Start(t, src, dest)), Line(show, t, Start(t, src, dest), []));
      && |m.src| == |src| && AllInLists(src, dest, line) && AllFit(m, line) && EndsInTurn(t, src, dest, m, line)
  {
    RunEnds(show, t, src, dest, Start(t, src, dest), []);
  }

  /** An instance: the rule added takes the priority of a destination rule that is deleted. */
  lemma StartsFromDeleted()
    ensures var t := Target(1, 100, false);
      var m := Run(MatchText(), t, Start(t, [Sample("a", 1)], [Sample("b", 5)]));
      |m.add| == 1 && m.add[0].Priority() == 5 && m.del == [Sample("b", 5)]
  {
    var t, show := Target(1, 100, false), MatchText();
    var m0 := Start(t, [Sample("a", 1)], [Sample("b", 5)]);
    var m1 := Step(show, t, m0);
    var m2 := Step(show, t, m1);
    assert m1 == AddStep(t, m0) && m2 == DeleteStep(m1) && !m2.Running();
  }
}
