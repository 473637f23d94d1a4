/** The merge at the heart of `CompareRules` (`_compare` in
    pkg/cloudprovider/securitygroup.go): one pass over the sorted source and
    destination rules that keeps, adds and deletes, and renumbers what it adds. */
module RuleMerge {
  import opened Images
  import opened SecRules
  import Text

  /** What the merge reads of the destination. */
  datatype Target = Target(MinPriority: int, MaxPriority: int, IsOnlySupportAllowRules: bool) {
    predicate Rising() { MinPriority < MaxPriority }

    /** `getOffest`: the next priority towards MaxPriority, or, there being none,
        the same one and the shift that makes room below it. */
    function GetOffset(priority: int): (int, int) {
      if MinPriority < MaxPriority then
        if priority >= MaxPriority then (priority, -1) else (priority + 1, 0)
      else
        if priority <= MaxPriority then (priority, 1) else (priority - 1, 0)
    }

    /** The priority has not passed MaxPriority in the provider's direction. */
    predicate Within(p: int) {
      if Rising() then p <= MaxPriority else p >= MaxPriority
    }

    function Direction(): int { if Rising() then 1 else -1 }
  }

  /** The variables of the merge; `addFrom` records, for each added rule, its place in the source list. */
  datatype Merge = Merge(i: int, j: int, priority: int,
                         src: seq<SecurityRule>, dest: seq<SecurityRule>,
                         common: seq<SecurityRule>, add: seq<SecurityRule>, del: seq<SecurityRule>, addFrom: seq<int>)
  {
    predicate Valid() { 0 <= i <= |src| && 0 <= j <= |dest| }
    predicate Running() { i < |src| || j < |dest| }
  }

  function Shift(rules: seq<SecurityRule>, k: int): (r: seq<SecurityRule>)
    ensures |r| == |rules|
  {
    seq(|rules|, n requires 0 <= n < |rules| => rules[n].AddPriority(k))
  }

  function Start(t: Target, src: seq<SecurityRule>, dest: seq<SecurityRule>): Merge {
    var p := if |dest| > 0 && dest[0].ExternalId != DEFAULT_DEST_RULE_ID then dest[0].Priority() else t.MinPriority;
    Merge(0, 0, p, src, dest, [], [], [], [])
  }

  function KeepStep(m: Merge): Merge
    requires m.Valid() && m.i < |m.src| && m.j < |m.dest|
  {
    var r := m.dest[m.j].(Id := m.src[m.i].Id);
    m.(i := m.i + 1, j := m.j + 1, dest := m.dest[m.j := r], common := m.common + [r],
       priority := if r.ExternalId != DEFAULT_DEST_RULE_ID then r.Priority() else m.priority)
  }

  function DeleteStep(m: Merge): Merge
    requires m.Valid() && m.j < |m.dest|
  {
    m.(j := m.j + 1, del := m.del + [m.dest[m.j]])
  }

  /** The test that makes an added rule take a new priority: it compares the priority
      of the rule to add with the one the previous source rule holds by now. */
  predicate Fires(t: Target, m: Merge)
    requires m.Valid() && m.i < |m.src|
  {
    !t.IsOnlySupportAllowRules && m.i > 0 && m.src[m.i - 1].Priority() != m.src[m.i].Priority()
  }

  function AddStep(t: Target, m: Merge): Merge
    requires m.Valid() && m.i < |m.src|
  {
    var (p, k) := if Fires(t, m) then t.GetOffset(m.priority) else (m.priority, 0);
    var r := m.src[m.i].WithPriority(p).WithBounds(t.MinPriority, t.MaxPriority);
    m.(i := m.i + 1, priority := p, src := m.src[m.i := r],
       common := Shift(m.common, k), add := Shift(m.add, k) + [r], addFrom := m.addFrom + [m.i])
  }

  function Step(show: RuleBody -> string, t: Target, m: Merge): (n: Merge)
    requires m.Valid() && m.Running()
    ensures n.Valid() && |n.src| == |m.src| && |n.dest| == |m.dest|
    ensures n.i >= m.i && n.j >= m.j && n.i + n.j > m.i + m.j
  {
    if m.i < |m.src| && m.j < |m.dest| then
      var d, s := m.dest[m.j].String(show), m.src[m.i].String(show);
      if d == s then KeepStep(m)
      else if Text.Less(d, s) then DeleteStep(m)
      else AddStep(t, m)
    else if m.i >= |m.src| then DeleteStep(m)
    else AddStep(t, m)
  }

  function Run(show: RuleBody -> string, t: Target, m: Merge): (n: Merge)
    requires m.Valid()
    ensures n.Valid() && !n.Running()
    decreases |m.src| - m.i + |m.dest| - m.j
  {
    if m.Running() then Run(show, t, Step(show, t, m)) else m
  }

  method ShiftAll(rules: seq<SecurityRule>, k: int) returns (r: seq<SecurityRule>)
    ensures r == Shift(rules, k)
  {
    r := rules;
    var n := 0;
    while n < |r|
      invariant 0 <= n <= |r| == |rules|
      invariant forall x :: 0 <= x < |r| ==> r[x] == if x < n then rules[x].AddPriority(k) else rules[x]
    {
      r := r[n := r[n].AddPriority(k)];
      n := n + 1;
    }
  }

  /** `_compare`: overwrites priorities in the source list and ids in the destination
      list as it goes. */
  method CompareMerge(show: RuleBody -> string, t: Target, srcRules: array<SecurityRule>,
                      destRules: array<SecurityRule>)
    returns (common: seq<SecurityRule>, add: seq<SecurityRule>, del: seq<SecurityRule>)
    requires srcRules != destRules
    modifies srcRules, destRules
    ensures var m := Run(show, t, Start(t, old(srcRules[..]), old(destRules[..])));
      && common == m.common && add == m.add && del == m.del
      && srcRules[..] == m.src && destRules[..] == m.dest
  {
    var i, j, priority := 0, 0, t.MinPriority;
    if destRules.Length > 0 && destRules[i].ExternalId != DEFAULT_DEST_RULE_ID {
      priority := destRules[0].Priority();
    }
    common, add, del := [], [], [];
    ghost var m := Start(t, srcRules[..], destRules[..]);
    ghost var end := Run(show, t, m);
    while i < srcRules.Length || j < destRules.Length
      invariant m == Merge(i, j, priority, srcRules[..], destRules[..], common, add, del, m.addFrom)
      invariant m.Valid() && Run(show, t, m) == end
      decreases srcRules.Length - i + destRules.Length - j
    {
      ghost var before := m;
      m := Step(show, t, m);
      if i < srcRules.Length && j < destRules.Length && destRules[j].String(show) == srcRules[i].String(show) {
        destRules[j] := destRules[j].(Id := srcRules[i].Id);
        common := common + [destRules[j]];
        if destRules[j].ExternalId != DEFAULT_DEST_RULE_ID {
          priority := destRules[j].Priority();
        }
        i, j := i + 1, j + 1;
      } else if i >= srcRules.Length
                || (j < destRules.Length && Text.Less(destRules[j].String(show), srcRules[i].String(show))) {
        del := del + [destRules[j]];
        j := j + 1;
      } else {
        priority, common, add := AddRule(t, before.addFrom, srcRules, destRules[..], i, j, priority, common, add, del);
        i := i + 1;
      }
    }
  }

  /** The branch of `_compare` that adds source rule `i`, written there once for each
      way of getting to it. */
  method AddRule(t: Target, ghost addFrom: seq<int>, srcRules: array<SecurityRule>, ghost dest: seq<SecurityRule>,
                 i: int, ghost j: int, priority0: int,
                 common0: seq<SecurityRule>, add0: seq<SecurityRule>, ghost del: seq<SecurityRule>)
    returns (priority: int, common: seq<SecurityRule>, add: seq<SecurityRule>)
    requires 0 <= i < srcRules.Length && 0 <= j <= |dest|
    modifies srcRules
    ensures Merge(i + 1, j, priority, srcRules[..], dest, common, add, del, addFrom + [i])
      == AddStep(t, Merge(i, j, priority0, old(srcRules[..]), dest, common0, add0, del, addFrom))
  {
    var offset := 0;
    priority, common, add := priority0, common0, add0;
    if !t.IsOnlySupportAllowRules && i - 1 >= 0 && srcRules[i - 1].Priority() != srcRules[i].Priority() {
      var next := t.GetOffset(priority);
      priority, offset := next.0, next.1;
    }
    assert Shift(add, 0) == add && Shift(common, 0) == common;
    if offset != 0 {
      add := ShiftAll(add, offset);
      common := ShiftAll(common, offset);
    }
    srcRules[i] := srcRules[i].WithPriority(priority).WithBounds(t.MinPriority, t.MaxPriority);
    add := add + [srcRules[i]];
  }
}
