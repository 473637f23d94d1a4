/** The comparison of access-group rules (pkg/cloudprovider/access_group.go). */
module AccessRules {
  import opened Images
  import Sorting
  import Text

  datatype AccessGroupRule = AccessGroupRule(
    Id: string, ExternalId: string, Priority: int, RWAccessType: string, UserAccessType: string, Source: string)
  {
    function String(): string {
      RWAccessType + "-" + UserAccessType + "-" + Source
    }
  }

  // ---------- Order ----------

  /** `AccessGroupRuleSet.Less`. */
  predicate RuleLess(a: AccessGroupRule, b: AccessGroupRule) {
    KeyLess(Key(a), Key(b))
  }

  function Key(r: AccessGroupRule): (int, string) { (r.Priority, r.String()) }

  predicate KeyLess(a: (int, string), b: (int, string)) {
    a.0 < b.0 || (a.0 == b.0 && Text.Less(a.1, b.1))
  }

  lemma KeyLessIsTotalOrder()
    ensures Sorting.StrictTotalOrder(KeyLess)
  {
    Text.LessIsTotalOrder();
  }

  /** Ascending when `up`, as `Sort` sorts when MinPriority < MaxPriority; descending otherwise. */
  function SortedOrder(up: bool): (AccessGroupRule, AccessGroupRule) -> bool {
    (a, b) => if up then RuleLess(a, b) else RuleLess(b, a)
  }

  function KeyOrder(up: bool): ((int, string), (int, string)) -> bool {
    (a, b) => if up then KeyLess(a, b) else KeyLess(b, a)
  }

  function LessAt(up: bool): (seq<AccessGroupRule>, int, int) -> bool {
    (s, i, j) => 0 <= i < |s| && 0 <= j < |s| && if up then RuleLess(s[i], s[j]) else RuleLess(s[j], s[i])
  }

  lemma OrdersAreOrders(up: bool)
    ensures Sorting.StrictWeakOrder(SortedOrder(up)) && Sorting.StrictTotalOrder(KeyOrder(up))
  {
    KeyLessIsTotalOrder();
    var lt := SortedOrder(up);
    assert forall a, b :: lt(a, b) == KeyOrder(up)(Key(a), Key(b));
  }

  class AccessGroupRuleInfo {
    var MaxPriority: int
    var MinPriority: int
    var SupportedUserAccessType: seq<string>
    var Rules: array<AccessGroupRule>

    constructor (max: int, min: int, supported: seq<string>, rules: array<AccessGroupRule>)
      ensures MaxPriority == max && MinPriority == min && SupportedUserAccessType == supported && Rules == rules
    {
      MaxPriority, MinPriority, SupportedUserAccessType, Rules := max, min, supported, rules;
    }

    method Sort()
      modifies Rules
      ensures multiset(Rules[..]) == multiset(old(Rules[..]))
      ensures Sorting.SortedBy(SortedOrder(MinPriority < MaxPriority), Rules[..])
    {
      var up := MinPriority < MaxPriority;
      OrdersAreOrders(up);
      assert Sorting.Agrees(LessAt(up), SortedOrder(up), multiset(Rules[..]));
      if MinPriority < MaxPriority {
        Sorting.Sort(Rules, LessAt(true), SortedOrder(up));
      } else {
        Sorting.Sort(Rules, LessAt(false), SortedOrder(up));
      }
    }
  }

  // ---------- The merge ----------

  /** What the merge reads of the destination besides its rules. */
  datatype Limits = Limits(MinPriority: int, MaxPriority: int, Supported: seq<string>) {
    predicate InBounds(p: int) {
      if MinPriority <= MaxPriority then MinPriority <= p <= MaxPriority else MaxPriority <= p <= MinPriority
    }

    /** Halved towards zero, as Go divides. */
    function Middle(): int {
      var s := MinPriority - 1 + MaxPriority;
      if s >= 0 then s / 2 else -(-s / 2)
    }

    /** The closure `addPriority`: one step towards MaxPriority, none from a bound on. */
    function NextPriority(init: int): int {
      var (lo, hi, inc) := if MaxPriority < MinPriority then (MaxPriority, MinPriority, -1)
        else (MinPriority, MaxPriority, 1);
      if init >= hi || init <= lo then init else init + inc
    }
  }

  /** The variables of the merge; `unmatched` collects the source rules that matched
      nothing, as they were. */
  datatype Merge = Merge(i: int, j: int, priority: int, src: seq<AccessGroupRule>, dest: seq<AccessGroupRule>,
                         common: seq<AccessGroupRule>, added: seq<AccessGroupRule>, removed: seq<AccessGroupRule>,
                         unmatched: seq<AccessGroupRule>)
  {
    predicate Valid() { 0 <= i <= |src| && 0 <= j <= |dest| }
    predicate Running() { i < |src| || j < |dest| }
  }

  /** The bounds and access types of an Aliyun access group (pkg/multicloud/aliyun/access_groups.go). */
  function AliyunLimits(): Limits {
    Limits(100, 1, ["all_squash", "root_squash", "no_root_squash"])
  }

  function Start(t: Limits, src: seq<AccessGroupRule>, dest: seq<AccessGroupRule>): Merge {
    Merge(0, 0, t.Middle(), src, dest, [], [], [], [])
  }

  function KeepStep(m: Merge): Merge
    requires m.Valid() && m.i < |m.src| && m.j < |m.dest|
  {
    var r := m.dest[m.j].(Id := m.src[m.i].Id);
    m.(i := m.i + 1, j := m.j + 1, dest := m.dest[m.j := r], common := m.common + [r], priority := r.Priority)
  }

  function RemoveStep(m: Merge): Merge
    requires m.Valid() && m.j < |m.dest|
  {
    m.(j := m.j + 1, removed := m.removed + [m.dest[m.j]])
  }

  function AddStep(t: Limits, m: Merge): Merge
    requires m.Valid() && m.i < |m.src|
  {
    var n := m.(i := m.i + 1, unmatched := m.unmatched + [m.src[m.i]]);
    if m.src[m.i].UserAccessType in t.Supported then
      var p := t.NextPriority(m.priority);
      var r := m.src[m.i].(Priority := p);
      n.(priority := p, src := m.src[m.i := r], added := m.added + [r])
    else n
  }

  function Step(t: Limits, m: Merge): (n: Merge)
    requires m.Valid() && m.Running()
    ensures n.Valid() && |n.src| == |m.src| && |n.dest| == |m.dest|
    ensures n.i >= m.i && n.j >= m.j && n.i + n.j > m.i + m.j
  {
    if m.i < |m.src| && m.j < |m.dest| then
      if m.dest[m.j].String() == m.src[m.i].String() then KeepStep(m)
      else if Text.Less(m.dest[m.j].String(), m.src[m.i].String()) then RemoveStep(m)
      else AddStep(t, m)
    else if m.i >= |m.src| then RemoveStep(m)
    else AddStep(t, m)
  }

  function Run(t: Limits, m: Merge): (n: Merge)
    requires m.Valid()
    ensures n.Valid() && !n.Running()
    decreases |m.src| - m.i + |m.dest| - m.j
  {
    if m.Running() then Run(t, Step(t, m)) else m
  }

  /** `CompareAccessGroupRules`. If both sides share one array of rules, the second sort decides its order. */
  method CompareAccessGroupRules(src: AccessGroupRuleInfo, dest: AccessGroupRuleInfo)
    returns (common: seq<AccessGroupRule>, added: seq<AccessGroupRule>, removed: seq<AccessGroupRule>,
             ghost s: seq<AccessGroupRule>, ghost d: seq<AccessGroupRule>)
    modifies src.Rules, dest.Rules
    ensures multiset(s) == multiset(old(src.Rules[..])) && multiset(d) == multiset(old(dest.Rules[..]))
    ensures src.Rules != dest.Rules ==> Sorting.SortedBy(SortedOrder(src.MinPriority < src.MaxPriority), s)
    ensures src.Rules == dest.Rules ==> s == d
    ensures Sorting.SortedBy(SortedOrder(dest.MinPriority < dest.MaxPriority), d)
    ensures var t := Limits(dest.MinPriority, dest.MaxPriority, dest.SupportedUserAccessType);
      var m := Run(t, Start(t, s, d));
      && common == m.common && added == m.added && removed == m.removed
      && src.Rules[..] == m.src && dest.Rules[..] == m.dest
  {
    src.Sort();
    dest.Sort();
    s, d := src.Rules[..], dest.Rules[..];
    var t := Limits(dest.MinPriority, dest.MaxPriority, dest.SupportedUserAccessType);
    common, added, removed := MergeRules(t, src.Rules, dest.Rules);
  }

  /** The loop of `CompareAccessGroupRules`. */
  method MergeRules(t: Limits, src: array<AccessGroupRule>, dest: array<AccessGroupRule>)
    returns (common: seq<AccessGroupRule>, added: seq<AccessGroupRule>, removed: seq<AccessGroupRule>)
    modifies src, dest
    ensures var m := Run(t, Start(t, old(src[..]), old(dest[..])));
      && common == m.common && added == m.added && removed == m.removed
      && src[..] == m.src && dest[..] == m.dest
  {
    var i, j, priority := 0, 0, t.Middle();
    common, added, removed := [], [], [];
    ghost var m := Start(t, src[..], dest[..]);
    ghost var end := Run(t, m);
    while i < src.Length || j < dest.Length
      invariant m == Merge(i, j, priority, src[..], dest[..], common, added, removed, m.unmatched)
      invariant m.Valid() && Run(t, m) == end
      invariant src == dest ==> i == j
      decreases src.Length - i + dest.Length - j
    {
      m := Step(t, m);
      if i < src.Length && j < dest.Length && dest[j].String() == src[i].String() {
        dest[j] := dest[j].(Id := src[i].Id);
        common := common + [dest[j]];
        priority := dest[j].Priority;
        i, j := i + 1, j + 1;
      } else if i >= src.Length || (j < dest.Length && Text.Less(dest[j].String(), src[i].String())) {
        removed := removed + [dest[j]];
        j := j + 1;
      } else {
        if src[i].UserAccessType in t.Supported {
          priority := t.NextPriority(priority);
          src[i] := src[i].(Priority := priority);
          added := added + [src[i]];
        }
        i := i + 1;
      }
    }
  }
}
