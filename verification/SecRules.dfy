/** Security rules, their order, and the splitting and renumbering of rule lists
    (pkg/cloudprovider/securitygroup.go). */
module SecRules {
  import opened Images
  import Sorting
  import Text

  const DIR_IN := "in"
  const RULE_ALLOW := "allow"
  const RULE_DENY := "deny"
  const DEFAULT_DEST_RULE_ID := "default_dest_rule_id"
  const DEFAULT_SRC_RULE_ID := "default_src_rule_id"

  /** What a rule says, apart from its priority; `Match` stands for its network and ports. */
  datatype RuleBody = RuleBody(Direction: string, Action: string, Protocol: string, Match: string)

  /** `secrules.SecurityRule`. */
  datatype EmbeddedRule = EmbeddedRule(Priority: int, body: RuleBody)

  datatype SecurityRule = SecurityRule(
    minPriority: int, maxPriority: int, offset: int,
    rule: EmbeddedRule,
    Name: string, ExternalId: string, Id: string, PeerSecgroupId: string)
  {
    function Priority(): int { rule.Priority }

    function WithPriority(p: int): SecurityRule { this.(rule := rule.(Priority := p)) }

    function WithBounds(min: int, max: int): SecurityRule { this.(minPriority := min, maxPriority := max) }

    /** `addPriority`. */
    function AddPriority(k: int): SecurityRule {
      this.(rule := rule.(Priority := rule.Priority + k), offset := offset + k)
    }

    /** `String`, given the text `show` of the embedded rule. */
    function String(show: RuleBody -> string): string {
      if PeerSecgroupId == "" then show(rule.body) else show(rule.body) + "-" + PeerSecgroupId
    }

    predicate IsIn() { rule.body.Direction == DIR_IN }
  }

  // ---------- Order ----------

  /** `SecurityRuleSet.Less`: the direction of ties is read off element 0. */
  predicate LessAt(show: RuleBody -> string, srs: seq<SecurityRule>, i: int, j: int) {
    && 0 <= i < |srs| && 0 <= j < |srs|
    && (srs[i].Priority() < srs[j].Priority()
        || (srs[i].Priority() == srs[j].Priority()
            && ((srs[0].minPriority <= srs[0].maxPriority && Text.Less(srs[i].String(show), srs[j].String(show)))
                || (srs[0].minPriority > srs[0].maxPriority && Text.Less(srs[j].String(show), srs[i].String(show))))))
  }

  /** Priority first, then the rule's text, ascending or descending. */
  predicate Before(show: RuleBody -> string, textUp: bool, a: SecurityRule, b: SecurityRule) {
    || a.Priority() < b.Priority()
    || (a.Priority() == b.Priority()
        && if textUp then Text.Less(a.String(show), b.String(show)) else Text.Less(b.String(show), a.String(show)))
  }

  /** The order a sort leaves: `Before`, or its converse for `sort.Reverse`. */
  function SortOrder(show: RuleBody -> string, reverse: bool, textUp: bool): (SecurityRule, SecurityRule) -> bool {
    (a, b) => if reverse then Before(show, textUp, b, a) else Before(show, textUp, a, b)
  }

  /** `Less` as `sort.Sort` and `sort.Reverse` call it. */
  function SortLess(show: RuleBody -> string, reverse: bool): (seq<SecurityRule>, int, int) -> bool {
    (s, i, j) => if reverse then LessAt(show, s, j, i) else LessAt(show, s, i, j)
  }

  /** Every rule of the list has bounds that run the same way. */
  ghost predicate SameWay(rules: seq<SecurityRule>, up: bool) {
    forall r :: r in rules ==> (r.minPriority <= r.maxPriority <==> up)
  }

  lemma BeforeIsTransitive(show: RuleBody -> string, up: bool, a: SecurityRule, b: SecurityRule, c: SecurityRule)
    requires Before(show, up, a, b) && Before(show, up, b, c)
    ensures Before(show, up, a, c)
  {
    var (x, y, z) := (a.String(show), b.String(show), c.String(show));
    if a.Priority() == b.Priority() == c.Priority() {
      if up {
        Text.LessTransitive(x, y, z);
      } else {
        Text.LessTransitive(z, y, x);
      }
    }
  }

  lemma NotBeforeIsTransitive(show: RuleBody -> string, up: bool, a: SecurityRule, b: SecurityRule, c: SecurityRule)
    requires !Before(show, up, a, b) && !Before(show, up, b, c)
    ensures !Before(show, up, a, c)
  {
    if Before(show, up, a, c) {
      Text.LessTotal(a.String(show), b.String(show));
      Text.LessTotal(b.String(show), c.String(show));
      if Before(show, up, b, a) && Before(show, up, c, b) {
        BeforeIsTransitive(show, up, c, b, a);
        BeforeIsTransitive(show, up, a, c, a);
      }
      Text.LessIrreflexive(a.String(show));
      assert false;
    }
  }

  /** Both sorts order rules by a strict weak order. */
  lemma SortOrderIsWeakOrder(show: RuleBody -> string, reverse: bool, up: bool)
    ensures Sorting.StrictWeakOrder(SortOrder(show, reverse, up))
  {
    var lt := SortOrder(show, reverse, up);
    forall x ensures !lt(x, x) {
      Text.LessIrreflexive(x.String(show));
    }
    forall x, y, z | lt(x, y) && lt(y, z) ensures lt(x, z) {
      if reverse {
        BeforeIsTransitive(show, up, z, y, x);
      } else {
        BeforeIsTransitive(show, up, x, y, z);
      }
    }
    forall x, y, z | !lt(x, y) && !lt(y, z) ensures !lt(x, z) {
      if reverse {
        NotBeforeIsTransitive(show, up, z, y, x);
      } else {
        NotBeforeIsTransitive(show, up, x, y, z);
      }
    }
  }

  /** Although `Less` looks at whichever rule is at position 0 when it is called,
      on a list whose bounds all run one way it is that weak order throughout the sort. */
  lemma LessAgreesWithOrder(show: RuleBody -> string, reverse: bool, up: bool, rules: seq<SecurityRule>)
    requires SameWay(rules, up)
    ensures Sorting.Agrees(SortLess(show, reverse), SortOrder(show, reverse, up), multiset(rules))
  {
    var less, lt := SortLess(show, reverse), SortOrder(show, reverse, up);
    forall s: seq<SecurityRule>, i, j | multiset(s) == multiset(rules) && 0 <= i < |s| && 0 <= j < |s|
      ensures less(s, i, j) == lt(s[i], s[j])
    {
      assert s[0] in multiset(s);
      assert s[0] in rules;
    }
  }

  /** `SortSecurityRule` sorts upwards when this holds, downwards otherwise. */
  predicate SortsUpwards(isAsc: bool, min: int, max: int, onlyAllow: bool) {
    (max > min && isAsc) || (max < min && !isAsc) || (onlyAllow && isAsc)
  }

  method SortSecurityRule(show: RuleBody -> string, rules: array<SecurityRule>, isAsc: bool,
                          min: int, max: int, onlyAllow: bool)
    modifies rules
    ensures multiset(rules[..]) == multiset(old(rules[..]))
    ensures forall up :: SameWay(old(rules[..]), up) ==>
      Sorting.SortedBy(SortOrder(show, !SortsUpwards(isAsc, min, max, onlyAllow), up), rules[..])
  {
    ghost var before := rules[..];
    ghost var up := before != [] && before[0].minPriority <= before[0].maxPriority;
    ghost var reverse := !SortsUpwards(isAsc, min, max, onlyAllow);
    SortOrderIsWeakOrder(show, reverse, up);
    if SameWay(before, up) {
      LessAgreesWithOrder(show, reverse, up, before);
    }
    if (max > min && isAsc) || (max < min && !isAsc) || (onlyAllow && isAsc) {
      Sorting.Sort(rules, SortLess(show, false), SortOrder(show, reverse, up));
    } else {
      Sorting.Sort(rules, SortLess(show, true), SortOrder(show, reverse, up));
    }
    if before == [] {
      assert |rules[..]| == |multiset(rules[..])| == 0;
    } else {
      assert before[0] in before;
      assert forall u :: SameWay(before, u) ==> u == up;
    }
  }

  // ---------- Splitting by direction, default rules ----------

  /** The rules `Split` hands to the comparison, for one direction. */
  function Wanted(dirIn: bool, peers: bool): SecurityRule -> bool {
    (r: SecurityRule) => r.IsIn() == dirIn && (peers || r.PeerSecgroupId == "")
  }

  function HasDirection(dirIn: bool): SecurityRule -> bool {
    (r: SecurityRule) => r.IsIn() == dirIn
  }

  function Bounded(rules: seq<SecurityRule>, min: int, max: int): seq<SecurityRule> {
    seq(|rules|, i requires 0 <= i < |rules| => rules[i].WithBounds(min, max))
  }

  /** A rule that covers everything. */
  predicate IsWide(show: RuleBody -> string, r: SecurityRule) {
    Text.HasSuffix(r.String(show), "allow any") || Text.HasSuffix(r.String(show), "deny any")
  }

  class SecRuleInfo {
    var InDefaultRule: SecurityRule
    var OutDefaultRule: SecurityRule
    var inRules: seq<SecurityRule>
    var outRules: seq<SecurityRule>
    var rules: seq<SecurityRule>
    var Rules: array<SecurityRule>
    var MinPriority: int
    var MaxPriority: int
    var IsOnlySupportAllowRules: bool
    var IsSupportPeerSecgroup: bool

    /** Passing a SecRuleInfo by value copies its fields and shares the array of rules. */
    constructor CopyOf(info: SecRuleInfo)
      ensures InDefaultRule == info.InDefaultRule && OutDefaultRule == info.OutDefaultRule
      ensures Rules == info.Rules
      ensures MinPriority == info.MinPriority && MaxPriority == info.MaxPriority
      ensures IsOnlySupportAllowRules == info.IsOnlySupportAllowRules
      ensures IsSupportPeerSecgroup == info.IsSupportPeerSecgroup
    {
      InDefaultRule, OutDefaultRule := info.InDefaultRule, info.OutDefaultRule;
      inRules, outRules, rules, Rules := info.inRules, info.outRules, info.rules, info.Rules;
      MinPriority, MaxPriority := info.MinPriority, info.MaxPriority;
      IsOnlySupportAllowRules, IsSupportPeerSecgroup := info.IsOnlySupportAllowRules, info.IsSupportPeerSecgroup;
    }

    method Split() returns (ins: seq<SecurityRule>, outs: seq<SecurityRule>)
      modifies this`rules, this`inRules, this`outRules, Rules
      ensures rules == old(Rules[..])
      ensures inRules == Filter(HasDirection(true), rules) && outRules == Filter(HasDirection(false), rules)
      ensures Rules[..] == Bounded(old(Rules[..]), MinPriority, MaxPriority)
      ensures ins == Filter(Wanted(true, IsSupportPeerSecgroup), Rules[..])
      ensures outs == Filter(Wanted(false, IsSupportPeerSecgroup), Rules[..])
    {
      ghost var after := Bounded(Rules[..], MinPriority, MaxPriority);
      rules := Rules[..];
      inRules, outRules, ins, outs := SplitLists();
      SplitDone(IsSupportPeerSecgroup, rules, after, inRules, outRules, ins, outs);
    }

    /** The loop of `Split`. */
    method SplitLists()
      returns (inCopied: seq<SecurityRule>, outCopied: seq<SecurityRule>,
               ins: seq<SecurityRule>, outs: seq<SecurityRule>)
      modifies Rules
      ensures Rules[..] == Bounded(old(Rules[..]), MinPriority, MaxPriority)
      ensures SplitSoFar(IsSupportPeerSecgroup, old(Rules[..]), Rules[..], Rules.Length, inCopied, outCopied, ins, outs)
    {
      ghost var before, after := Rules[..], Bounded(Rules[..], MinPriority, MaxPriority);
      inCopied, outCopied, ins, outs := [], [], [], [];
      var i := 0;
      while i < Rules.Length
        invariant 0 <= i <= Rules.Length
        invariant SplitSoFar(IsSupportPeerSecgroup, before, after, i, inCopied, outCopied, ins, outs)
        invariant forall k :: 0 <= k < Rules.Length ==> Rules[k] == if k < i then after[k] else before[k]
      {
        SplitStep(IsSupportPeerSecgroup, before, after, i, inCopied, outCopied, ins, outs);
        inCopied, outCopied := Collect(Rules[i], true, true, inCopied), Collect(Rules[i], false, true, outCopied);
        var r := Tag(i);
        ins := Collect(r, true, IsSupportPeerSecgroup, ins);
        outs := Collect(r, false, IsSupportPeerSecgroup, outs);
        i := i + 1;
      }
      assert Rules[..] == after;
    }

    /** Tags rule `i` with the bounds. */
    method Tag(i: int) returns (r: SecurityRule)
      requires 0 <= i < Rules.Length
      modifies Rules
      ensures r == old(Rules[i]).WithBounds(MinPriority, MaxPriority)
      ensures forall k :: 0 <= k < Rules.Length ==> Rules[k] == if k == i then r else old(Rules[k])
    {
      Rules[i] := Rules[i].WithBounds(MinPriority, MaxPriority);
      r := Rules[i];
    }

    /** The lists after `i` rules: copies of the rules as they were, and of the tagged rules that take part. */
    static ghost predicate SplitSoFar(peers: bool, before: seq<SecurityRule>, after: seq<SecurityRule>, i: int,
                                      inCopied: seq<SecurityRule>, outCopied: seq<SecurityRule>,
                                      ins: seq<SecurityRule>, outs: seq<SecurityRule>)
    {
      && 0 <= i <= |before| == |after|
      && inCopied == Filter(HasDirection(true), before[..i]) && outCopied == Filter(HasDirection(false), before[..i])
      && ins == Filter(Wanted(true, peers), after[..i]) && outs == Filter(Wanted(false, peers), after[..i])
    }

    static lemma SplitDone(peers: bool, before: seq<SecurityRule>, after: seq<SecurityRule>,
                           inCopied: seq<SecurityRule>, outCopied: seq<SecurityRule>,
                           ins: seq<SecurityRule>, outs: seq<SecurityRule>)
      requires SplitSoFar(peers, before, after, |before|, inCopied, outCopied, ins, outs)
      ensures inCopied == Filter(HasDirection(true), before) && outCopied == Filter(HasDirection(false), before)
      ensures ins == Filter(Wanted(true, peers), after) && outs == Filter(Wanted(false, peers), after)
    {
      assert before[..|before|] == before && after[..|before|] == after;
    }

    static lemma SplitStep(peers: bool, before: seq<SecurityRule>, after: seq<SecurityRule>, i: int,
                           inCopied: seq<SecurityRule>, outCopied: seq<SecurityRule>,
                           ins: seq<SecurityRule>, outs: seq<SecurityRule>)
      requires SplitSoFar(peers, before, after, i, inCopied, outCopied, ins, outs) && i < |before|
      ensures SplitSoFar(peers, before, after, i + 1,
                         Collect(before[i], true, true, inCopied), Collect(before[i], false, true, outCopied),
                         Collect(after[i], true, peers, ins), Collect(after[i], false, peers, outs))
    {
      CollectAll(before, i);
      CollectWanted(peers, after, i);
    }

    static lemma CollectAll(s: seq<SecurityRule>, i: int)
      requires 0 <= i < |s|
      ensures Filter(HasDirection(true), s[..i + 1]) == Collect(s[i], true, true, Filter(HasDirection(true), s[..i]))
      ensures Filter(HasDirection(false), s[..i + 1]) == Collect(s[i], false, true, Filter(HasDirection(false), s[..i]))
    {
      FilterTake(HasDirection(true), s, i);
      FilterTake(HasDirection(false), s, i);
    }

    static lemma CollectWanted(peers: bool, s: seq<SecurityRule>, i: int)
      requires 0 <= i < |s|
      ensures Filter(Wanted(true, peers), s[..i + 1]) == Collect(s[i], true, peers, Filter(Wanted(true, peers), s[..i]))
      ensures Filter(Wanted(false, peers), s[..i + 1])
        == Collect(s[i], false, peers, Filter(Wanted(false, peers), s[..i]))
    {
      FilterTake(Wanted(true, peers), s, i);
      FilterTake(Wanted(false, peers), s, i);
    }

    /** Appends the rule to the list of one direction, unless it names a peer group that is not supported. */
    static function Collect(r: SecurityRule, dirIn: bool, peers: bool, list: seq<SecurityRule>): seq<SecurityRule> {
      if r.IsIn() == dirIn && (peers || r.PeerSecgroupId == "") then list + [r] else list
    }

    /** The synthetic rule: lower than every priority in bounds. */
    function DefaultRule(d: SecurityRule, isSrc: bool): SecurityRule
      reads this
    {
      var p := if MaxPriority >= MinPriority then MinPriority - 1 else MinPriority + 1;
      var r := d.WithPriority(p).WithBounds(MinPriority, MaxPriority);
      if isSrc then r.(Id := DEFAULT_SRC_RULE_ID) else r.(ExternalId := DEFAULT_DEST_RULE_ID)
    }

    /** `AddDefaultRule` for one direction. */
    function AddDefault(show: RuleBody -> string, d: SecurityRule, list: seq<SecurityRule>,
                        isSrc: bool): seq<SecurityRule>
      reads this
    {
      if exists r :: r in list && IsWide(show, r) then list else list + [DefaultRule(d, isSrc)]
    }
  }

  /** The priority lies between the bounds, whichever of them is larger. */
  predicate InBounds(p: int, min: int, max: int) {
    if min <= max then min <= p <= max else max <= p <= min
  }

  /** Sorted high to low, a default rule added to rules within bounds comes last,
      both for providers whose numbers grow with precedence and for the others. */
  lemma DefaultSortsLast(show: RuleBody -> string, info: SecRuleInfo, d: SecurityRule, isSrc: bool, up: bool,
                         explicit: seq<SecurityRule>, sorted: seq<SecurityRule>)
    requires forall r :: r in explicit ==> InBounds(r.Priority(), info.MinPriority, info.MaxPriority)
    requires multiset(sorted) == multiset(explicit + [info.DefaultRule(d, isSrc)])
    requires Sorting.SortedBy(
      SortOrder(show, !SortsUpwards(false, info.MinPriority, info.MaxPriority, info.IsOnlySupportAllowRules), up),
      sorted)
    ensures sorted != [] && sorted[|sorted| - 1] == info.DefaultRule(d, isSrc)
    ensures forall k :: 0 <= k < |sorted| - 1 ==> sorted[k] in explicit
  {
    var def := info.DefaultRule(d, isSrc);
    var n := |sorted| - 1;
    SnocPermuted(explicit, sorted, def);
    var k :| 0 <= k <= n && sorted[k] == def;
    if sorted[n] in explicit {
      DefaultBehind(show, info, d, isSrc, up, sorted[n]);
    }
    LastOutOfPermutation(explicit, sorted, def);
  }

  /** A rule within bounds goes before the default rule. */
  lemma DefaultBehind(show: RuleBody -> string, info: SecRuleInfo, d: SecurityRule, isSrc: bool, up: bool,
                      r: SecurityRule)
    requires InBounds(r.Priority(), info.MinPriority, info.MaxPriority)
    ensures SortOrder(show, !SortsUpwards(false, info.MinPriority, info.MaxPriority, info.IsOnlySupportAllowRules), up)
            (r, info.DefaultRule(d, isSrc))
  {
  }

  lemma SnocPermuted<T>(s: seq<T>, t: seq<T>, x: T)
    requires multiset(t) == multiset(s + [x])
    ensures |t| == |s| + 1 && x in t && forall y :: y in t ==> y in s || y == x
  {
    assert |multiset(t)| == |s| + 1;
    assert x in multiset(s + [x]);
    forall y | y in t ensures y in s || y == x {
      assert y in multiset(t);
    }
  }

  lemma LastOutOfPermutation<T>(s: seq<T>, t: seq<T>, x: T)
    requires t != [] && t[|t| - 1] == x && multiset(t) == multiset(s + [x])
    ensures multiset(t[..|t| - 1]) == multiset(s)
    ensures forall k :: 0 <= k < |t| - 1 ==> t[k] in s
  {
    var front := t[..|t| - 1];
    assert t == front + [x];
    assert multiset(t) == multiset(front) + multiset{x};
    assert multiset(s + [x]) == multiset(s) + multiset{x};
    assert multiset(front) == multiset(t) - multiset{x};
    assert multiset(s) == multiset(s + [x]) - multiset{x};
    forall k | 0 <= k < |t| - 1 ensures t[k] in s {
      assert front[k] in multiset(front);
    }
  }

  // ---------- Unique priorities ----------

  /** The greatest value not above `p` outside `used`. */
  function FreeBelow(p: int, used: set<int>): (q: int)
    ensures q <= p && q !in used && p - q <= |used|
    decreases |used|
  {
    if p !in used then p else FreeBelow(p - 1, used - {p})
  }

  lemma {:induction false} FreeBelowIsGreatest(p: int, used: set<int>, x: int)
    requires FreeBelow(p, used) < x <= p
    ensures x in used
    decreases |used|
  {
    if x != p {
      FreeBelowIsGreatest(p - 1, used - {p}, x);
    }
  }

  /** The priorities `SortUniqPriority` hands out, given the ones it meets in order. */
  function UniqFrom(prios: seq<int>): (r: seq<int>)
    ensures |r| == |prios|
  {
    if prios == [] then []
    else
      var r := UniqFrom(prios[..|prios| - 1]);
      r + [FreeBelow(prios[|prios| - 1], Values(r))]
  }

  function Values(s: seq<int>): set<int> {
    set x | x in s
  }

  lemma {:induction false} ValuesBound(s: seq<int>)
    ensures |Values(s)| <= |s|
  {
    if s != [] {
      var t := s[..|s| - 1];
      ValuesBound(t);
      assert s == t + [s[|s| - 1]];
      assert Values(s) == Values(t) + {s[|s| - 1]};
    }
  }

  lemma {:induction false} UniqPrefix(prios: seq<int>, n: int)
    requires 0 <= n <= |prios|
    ensures UniqFrom(prios)[..n] == UniqFrom(prios[..n])
  {
    if n == |prios| {
      assert prios[..n] == prios;
    } else {
      var front := prios[..|prios| - 1];
      UniqPrefix(front, n);
      assert front[..n] == prios[..n];
      assert UniqFrom(prios)[..n] == UniqFrom(front)[..n];
    }
  }

  lemma UniqAt(prios: seq<int>, k: int)
    requires 0 <= k < |prios|
    ensures UniqFrom(prios)[k] == FreeBelow(prios[k], Values(UniqFrom(prios)[..k]))
  {
    UniqPrefix(prios, k + 1);
    UniqPrefix(prios, k);
    assert prios[..k + 1][..k] == prios[..k];
    assert UniqFrom(prios)[k] == UniqFrom(prios)[..k + 1][k];
  }

  /** Each position gets the greatest value not above its own that no earlier
      position holds, and drops by at most its index. */
  lemma UniqIsGreatestFree(prios: seq<int>, i: int)
    requires 0 <= i < |prios|
    ensures var r := UniqFrom(prios);
      && r[i] <= prios[i] && prios[i] - r[i] <= i
      && r[i] !in r[..i]
      && (forall x :: r[i] < x <= prios[i] ==> x in r[..i])
  {
    UniqAt(prios, i);
    var r := UniqFrom(prios);
    ValuesBound(r[..i]);
    forall x | r[i] < x <= prios[i] ensures x in r[..i] {
      FreeBelowIsGreatest(prios[i], Values(r[..i]), x);
    }
  }

  /** No two positions get the same value. */
  lemma UniqIsDistinct(prios: seq<int>, i: int, j: int)
    requires 0 <= i < j < |prios|
    ensures UniqFrom(prios)[i] != UniqFrom(prios)[j]
  {
    UniqIsGreatestFree(prios, j);
    assert UniqFrom(prios)[..j][i] == UniqFrom(prios)[i];
  }

  /** Priorities that are distinct already are left alone. */
  lemma {:induction false} UniqKeepsDistinct(prios: seq<int>)
    requires forall i, j :: 0 <= i < j < |prios| ==> prios[i] != prios[j]
    ensures UniqFrom(prios) == prios
  {
    if prios != [] {
      var front, last := prios[..|prios| - 1], prios[|prios| - 1];
      UniqKeepsDistinct(front);
      assert last !in front;
      assert UniqFrom(prios) == front + [FreeBelow(last, Values(front))];
      assert prios == front + [last];
    }
  }

  function Priorities(rules: seq<SecurityRule>): seq<int> {
    seq(|rules|, i requires 0 <= i < |rules| => rules[i].Priority())
  }

  function WithPriorities(rules: seq<SecurityRule>, p: seq<int>): seq<SecurityRule>
    requires |p| == |rules|
  {
    seq(|rules|, i requires 0 <= i < |rules| => rules[i].WithPriority(p[i]))
  }

  method SortUniqPriority(show: RuleBody -> string, rules: array<SecurityRule>)
    returns (ghost sorted: seq<SecurityRule>)
    modifies rules
    ensures multiset(sorted) == multiset(old(rules[..]))
    ensures forall up :: SameWay(old(rules[..]), up) ==> Sorting.SortedBy(SortOrder(show, false, up), sorted)
    ensures rules[..] == WithPriorities(sorted, UniqFrom(Priorities(sorted)))
  {
    SortSecurityRule(show, rules, true, 0, 1, false);
    sorted := rules[..];
    ghost var prios := Priorities(sorted);
    ghost var uniq := UniqFrom(prios);
    ghost var target := WithPriorities(sorted, uniq);
    var priMap: map<int, bool> := map[];
    var i := 0;
    while i < rules.Length
      invariant 0 <= i <= rules.Length
      invariant priMap.Keys == Values(uniq[..i])
      invariant forall k :: 0 <= k < rules.Length ==> rules[k] == if k < i then target[k] else sorted[k]
    {
      UniqAt(prios, i);
      LowerToFree(rules, i, priMap, uniq[i]);
      priMap := priMap[rules[i].Priority() := true];
      assert uniq[..i + 1] == uniq[..i] + [uniq[i]];
      i := i + 1;
    }
  }

  /** The inner loop: counts the priority of rule `i` down to the first free one. */
  method LowerToFree(rules: array<SecurityRule>, i: int, priMap: map<int, bool>, ghost free: int)
    requires 0 <= i < rules.Length
    requires free == FreeBelow(rules[i].Priority(), priMap.Keys)
    modifies rules
    ensures rules[i] == old(rules[i]).WithPriority(free)
    ensures forall k :: 0 <= k < rules.Length && k != i ==> rules[k] == old(rules[k])
  {
    ghost var start := rules[i];
    while rules[i].Priority() in priMap
      invariant rules[i] == start.WithPriority(rules[i].Priority())
      invariant free <= rules[i].Priority() <= start.Priority()
      invariant forall k :: 0 <= k < rules.Length && k != i ==> rules[k] == old(rules[k])
      decreases rules[i].Priority() - free
    {
      rules[i] := rules[i].WithPriority(rules[i].Priority() - 1);
    }
    if free < rules[i].Priority() {
      FreeBelowIsGreatest(start.Priority(), priMap.Keys, rules[i].Priority());
    }
  }
}
