/** `CompareRules` as a whole (pkg/cloudprovider/securitygroup.go): default rules,
    allow-list substitution, one merge per direction, and the fate of the defaults. */
module RuleCompare {
  import opened Images
  import opened SecRules
  import opened RuleMerge
  import opened RuleMergeProofs
  import opened RuleGroups
  import Sorting
  import Text

  datatype Option<T> = None | Some(value: T)

  /** The functions of the `secrules` library the code calls, whose bodies are elsewhere. */
  datatype RuleLib = RuleLib(
    show: RuleBody -> string,
    allowList: seq<EmbeddedRule> -> seq<EmbeddedRule>,
    listText: seq<EmbeddedRule> -> string,
    listEquals: (seq<EmbeddedRule>, seq<EmbeddedRule>) -> bool)

  // ---------- Allow lists ----------

  function Embedded(rules: seq<SecurityRule>): seq<EmbeddedRule> {
    seq(|rules|, k requires 0 <= k < |rules| => rules[k].rule)
  }

  /** `SecurityRuleSet.AllowList`. */
  method AllowList(lib: RuleLib, srs: seq<SecurityRule>) returns (list: seq<EmbeddedRule>, isOk: bool)
    ensures list == lib.allowList(Embedded(srs))
    ensures isOk <==> NoPeers(srs)
  {
    var rules: seq<EmbeddedRule> := [];
    isOk := true;
    for k := 0 to |srs|
      invariant rules == Embedded(srs[..k])
      invariant isOk <==> forall x :: 0 <= x < k ==> srs[x].PeerSecgroupId == ""
    {
      if srs[k].PeerSecgroupId != "" {
        isOk := false;
      }
      rules := rules + [srs[k].rule];
    }
    assert srs[..|srs|] == srs;
    list := lib.allowList(rules);
  }

  function TextSet(lib: RuleLib, list: seq<EmbeddedRule>): set<string> {
    set r | r in list :: lib.show(r.body)
  }

  predicate AllowListEqual(lib: RuleLib, src: seq<EmbeddedRule>, dest: seq<EmbeddedRule>) {
    |src| == |dest| && TextSet(lib, src) == TextSet(lib, dest)
  }

  /** `isAllowListEqual`. */
  method IsAllowListEqual(lib: RuleLib, src: seq<EmbeddedRule>, dest: seq<EmbeddedRule>) returns (equal: bool)
    ensures equal <==> AllowListEqual(lib, src, dest)
  {
    if |src| != |dest| {
      return false;
    }
    var s1, s2: set<string> := {}, {};
    for i := 0 to |src|
      invariant s1 == TextSet(lib, src[..i]) && s2 == TextSet(lib, dest[..i])
    {
      TextSetTake(lib, src, i);
      TextSetTake(lib, dest, i);
      s1, s2 := s1 + {lib.show(src[i].body)}, s2 + {lib.show(dest[i].body)};
    }
    assert src[..|src|] == src && dest[..|src|] == dest;
    equal := s1 == s2;
  }

  lemma TextSetTake(lib: RuleLib, list: seq<EmbeddedRule>, i: int)
    requires 0 <= i < |list|
    ensures TextSet(lib, list[..i + 1]) == TextSet(lib, list[..i]) + {lib.show(list[i].body)}
  {
    assert list[..i + 1] == list[..i] + [list[i]];
  }

  /** Some entry of the list has the text. */
  ghost predicate HasText(lib: RuleLib, list: seq<EmbeddedRule>, text: string) {
    exists k :: 0 <= k < |list| && lib.show(list[k].body) == text
  }

  /** The lists are equally long, and the texts of each occur in the other. */
  ghost predicate SameTexts(lib: RuleLib, a: seq<EmbeddedRule>, b: seq<EmbeddedRule>) {
    && |a| == |b|
    && (forall k :: 0 <= k < |a| ==> HasText(lib, b, lib.show(a[k].body)))
    && (forall k :: 0 <= k < |b| ==> HasText(lib, a, lib.show(b[k].body)))
  }

  /** Allow lists count as equal exactly when they have one length and the same texts. */
  lemma AllowListEqualIff(lib: RuleLib, a: seq<EmbeddedRule>, b: seq<EmbeddedRule>)
    ensures AllowListEqual(lib, a, b) <==> SameTexts(lib, a, b)
  {
    TextSetIff(lib, a);
    TextSetIff(lib, b);
    if AllowListEqual(lib, a, b) {
      forall k | 0 <= k < |a| ensures HasText(lib, b, lib.show(a[k].body)) {
        assert HasText(lib, a, lib.show(a[k].body));
      }
      forall k | 0 <= k < |b| ensures HasText(lib, a, lib.show(b[k].body)) {
        assert HasText(lib, b, lib.show(b[k].body));
      }
    }
  }

  lemma TextSetIff(lib: RuleLib, list: seq<EmbeddedRule>)
    ensures forall text :: text in TextSet(lib, list) <==> HasText(lib, list, text)
  {
    forall text ensures text in TextSet(lib, list) <==> HasText(lib, list, text) {
      if HasText(lib, list, text) {
        var k :| 0 <= k < |list| && lib.show(list[k].body) == text;
        assert list[k] in list;
      }
    }
  }

  /** A rule that carries nothing but an allow-list entry. */
  function BareRule(r: EmbeddedRule): SecurityRule {
    SecurityRule(0, 0, 0, r, "", "", "", "")
  }

  function BareRules(list: seq<EmbeddedRule>): seq<SecurityRule> {
    seq(|list|, k requires 0 <= k < |list| => BareRule(list[k]))
  }

  /** An allow list that says something, under a default that denies, is completed by the default. */
  predicate WantsDefault(lib: RuleLib, defaultRule: SecurityRule, allowList: seq<EmbeddedRule>) {
    lib.listText(allowList) !in {"", "in:allow any", "out:allow any", "in:deny any", "out:deny any"}
    && Text.HasSuffix(lib.show(defaultRule.rule.body), "deny any")
  }

  /** The source rules a direction is merged with: the full list, or its allow list where
      that may be used and is shorter or called for. */
  function UsedRules(lib: RuleLib, defaultRule: SecurityRule, allowList: seq<EmbeddedRule>, rules: seq<SecurityRule>,
                     isOnlyAllowList: bool, isOk: bool): seq<SecurityRule> {
    if isOk && (|allowList| < |rules| || isOnlyAllowList) then
      BareRules(allowList) + if WantsDefault(lib, defaultRule, allowList) then [defaultRule] else []
    else rules
  }

  /** `tryUseAllowList`. */
  method TryUseAllowList(lib: RuleLib, defaultRule: SecurityRule, allowList: seq<EmbeddedRule>,
                         rules0: seq<SecurityRule>, isOnlyAllowList: bool, isOk: bool)
    returns (rules: seq<SecurityRule>)
    ensures rules == UsedRules(lib, defaultRule, allowList, rules0, isOnlyAllowList, isOk)
  {
    rules := rules0;
    if isOk && (|allowList| < |rules| || isOnlyAllowList) {
      rules := [];
      for k := 0 to |allowList|
        invariant |rules| == k
        invariant forall x :: 0 <= x < k ==> rules[x] == BareRule(allowList[x])
      {
        rules := rules + [BareRule(allowList[k])];
      }
      assert rules == BareRules(allowList);
      if lib.listText(allowList) !in {"", "in:allow any", "out:allow any", "in:deny any", "out:deny any"}
         && Text.HasSuffix(lib.show(defaultRule.rule.body), "deny any") {
        rules := rules + [defaultRule];
      }
    }
  }

  // ---------- Default rules ----------

  /** A rule the destination really has, not the synthetic default. */
  function Real(): SecurityRule -> bool {
    (r: SecurityRule) => r.ExternalId != DEFAULT_DEST_RULE_ID
  }

  /** The default rule turned around, to be added in place of the one the destination loses. */
  function Flip(r: SecurityRule, priority: int): SecurityRule {
    var action := if r.rule.body.Action == RULE_DENY then RULE_ALLOW
                  else if r.rule.body.Action == RULE_ALLOW then RULE_DENY
                  else r.rule.body.Action;
    r.(rule := EmbeddedRule(priority, r.rule.body.(Action := action)))
  }

  /** Whether losing this default rule calls for a rule in its place. */
  predicate CallsForFlip(r: SecurityRule, onlyAllow: bool) {
    r.ExternalId == DEFAULT_DEST_RULE_ID && !(r.rule.body.Action == RULE_DENY && onlyAllow)
  }

  /** The last of the rules whose loss calls for a rule in its place. */
  function LastLost(removed: seq<SecurityRule>, onlyAllow: bool): Option<SecurityRule> {
    if removed == [] then None
    else if CallsForFlip(removed[|removed| - 1], onlyAllow) then Some(removed[|removed| - 1])
    else LastLost(removed[..|removed| - 1], onlyAllow)
  }

  /** `handleDefaultRules`. */
  method HandleDefaultRules(removed: seq<SecurityRule>, minPriority: int, onlyAllow: bool)
    returns (ret: seq<SecurityRule>, defaultRule: Option<SecurityRule>)
    ensures ret == Filter(Real(), removed)
    ensures defaultRule == match LastLost(removed, onlyAllow)
                           case None => None
                           case Some(r) => Some(Flip(r, minPriority))
  {
    ret, defaultRule := [], None;
    ghost var lost := None;
    for k := 0 to |removed|
      invariant ret == Filter(Real(), removed[..k])
      invariant lost == LastLost(removed[..k], onlyAllow)
      invariant defaultRule == if lost.None? then None else Some(Flip(lost.value, minPriority))
    {
      FilterTake(Real(), removed, k);
      assert removed[..k + 1][..k] == removed[..k];
      if removed[k].ExternalId == DEFAULT_DEST_RULE_ID {
        if !(removed[k].rule.body.Action == RULE_DENY && onlyAllow) {
          defaultRule := Some(Flip(removed[k], minPriority));
          lost := Some(removed[k]);
        }
      } else {
        ret := ret + [removed[k]];
      }
    }
    assert removed[..|removed|] == removed;
  }

  // ---------- One direction ----------

  /** The lists one merge was given and what it made of them, at once or by protocols in turn. */
  datatype Diff = Diff(src: seq<SecurityRule>, dest: seq<SecurityRule>,
                       common: seq<SecurityRule>, add: seq<SecurityRule>, del: seq<SecurityRule>,
                       split: bool, protocols: seq<string>)
  {
    ghost predicate Computed(show: RuleBody -> string, t: Target) {
      if split then
        && EachProtocolOnce(protocols, src, dest)
        && Outcome(common, add, del) == MergedInTurn(show, t, protocols, src, dest)
      else Outcome(common, add, del) == Merged(show, t, src, dest)
    }

    ghost predicate Sound(show: RuleBody -> string, t: Target) {
      && Conserves(show, src, dest, common, add, del)
      && PartOf(del, dest)
      && (RealWithin(t, dest) ==> AllWithin(t, add))
    }
  }

  /** The lost default is turned around unless what is kept and added covers it already. */
  predicate NeedsFlip(lib: RuleLib, srcAllowList: seq<EmbeddedRule>, d: Diff, flipped: SecurityRule) {
    var allow := lib.allowList(Embedded(d.add + d.common));
    || |lib.listText(allow)| == 0
    || (!Text.Contains(lib.listText(allow), flipped.String(lib.show)) && !lib.listEquals(srcAllowList, allow))
  }

  /** The turned-around default rule, if it was lost and is needed. */
  function FlipOf(lib: RuleLib, t: Target, srcAllowList: seq<EmbeddedRule>, d: Diff): seq<SecurityRule> {
    match LastLost(d.del, t.IsOnlySupportAllowRules)
    case None => []
    case Some(r) => if NeedsFlip(lib, srcAllowList, d, Flip(r, t.MinPriority)) then [Flip(r, t.MinPriority)] else []
  }

  /** The additions are those of the merge, and the turned-around default rule. */
  predicate AddsOf(lib: RuleLib, t: Target, srcAllowList: seq<EmbeddedRule>, d: Diff, adds: seq<SecurityRule>) {
    adds == d.add + FlipOf(lib, t, srcAllowList, d)
  }

  /** Sorted as the merge needs it, wherever the order of ties is well defined. */
  ghost predicate LowToHigh(show: RuleBody -> string, min: int, max: int, onlyAllow: bool, rules: seq<SecurityRule>) {
    forall up :: SameWay(rules, up) ==>
      Sorting.SortedBy(SortOrder(show, !SortsUpwards(true, min, max, onlyAllow), up), rules)
  }

  method SortedLow(show: RuleBody -> string, min: int, max: int, onlyAllow: bool, list: seq<SecurityRule>)
    returns (sorted: seq<SecurityRule>)
    ensures multiset(sorted) == multiset(list)
    ensures LowToHigh(show, min, max, onlyAllow, sorted)
  {
    var rules := new SecurityRule[|list|](k requires 0 <= k < |list| => list[k]);
    assert rules[..] == list;
    SortSecurityRule(show, rules, true, min, max, onlyAllow);
    sorted := rules[..];
    forall up | SameWay(sorted, up) ensures SameWay(list, up) {
      forall r | r in list ensures r in sorted {
        assert r in multiset(sorted);
      }
    }
  }

  /** Sorts both lists low to high and merges them. Which way `CanBeSplitByProtocol`
      decides is left open. */
  method MergeDirection(show: RuleBody -> string, t: Target, srcMin: int, srcMax: int, srcOnlyAllow: bool,
                        srcList: seq<SecurityRule>, destList: seq<SecurityRule>) returns (d: Diff)
    ensures d.Sound(show, t) && d.Computed(show, t)
    ensures multiset(d.src) == multiset(srcList) && multiset(d.dest) == multiset(destList)
    ensures LowToHigh(show, srcMin, srcMax, srcOnlyAllow, d.src)
    ensures LowToHigh(show, t.MinPriority, t.MaxPriority, t.IsOnlySupportAllowRules, d.dest)
  {
    var src := SortedLow(show, srcMin, srcMax, srcOnlyAllow, srcList);
    var dest := SortedLow(show, t.MinPriority, t.MaxPriority, t.IsOnlySupportAllowRules, destList);
    var isAllowSplit := *;
    if isAllowSplit {
      var c, a, x, ps := CompareByProtocol(show, t, src, dest);
      d := Diff(src, dest, c, a, x, true, ps);
    } else {
      var c, a, x := MergeLists(show, t, src, dest);
      d := Diff(src, dest, c, a, x, false, []);
    }
  }

  /** Drops the defaults from the deletions and decides whether to add one back. */
  method FinishDirection(lib: RuleLib, t: Target, srcAllowList: seq<EmbeddedRule>, d: Diff)
    returns (adds: seq<SecurityRule>, dels: seq<SecurityRule>)
    ensures dels == Filter(Real(), d.del)
    ensures AddsOf(lib, t, srcAllowList, d, adds)
  {
    var def;
    adds := d.add;
    dels, def := HandleDefaultRules(d.del, t.MinPriority, t.IsOnlySupportAllowRules);
    if def.Some? {
      var allow, _ := AllowList(lib, adds + d.common);
      if |lib.listText(allow)| == 0
         || (!Text.Contains(lib.listText(allow), def.value.String(lib.show)) && !lib.listEquals(srcAllowList, allow)) {
        adds := adds + [def.value];
      }
    }
  }

  // ---------- The destination rules are all accounted for ----------

  function NoBounds(r: SecurityRule): SecurityRule { r.WithBounds(0, 0) }

  /** A rule up to its Id, its shifts and the bounds it was tagged with. */
  function Plain(r: SecurityRule): SecurityRule { NoBounds(Base(r)) }

  /** The destination rules a compared direction deals with. */
  function Compared(dirIn: bool, peers: bool): SecurityRule -> bool {
    (r: SecurityRule) => r.IsIn() == dirIn && (peers || r.PeerSecgroupId == "") && r.ExternalId != DEFAULT_DEST_RULE_ID
  }

  /** The destination rules `CompareRules` deals with: a direction found to be the same
      already is kept whole. */
  function Handled(inSame: bool, outSame: bool, peers: bool): SecurityRule -> bool {
    (r: SecurityRule) => (if r.IsIn() then inSame else outSame)
      || ((peers || r.PeerSecgroupId == "") && r.ExternalId != DEFAULT_DEST_RULE_ID)
  }

  /** Tagging rules with bounds changes no plain account of them. */
  lemma BoundsIgnored(p: SecurityRule -> bool, s: seq<SecurityRule>, min: int, max: int)
    requires forall r: SecurityRule :: p(r) == p(NoBounds(r))
    ensures Image(Plain, Filter(p, Bounded(s, min, max))) == Image(Plain, Filter(p, s))
  {
    ImageEqual(NoBounds, Bounded(s, min, max), s);
    ImageFactors(NoBounds, Plain, p, Plain, p, Bounded(s, min, max), s);
  }

  /** In a compared direction the real rules kept and deleted are together exactly the
      real rules of the destination that take part. */
  lemma DirectionAccounted(show: RuleBody -> string, t: Target, d: Diff, dirIn: bool, peers: bool,
                           rules: seq<SecurityRule>, destList: seq<SecurityRule>, def: SecurityRule)
    requires d.Sound(show, t) && multiset(d.dest) == multiset(destList)
    requires def.ExternalId == DEFAULT_DEST_RULE_ID
    requires var own := Filter(Wanted(dirIn, peers), rules); destList == own || destList == own + [def]
    ensures Image(Plain, Filter(Real(), d.common)) + Image(Plain, Filter(Real(), d.del))
      == Image(Plain, Filter(Compared(dirIn, peers), rules))
  {
    var own := Filter(Wanted(dirIn, peers), rules);
    ImageConcat(Base, d.common, d.del);
    ImagePermuted(Base, d.dest, destList);
    ImageFactors(Base, NoBounds, Real(), Plain, Real(), d.common + d.del, destList);
    FilterConcat(Real(), d.common, d.del);
    ImageConcat(Plain, Filter(Real(), d.common), Filter(Real(), d.del));
    FilterSnoc(Real(), own, def);
    FilterTwice(Wanted(dirIn, peers), Real(), Compared(dirIn, peers), rules);
  }

  /** `Handled`, for one direction. */
  function HandledIn(dirIn: bool, same: bool, peers: bool): SecurityRule -> bool {
    (r: SecurityRule) => r.IsIn() == dirIn
      && (same || ((peers || r.PeerSecgroupId == "") && r.ExternalId != DEFAULT_DEST_RULE_ID))
  }

  /** What became of one direction: the rules of both sides high to low, whether they were found
      the same, the rules kept whole, the merge of the others, and its outcome. */
  datatype DirectionResult = DirectionResult(order: seq<SecurityRule>, destOrder: seq<SecurityRule>, same: bool,
                                             whole: seq<SecurityRule>, d: Diff,
                                             adds: seq<SecurityRule>, dels: seq<SecurityRule>)

  const NO_DIFF := Diff([], [], [], [], [], false, [])

  predicate NoPeers(rules: seq<SecurityRule>) {
    forall r :: r in rules ==> r.PeerSecgroupId == ""
  }

  /** Both sides allow the same, as far as allow lists tell. */
  predicate SameDirection(lib: RuleLib, src: seq<SecurityRule>, dest: seq<SecurityRule>) {
    && AllowListEqual(lib, lib.allowList(Embedded(src)), lib.allowList(Embedded(dest)))
    && NoPeers(src) && NoPeers(dest)
  }

  /** The allow lists of both sides of a direction have the same texts, and no rule names a peer group. */
  ghost predicate AllowSame(lib: RuleLib, order: seq<SecurityRule>, destOrder: seq<SecurityRule>) {
    && SameTexts(lib, lib.allowList(seq(|order|, k requires 0 <= k < |order| => order[k].rule)),
                 lib.allowList(seq(|destOrder|, k requires 0 <= k < |destOrder| => destOrder[k].rule)))
    && (forall r :: r in order + destOrder ==> r.PeerSecgroupId == "")
  }

  lemma SameDirectionIff(lib: RuleLib, order: seq<SecurityRule>, destOrder: seq<SecurityRule>)
    ensures SameDirection(lib, order, destOrder) <==> AllowSame(lib, order, destOrder)
  {
    AllowListEqualIff(lib, lib.allowList(Embedded(order)), lib.allowList(Embedded(destOrder)));
    assert Embedded(order) == seq(|order|, k requires 0 <= k < |order| => order[k].rule);
    assert Embedded(destOrder) == seq(|destOrder|, k requires 0 <= k < |destOrder| => destOrder[k].rule);
  }

  /** One text that only one side allows makes the direction differ. */
  lemma OneTextDiffers(lib: RuleLib, order: seq<SecurityRule>, destOrder: seq<SecurityRule>, text: string)
    requires HasText(lib, lib.allowList(Embedded(order)), text)
      != HasText(lib, lib.allowList(Embedded(destOrder)), text)
    ensures !SameDirection(lib, order, destOrder)
  {
    TextSetIff(lib, lib.allowList(Embedded(order)));
    TextSetIff(lib, lib.allowList(Embedded(destOrder)));
  }

  /** The merge took the rules of both sides, the source's perhaps in the form of its allow list, low to high. */
  ghost predicate MergeOf(lib: RuleLib, t: Target, srcMin: int, srcMax: int, srcOnlyAllow: bool,
                          srcDefault: SecurityRule, r: DirectionResult) {
    && r.d.Computed(lib.show, t)
    && multiset(r.d.src) == multiset(UsedRules(lib, srcDefault, lib.allowList(Embedded(r.order)), r.order,
                                               t.IsOnlySupportAllowRules, NoPeers(r.order) && NoPeers(r.destOrder)))
    && multiset(r.d.dest) == multiset(r.destOrder)
    && LowToHigh(lib.show, srcMin, srcMax, srcOnlyAllow, r.d.src)
    && LowToHigh(lib.show, t.MinPriority, t.MaxPriority, t.IsOnlySupportAllowRules, r.d.dest)
  }

  ghost predicate DirectionSound(lib: RuleLib, t: Target, dirIn: bool, peers: bool, rules: seq<SecurityRule>,
                                 r: DirectionResult) {
    && r.d.Sound(lib.show, t)
    && r.dels == Filter(Real(), r.d.del) && AddsOf(lib, t, lib.allowList(Embedded(r.order)), r.d, r.adds)
    && Image(Plain, r.whole) + Image(Plain, Filter(Real(), r.d.common)) + Image(Plain, r.dels)
      == Image(Plain, Filter(HandledIn(dirIn, r.same, peers), rules))
    && (forall x :: x in r.dels ==> x.IsIn() == dirIn && x.ExternalId != DEFAULT_DEST_RULE_ID)
    && (r.same ==> r.adds == [] && r.d == NO_DIFF && r.whole == Filter(HasDirection(dirIn), rules))
    && (!r.same ==> r.whole == [])
  }

  lemma SameAccounted(dirIn: bool, peers: bool, rules: seq<SecurityRule>)
    ensures Filter(HasDirection(dirIn), rules) == Filter(HandledIn(dirIn, true, peers), rules)
  {
    FilterAgree(HasDirection(dirIn), HandledIn(dirIn, true, peers), rules);
  }

  lemma EmptySound(show: RuleBody -> string, t: Target)
    ensures NO_DIFF.Sound(show, t)
  {
  }

  /** Deletions of a direction are real rules of that direction. */
  lemma DeletionsMatchDirection(show: RuleBody -> string, t: Target, d: Diff, dirIn: bool, peers: bool,
                                rules: seq<SecurityRule>, destList: seq<SecurityRule>, def: SecurityRule)
    requires d.Sound(show, t) && multiset(d.dest) == multiset(destList) && def.ExternalId == DEFAULT_DEST_RULE_ID
    requires var own := Filter(Wanted(dirIn, peers), rules); destList == own || destList == own + [def]
    ensures forall x :: x in Filter(Real(), d.del) ==> x.IsIn() == dirIn && x.ExternalId != DEFAULT_DEST_RULE_ID
  {
    forall x | x in Filter(Real(), d.del) ensures x.IsIn() == dirIn && x.ExternalId != DEFAULT_DEST_RULE_ID {
      FilterMember(Real(), d.del, x);
      assert x in multiset(d.dest);
      assert x in destList;
      FilterMember(Wanted(dirIn, peers), rules, x);
    }
  }

  /** A destination list is its direction's own rules, perhaps with the synthetic default. */
  ghost predicate DestList(peers: bool, min: int, max: int, rules: seq<SecurityRule>, dirIn: bool,
                           def: SecurityRule, list: seq<SecurityRule>) {
    var own := Filter(Wanted(dirIn, peers), Bounded(rules, min, max));
    multiset(list) == multiset(own) || multiset(list) == multiset(own + [def])
  }

  lemma ComparedSound(lib: RuleLib, t: Target, dirIn: bool, peers: bool, rules: seq<SecurityRule>,
                      destList: seq<SecurityRule>, def: SecurityRule, r: DirectionResult)
    requires def.ExternalId == DEFAULT_DEST_RULE_ID && !r.same && r.whole == []
    requires DestList(peers, t.MinPriority, t.MaxPriority, rules, dirIn, def, destList)
    requires r.d.Sound(lib.show, t) && multiset(r.d.dest) == multiset(destList)
    requires r.dels == Filter(Real(), r.d.del) && AddsOf(lib, t, lib.allowList(Embedded(r.order)), r.d, r.adds)
    ensures DirectionSound(lib, t, dirIn, peers, rules, r)
  {
    var tagged := Bounded(rules, t.MinPriority, t.MaxPriority);
    var own := Filter(Wanted(dirIn, peers), tagged);
    var list := if multiset(destList) == multiset(own) then own else own + [def];
    DirectionAccounted(lib.show, t, r.d, dirIn, peers, tagged, list, def);
    TagsIgnored(dirIn, peers, rules, t.MinPriority, t.MaxPriority);
    assert Image(Plain, []) + Image(Plain, Filter(Real(), r.d.common)) == Image(Plain, Filter(Real(), r.d.common));
    DeletionsMatchDirection(lib.show, t, r.d, dirIn, peers, tagged, list, def);
  }

  lemma TagsIgnored(dirIn: bool, peers: bool, rules: seq<SecurityRule>, min: int, max: int)
    ensures Image(Plain, Filter(Compared(dirIn, peers), Bounded(rules, min, max)))
      == Image(Plain, Filter(HandledIn(dirIn, false, peers), rules))
  {
    FilterAgree(Compared(dirIn, peers), HandledIn(dirIn, false, peers), Bounded(rules, min, max));
    BoundsIgnored(HandledIn(dirIn, false, peers), rules, min, max);
  }

  method CompareDirection(lib: RuleLib, t: Target, dirIn: bool, peers: bool, ghost rules: seq<SecurityRule>,
                          srcMin: int, srcMax: int, srcOnlyAllow: bool, srcDefault: SecurityRule,
                          srcSorted: seq<SecurityRule>, srcAllowList: seq<EmbeddedRule>,
                          destList: seq<SecurityRule>, ghost def: SecurityRule,
                          whole: seq<SecurityRule>, equal: bool, ok: bool)
    returns (r: DirectionResult)
    requires def.ExternalId == DEFAULT_DEST_RULE_ID
    requires DestList(peers, t.MinPriority, t.MaxPriority, rules, dirIn, def, destList)
    requires whole == Filter(HasDirection(dirIn), rules)
    requires srcAllowList == lib.allowList(Embedded(srcSorted))
    requires ok == (NoPeers(srcSorted) && NoPeers(destList))
    ensures r.same == (equal && ok) && r.order == srcSorted && r.destOrder == destList
    ensures DirectionSound(lib, t, dirIn, peers, rules, r)
    ensures !r.same ==> MergeOf(lib, t, srcMin, srcMax, srcOnlyAllow, srcDefault, r)
  {
    var used := TryUseAllowList(lib, srcDefault, srcAllowList, srcSorted, t.IsOnlySupportAllowRules, ok);
    if equal && ok {
      EmptySound(lib.show, t);
      SameAccounted(dirIn, peers, rules);
      r := DirectionResult(srcSorted, destList, true, whole, NO_DIFF, [], []);
    } else {
      var d := MergeDirection(lib.show, t, srcMin, srcMax, srcOnlyAllow, used, destList);
      var adds, dels := FinishDirection(lib, t, srcAllowList, d);
      r := DirectionResult(srcSorted, destList, false, [], d, adds, dels);
      ComparedSound(lib, t, dirIn, peers, rules, destList, def, r);
    }
  }

  // ---------- What applying the answer gives ----------

  function Synthetic(): SecurityRule -> bool {
    (r: SecurityRule) => r.ExternalId == DEFAULT_DEST_RULE_ID
  }

  /** Kept and added rules have the texts of the source list. */
  lemma MergedTexts(show: RuleBody -> string, t: Target, d: Diff)
    requires d.Sound(show, t)
    ensures Image(TextOf(show), d.common) + Image(TextOf(show), d.add) == Image(TextOf(show), d.src)
  {
    var all := (r: SecurityRule) => true;
    ImageConcat(Label(show), d.common, d.add);
    ImageFactors(Label(show), (l: (string, string)) => l.0, l => true, TextOf(show), all, d.common + d.add, d.src);
    FilterAll(all, d.common + d.add);
    FilterAll(all, d.src);
    ImageConcat(TextOf(show), d.common, d.add);
  }

  lemma RealAndSynthetic(show: RuleBody -> string, rules: seq<SecurityRule>)
    ensures Image(TextOf(show), Filter(Real(), rules)) + Image(TextOf(show), Filter(Synthetic(), rules))
      == Image(TextOf(show), rules)
  {
    var all := (r: SecurityRule) => true;
    FilterSplit(TextOf(show), Real(), Synthetic(), all, rules);
    FilterAll(all, rules);
  }

  /** Once the deletions and additions of a merged direction are applied, the texts of its rules are those
      of the source's rules, in the form they were merged in, less those that only matched the synthetic
      default, plus the turned-around default if one was added. */
  ghost predicate Applied(lib: RuleLib, t: Target, srcDefault: SecurityRule, r: DirectionResult) {
    var text := TextOf(lib.show);
    var allow := lib.allowList(Embedded(r.order));
    var used := UsedRules(lib, srcDefault, allow, r.order, t.IsOnlySupportAllowRules,
                          NoPeers(r.order) && NoPeers(r.destOrder));
    Image(text, Filter(Real(), r.d.common)) + Image(text, r.adds) + Image(text, Filter(Synthetic(), r.d.common))
    == Image(text, used) + Image(text, FlipOf(lib, t, allow, r.d))
  }

  lemma MergeApplied(lib: RuleLib, t: Target, srcMin: int, srcMax: int, srcOnlyAllow: bool, srcDefault: SecurityRule,
                     r: DirectionResult)
    requires r.d.Sound(lib.show, t) && MergeOf(lib, t, srcMin, srcMax, srcOnlyAllow, srcDefault, r)
    requires AddsOf(lib, t, lib.allowList(Embedded(r.order)), r.d, r.adds)
    ensures Applied(lib, t, srcDefault, r)
  {
    var text := TextOf(lib.show);
    var allow := lib.allowList(Embedded(r.order));
    var used := UsedRules(lib, srcDefault, allow, r.order, t.IsOnlySupportAllowRules,
                          NoPeers(r.order) && NoPeers(r.destOrder));
    MergedTexts(lib.show, t, r.d);
    ImagePermuted(text, r.d.src, used);
    RealAndSynthetic(lib.show, r.d.common);
    ImageConcat(text, r.d.add, FlipOf(lib, t, allow, r.d));
  }

  // ---------- Both directions ----------

  /** The rules of one direction, with the default rule where no rule covers everything, high to low. */
  method SortedWithDefault(show: RuleBody -> string, info: SecRuleInfo, default: SecurityRule,
                           list: seq<SecurityRule>, isSrc: bool) returns (sorted: seq<SecurityRule>)
    requires forall r :: r in list ==> r.minPriority == info.MinPriority && r.maxPriority == info.MaxPriority
    ensures multiset(sorted) == multiset(info.AddDefault(show, default, list, isSrc))
    ensures HighToLow(show, info.MinPriority, info.MaxPriority, info.IsOnlySupportAllowRules, sorted)
  {
    var full := info.AddDefault(show, default, list, isSrc);
    var rules := new SecurityRule[|full|](k requires 0 <= k < |full| => full[k]);
    assert rules[..] == full;
    assert SameWay(full, info.MinPriority <= info.MaxPriority);
    SortSecurityRule(show, rules, false, info.MinPriority, info.MaxPriority, info.IsOnlySupportAllowRules);
    sorted := rules[..];
  }

  /** Sorted as the allow list needs it. */
  ghost predicate HighToLow(show: RuleBody -> string, min: int, max: int, onlyAllow: bool, rules: seq<SecurityRule>) {
    Sorting.SortedBy(SortOrder(show, !SortsUpwards(false, min, max, onlyAllow), min <= max), rules)
  }

  lemma WantedIsBounded(dirIn: bool, peers: bool, rules: seq<SecurityRule>, min: int, max: int)
    ensures forall r :: r in Filter(Wanted(dirIn, peers), Bounded(rules, min, max)) ==>
      r.minPriority == min && r.maxPriority == max
  {
    forall r | r in Filter(Wanted(dirIn, peers), Bounded(rules, min, max))
      ensures r.minPriority == min && r.maxPriority == max
    {
      FilterMember(Wanted(dirIn, peers), Bounded(rules, min, max), r);
    }
  }

  /** All the rules of the destination that were dealt with are kept or deleted, each once. */
  lemma BothAccounted(lib: RuleLib, t: Target, peers: bool, rules: seq<SecurityRule>, i: DirectionResult,
                      o: DirectionResult)
    requires DirectionSound(lib, t, true, peers, rules, i) && DirectionSound(lib, t, false, peers, rules, o)
    ensures Image(Plain, i.whole + o.whole + Filter(Real(), i.d.common + o.d.common))
        + Image(Plain, i.dels) + Image(Plain, o.dels)
      == Image(Plain, Filter(Handled(i.same, o.same, peers), rules))
  {
    FilterSplit(Plain, HandledIn(true, i.same, peers), HandledIn(false, o.same, peers),
                Handled(i.same, o.same, peers), rules);
    JoinCommon(i.whole, o.whole, i.d.common, o.d.common);
    AddUp(Image(Plain, i.whole), Image(Plain, Filter(Real(), i.d.common)), Image(Plain, i.dels),
          Image(Plain, o.whole), Image(Plain, Filter(Real(), o.d.common)), Image(Plain, o.dels));
  }

  lemma JoinCommon(w1: seq<SecurityRule>, w2: seq<SecurityRule>, c1: seq<SecurityRule>, c2: seq<SecurityRule>)
    ensures Image(Plain, w1 + w2 + Filter(Real(), c1 + c2))
      == Image(Plain, w1) + Image(Plain, w2) + Image(Plain, Filter(Real(), c1)) + Image(Plain, Filter(Real(), c2))
  {
    FilterConcat(Real(), c1, c2);
    ImageConcat(Plain, Filter(Real(), c1), Filter(Real(), c2));
    ImageConcat(Plain, w1, w2);
    ImageConcat(Plain, w1 + w2, Filter(Real(), c1 + c2));
  }

  lemma AddUp<T>(a: multiset<T>, b: multiset<T>, c: multiset<T>, x: multiset<T>, y: multiset<T>, z: multiset<T>)
    ensures (a + x + b + y) + c + z == (a + b + c) + (x + y + z)
  {
  }

  lemma HandledIgnoresTags(inSame: bool, outSame: bool, peers: bool, rules: seq<SecurityRule>, min: int, max: int)
    ensures Image(Plain, Filter(Handled(inSame, outSame, peers), Bounded(rules, min, max)))
      == Image(Plain, Filter(Handled(inSame, outSame, peers), rules))
  {
    BoundsIgnored(Handled(inSame, outSame, peers), rules, min, max);
  }

  lemma WholeAccounted(peers: bool, rules: seq<SecurityRule>)
    ensures Image(Plain, Filter(Handled(true, true, peers), rules)) == Image(Plain, rules)
  {
    FilterAll(Handled(true, true, peers), rules);
  }

  /** The rules of one direction as the comparison sees them, defaults included, in any order. */
  ghost predicate IsDirectionList(show: RuleBody -> string, info: SecRuleInfo, rules: seq<SecurityRule>, dirIn: bool,
                                  isSrc: bool, list: seq<SecurityRule>)
    reads info
  {
    multiset(list) == multiset(info.AddDefault(show, if dirIn then info.InDefaultRule else info.OutDefaultRule,
      Filter(Wanted(dirIn, info.IsSupportPeerSecgroup), Bounded(rules, info.MinPriority, info.MaxPriority)), isSrc))
  }

  /** Splits the rules of one side, adds the defaults and sorts both directions high to low. */
  method SplitAndSort(show: RuleBody -> string, info: SecRuleInfo, isSrc: bool)
    returns (rules: seq<SecurityRule>, inRules: seq<SecurityRule>, outRules: seq<SecurityRule>,
             ins: seq<SecurityRule>, outs: seq<SecurityRule>)
    modifies info.Rules
    ensures rules == old(info.Rules[..])
    ensures inRules == Filter(HasDirection(true), rules) && outRules == Filter(HasDirection(false), rules)
    ensures info.Rules[..] == Bounded(rules, info.MinPriority, info.MaxPriority)
    ensures IsDirectionList(show, info, rules, true, isSrc, ins)
      && IsDirectionList(show, info, rules, false, isSrc, outs)
    ensures HighToLow(show, info.MinPriority, info.MaxPriority, info.IsOnlySupportAllowRules, ins)
    ensures HighToLow(show, info.MinPriority, info.MaxPriority, info.IsOnlySupportAllowRules, outs)
  {
    var copy := new SecRuleInfo.CopyOf(info);
    ins, outs := copy.Split();
    rules, inRules, outRules := copy.rules, copy.inRules, copy.outRules;
    WantedIsBounded(true, info.IsSupportPeerSecgroup, rules, info.MinPriority, info.MaxPriority);
    WantedIsBounded(false, info.IsSupportPeerSecgroup, rules, info.MinPriority, info.MaxPriority);
    ins := SortedWithDefault(show, info, info.InDefaultRule, ins, isSrc);
    outs := SortedWithDefault(show, info, info.OutDefaultRule, outs, isSrc);
  }

  /** What was decided for one direction. If the allow lists of both sides are the same it has nothing to
      add or delete; otherwise it is the merge of both sides, less the synthetic default rule, and
      with a rule in its place where one is called for. */
  ghost predicate Decided(lib: RuleLib, t: Target, srcMin: int, srcMax: int, srcOnlyAllow: bool,
                          srcDefault: SecurityRule, dirIn: bool, r: DirectionResult) {
    && (forall x :: x in r.dels ==> x.IsIn() == dirIn && x.ExternalId != DEFAULT_DEST_RULE_ID)
    && r.dels == Filter(Real(), r.d.del)
    && (r.same <==> SameDirection(lib, r.order, r.destOrder))
    && (r.same ==> r.adds == [] && r.dels == [] && r.d == NO_DIFF)
    && (!r.same ==>
          && r.whole == []
          && r.d.Sound(lib.show, t) && MergeOf(lib, t, srcMin, srcMax, srcOnlyAllow, srcDefault, r)
          && AddsOf(lib, t, lib.allowList(Embedded(r.order)), r.d, r.adds)
          && Applied(lib, t, srcDefault, r))
  }

  lemma SoundIsDecided(lib: RuleLib, t: Target, srcMin: int, srcMax: int, srcOnlyAllow: bool, srcDefault: SecurityRule,
                       dirIn: bool, peers: bool, rules: seq<SecurityRule>, r: DirectionResult)
    requires DirectionSound(lib, t, dirIn, peers, rules, r)
    requires r.same <==> SameDirection(lib, r.order, r.destOrder)
    requires !r.same ==> MergeOf(lib, t, srcMin, srcMax, srcOnlyAllow, srcDefault, r)
    ensures Decided(lib, t, srcMin, srcMax, srcOnlyAllow, srcDefault, dirIn, r)
  {
    if !r.same {
      MergeApplied(lib, t, srcMin, srcMax, srcOnlyAllow, srcDefault, r);
    }
  }

  /** Both sides of one direction, as the comparison orders them. */
  ghost predicate Ordered(lib: RuleLib, src: SecRuleInfo, dest: SecRuleInfo,
                          srcRules: seq<SecurityRule>, destRules: seq<SecurityRule>, dirIn: bool,
                          order: seq<SecurityRule>, destOrder: seq<SecurityRule>)
    reads src, dest
  {
    && IsDirectionList(lib.show, src, srcRules, dirIn, true, order)
    && IsDirectionList(lib.show, dest, destRules, dirIn, false, destOrder)
    && HighToLow(lib.show, src.MinPriority, src.MaxPriority, src.IsOnlySupportAllowRules, order)
    && HighToLow(lib.show, dest.MinPriority, dest.MaxPriority, dest.IsOnlySupportAllowRules, destOrder)
  }

  function TargetOf(dest: SecRuleInfo): Target
    reads dest
  {
    Target(dest.MinPriority, dest.MaxPriority, dest.IsOnlySupportAllowRules)
  }

  ghost predicate DirectionOutcome(lib: RuleLib, src: SecRuleInfo, dest: SecRuleInfo,
                                   srcRules: seq<SecurityRule>, destRules: seq<SecurityRule>,
                                   dirIn: bool, r: DirectionResult)
    reads src, dest
  {
    && Ordered(lib, src, dest, srcRules, destRules, dirIn, r.order, r.destOrder)
    && Decided(lib, TargetOf(dest), src.MinPriority, src.MaxPriority, src.IsOnlySupportAllowRules,
               if dirIn then src.InDefaultRule else src.OutDefaultRule, dirIn, r)
  }

  method CompareRules(lib: RuleLib, src: SecRuleInfo, dest: SecRuleInfo)
    returns (common: seq<SecurityRule>, inAdds: seq<SecurityRule>, outAdds: seq<SecurityRule>,
             inDels: seq<SecurityRule>, outDels: seq<SecurityRule>,
             ghost i: DirectionResult, ghost o: DirectionResult)
    modifies src.Rules, dest.Rules
    // Every destination rule dealt with is kept or deleted, once, and nothing else is.
    ensures Image(Plain, common) + Image(Plain, inDels) + Image(Plain, outDels)
      == Image(Plain, Filter(Handled(i.same, o.same, dest.IsSupportPeerSecgroup), old(dest.Rules[..])))
    ensures i.same && o.same ==> Image(Plain, common) == Image(Plain, old(dest.Rules[..]))
    ensures !(i.same && o.same) ==> common == i.whole + o.whole + Filter(Real(), i.d.common + o.d.common)
    // A direction is the same exactly when the allow lists of both sides have the same texts.
    ensures i.same <==> AllowSame(lib, i.order, i.destOrder)
    ensures o.same <==> AllowSame(lib, o.order, o.destOrder)
    // The merge of each direction, and what is made of it.
    ensures inAdds == i.adds && inDels == i.dels && outAdds == o.adds && outDels == o.dels
    ensures DirectionOutcome(lib, src, dest, old(src.Rules[..]), old(dest.Rules[..]), true, i)
    ensures DirectionOutcome(lib, src, dest, old(src.Rules[..]), old(dest.Rules[..]), false, o)
  {
    ghost var rules;
    var ins, outs;
    common, ins, outs, rules := CompareInfos(lib, src, dest);
    i, o := ins, outs;
    inAdds, outAdds, inDels, outDels := ins.adds, outs.adds, ins.dels, outs.dels;
    SameDirectionIff(lib, i.order, i.destOrder);
    SameDirectionIff(lib, o.order, o.destOrder);
    HandledIgnoresTags(i.same, o.same, dest.IsSupportPeerSecgroup, old(dest.Rules[..]), src.MinPriority,
                       src.MaxPriority);
    if i.same && o.same {
      WholeAccounted(dest.IsSupportPeerSecgroup, old(dest.Rules[..]));
      WholeAccounted(dest.IsSupportPeerSecgroup, rules);
    }
  }

  method CompareInfos(lib: RuleLib, src: SecRuleInfo, dest: SecRuleInfo)
    returns (common: seq<SecurityRule>, ins: DirectionResult, outs: DirectionResult, ghost rules: seq<SecurityRule>)
    modifies src.Rules, dest.Rules
    ensures rules == old(dest.Rules[..]) || rules == Bounded(old(dest.Rules[..]), src.MinPriority, src.MaxPriority)
    ensures Image(Plain, common) + Image(Plain, ins.dels) + Image(Plain, outs.dels)
      == Image(Plain, Filter(Handled(ins.same, outs.same, dest.IsSupportPeerSecgroup), rules))
    ensures common == if ins.same && outs.same then rules
                      else ins.whole + outs.whole + Filter(Real(), ins.d.common + outs.d.common)
    ensures DirectionOutcome(lib, src, dest, old(src.Rules[..]), old(dest.Rules[..]), true, ins)
    ensures DirectionOutcome(lib, src, dest, old(src.Rules[..]), old(dest.Rules[..]), false, outs)
  {
    var destRules, destInAll, destOutAll, srcIn, srcOut, destIn, destOut := SplitBoth(lib, src, dest);
    common, ins, outs := CompareSorted(lib, TargetOf(dest), dest.IsSupportPeerSecgroup,
      src.MinPriority, src.MaxPriority, src.IsOnlySupportAllowRules, src.InDefaultRule, src.OutDefaultRule,
      dest.DefaultRule(dest.InDefaultRule, false), dest.DefaultRule(dest.OutDefaultRule, false),
      destRules, destInAll, destOutAll, srcIn, srcOut, destIn, destOut);
    rules := destRules;
  }

  /** Only the last tags count, when both sides share one array of rules. */
  lemma TaggedAgain(rules: seq<SecurityRule>, min0: int, max0: int, min: int, max: int)
    ensures Bounded(Bounded(rules, min0, max0), min, max) == Bounded(rules, min, max)
  {
  }

  method SplitBoth(lib: RuleLib, src: SecRuleInfo, dest: SecRuleInfo)
    returns (rules: seq<SecurityRule>, destInAll: seq<SecurityRule>, destOutAll: seq<SecurityRule>,
             srcIn: seq<SecurityRule>, srcOut: seq<SecurityRule>, destIn: seq<SecurityRule>, destOut: seq<SecurityRule>)
    modifies src.Rules, dest.Rules
    ensures rules == old(dest.Rules[..]) || rules == Bounded(old(dest.Rules[..]), src.MinPriority, src.MaxPriority)
    ensures destInAll == Filter(HasDirection(true), rules) && destOutAll == Filter(HasDirection(false), rules)
    ensures Ordered(lib, src, dest, old(src.Rules[..]), old(dest.Rules[..]), true, srcIn, destIn)
    ensures Ordered(lib, src, dest, old(src.Rules[..]), old(dest.Rules[..]), false, srcOut, destOut)
    ensures DestList(dest.IsSupportPeerSecgroup, dest.MinPriority, dest.MaxPriority, rules, true,
                     dest.DefaultRule(dest.InDefaultRule, false), destIn)
    ensures DestList(dest.IsSupportPeerSecgroup, dest.MinPriority, dest.MaxPriority, rules, false,
                     dest.DefaultRule(dest.OutDefaultRule, false), destOut)
  {
    var _, _, _, sIn, sOut := SplitAndSort(lib.show, src, true);
    srcIn, srcOut := sIn, sOut;
    rules, destInAll, destOutAll, destIn, destOut := SplitAndSort(lib.show, dest, false);
    TaggedAgain(old(dest.Rules[..]), src.MinPriority, src.MaxPriority, dest.MinPriority, dest.MaxPriority);
  }

  /** The comparison of the sorted lists: the allow lists of both sides, then each direction. */
  method CompareSorted(lib: RuleLib, t: Target, peers: bool, srcMin: int, srcMax: int, srcOnlyAllow: bool,
                       srcInDefault: SecurityRule, srcOutDefault: SecurityRule,
                       ghost inDef: SecurityRule, ghost outDef: SecurityRule,
                       rules: seq<SecurityRule>, destInAll: seq<SecurityRule>, destOutAll: seq<SecurityRule>,
                       srcIn: seq<SecurityRule>, srcOut: seq<SecurityRule>,
                       destIn: seq<SecurityRule>, destOut: seq<SecurityRule>)
    returns (common: seq<SecurityRule>, ins: DirectionResult, outs: DirectionResult)
    requires inDef.ExternalId == DEFAULT_DEST_RULE_ID == outDef.ExternalId
    requires destInAll == Filter(HasDirection(true), rules) && destOutAll == Filter(HasDirection(false), rules)
    requires DestList(peers, t.MinPriority, t.MaxPriority, rules, true, inDef, destIn)
    requires DestList(peers, t.MinPriority, t.MaxPriority, rules, false, outDef, destOut)
    ensures Image(Plain, common) + Image(Plain, ins.dels) + Image(Plain, outs.dels)
      == Image(Plain, Filter(Handled(ins.same, outs.same, peers), rules))
    ensures ins.order == srcIn && outs.order == srcOut && ins.destOrder == destIn && outs.destOrder == destOut
    ensures Decided(lib, t, srcMin, srcMax, srcOnlyAllow, srcInDefault, true, ins)
    ensures Decided(lib, t, srcMin, srcMax, srcOnlyAllow, srcOutDefault, false, outs)
    ensures common == if ins.same && outs.same then rules
                      else ins.whole + outs.whole + Filter(Real(), ins.d.common + outs.d.common)
  {
    var srcInAllowList, srcInOk := AllowList(lib, srcIn);
    var srcOutAllowList, srcOutOk := AllowList(lib, srcOut);
    var destInAllowList, destInOk := AllowList(lib, destIn);
    var destOutAllowList, destOutOk := AllowList(lib, destOut);
    var inEquals := IsAllowListEqual(lib, srcInAllowList, destInAllowList);
    var outEquals := IsAllowListEqual(lib, srcOutAllowList, destOutAllowList);
    ins := CompareDirection(lib, t, true, peers, rules, srcMin, srcMax, srcOnlyAllow,
      srcInDefault, srcIn, srcInAllowList, destIn, inDef, destInAll, inEquals, srcInOk && destInOk);
    outs := CompareDirection(lib, t, false, peers, rules, srcMin, srcMax, srcOnlyAllow,
      srcOutDefault, srcOut, srcOutAllowList, destOut, outDef, destOutAll, outEquals, srcOutOk && destOutOk);
    SoundIsDecided(lib, t, srcMin, srcMax, srcOnlyAllow, srcInDefault, true, peers, rules, ins);
    SoundIsDecided(lib, t, srcMin, srcMax, srcOnlyAllow, srcOutDefault, false, peers, rules, outs);
    common := JoinDirections(lib, t, peers, rules, ins, outs);
  }

  /** The rules kept, both directions together: all of them when nothing differs. */
  method JoinDirections(lib: RuleLib, t: Target, peers: bool, rules: seq<SecurityRule>, ins: DirectionResult,
                        outs: DirectionResult)
    returns (common: seq<SecurityRule>)
    requires DirectionSound(lib, t, true, peers, rules, ins) && DirectionSound(lib, t, false, peers, rules, outs)
    ensures Image(Plain, common) + Image(Plain, ins.dels) + Image(Plain, outs.dels)
      == Image(Plain, Filter(Handled(ins.same, outs.same, peers), rules))
    ensures common == if ins.same && outs.same then rules
                      else ins.whole + outs.whole + Filter(Real(), ins.d.common + outs.d.common)
  {
    if ins.same && outs.same {
      common := rules;
      WholeAccounted(peers, rules);
    } else {
      var kept, _ := HandleDefaultRules(ins.d.common + outs.d.common, t.MinPriority, t.IsOnlySupportAllowRules);
      common := ins.whole + outs.whole + kept;
      BothAccounted(lib, t, peers, rules, ins, outs);
    }
  }
}
