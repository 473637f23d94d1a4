/** What `CompareRules` hands to a merge and what becomes of the default rules, told by the fields
    and texts of the rules alone. */
module RuleLaws {
  import opened Images
  import opened SecRules
  import opened RuleMerge
  import opened RuleMergeProofs
  import opened RuleGroups
  import opened RuleCompare
  import Text

  // ---------- The list of a direction ----------

  /** The text says that everything is allowed, or denied. */
  predicate EndsWide(text: string) {
    || (|text| >= 9 && text[|text| - 9..] == "allow any")
    || (|text| >= 8 && text[|text| - 8..] == "deny any")
  }

  /** The rules of a direction that take part, with the bounds of their side. */
  function OwnRules(dirIn: bool, peers: bool, rules: seq<SecurityRule>, min: int, max: int): seq<SecurityRule> {
    Mapped((r: SecurityRule) => r.(minPriority := min, maxPriority := max),
           Filter((r: SecurityRule) =>
                    (r.rule.body.Direction == "in") == dirIn && (peers || r.PeerSecgroupId == ""), rules))
  }

  /** The default rule as it is added: as given, but one priority outside the bounds on MinPriority's side, with
      the bounds of its side, and with the reserved id of its side. */
  predicate AddedDefault(r: SecurityRule, given: SecurityRule, isSrc: bool, min: int, max: int) {
    && r.rule.body == given.rule.body && r.rule.Priority == (if max >= min then min - 1 else min + 1)
    && r.minPriority == min && r.maxPriority == max && r.offset == given.offset
    && r.Name == given.Name && r.PeerSecgroupId == given.PeerSecgroupId
    && (if isSrc then r.Id == "default_src_rule_id" && r.ExternalId == given.ExternalId
        else r.Id == given.Id && r.ExternalId == "default_dest_rule_id")
  }

  lemma WideIff(show: RuleBody -> string, r: SecurityRule)
    ensures IsWide(show, r) <==> EndsWide(r.String(show))
  {
  }

  lemma {:induction false} OwnIs(dirIn: bool, peers: bool, rules: seq<SecurityRule>, min: int, max: int)
    ensures Filter(Wanted(dirIn, peers), Bounded(rules, min, max)) == OwnRules(dirIn, peers, rules, min, max)
  {
    if rules != [] {
      var init, last := rules[..|rules| - 1], rules[|rules| - 1];
      OwnIs(dirIn, peers, init, min, max);
      assert Bounded(rules, min, max) == Bounded(init, min, max) + [last.WithBounds(min, max)];
      FilterSnoc(Wanted(dirIn, peers), Bounded(init, min, max), last.WithBounds(min, max));
    }
  }

  /** The list of a direction: the rules that take part and, unless one of them covers everything, the default. */
  lemma DirectionListIs(show: RuleBody -> string, info: SecRuleInfo, rules: seq<SecurityRule>, dirIn: bool,
                        isSrc: bool, list: seq<SecurityRule>)
    requires IsDirectionList(show, info, rules, dirIn, isSrc, list)
    ensures var own := OwnRules(dirIn, info.IsSupportPeerSecgroup, rules, info.MinPriority, info.MaxPriority);
      var given := if dirIn then info.InDefaultRule else info.OutDefaultRule;
      if exists r :: r in own && EndsWide(r.String(show)) then multiset(list) == multiset(own)
      else exists d :: AddedDefault(d, given, isSrc, info.MinPriority, info.MaxPriority)
             && multiset(list) == multiset(own + [d])
  {
    OwnIs(dirIn, info.IsSupportPeerSecgroup, rules, info.MinPriority, info.MaxPriority);
    var own := OwnRules(dirIn, info.IsSupportPeerSecgroup, rules, info.MinPriority, info.MaxPriority);
    var given := if dirIn then info.InDefaultRule else info.OutDefaultRule;
    forall r: SecurityRule ensures IsWide(show, r) <==> EndsWide(r.String(show)) {
      WideIff(show, r);
    }
    assert AddedDefault(info.DefaultRule(given, isSrc), given, isSrc, info.MinPriority, info.MaxPriority);
  }

  // ---------- The order of a direction ----------

  /** Sorted high to low, rules come nearer MaxPriority first, and of equal ones the greater text. */
  lemma HighFirst(show: RuleBody -> string, min: int, max: int, onlyAllow: bool, rules: seq<SecurityRule>,
                  i: int, j: int)
    requires HighToLow(show, min, max, onlyAllow, rules) && SameWay(rules, min <= max) && 0 <= i < j < |rules|
    ensures if max < min then rules[i].rule.Priority <= rules[j].rule.Priority
            else rules[i].rule.Priority >= rules[j].rule.Priority
    ensures rules[i].rule.Priority == rules[j].rule.Priority ==>
      !Text.Less(rules[i].String(show), rules[j].String(show))
  {
  }

  /** Sorted low to high for the merge, the other way round, except where only allowing rules are supported:
      then the lesser number always comes first. */
  lemma LowFirst(show: RuleBody -> string, min: int, max: int, onlyAllow: bool, rules: seq<SecurityRule>,
                 i: int, j: int)
    requires LowToHigh(show, min, max, onlyAllow, rules) && SameWay(rules, min <= max) && 0 <= i < j < |rules|
    ensures if max > min || onlyAllow then rules[i].rule.Priority <= rules[j].rule.Priority
            else rules[i].rule.Priority >= rules[j].rule.Priority
    ensures rules[i].rule.Priority == rules[j].rule.Priority ==>
      if max > min || (max == min && onlyAllow) || (max < min && !onlyAllow)
      then !Text.Less(rules[j].String(show), rules[i].String(show))
      else !Text.Less(rules[i].String(show), rules[j].String(show))
  {
  }

  // ---------- The protocols ----------

  /** A protocol's pair has exactly the rules with that protocol, of both lists, and there is one exactly for the
      protocols that occur. */
  lemma GroupedByProtocol(pairs: map<string, RulePair>, src: seq<SecurityRule>, dest: seq<SecurityRule>, p: string,
                          r: SecurityRule)
    requires Grouped(pairs, src, dest)
    ensures p in pairs <==> exists x :: x in src + dest && x.rule.body.Protocol == p
    ensures p in pairs ==> (r in pairs[p].srcRules <==> r in src && r.rule.body.Protocol == p)
    ensures p in pairs ==> (r in pairs[p].destRules <==> r in dest && r.rule.body.Protocol == p)
  {
    assert PairHolds(pairs, src, dest, p);
    FilterMember(HasProtocol(p), src, r);
    FilterMember(HasProtocol(p), dest, r);
    ProtocolOccurs(src, p);
    ProtocolOccurs(dest, p);
  }

  lemma {:induction false} ProtocolOccurs(rules: seq<SecurityRule>, p: string)
    ensures p in Protocols(rules) <==> exists x :: x in rules && x.rule.body.Protocol == p
  {
    if rules != [] {
      var init, last := rules[..|rules| - 1], rules[|rules| - 1];
      ProtocolOccurs(init, p);
      assert rules == init + [last];
    }
  }

  // ---------- The source rules a direction is merged with ----------

  /** The allow list takes the place of the rules if no rule names a peer group and it is shorter, or only
      allowing rules are supported. */
  predicate AllowListTaken(allowList: seq<EmbeddedRule>, rules: seq<SecurityRule>, onlyAllow: bool, noPeers: bool) {
    noPeers && (onlyAllow || |allowList| < |rules|)
  }

  predicate Trivial(list: string) {
    list == "" || list == "in:allow any" || list == "out:allow any" || list == "in:deny any" || list == "out:deny any"
  }

  /** It is completed by a default that denies everything, unless it is trivial. */
  predicate Completed(lib: RuleLib, given: SecurityRule, allowList: seq<EmbeddedRule>) {
    var (list, text) := (lib.listText(allowList), lib.show(given.rule.body));
    && |text| >= 8 && text[|text| - 8..] == "deny any"
    && !Trivial(list)
  }

  /** A rule that carries an entry of the allow list and nothing else. */
  predicate Carries(r: SecurityRule, entry: EmbeddedRule) {
    && r.rule == entry && r.minPriority == 0 && r.maxPriority == 0 && r.offset == 0
    && r.Name == "" && r.ExternalId == "" && r.Id == "" && r.PeerSecgroupId == ""
  }

  lemma UsedRulesAre(lib: RuleLib, given: SecurityRule, allowList: seq<EmbeddedRule>, rules: seq<SecurityRule>,
                     onlyAllow: bool, noPeers: bool)
    ensures var used := UsedRules(lib, given, allowList, rules, onlyAllow, noPeers);
      if AllowListTaken(allowList, rules, onlyAllow, noPeers) then
        && |used| == |allowList| + (if Completed(lib, given, allowList) then 1 else 0)
        && (forall k :: 0 <= k < |allowList| ==> Carries(used[k], allowList[k]))
        && (Completed(lib, given, allowList) ==> used[|allowList|] == given)
      else used == rules
  {
    CompletedIff(lib, given, allowList);
  }

  lemma CompletedIff(lib: RuleLib, given: SecurityRule, allowList: seq<EmbeddedRule>)
    ensures Completed(lib, given, allowList) <==> WantsDefault(lib, given, allowList)
  {
    TrivialIff(lib.listText(allowList));
  }

  lemma TrivialIff(list: string)
    ensures Trivial(list) <==> list in {"", "in:allow any", "out:allow any", "in:deny any", "out:deny any"}
  {
  }

  // ---------- The default rule that is lost ----------

  /** The synthetic default, deleted, and not one that denies where only allowing rules are supported. */
  predicate Lost(r: SecurityRule, onlyAllow: bool) {
    r.ExternalId == "default_dest_rule_id" && (onlyAllow ==> r.rule.body.Action != "deny")
  }

  /** The last one. */
  predicate LostLast(removed: seq<SecurityRule>, onlyAllow: bool, k: int) {
    0 <= k < |removed| && Lost(removed[k], onlyAllow) && forall x :: k < x < |removed| ==> !Lost(removed[x], onlyAllow)
  }

  /** The same rule with the opposite action, at MinPriority. */
  predicate Opposite(r: SecurityRule, x: SecurityRule, min: int) {
    && x == r.(rule := EmbeddedRule(min, r.rule.body.(Action := x.rule.body.Action)))
    && (r.rule.body.Action == "deny" ==> x.rule.body.Action == "allow")
    && (r.rule.body.Action == "allow" ==> x.rule.body.Action == "deny")
    && (r.rule.body.Action != "deny" && r.rule.body.Action != "allow" ==> x.rule.body.Action == r.rule.body.Action)
  }

  /** What is kept and added does not do what the rule does: it allows nothing, or its allow list neither
      contains the rule's text nor equals the source's. */
  predicate Missing(lib: RuleLib, srcAllowList: seq<EmbeddedRule>, d: Diff, x: SecurityRule) {
    var allow := lib.allowList(Embedded(d.add + d.common));
    || lib.listText(allow) == ""
    || (!lib.listEquals(srcAllowList, allow) && !Text.Contains(lib.listText(allow), x.String(lib.show)))
  }

  predicate TurnedAround(lib: RuleLib, t: Target, srcAllowList: seq<EmbeddedRule>, d: Diff, adds: seq<SecurityRule>,
                         lost: SecurityRule, x: SecurityRule) {
    && Opposite(lost, x, t.MinPriority)
    && adds == if Missing(lib, srcAllowList, d, x) then d.add + [x] else d.add
  }

  lemma {:induction false} LastLostIs(removed: seq<SecurityRule>, onlyAllow: bool)
    ensures match LastLost(removed, onlyAllow)
            case None => forall k :: 0 <= k < |removed| ==> !Lost(removed[k], onlyAllow)
            case Some(r) => exists k :: LostLast(removed, onlyAllow, k) && removed[k] == r
  {
    if removed != [] {
      var init, n := removed[..|removed| - 1], |removed| - 1;
      LastLostIs(init, onlyAllow);
      if Lost(removed[n], onlyAllow) {
        assert LostLast(removed, onlyAllow, n);
      } else if LastLost(init, onlyAllow).Some? {
        var k :| LostLast(init, onlyAllow, k) && init[k] == LastLost(init, onlyAllow).value;
        assert LostLast(removed, onlyAllow, k);
      }
    }
  }

  /** What is added besides the additions of the merge: nothing, if no default is lost; otherwise the opposite of
      the last default lost, if it is missing from what is kept and added. */
  lemma DefaultTurnedAround(lib: RuleLib, t: Target, srcAllowList: seq<EmbeddedRule>, d: Diff, adds: seq<SecurityRule>)
    requires AddsOf(lib, t, srcAllowList, d, adds)
    ensures (forall k :: 0 <= k < |d.del| ==> !Lost(d.del[k], t.IsOnlySupportAllowRules)) ==> adds == d.add
    ensures forall k :: LostLast(d.del, t.IsOnlySupportAllowRules, k) ==>
      exists x :: TurnedAround(lib, t, srcAllowList, d, adds, d.del[k], x)
  {
    LastLostIs(d.del, t.IsOnlySupportAllowRules);
    forall k | LostLast(d.del, t.IsOnlySupportAllowRules, k)
      ensures exists x :: TurnedAround(lib, t, srcAllowList, d, adds, d.del[k], x)
    {
      assert LastLost(d.del, t.IsOnlySupportAllowRules) == Some(d.del[k]);
      assert TurnedAround(lib, t, srcAllowList, d, adds, d.del[k], Flip(d.del[k], t.MinPriority));
    }
  }
}
