/** An Aliyun access group (pkg/multicloud/aliyun/access_groups.go), and what is left in it
    once the outcome of a comparison has been applied. */
module AccessSync {
  import opened AccessRules
  import opened Images
  import AccessProofs
  import Sorting

  /** A rule as the cloud stores it. */
  datatype StoredRule = StoredRule(AccessRuleId: string, Priority: int, RWAccess: string, UserAccess: string,
                                   SourceCidrIp: string)

  /** What the cloud stores for a parameter that was not sent. */
  datatype Defaults = Defaults(RWAccess: string, UserAccess: string)

  // ---------- Reading and writing rules ----------

  function ReadRW(s: string): string {
    if s == "RDWR" then "RW" else if s == "RDONLY" then "R" else ""
  }

  function ReadUser(s: string): string {
    if s == "no_squash" then "no_root_squash"
    else if s == "root_squash" then "root_squash"
    else if s == "all_squash" then "all_squash"
    else ""
  }

  function Read(r: StoredRule): AccessGroupRule {
    AccessGroupRule("", r.AccessRuleId, r.Priority, ReadRW(r.RWAccess), ReadUser(r.UserAccess), r.SourceCidrIp)
  }

  function SentRW(s: string, dflt: string): string {
    if s == "R" then "RDONLY" else if s == "RW" then "RDWR" else dflt
  }

  function SentUser(s: string, dflt: string): string {
    if s == "all_squash" then "all_squash"
    else if s == "root_squash" then "root_squash"
    else if s == "no_root_squash" then "no_squash"
    else dflt
  }

  function Stored(d: Defaults, id: string, r: AccessGroupRule): StoredRule {
    StoredRule(id, r.Priority, SentRW(r.RWAccessType, d.RWAccess), SentUser(r.UserAccessType, d.UserAccess), r.Source)
  }

  lemma ThreeUserTypes(u: string)
    ensures u in AliyunLimits().Supported <==> u == "all_squash" || u == "root_squash" || u == "no_root_squash"
  {
    var s := AliyunLimits().Supported;
    if u in s {
      var k :| 0 <= k < |s| && s[k] == u;
    }
    assert s[0] == "all_squash" && s[1] == "root_squash" && s[2] == "no_root_squash";
  }

  /** What the text of a rule is made of. */
  function Shape(r: AccessGroupRule): (string, string, string) {
    (r.RWAccessType, r.UserAccessType, r.Source)
  }

  /** A stored rule reads back as the rule that was sent exactly when its access type is
      one of the two known ones, or happens to be what the cloud's default reads as. */
  lemma ReadsBackIff(d: Defaults, id: string, r: AccessGroupRule)
    requires r.UserAccessType in AliyunLimits().Supported
    ensures Shape(Read(Stored(d, id, r))) == Shape(r)
      <==> r.RWAccessType in {"RW", "R", ReadRW(d.RWAccess)}
    ensures Read(Stored(d, id, r)).Priority == r.Priority && Read(Stored(d, id, r)).ExternalId == id
  {
    ThreeUserTypes(r.UserAccessType);
  }

  /** What is stored for the access types that can be sent; each reads back as itself. */
  lemma SentAs(d: Defaults, id: string, r: AccessGroupRule)
    ensures var z := Stored(d, id, r);
      && z.AccessRuleId == id && z.Priority == r.Priority && z.SourceCidrIp == r.Source
      && (r.RWAccessType == "RW" ==> z.RWAccess == "RDWR") && (r.RWAccessType == "R" ==> z.RWAccess == "RDONLY")
      && (r.RWAccessType != "RW" && r.RWAccessType != "R" ==> z.RWAccess == d.RWAccess)
      && (r.UserAccessType == "all_squash" || r.UserAccessType == "root_squash" ==> z.UserAccess == r.UserAccessType)
      && (r.UserAccessType == "no_root_squash" ==> z.UserAccess == "no_squash")
      && Read(z).ExternalId == id && Read(z).Priority == r.Priority && Read(z).Source == r.Source
      && (r.RWAccessType in {"RW", "R"} ==> Read(z).RWAccessType == r.RWAccessType)
      && (r.UserAccessType in AliyunLimits().Supported ==> Read(z).UserAccessType == r.UserAccessType)
  {
    ThreeUserTypes(r.UserAccessType);
  }

  // ---------- Applying a comparison ----------

  ghost predicate DistinctIds(rules: seq<StoredRule>) {
    forall k, l :: 0 <= k < l < |rules| ==> rules[k].AccessRuleId != rules[l].AccessRuleId
  }

  predicate Names(removed: seq<AccessGroupRule>, id: string) {
    exists k :: 0 <= k < |removed| && removed[k].ExternalId == id
  }

  function Spared(removed: seq<AccessGroupRule>): StoredRule -> bool {
    (r: StoredRule) => !Names(removed, r.AccessRuleId)
  }

  function OtherThan(id: string): StoredRule -> bool {
    (r: StoredRule) => r.AccessRuleId != id
  }

  /** The rules `created` store the rules `added`, one by one. */
  ghost predicate Stores(d: Defaults, created: seq<StoredRule>, added: seq<AccessGroupRule>) {
    |created| == |added| && forall k :: 0 <= k < |added| ==> created[k] == Stored(d, created[k].AccessRuleId, added[k])
  }

  /** The removed rules are gone, the added ones stored, and nothing else changed. */
  ghost predicate Synced(d: Defaults, before: seq<StoredRule>, after: seq<StoredRule>,
                         removed: seq<AccessGroupRule>, added: seq<AccessGroupRule>) {
    exists created :: after == Filter(Spared(removed), before) + created && Stores(d, created, added)
  }

  /** The calls that change the group, as they were made, and whether they succeeded. */
  datatype Call =
    | DeleteRule(id: string, ok: bool)
    | CreateRule(source: string, rwType: string, userType: string, priority: int, ok: bool)

  function DeleteCall(r: AccessGroupRule): Call { DeleteRule(r.ExternalId, true) }

  function CreateCall(r: AccessGroupRule): Call {
    CreateRule(r.Source, r.RWAccessType, r.UserAccessType, r.Priority, true)
  }

  /** All deletions come before the first creation. */
  function Plan(removed: seq<AccessGroupRule>, added: seq<AccessGroupRule>): seq<Call> {
    Mapped(DeleteCall, removed) + Mapped(CreateCall, added)
  }

  lemma PlanAt(removed: seq<AccessGroupRule>, added: seq<AccessGroupRule>, n: int)
    requires 0 <= n < |removed| + |added|
    ensures |Plan(removed, added)| == |removed| + |added|
    ensures Plan(removed, added)[n]
      == if n < |removed| then DeleteCall(removed[n]) else CreateCall(added[n - |removed|])
    ensures Plan(removed, added)[..n] + [Plan(removed, added)[n]] == Plan(removed, added)[..n + 1]
  {
  }

  /** The first `n` calls of the plan were made and succeeded; unless all is well, the next one failed. */
  ghost predicate Made(before: seq<Call>, after: seq<Call>, plan: seq<Call>, n: int, ok: bool) {
    && 0 <= n <= |plan| && (!ok ==> n < |plan|)
    && after == before + plan[..n] + if ok then [] else [plan[n].(ok := false)]
  }

  /** The next call of the plan, made after the first `n`. */
  lemma MadeNext(before: seq<Call>, after: seq<Call>, removed: seq<AccessGroupRule>, added: seq<AccessGroupRule>,
                 n: int, ok: bool)
    requires 0 <= n < |removed| + |added| && Made(before, after, Plan(removed, added), n, true)
    ensures var call := if n < |removed| then DeleteCall(removed[n]) else CreateCall(added[n - |removed|]);
      Made(before, after + [call.(ok := ok)], Plan(removed, added), if ok then n + 1 else n, ok)
  {
    PlanAt(removed, added, n);
  }

  /** The first `n` calls of the plan have taken effect. */
  ghost predicate Applied(d: Defaults, before: seq<StoredRule>, after: seq<StoredRule>,
                          removed: seq<AccessGroupRule>, added: seq<AccessGroupRule>, n: int) {
    && 0 <= n <= |removed| + |added|
    && if n <= |removed| then after == Filter(Spared(removed[..n]), before)
       else Synced(d, before, after, removed, added[..n - |removed|])
  }

  lemma NamesOneMore(removed: seq<AccessGroupRule>, k: int, id: string)
    requires 0 <= k < |removed|
    ensures Names(removed[..k + 1], id) <==> Names(removed[..k], id) || removed[k].ExternalId == id
  {
    if Names(removed[..k], id) {
      var l :| 0 <= l < k && removed[..k][l].ExternalId == id;
      assert removed[..k + 1][l].ExternalId == id;
    } else if removed[k].ExternalId == id {
      assert removed[..k + 1][k].ExternalId == id;
    }
  }

  lemma DeletedOneMore(before: seq<StoredRule>, removed: seq<AccessGroupRule>, k: int)
    requires 0 <= k < |removed|
    ensures Filter(OtherThan(removed[k].ExternalId), Filter(Spared(removed[..k]), before))
      == Filter(Spared(removed[..k + 1]), before)
  {
    forall r: StoredRule
      ensures Spared(removed[..k + 1])(r) == (Spared(removed[..k])(r) && OtherThan(removed[k].ExternalId)(r))
    {
      NamesOneMore(removed, k, r.AccessRuleId);
    }
    FilterTwice(Spared(removed[..k]), OtherThan(removed[k].ExternalId), Spared(removed[..k + 1]), before);
  }

  lemma StoredOneMore(d: Defaults, before: seq<StoredRule>, after: seq<StoredRule>,
                      removed: seq<AccessGroupRule>, added: seq<AccessGroupRule>, k: int, id: string)
    requires 0 <= k < |added| && Synced(d, before, after, removed, added[..k])
    ensures Synced(d, before, after + [Stored(d, id, added[k])], removed, added[..k + 1])
  {
    var created :| after == Filter(Spared(removed), before) + created && Stores(d, created, added[..k]);
    var more := created + [Stored(d, id, added[k])];
    assert after + [Stored(d, id, added[k])] == Filter(Spared(removed), before) + more;
    forall l | 0 <= l < |more| ensures more[l] == Stored(d, more[l].AccessRuleId, added[..k + 1][l]) {
      assert l < k ==> added[..k][l] == added[..k + 1][l];
    }
    assert Stores(d, more, added[..k + 1]);
  }

  /** All deletions and the first `i` creations have taken effect. */
  lemma AppliedAt(d: Defaults, before: seq<StoredRule>, after: seq<StoredRule>,
                  removed: seq<AccessGroupRule>, added: seq<AccessGroupRule>, i: int)
    requires 0 <= i <= |added| && Synced(d, before, after, removed, added[..i])
    requires i == 0 ==> after == Filter(Spared(removed), before)
    ensures Applied(d, before, after, removed, added, |removed| + i)
  {
    assert removed[..|removed|] == removed;
  }

  /** All deletions and the first `i` creations were made, and have taken effect. */
  ghost predicate Created(d: Defaults, calls0: seq<Call>, calls: seq<Call>, before: seq<StoredRule>,
                          after: seq<StoredRule>, removed: seq<AccessGroupRule>, added: seq<AccessGroupRule>, i: int) {
    && 0 <= i <= |added| && Made(calls0, calls, Plan(removed, added), |removed| + i, true)
    && (i == 0 ==> after == Filter(Spared(removed), before))
    && Synced(d, before, after, removed, added[..i])
  }

  /** The next creation, whether it succeeds or not. */
  lemma CreatedNext(d: Defaults, calls0: seq<Call>, calls: seq<Call>, before: seq<StoredRule>, after: seq<StoredRule>,
                    removed: seq<AccessGroupRule>, added: seq<AccessGroupRule>, i: int, id: string, ok: bool)
    requires Created(d, calls0, calls, before, after, removed, added, i) && i < |added|
    ensures var (n, more) := (|removed| + i, after + [Stored(d, id, added[i])]);
      var called := calls + [CreateCall(added[i]).(ok := ok)];
      && Applied(d, before, after, removed, added, n) && Applied(d, before, more, removed, added, n + 1)
      && (if ok then Created(d, calls0, called, before, more, removed, added, i + 1)
          else Made(calls0, called, Plan(removed, added), n, false))
  {
    AppliedAt(d, before, after, removed, added, i);
    StoredOneMore(d, before, after, removed, added, i, id);
    AppliedAt(d, before, after + [Stored(d, id, added[i])], removed, added, i + 1);
    MadeNext(calls0, calls, removed, added, |removed| + i, ok);
  }

  lemma CreatedAll(d: Defaults, calls0: seq<Call>, calls: seq<Call>, before: seq<StoredRule>, after: seq<StoredRule>,
                   removed: seq<AccessGroupRule>, added: seq<AccessGroupRule>)
    requires Created(d, calls0, calls, before, after, removed, added, |added|)
    ensures Applied(d, before, after, removed, added, |removed| + |added|) && Synced(d, before, after, removed, added)
  {
    assert added[..|added|] == added;
    AppliedAt(d, before, after, removed, added, |added|);
  }

  lemma NothingStoredYet(d: Defaults, before: seq<StoredRule>, removed: seq<AccessGroupRule>)
    ensures Synced(d, before, Filter(Spared(removed), before), removed, [])
  {
    assert Filter(Spared(removed), before) == Filter(Spared(removed), before) + [];
    assert Stores(d, [], []);
  }

  // ---------- Listing the rules ----------

  const PAGE_SIZE := 50

  function Least(a: int, b: int): int { if a <= b then a else b }

  function PageOf(rules: seq<StoredRule>, size: int, num: int): seq<StoredRule>
    requires size >= 1 && num >= 1
  {
    var from := Least((num - 1) * size, |rules|);
    rules[from..Least(from + size, |rules|)]
  }

  function FirstOf(rules: seq<StoredRule>): seq<StoredRule> {
    rules[..Least(PAGE_SIZE, |rules|)]
  }

  lemma FirstPage(rules: seq<StoredRule>)
    ensures PageOf(rules, PAGE_SIZE, 1) == FirstOf(rules)
    ensures [] + Again(FirstOf(rules), |rules|) == Listing(rules)
  {
  }

  /** The page again and again, until there are `total` rules. */
  function Again(page: seq<StoredRule>, total: int): seq<StoredRule>
    decreases total
  {
    if page == [] || |page| >= total then page else page + Again(page, total - |page|)
  }

  lemma AgainOnce(listed: seq<StoredRule>, page: seq<StoredRule>, total: int)
    ensures listed + Again(page, total)
      == if page == [] || |page| >= total then listed + page else (listed + page) + Again(page, total - |page|)
  {
  }

  /** What is listed so far, and as many rules again as are missing, is the listing. */
  ghost predicate ListedSoFar(rules: seq<StoredRule>, listed: seq<StoredRule>) {
    && (listed == [] || |listed| < |rules|)
    && Listing(rules) == listed + Again(FirstOf(rules), |rules| - |listed|)
  }

  lemma PageListed(rules: seq<StoredRule>, listed: seq<StoredRule>)
    requires ListedSoFar(rules, listed)
    ensures var more := listed + FirstOf(rules);
      if |more| >= |rules| then Listing(rules) == more else ListedSoFar(rules, more) && |more| > |listed|
  {
    AgainOnce(listed, FirstOf(rules), |rules| - |listed|);
  }

  /** What the listing returns, as far as it is correct or not. */
  function Listing(rules: seq<StoredRule>): seq<StoredRule> {
    Again(FirstOf(rules), |rules|)
  }

  /** The listing is the list of the rules exactly when they fit one page. */
  lemma ListingIff(rules: seq<StoredRule>)
    requires DistinctIds(rules)
    ensures Listing(rules) == rules <==> |rules| <= 50
  {
    var page := FirstOf(rules);
    if |rules| <= PAGE_SIZE {
      assert page == rules;
    } else {
      AgainBegins(page, |rules| - PAGE_SIZE);
      assert Listing(rules) == page + Again(page, |rules| - PAGE_SIZE);
      assert Listing(rules)[PAGE_SIZE] == page[0] == rules[0];
      assert rules[0].AccessRuleId != rules[PAGE_SIZE].AccessRuleId;
    }
  }

  lemma AgainBegins(page: seq<StoredRule>, total: int)
    requires page != []
    ensures page <= Again(page, total)
  {
  }

  class SAccessGroup {
    const defaults: Defaults
    var rules: seq<StoredRule>
    ghost var calls: seq<Call>
    /** How many listings have failed. */
    ghost var refusals: nat

    ghost predicate Valid()
      reads this
    {
      DistinctIds(rules)
    }

    constructor (defaults: Defaults)
      ensures Valid() && this.defaults == defaults && rules == [] && calls == []
    {
      this.defaults, rules, calls, refusals := defaults, [], [], 0;
    }

    /** One page of the rules, and how many there are. */
    method GetAccessGroupRules(pageSize: int, pageNum: int) returns (ok: bool, part: seq<StoredRule>, total: int)
      requires 1 <= pageSize <= 100 && pageNum >= 1
      modifies this`refusals
      ensures refusals == old(refusals) + if ok then 0 else 1
      ensures ok ==> part == PageOf(rules, pageSize, pageNum) && total == |rules|
    {
      ok, part, total := *, PageOf(rules, pageSize, pageNum), |rules|;
      if !ok {
        refusals := refusals + 1;
      }
    }

    /** The page number never changes, so every round appends the first page. */
    method GetRules() returns (ok: bool, ret: seq<AccessGroupRule>)
      modifies this`refusals
      ensures refusals == old(refusals) + if ok then 0 else 1
      ensures ok ==> ret == Mapped(Read, Listing(rules))
    {
      ret := [];
      var listed: seq<StoredRule> := [];
      var num := 1;
      FirstPage(rules);
      while true
        invariant ListedSoFar(rules, listed) && refusals == old(refusals)
        decreases |rules| - |listed|
      {
        var part, total;
        ok, part, total := GetAccessGroupRules(PAGE_SIZE, num);
        if !ok {
          return;
        }
        PageListed(rules, listed);
        listed := listed + part;
        if |listed| >= total {
          break;
        }
      }
      ret := ReadRules(listed);
    }

    method ReadRules(listed: seq<StoredRule>) returns (ret: seq<AccessGroupRule>)
      ensures ret == Mapped(Read, listed)
    {
      ret := [];
      for i := 0 to |listed|
        invariant ret == Mapped(Read, listed[..i])
      {
        MappedSnoc(Read, listed[..i], listed[i]);
        assert listed[..i] + [listed[i]] == listed[..i + 1];
        ret := ret + [Read(listed[i])];
      }
      assert listed[..|listed|] == listed;
    }

    /** May fail, and may then have taken effect all the same. */
    method DeleteAccessGroupRule(id: string) returns (ok: bool)
      requires Valid()
      modifies this
      ensures Valid() && calls == old(calls) + [DeleteRule(id, ok)]
      ensures rules == Filter(OtherThan(id), old(rules)) || (!ok && rules == old(rules))
    {
      var applied: bool := *;
      ok := *;
      if ok || applied {
        FilterKeepsDistinct(OtherThan(id), rules);
        rules := Filter(OtherThan(id), rules);
      }
      calls := calls + [DeleteRule(id, ok)];
    }

    /** May fail, and may then have taken effect all the same. The cloud gives each rule a new id. */
    method CreateAccessGroupRule(source: string, rwType: string, userType: string, priority: int)
      returns (ok: bool, ghost id: string)
      requires Valid()
      modifies this
      ensures Valid() && calls == old(calls) + [CreateRule(source, rwType, userType, priority, ok)]
      ensures rules == old(rules) + [Stored(defaults, id, AccessGroupRule("", "", priority, rwType, userType, source))]
        || (!ok && rules == old(rules))
    {
      var applied: bool := *;
      var newId: string := *;
      ok, id := *, newId;
      ok := ok && forall k :: 0 <= k < |rules| ==> rules[k].AccessRuleId != newId;
      if (ok || applied) && forall k :: 0 <= k < |rules| ==> rules[k].AccessRuleId != newId {
        rules := rules + [Stored(defaults, newId, AccessGroupRule("", "", priority, rwType, userType, source))];
      }
      calls := calls + [CreateRule(source, rwType, userType, priority, ok)];
    }

    /** Makes the calls of the plan, up to the first that fails. */
    method SyncRules(common: seq<AccessGroupRule>, added: seq<AccessGroupRule>, removed: seq<AccessGroupRule>)
      returns (ok: bool, ghost n: nat)
      requires Valid()
      modifies this
      ensures Valid() && n <= |removed| + |added| && (ok <==> n == |removed| + |added|)
      ensures Made(old(calls), calls, Plan(removed, added), n, ok)
      ensures Applied(defaults, old(rules), rules, removed, added, n)
        || (!ok && Applied(defaults, old(rules), rules, removed, added, n + 1))
      ensures ok ==> Synced(defaults, old(rules), rules, removed, added)
    {
      ok, n := DeleteAll(removed, added);
      if ok {
        assert removed[..n] == removed;
        ok, n := CreateAll(old(calls), old(rules), removed, added);
      }
    }

    /** The first of the two loops. */
    method DeleteAll(removed: seq<AccessGroupRule>, ghost added: seq<AccessGroupRule>) returns (ok: bool, ghost n: nat)
      requires Valid()
      modifies this
      ensures Valid() && n <= |removed| && (ok <==> n == |removed|)
      ensures Made(old(calls), calls, Plan(removed, added), n, ok)
      ensures rules == Filter(Spared(removed[..n]), old(rules))
        || (!ok && rules == Filter(Spared(removed[..n + 1]), old(rules)))
    {
      FilterAll(Spared(removed[..0]), rules);
      n, ok := 0, true;
      for i := 0 to |removed|
        invariant Valid() && n == i && ok
        invariant Made(old(calls), calls, Plan(removed, added), n, true)
        invariant rules == Filter(Spared(removed[..i]), old(rules))
      {
        ghost var made := calls;
        DeletedOneMore(old(rules), removed, i);
        ok := DeleteAccessGroupRule(removed[i].ExternalId);
        MadeNext(old(calls), made, removed, added, n, ok);
        if !ok {
          return;
        }
        n := n + 1;
      }
    }

    /** The second of the two loops. */
    method CreateAll(ghost calls0: seq<Call>, ghost rules0: seq<StoredRule>, ghost removed: seq<AccessGroupRule>,
                     added: seq<AccessGroupRule>)
      returns (ok: bool, ghost n: nat)
      requires Valid() && rules == Filter(Spared(removed), rules0)
      requires Made(calls0, calls, Plan(removed, added), |removed|, true)
      modifies this
      ensures Valid() && |removed| <= n <= |removed| + |added| && (ok <==> n == |removed| + |added|)
      ensures Made(calls0, calls, Plan(removed, added), n, ok)
      ensures Applied(defaults, rules0, rules, removed, added, n)
        || (!ok && Applied(defaults, rules0, rules, removed, added, n + 1))
      ensures ok ==> Synced(defaults, rules0, rules, removed, added)
    {
      n, ok := |removed|, true;
      NothingStoredYet(defaults, rules0, removed);
      assert added[..0] == [];
      for i := 0 to |added|
        invariant Valid() && n == |removed| + i && ok
        invariant Created(defaults, calls0, calls, rules0, rules, removed, added, i)
      {
        ghost var before, made := rules, calls;
        ghost var id: string;
        ok, id := CreateAccessGroupRule(added[i].Source, added[i].RWAccessType, added[i].UserAccessType,
                                        added[i].Priority);
        CreatedNext(defaults, calls0, made, rules0, before, removed, added, i, id, ok);
        if !ok {
          return;
        }
        n := n + 1;
      }
      CreatedAll(defaults, calls0, calls, rules0, rules, removed, added);
    }
  }

  lemma {:induction false} FilterKeepsDistinct(p: StoredRule -> bool, rules: seq<StoredRule>)
    requires DistinctIds(rules)
    ensures DistinctIds(Filter(p, rules))
  {
    if rules != [] {
      var init := rules[..|rules| - 1];
      FilterKeepsDistinct(p, init);
      forall k | 0 <= k < |Filter(p, init)|
        ensures Filter(p, init)[k].AccessRuleId != rules[|rules| - 1].AccessRuleId
      {
        FilterMember(p, init, Filter(p, init)[k]);
      }
    }
  }

  // ---------- What a comparison followed by SyncRules leaves ----------

  function Unsupported(t: Limits): AccessGroupRule -> bool {
    (r: AccessGroupRule) => !(r.UserAccessType in t.Supported)
  }

  function NotNamed(removed: seq<AccessGroupRule>): AccessGroupRule -> bool {
    (r: AccessGroupRule) => !Names(removed, r.ExternalId)
  }

  function IdOf(r: AccessGroupRule): string { r.ExternalId }

  lemma {:induction false} ReadFilter(removed: seq<AccessGroupRule>, rules: seq<StoredRule>)
    ensures Mapped(Read, Filter(Spared(removed), rules)) == Filter(NotNamed(removed), Mapped(Read, rules))
  {
    if rules != [] {
      var init, last := rules[..|rules| - 1], rules[|rules| - 1];
      ReadFilter(removed, init);
      assert Mapped(Read, rules) == Mapped(Read, init) + [Read(last)];
      FilterSnoc(NotNamed(removed), Mapped(Read, init), Read(last));
      MappedSnoc(Read, Filter(Spared(removed), init), last);
    }
  }

  lemma {:induction false} IdsOnce(rules: seq<StoredRule>, id: string)
    requires DistinctIds(rules)
    ensures Image(IdOf, Mapped(Read, rules))[id] <= 1
    ensures (forall k :: 0 <= k < |rules| ==> rules[k].AccessRuleId != id) ==> Image(IdOf, Mapped(Read, rules))[id] == 0
  {
    if rules != [] {
      var init, last := rules[..|rules| - 1], rules[|rules| - 1];
      IdsOnce(init, id);
      assert rules == init + [last];
      MappedSnoc(Read, init, last);
      ImageSnoc(IdOf, Mapped(Read, init), Read(last));
    }
  }

  /** Rules that were kept are not named by rules that were removed. */
  lemma KeptNotNamed(common: seq<AccessGroupRule>, removed: seq<AccessGroupRule>, before: seq<StoredRule>,
                     r: AccessGroupRule)
    requires DistinctIds(before) && r in common
    requires Image(IdOf, common) + Image(IdOf, removed) == Image(IdOf, Mapped(Read, before))
    ensures NotNamed(removed)(r)
  {
    if Names(removed, r.ExternalId) {
      var l :| 0 <= l < |removed| && removed[l].ExternalId == r.ExternalId;
      var k :| 0 <= k < |common| && common[k] == r;
      ImageMember(IdOf, common, k);
      ImageMember(IdOf, removed, l);
      IdsOnce(before, r.ExternalId);
      assert false;
    }
  }

  lemma RemovedAllNamed(removed: seq<AccessGroupRule>)
    ensures Filter(NotNamed(removed), removed) == []
  {
    forall x | x in removed ensures Names(removed, x.ExternalId) {
      var k :| 0 <= k < |removed| && removed[k] == x;
    }
    FilterNone(NotNamed(removed), removed);
  }

  /** Deleting what a comparison removed leaves, as texts, what it kept. */
  lemma DeletionLeavesCommon(common: seq<AccessGroupRule>, removed: seq<AccessGroupRule>,
                             dest: seq<AccessGroupRule>, before: seq<StoredRule>)
    requires DistinctIds(before) && multiset(dest) == multiset(Mapped(Read, before))
    requires Image(AccessProofs.NoId, common) + Image(AccessProofs.NoId, removed) == Image(AccessProofs.NoId, dest)
    ensures Image(AccessProofs.TextOf, Mapped(Read, Filter(Spared(removed), before)))
      == Image(AccessProofs.TextOf, common)
  {
    var now := Mapped(Read, before);
    ImagePermuted(AccessProofs.NoId, dest, now);
    ImageConcat(AccessProofs.NoId, common, removed);
    SameIds(common, removed, now);
    forall r | r in common ensures NotNamed(removed)(r) {
      KeptNotNamed(common, removed, before, r);
    }
    ImageFactors(AccessProofs.NoId, AccessProofs.TextOf, NotNamed(removed), AccessProofs.TextOf, NotNamed(removed),
                 common + removed, now);
    FilterConcat(NotNamed(removed), common, removed);
    FilterAll(NotNamed(removed), common);
    RemovedAllNamed(removed);
    assert common + [] == common;
    ReadFilter(removed, before);
  }

  lemma SameIds(common: seq<AccessGroupRule>, removed: seq<AccessGroupRule>, now: seq<AccessGroupRule>)
    requires Image(AccessProofs.NoId, common + removed) == Image(AccessProofs.NoId, now)
    ensures Image(IdOf, common) + Image(IdOf, removed) == Image(IdOf, now)
  {
    var all := (r: AccessGroupRule) => true;
    ImageFactors(AccessProofs.NoId, IdOf, all, IdOf, all, common + removed, now);
    FilterAll(all, common + removed);
    FilterAll(all, now);
    ImageConcat(IdOf, common, removed);
  }

  function BackRW(d: Defaults, s: string): string { ReadRW(SentRW(s, d.RWAccess)) }

  function BackUser(d: Defaults, s: string): string { ReadUser(SentUser(s, d.UserAccess)) }

  /** The text a rule has once it was sent. */
  function SentText(d: Defaults): AccessGroupRule -> string {
    (r: AccessGroupRule) => BackRW(d, r.RWAccessType) + "-" + BackUser(d, r.UserAccessType) + "-" + r.Source
  }

  lemma SentTextIs(d: Defaults, id: string, r: AccessGroupRule)
    ensures AccessProofs.TextOf(Read(Stored(d, id, r))) == SentText(d)(r)
  {
  }

  lemma CreatedTexts(d: Defaults, created: seq<StoredRule>, added: seq<AccessGroupRule>)
    requires Stores(d, created, added)
    ensures Image(AccessProofs.TextOf, Mapped(Read, created)) == Image(SentText(d), added)
  {
    var now := Mapped(Read, created);
    forall k | 0 <= k < |added| ensures AccessProofs.TextOf(now[k]) == SentText(d)(added[k]) {
      SentTextIs(d, created[k].AccessRuleId, added[k]);
    }
    ImageOfBoth(AccessProofs.TextOf, now, SentText(d), added);
  }

  lemma {:induction false} ImageOfBoth<A, B, C>(f: A -> C, s: seq<A>, g: B -> C, t: seq<B>)
    requires |s| == |t| && forall k :: 0 <= k < |s| ==> f(s[k]) == g(t[k])
    ensures Image(f, s) == Image(g, t)
  {
    if s != [] {
      ImageOfBoth(f, s[..|s| - 1], g, t[..|t| - 1]);
    }
  }

  lemma CannotReadBack(d: Defaults, created: seq<StoredRule>, added: seq<AccessGroupRule>, r: AccessGroupRule)
    requires Stores(d, created, added) && r in added
    requires r.RWAccessType !in {"RW", "R", ReadRW(d.RWAccess)}
    ensures Shape(r) in Image(Shape, added) && Shape(r) !in Image(Shape, Mapped(Read, created))
  {
    var k :| 0 <= k < |added| && added[k] == r;
    ImageMember(Shape, added, k);
    if Shape(r) in Image(Shape, Mapped(Read, created)) {
      var l := ImageWitness(Shape, Mapped(Read, created), Shape(r));
      RWReadsAs(d, created[l].AccessRuleId, added[l]);
      assert false;
    }
  }

  lemma RWReadsAs(d: Defaults, id: string, r: AccessGroupRule)
    ensures Shape(Read(Stored(d, id, r))).0 in {"RW", "R", ReadRW(d.RWAccess)}
  {
  }

  /** What was created reads back as what was added, rule by rule as a multiset, exactly
      when every added rule has an access type that can be sent. */
  lemma CreatedReadBackIff(d: Defaults, created: seq<StoredRule>, added: seq<AccessGroupRule>)
    requires Stores(d, created, added)
    requires forall r :: r in added ==> r.UserAccessType in AliyunLimits().Supported
    ensures Image(Shape, Mapped(Read, created)) == Image(Shape, added)
      <==> forall r :: r in added ==> r.RWAccessType in {"RW", "R", ReadRW(d.RWAccess)}
  {
    var now := Mapped(Read, created);
    if r :| r in added && r.RWAccessType !in {"RW", "R", ReadRW(d.RWAccess)} {
      CannotReadBack(d, created, added, r);
    } else {
      forall k | 0 <= k < |added| ensures Shape(now[k]) == Shape(added[k]) {
        assert added[k] in added;
        ReadsBackIff(d, created[k].AccessRuleId, added[k]);
      }
      ImageEqual(Shape, now, added);
    }
  }

  /** The texts of what is added, as sent, are those of the unmatched supported rules. */
  lemma AddedTexts(d: Defaults, added: seq<AccessGroupRule>, wanted: seq<AccessGroupRule>)
    requires AccessProofs.Cores(added) == AccessProofs.Cores(wanted)
    ensures Image(SentText(d), added) == Image(SentText(d), wanted)
  {
    assert |added| == |AccessProofs.Cores(added)| == |wanted|;
    forall k | 0 <= k < |added| ensures SentText(d)(added[k]) == SentText(d)(wanted[k]) {
      assert AccessProofs.Cores(added)[k] == AccessProofs.Cores(wanted)[k];
      assert Shape(added[k]) == Shape(wanted[k]);
    }
    ImageEqual(SentText(d), added, wanted);
  }

  /** The access types of these rules, as far as they are supported, can be sent to the cloud. */
  ghost predicate CanBeSent(d: Defaults, rules: seq<AccessGroupRule>) {
    forall r :: r in rules && r.UserAccessType in AliyunLimits().Supported
      ==> r.RWAccessType in {"RW", "R", ReadRW(d.RWAccess)}
  }

  /** The group has the source's texts, except for unmatched rules that are not supported. */
  ghost predicate ReachesSource(after: seq<StoredRule>, src: seq<AccessGroupRule>, unmatched: seq<AccessGroupRule>) {
    Image(AccessProofs.TextOf, Mapped(Read, after))
      + Image(AccessProofs.TextOf, Filter(Unsupported(AliyunLimits()), unmatched))
    == Image(AccessProofs.TextOf, src)
  }

  /** For any rules on either side, in any order: after a comparison with the group's rules and a SyncRules
      without errors, the group has the source's texts, but for each unmatched rule the text it has
      once it was sent, or none if it is not supported. */
  lemma SyncLeaves(d: Defaults, src: seq<AccessGroupRule>, dest: seq<AccessGroupRule>,
                   before: seq<StoredRule>, after: seq<StoredRule>, m: Merge)
    requires DistinctIds(before) && multiset(dest) == multiset(Mapped(Read, before))
    requires m == Run(AliyunLimits(), Start(AliyunLimits(), src, dest))
    requires Synced(d, before, after, m.removed, m.added)
    ensures Image(AccessProofs.TextOf, Mapped(Read, after)) + Image(AccessProofs.TextOf, m.unmatched)
      == Image(AccessProofs.TextOf, src)
         + Image(SentText(d), Filter(AccessProofs.Supported(AliyunLimits()), m.unmatched))
  {
    AccessProofs.MergeConserves(AliyunLimits(), src, dest);
    AccessProofs.MergeConservesTexts(AliyunLimits(), src, dest);
    AfterTexts(d, dest, before, after, m.common, m.removed, m.added,
               Filter(AccessProofs.Supported(AliyunLimits()), m.unmatched));
  }

  lemma AfterTexts(d: Defaults, dest: seq<AccessGroupRule>, before: seq<StoredRule>, after: seq<StoredRule>,
                   common: seq<AccessGroupRule>, removed: seq<AccessGroupRule>, added: seq<AccessGroupRule>,
                   wanted: seq<AccessGroupRule>)
    requires DistinctIds(before) && multiset(dest) == multiset(Mapped(Read, before))
    requires Image(AccessProofs.NoId, common) + Image(AccessProofs.NoId, removed) == Image(AccessProofs.NoId, dest)
    requires Synced(d, before, after, removed, added)
    requires AccessProofs.Cores(added) == AccessProofs.Cores(wanted)
    ensures Image(AccessProofs.TextOf, Mapped(Read, after))
      == Image(AccessProofs.TextOf, common) + Image(SentText(d), wanted)
  {
    DeletionLeavesCommon(common, removed, dest, before);
    var created :| after == Filter(Spared(removed), before) + created && Stores(d, created, added);
    MappedConcat(Read, Filter(Spared(removed), before), created);
    ImageConcat(AccessProofs.TextOf, Mapped(Read, Filter(Spared(removed), before)), Mapped(Read, created));
    CreatedTexts(d, created, added);
    AddedTexts(d, added, wanted);
  }

  /** The group then has the source's texts, except exactly for unmatched rules that are not supported, if
      and only if the access types of the unmatched supported rules can be sent. */
  lemma SyncReachesSourceIff(d: Defaults, src: seq<AccessGroupRule>, dest: seq<AccessGroupRule>,
                             before: seq<StoredRule>, after: seq<StoredRule>, m: Merge)
    requires DistinctIds(before) && multiset(dest) == multiset(Mapped(Read, before))
    requires m == Run(AliyunLimits(), Start(AliyunLimits(), src, dest))
    requires Synced(d, before, after, m.removed, m.added)
    ensures ReachesSource(after, src, m.unmatched) <==> CanBeSent(d, m.unmatched)
  {
    var t := AliyunLimits();
    var text := AccessProofs.TextOf;
    var wanted := Filter(AccessProofs.Supported(t), m.unmatched);
    SyncLeaves(d, src, dest, before, after, m);
    SplitBySupport(t, m.unmatched);
    Balance(Image(text, Mapped(Read, after)), Image(text, wanted), Image(text, Filter(Unsupported(t), m.unmatched)),
            Image(text, src), Image(SentText(d), wanted));
    SentAlikeIff(d, m.unmatched);
  }

  lemma Balance<T>(after: multiset<T>, wanted: multiset<T>, other: multiset<T>, src: multiset<T>, sent: multiset<T>)
    requires after + (wanted + other) == src + sent
    ensures after + other == src <==> sent == wanted
  {
    assert after + (wanted + other) == (after + other) + wanted;
    if after + other == src {
      assert sent == (src + sent) - src && wanted == (src + wanted) - src;
    }
    if sent == wanted {
      assert after + other == ((after + other) + wanted) - wanted && src == (src + sent) - sent;
    }
  }

  // ---------- Texts that come back ----------

  lemma SentAlikeIff(d: Defaults, unmatched: seq<AccessGroupRule>)
    ensures var wanted := Filter(AccessProofs.Supported(AliyunLimits()), unmatched);
      Image(SentText(d), wanted) == Image(AccessProofs.TextOf, wanted) <==> CanBeSent(d, unmatched)
  {
    var wanted := Filter(AccessProofs.Supported(AliyunLimits()), unmatched);
    forall r ensures r in wanted <==> r in unmatched && r.UserAccessType in AliyunLimits().Supported {
      FilterMember(AccessProofs.Supported(AliyunLimits()), unmatched, r);
    }
    if CanBeSent(d, unmatched) {
      forall k | 0 <= k < |wanted| ensures SentText(d)(wanted[k]) == AccessProofs.TextOf(wanted[k]) {
        assert wanted[k] in wanted;
        BackRWIs(d, wanted[k].RWAccessType);
        BackUserIs(d, wanted[k].UserAccessType);
      }
      ImageOfBoth(SentText(d), wanted, AccessProofs.TextOf, wanted);
    }
    if Image(SentText(d), wanted) == Image(AccessProofs.TextOf, wanted) {
      forall r | r in wanted ensures r.RWAccessType in {"RW", "R", ReadRW(d.RWAccess)} {
        AllSendable(d, wanted, r);
      }
    }
  }

  function TotalLength(s: seq<string>): int {
    if s == [] then 0 else TotalLength(s[..|s| - 1]) + |s[|s| - 1]|
  }

  lemma {:induction false} TotalConcat(s: seq<string>, t: seq<string>)
    ensures TotalLength(s + t) == TotalLength(s) + TotalLength(t)
  {
    if t == [] {
      assert s + t == s;
    } else {
      SnocOfConcat(s, t);
      TotalConcat(s, t[..|t| - 1]);
      assert (s + t)[..|s + t| - 1] == s + t[..|t| - 1];
    }
  }

  lemma TotalOne(x: string)
    ensures TotalLength([x]) == |x|
  {
    assert [x][..0] == [];
  }

  lemma {:induction false} TotalPermuted(s: seq<string>, t: seq<string>)
    requires multiset(s) == multiset(t)
    ensures TotalLength(s) == TotalLength(t)
  {
    if s == [] {
      assert |t| == |multiset(t)| == 0;
    } else {
      var s0, x := s[..|s| - 1], s[|s| - 1];
      assert s == s0 + [x];
      assert x in multiset(t);
      var k :| 0 <= k < |t| && t[k] == x;
      var u, v := t[..k], t[k + 1..];
      assert t == u + [x] + v;
      assert multiset(s) == multiset(s0) + multiset{x};
      assert multiset(t) == multiset(u + v) + multiset{x};
      CancelOne(multiset(s0), multiset(u + v), x);
      TotalPermuted(s0, u + v);
      TotalConcat(u + [x], v);
      TotalConcat(u, [x]);
      TotalConcat(u, v);
      TotalOne(x);
    }
  }

  lemma {:induction false} TotalGrows(s: seq<string>, t: seq<string>, n: int)
    requires |s| == |t| && forall k :: 0 <= k < |s| ==> |s[k]| <= |t[k]|
    ensures TotalLength(s) <= TotalLength(t)
    ensures 0 <= n < |s| && |s[n]| < |t[n]| ==> TotalLength(s) < TotalLength(t)
  {
    if s != [] {
      TotalGrows(s[..|s| - 1], t[..|t| - 1], n);
    }
  }

  /** If the texts come back as they were sent, every access type can be sent: one that cannot would
      make its text shorter, and none could make up for it. */
  lemma AllSendable(d: Defaults, wanted: seq<AccessGroupRule>, r: AccessGroupRule)
    requires forall x :: x in wanted ==> x.UserAccessType in AliyunLimits().Supported
    requires Image(SentText(d), wanted) == Image(AccessProofs.TextOf, wanted) && r in wanted
    ensures r.RWAccessType in {"RW", "R", ReadRW(d.RWAccess)}
  {
    var sent, texts := Mapped(SentText(d), wanted), Mapped(AccessProofs.TextOf, wanted);
    MappedImage(SentText(d), wanted);
    MappedImage(AccessProofs.TextOf, wanted);
    TotalPermuted(sent, texts);
    forall k | 0 <= k < |wanted|
      ensures |sent[k]| <= |texts[k]| && (!Sendable(d, wanted[k]) ==> |sent[k]| < |texts[k]|)
    {
      SentAtMost(d, wanted, k);
    }
    var n :| 0 <= n < |wanted| && wanted[n] == r;
    TotalGrows(sent, texts, n);
  }

  lemma SentAtMost(d: Defaults, wanted: seq<AccessGroupRule>, k: int)
    requires forall x :: x in wanted ==> x.UserAccessType in AliyunLimits().Supported
    requires Image(SentText(d), wanted) == Image(AccessProofs.TextOf, wanted) && 0 <= k < |wanted|
    ensures var (sent, text) := (SentText(d)(wanted[k]), AccessProofs.TextOf(wanted[k]));
      |sent| <= |text| && (!Sendable(d, wanted[k]) ==> |sent| < |text|)
  {
    ImageMember(AccessProofs.TextOf, wanted, k);
    var j := ImageWitness(SentText(d), wanted, AccessProofs.TextOf(wanted[k]));
    assert wanted[j] in wanted && wanted[k] in wanted;
    TextShrinks(d, wanted[j], wanted[k]);
  }

  predicate Sendable(d: Defaults, r: AccessGroupRule) {
    r.RWAccessType in {"RW", "R", ReadRW(d.RWAccess)}
  }

  /** A rule whose text is that of a rule that was sent gets it back, or a shorter one. */
  lemma TextShrinks(d: Defaults, x: AccessGroupRule, r: AccessGroupRule)
    requires x.UserAccessType in AliyunLimits().Supported && r.UserAccessType in AliyunLimits().Supported
    requires SentText(d)(x) == AccessProofs.TextOf(r)
    ensures if Sendable(d, r) then SentText(d)(r) == AccessProofs.TextOf(r)
            else |SentText(d)(r)| < |AccessProofs.TextOf(r)|
  {
    BackRWIs(d, x.RWAccessType);
    BackRWIs(d, r.RWAccessType);
    BackUserIs(d, x.UserAccessType);
    BackUserIs(d, r.UserAccessType);
    var (v, rest) := (BackRW(d, x.RWAccessType), x.UserAccessType + "-" + x.Source);
    var tail := r.UserAccessType + "-" + r.Source;
    Regroup(v, x.UserAccessType, x.Source);
    Regroup(r.RWAccessType, r.UserAccessType, r.Source);
    Regroup(BackRW(d, r.RWAccessType), r.UserAccessType, r.Source);
    if !Sendable(d, r) {
      LongerThan(v, rest, r.RWAccessType, tail);
    }
  }

  lemma Regroup(a: string, b: string, c: string)
    ensures a + "-" + b + "-" + c == a + "-" + (b + "-" + c)
  {
  }

  lemma BackRWIs(d: Defaults, s: string)
    ensures var (v, other) := (BackRW(d, s), ReadRW(d.RWAccess));
      && v in {"RW", "R", other} && '-' !in v && |other| <= 2 && (v == "" ==> other == "")
      && (if s in {"RW", "R", other} then v == s else v == other)
  {
  }

  lemma BackUserIs(d: Defaults, s: string)
    requires s in AliyunLimits().Supported
    ensures BackUser(d, s) == s && s != "" && s[0] != '-'
  {
    ThreeUserTypes(s);
  }

  /** Behind a beginning without dashes there is at least a dash and one character more. */
  lemma LongerThan(v: string, rest: string, x: string, tail: string)
    requires v + "-" + rest == x + "-" + tail && '-' !in v && x != v && rest != "" && rest[0] != '-'
    ensures |x| >= |v| + 2
  {
    Text.CharacterAt(x, tail, v, rest, '-');
    Text.SameLengthSplit(v, rest, x, tail, '-');
    assert (v + "-" + rest)[|v| + 1] == rest[0];
    assert (x + "-" + tail)[|x|] == '-';
  }

  lemma SplitBySupport(t: Limits, rules: seq<AccessGroupRule>)
    ensures Image(AccessProofs.TextOf, Filter(AccessProofs.Supported(t), rules))
            + Image(AccessProofs.TextOf, Filter(Unsupported(t), rules))
      == Image(AccessProofs.TextOf, rules)
  {
    var all := (r: AccessGroupRule) => true;
    FilterSplit(AccessProofs.TextOf, AccessProofs.Supported(t), Unsupported(t), all, rules);
    FilterAll(all, rules);
  }

  // ---------- The whole round ----------

  /** `GetAccessGroupRuleInfo`, for an Aliyun group. */
  method GetAccessGroupRuleInfo(group: SAccessGroup) returns (ok: bool, info: AccessGroupRuleInfo)
    modifies group`refusals
    ensures group.refusals == old(group.refusals) + if ok then 0 else 1
    ensures fresh(info) && fresh(info.Rules)
    ensures info.MinPriority == 100 && info.MaxPriority == 1
    ensures info.SupportedUserAccessType == AliyunLimits().Supported
    ensures ok ==> info.Rules[..] == Mapped(Read, Listing(group.rules))
  {
    var rules;
    ok, rules := group.GetRules();
    var a := new AccessGroupRule[|rules|](k requires 0 <= k < |rules| => rules[k]);
    assert a[..] == rules;
    info := new AccessGroupRuleInfo(1, 100, AliyunLimits().Supported, a);
  }

  /** Read the group, compare, sync: if no call fails and the group's rules fit one page, the group has the
      source's texts, except for unmatched rules that are not supported, exactly when the access types
      of what matches nothing can be sent. What matches nothing is what the run `m` over both sorted lists
      leaves unmatched. */
  method SyncGroup(src: AccessGroupRuleInfo, group: SAccessGroup)
    returns (ok: bool, ghost s: seq<AccessGroupRule>, ghost d: seq<AccessGroupRule>, ghost m: Merge)
    requires group.Valid()
    modifies src.Rules, group
    ensures group.Valid()
    // It fails only when a call fails.
    ensures !ok ==>
      || group.refusals > old(group.refusals)
      || (|group.calls| > |old(group.calls)| && !group.calls[|group.calls| - 1].ok)
    ensures ok ==> multiset(s) == multiset(old(src.Rules[..]))
    ensures ok ==> multiset(d) == multiset(Mapped(Read, Listing(old(group.rules))))
    ensures ok ==> Sorting.SortedBy(SortedOrder(src.MinPriority < src.MaxPriority), s)
    ensures ok ==> Sorting.SortedBy(SortedOrder(false), d)
    ensures ok ==> m == Run(AliyunLimits(), Start(AliyunLimits(), s, d))
    ensures ok ==> src.Rules[..] == m.src
    ensures ok ==> forall u :: u in m.unmatched ==> u in old(src.Rules[..])
    ensures ok && |old(group.rules)| <= 50 ==>
      (ReachesSource(group.rules, old(src.Rules[..]), m.unmatched) <==> CanBeSent(group.defaults, m.unmatched))
  {
    s, d, m := [], [], Start(AliyunLimits(), [], []);
    ghost var (before, wanted) := (group.rules, src.Rules[..]);
    ListingIff(before);
    var dest;
    ok, dest := GetAccessGroupRuleInfo(group);
    if !ok {
      return;
    }
    var common, added, removed;
    common, added, removed, s, d := CompareAccessGroupRules(src, dest);
    m := Run(AliyunLimits(), Start(AliyunLimits(), s, d));
    ghost var n;
    ok, n := group.SyncRules(common, added, removed);
    UnmatchedWanted(wanted, s, d);
    if ok && |before| <= PAGE_SIZE {
      SyncReachesSourceIff(group.defaults, s, d, before, group.rules, m);
      ImagePermuted(AccessProofs.TextOf, s, wanted);
    }
  }

  lemma UnmatchedWanted(wanted: seq<AccessGroupRule>, s: seq<AccessGroupRule>, d: seq<AccessGroupRule>)
    requires multiset(s) == multiset(wanted)
    ensures forall u :: u in Run(AliyunLimits(), Start(AliyunLimits(), s, d)).unmatched ==> u in wanted
  {
    AccessProofs.UnmatchedFromSource(AliyunLimits(), s, d, Start(AliyunLimits(), s, d));
    forall u | u in Run(AliyunLimits(), Start(AliyunLimits(), s, d)).unmatched ensures u in wanted {
      assert u in multiset(s);
    }
  }
}
