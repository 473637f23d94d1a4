/** The merge run once per protocol (`splitRules` and `compare` inside `CompareRules`,
    pkg/cloudprovider/securitygroup.go), the protocols in any order. */
module RuleGroups {
  import opened Images
  import opened SecRules
  import opened RuleMerge
  import opened RuleMergeProofs

  function HasProtocol(p: string): SecurityRule -> bool {
    (r: SecurityRule) => r.rule.body.Protocol == p
  }

  function InProtocols(ps: seq<string>): SecurityRule -> bool {
    (r: SecurityRule) => r.rule.body.Protocol in ps
  }

  /** `rulePair`. */
  datatype RulePair = RulePair(srcRules: seq<SecurityRule>, destRules: seq<SecurityRule>)

  function PairFor(pairs: map<string, RulePair>, p: string): RulePair {
    if p in pairs then pairs[p] else RulePair([], [])
  }

  function Protocols(rules: seq<SecurityRule>): set<string> {
    if rules == [] then {} else Protocols(rules[..|rules| - 1]) + {rules[|rules| - 1].rule.body.Protocol}
  }

  lemma ProtocolsSnoc(rules: seq<SecurityRule>, r: SecurityRule)
    ensures Protocols(rules + [r]) == Protocols(rules) + {r.rule.body.Protocol}
  {
    assert (rules + [r])[..|rules|] == rules;
  }

  /** The protocol's pair holds the rules of that protocol, in their order. */
  ghost predicate PairHolds(pairs: map<string, RulePair>, src: seq<SecurityRule>, dest: seq<SecurityRule>, p: string) {
    PairFor(pairs, p) == RulePair(Filter(HasProtocol(p), src), Filter(HasProtocol(p), dest))
  }

  ghost predicate Grouped(pairs: map<string, RulePair>, src: seq<SecurityRule>, dest: seq<SecurityRule>) {
    && (forall p {:trigger PairHolds(pairs, src, dest, p)} :: PairHolds(pairs, src, dest, p))
    && pairs.Keys == Protocols(src) + Protocols(dest)
  }

  lemma NothingGrouped()
    ensures Grouped(map[], [], [])
  {
    forall p ensures PairHolds(map[], [], [], p) {
    }
  }

  lemma GroupSrc(pairs: map<string, RulePair>, src: seq<SecurityRule>, dest: seq<SecurityRule>, r: SecurityRule)
    requires Grouped(pairs, src, dest)
    ensures var p := r.rule.body.Protocol; var pair := PairFor(pairs, p);
      Grouped(pairs[p := pair.(srcRules := pair.srcRules + [r])], src + [r], dest)
  {
    var p := r.rule.body.Protocol;
    var pair := PairFor(pairs, p);
    var (next, more) := (pairs[p := pair.(srcRules := pair.srcRules + [r])], src + [r]);
    forall q ensures PairHolds(next, more, dest, q) {
      assert PairHolds(pairs, src, dest, q);
      FilterSnoc(HasProtocol(q), src, r);
    }
    ProtocolsSnoc(src, r);
  }

  lemma GroupDest(pairs: map<string, RulePair>, src: seq<SecurityRule>, dest: seq<SecurityRule>, r: SecurityRule)
    requires Grouped(pairs, src, dest)
    ensures var p := r.rule.body.Protocol; var pair := PairFor(pairs, p);
      Grouped(pairs[p := pair.(destRules := pair.destRules + [r])], src, dest + [r])
  {
    var p := r.rule.body.Protocol;
    var pair := PairFor(pairs, p);
    var (next, more) := (pairs[p := pair.(destRules := pair.destRules + [r])], dest + [r]);
    forall q ensures PairHolds(next, src, more, q) {
      assert PairHolds(pairs, src, dest, q);
      FilterSnoc(HasProtocol(q), dest, r);
    }
    ProtocolsSnoc(dest, r);
  }

  method SplitRules(src: seq<SecurityRule>, dest: seq<SecurityRule>) returns (pairs: map<string, RulePair>)
    ensures Grouped(pairs, src, dest)
  {
    pairs := map[];
    NothingGrouped();
    var i := 0;
    while i < |src|
      invariant 0 <= i <= |src| && Grouped(pairs, src[..i], [])
    {
      var p := src[i].rule.body.Protocol;
      var pair := PairFor(pairs, p);
      GroupSrc(pairs, src[..i], [], src[i]);
      assert src[..i + 1] == src[..i] + [src[i]];
      pairs := pairs[p := pair.(srcRules := pair.srcRules + [src[i]])];
      i := i + 1;
    }
    assert src[..i] == src;
    var j := 0;
    while j < |dest|
      invariant 0 <= j <= |dest| && Grouped(pairs, src, dest[..j])
    {
      var p := dest[j].rule.body.Protocol;
      var pair := PairFor(pairs, p);
      GroupDest(pairs, src, dest[..j], dest[j]);
      assert dest[..j + 1] == dest[..j] + [dest[j]];
      pairs := pairs[p := pair.(destRules := pair.destRules + [dest[j]])];
      j := j + 1;
    }
    assert dest[..j] == dest;
  }

  /** No real rule of the destination has passed MaxPriority. */
  ghost predicate RealWithin(t: Target, dest: seq<SecurityRule>) {
    forall r :: r in dest && r.ExternalId != DEFAULT_DEST_RULE_ID ==> t.Within(r.Priority())
  }

  ghost predicate AllWithin(t: Target, rules: seq<SecurityRule>) {
    forall r :: r in rules ==> t.Within(r.Priority())
  }

  ghost predicate PartOf(s: seq<SecurityRule>, whole: seq<SecurityRule>) {
    forall r :: r in s ==> r in whole
  }

  /** What a comparison keeps, adds and deletes. */
  datatype Outcome = Outcome(common: seq<SecurityRule>, add: seq<SecurityRule>, del: seq<SecurityRule>)

  function Join(a: Outcome, b: Outcome): Outcome {
    Outcome(a.common + b.common, a.add + b.add, a.del + b.del)
  }

  function Merged(show: RuleBody -> string, t: Target, src: seq<SecurityRule>, dest: seq<SecurityRule>): Outcome {
    var m := Run(show, t, Start(t, src, dest));
    Outcome(m.common, m.add, m.del)
  }

  /** The outcomes of these protocols, one after the other. */
  function MergedInTurn(show: RuleBody -> string, t: Target, ps: seq<string>,
                        src: seq<SecurityRule>, dest: seq<SecurityRule>): Outcome {
    if ps == [] then Outcome([], [], [])
    else
      var p := ps[|ps| - 1];
      Join(MergedInTurn(show, t, ps[..|ps| - 1], src, dest),
           Merged(show, t, Filter(HasProtocol(p), src), Filter(HasProtocol(p), dest)))
  }

  lemma OneMoreInTurn(show: RuleBody -> string, t: Target, ps: seq<string>, p: string,
                      src: seq<SecurityRule>, dest: seq<SecurityRule>)
    ensures MergedInTurn(show, t, ps + [p], src, dest)
      == Join(MergedInTurn(show, t, ps, src, dest),
              Merged(show, t, Filter(HasProtocol(p), src), Filter(HasProtocol(p), dest)))
  {
    assert (ps + [p])[..|ps|] == ps;
  }

  /** Each protocol of either list comes up once. */
  ghost predicate EachProtocolOnce(ps: seq<string>, src: seq<SecurityRule>, dest: seq<SecurityRule>) {
    multiset(ps) == multiset(Protocols(src) + Protocols(dest))
  }

  method MergeLists(show: RuleBody -> string, t: Target, src: seq<SecurityRule>, dest: seq<SecurityRule>)
    returns (common: seq<SecurityRule>, add: seq<SecurityRule>, del: seq<SecurityRule>)
    ensures Outcome(common, add, del) == Merged(show, t, src, dest)
    ensures Conserves(show, src, dest, common, add, del)
    ensures PartOf(del, dest)
    ensures RealWithin(t, dest) ==> AllWithin(t, add)
  {
    var srcRules := new SecurityRule[|src|](k requires 0 <= k < |src| => src[k]);
    var destRules := new SecurityRule[|dest|](k requires 0 <= k < |dest| => dest[k]);
    assert srcRules[..] == src && destRules[..] == dest;
    common, add, del := CompareMerge(show, t, srcRules, destRules);
    MergeConserves(show, t, src, dest);
    if RealWithin(t, dest) {
      AddedStayWithin(show, t, src, dest);
    }
  }

  lemma JoinAccounts<A, B>(f: A -> B, p: A -> bool, q: A -> bool, r: A -> bool, whole: seq<A>,
                           a: seq<A>, b: seq<A>, a1: seq<A>, b1: seq<A>)
    requires forall x :: x in whole ==> (r(x) <==> p(x) || q(x)) && !(p(x) && q(x))
    requires Image(f, a) + Image(f, b) == Image(f, Filter(p, whole))
    requires Image(f, a1) + Image(f, b1) == Image(f, Filter(q, whole))
    ensures Image(f, a + a1) + Image(f, b + b1) == Image(f, Filter(r, whole))
  {
    FilterSplit(f, p, q, r, whole);
    ImageConcat(f, a, a1);
    ImageConcat(f, b, b1);
  }

  /** The rules of the protocols dealt with so far are conserved. */
  ghost predicate ConservedFor(show: RuleBody -> string, ps: seq<string>,
                               src: seq<SecurityRule>, dest: seq<SecurityRule>,
                               common: seq<SecurityRule>, add: seq<SecurityRule>, del: seq<SecurityRule>) {
    Conserves(show, Filter(InProtocols(ps), src), Filter(InProtocols(ps), dest), common, add, del)
  }

  lemma OneMoreProtocol(show: RuleBody -> string, ps: seq<string>, p: string,
                        src: seq<SecurityRule>, dest: seq<SecurityRule>,
                        c: seq<SecurityRule>, a: seq<SecurityRule>, d: seq<SecurityRule>,
                        c1: seq<SecurityRule>, a1: seq<SecurityRule>, d1: seq<SecurityRule>)
    requires p !in ps && ConservedFor(show, ps, src, dest, c, a, d)
    requires Conserves(show, Filter(HasProtocol(p), src), Filter(HasProtocol(p), dest), c1, a1, d1)
    ensures ConservedFor(show, ps + [p], src, dest, c + c1, a + a1, d + d1)
  {
    JoinAccounts(Base, InProtocols(ps), HasProtocol(p), InProtocols(ps + [p]), dest, c, d, c1, d1);
    JoinAccounts(Label(show), InProtocols(ps), HasProtocol(p), InProtocols(ps + [p]), src, c, a, c1, a1);
  }

  lemma {:induction false} NoProtocols(s: seq<SecurityRule>)
    ensures Filter(InProtocols([]), s) == []
  {
    if s != [] {
      NoProtocols(s[..|s| - 1]);
    }
  }

  /** What holds of one protocol's outcome. */
  ghost predicate PairMerged(show: RuleBody -> string, t: Target, p: string,
                             src: seq<SecurityRule>, dest: seq<SecurityRule>, o: Outcome) {
    && o == Merged(show, t, Filter(HasProtocol(p), src), Filter(HasProtocol(p), dest))
    && Conserves(show, Filter(HasProtocol(p), src), Filter(HasProtocol(p), dest), o.common, o.add, o.del)
    && PartOf(o.del, dest)
    && (RealWithin(t, dest) ==> AllWithin(t, o.add))
  }

  /** One protocol's pair, merged. */
  method MergePair(show: RuleBody -> string, t: Target, ghost p: string, pair: RulePair,
                   ghost src: seq<SecurityRule>, ghost dest: seq<SecurityRule>) returns (o: Outcome)
    requires pair == RulePair(Filter(HasProtocol(p), src), Filter(HasProtocol(p), dest))
    ensures PairMerged(show, t, p, src, dest, o)
  {
    var common, add, del := MergeLists(show, t, pair.srcRules, pair.destRules);
    forall r ensures r in Filter(HasProtocol(p), dest) ==> r in dest {
      FilterMember(HasProtocol(p), dest, r);
    }
    o := Outcome(common, add, del);
  }

  lemma NothingYet(show: RuleBody -> string, src: seq<SecurityRule>, dest: seq<SecurityRule>)
    ensures ConservedFor(show, [], src, dest, [], [], [])
  {
    NoProtocols(src);
    NoProtocols(dest);
  }

  lemma {:induction false} AllProtocols(ps: seq<string>, rules: seq<SecurityRule>)
    requires forall p :: p in Protocols(rules) ==> p in ps
    ensures Filter(InProtocols(ps), rules) == rules
  {
    if rules != [] {
      AllProtocols(ps, rules[..|rules| - 1]);
    }
  }

  /** What holds of the outcomes joined so far, the protocols `ps` being dealt with. */
  ghost predicate Joined(show: RuleBody -> string, t: Target, ps: seq<string>,
                         src: seq<SecurityRule>, dest: seq<SecurityRule>, o: Outcome) {
    && o == MergedInTurn(show, t, ps, src, dest)
    && ConservedFor(show, ps, src, dest, o.common, o.add, o.del)
    && PartOf(o.del, dest)
    && (RealWithin(t, dest) ==> AllWithin(t, o.add))
  }

  lemma JoinOne(show: RuleBody -> string, t: Target, ps: seq<string>, p: string,
                src: seq<SecurityRule>, dest: seq<SecurityRule>, o: Outcome, b: Outcome)
    requires Joined(show, t, ps, src, dest, o) && p !in ps && PairMerged(show, t, p, src, dest, b)
    ensures Joined(show, t, ps + [p], src, dest, Join(o, b))
  {
    OneMoreProtocol(show, ps, p, src, dest, o.common, o.add, o.del, b.common, b.add, b.del);
    OneMoreInTurn(show, t, ps, p, src, dest);
  }

  method MergeNext(show: RuleBody -> string, t: Target, pairs: map<string, RulePair>, p: string, o: Outcome,
                   ghost ps: seq<string>, ghost src: seq<SecurityRule>, ghost dest: seq<SecurityRule>)
    returns (next: Outcome)
    requires Grouped(pairs, src, dest) && p in pairs && p !in ps
    requires Joined(show, t, ps, src, dest, o)
    ensures Joined(show, t, ps + [p], src, dest, next)
  {
    assert PairHolds(pairs, src, dest, p);
    var b := MergePair(show, t, p, pairs[p], src, dest);
    JoinOne(show, t, ps, p, src, dest, o, b);
    next := Join(o, b);
  }

  /** The protocols come up in any order. */
  method MergePairs(show: RuleBody -> string, t: Target, pairs: map<string, RulePair>,
                    ghost src: seq<SecurityRule>, ghost dest: seq<SecurityRule>)
    returns (o: Outcome, ps: seq<string>)
    requires Grouped(pairs, src, dest)
    ensures Taken(ps, pairs.Keys, {})
    ensures Joined(show, t, ps, src, dest, o)
  {
    o, ps := Outcome([], [], []), [];
    NothingYet(show, src, dest);
    var todo := pairs.Keys;
    TakenNone(todo);
    while todo != {}
      invariant Taken(ps, pairs.Keys, todo)
      invariant Joined(show, t, ps, src, dest, o)
      decreases |todo|
    {
      var p :| p in todo;
      TakenOne(ps, pairs.Keys, todo, p);
      o := MergeNext(show, t, pairs, p, o, ps, src, dest);
      todo, ps := todo - {p}, ps + [p];
    }
  }

  /** The keys were taken up once each, but for those still to do. */
  ghost predicate Taken(ps: seq<string>, keys: set<string>, todo: set<string>) {
    todo <= keys && multiset(ps) == multiset(keys - todo)
  }

  lemma TakenNone(keys: set<string>)
    ensures Taken([], keys, keys)
  {
    assert keys - keys == {};
  }

  lemma TakenOne(ps: seq<string>, keys: set<string>, todo: set<string>, p: string)
    requires Taken(ps, keys, todo) && p in todo
    ensures p in keys && p !in ps && Taken(ps + [p], keys, todo - {p})
  {
    assert keys - (todo - {p}) == keys - todo + {p};
    assert multiset(keys - todo + {p}) == multiset(keys - todo) + multiset{p};
    assert p !in multiset(ps);
  }

  lemma TakenAll(ps: seq<string>, keys: set<string>)
    requires Taken(ps, keys, {})
    ensures multiset(ps) == multiset(keys) && forall p :: p in keys ==> p in ps
  {
    assert keys - {} == keys;
    forall p | p in keys ensures p in ps {
      assert p in multiset(ps);
    }
  }

  method CompareByProtocol(show: RuleBody -> string, t: Target, src: seq<SecurityRule>, dest: seq<SecurityRule>)
    returns (common: seq<SecurityRule>, added: seq<SecurityRule>, dels: seq<SecurityRule>, ps: seq<string>)
    ensures EachProtocolOnce(ps, src, dest)
    ensures Outcome(common, added, dels) == MergedInTurn(show, t, ps, src, dest)
    ensures Conserves(show, src, dest, common, added, dels)
    ensures PartOf(dels, dest)
    ensures RealWithin(t, dest) ==> AllWithin(t, added)
  {
    var pairs := SplitRules(src, dest);
    var o, order := MergePairs(show, t, pairs, src, dest);
    common, added, dels, ps := o.common, o.add, o.del, order;
    TakenAll(ps, pairs.Keys);
    AllProtocols(ps, src);
    AllProtocols(ps, dest);
  }
}
