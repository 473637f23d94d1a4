/** The endpoints of a private cloud and the cache in front of them
    (pkg/cloudprovider/endpoints.go). */
module Endpoints {
  import Text

  datatype Request = Request(defaultRegion: string, serviceName: string, region: string)

  /** What answers are computed from: the string fields by their names, and the library
      function that turns a service name into a field name. */
  datatype Config = Config(EndpointDomain: string, Fields: map<string, string>, Kebab2Camel: string -> string) {
    function Key(q: Request): string {
      (if q.region != "" then q.region else q.defaultRegion) + "." + Kebab2Camel(q.serviceName)
    }

    function Configured(q: Request): string {
      var sn := Kebab2Camel(q.serviceName);
      if sn in Fields then Fields[sn] else ""
    }

    function Base(q: Request): string {
      if Configured(q) != "" then Configured(q)
      else Text.Join([q.serviceName, q.defaultRegion, EndpointDomain], ".")
    }

    /** The answer without a cache. */
    function Uncached(q: Request): string {
      if q.region != "" then Text.ReplaceFirst(Base(q), q.defaultRegion, q.region) else Base(q)
    }
  }

  class SHCSOEndpoints {
    const config: Config
    var caches: map<string, string>

    constructor (config: Config)
      ensures this.config == config && caches == map[]
    {
      this.config, caches := config, map[];
    }

    method GetEndpoint(defaultRegion: string, serviceName: string, region: string) returns (endpoint: string)
      modifies this
      ensures (caches, endpoint) == Answer(config, old(caches), Request(defaultRegion, serviceName, region))
    {
      var sn := config.Kebab2Camel(serviceName);
      var key := defaultRegion + "." + sn;
      if |region| > 0 {
        key := region + "." + sn;
      }
      if key in caches && |caches[key]| > 0 {
        return caches[key];
      }
      endpoint := "";
      if sn in config.Fields {
        endpoint := config.Fields[sn];
      }
      if |endpoint| == 0 {
        endpoint := Text.Join([serviceName, defaultRegion, config.EndpointDomain], ".");
      }
      if |region| > 0 {
        endpoint := Text.ReplaceFirst(endpoint, defaultRegion, region);
      }
      caches := caches[key := endpoint];
    }
  }

  /** One request against a cache: the cache afterwards and the answer. */
  function Answer(c: Config, caches: map<string, string>, q: Request): (map<string, string>, string) {
    var key := c.Key(q);
    if key in caches && caches[key] != "" then (caches, caches[key])
    else (caches[key := c.Uncached(q)], c.Uncached(q))
  }

  /** The first answer without a region: the configured endpoint as it is or, there being none, service,
      default region and domain with dots in between. */
  lemma FirstAnswer(c: Config, defaultRegion: string, service: string)
    ensures var field := c.Kebab2Camel(service);
      Answer(c, map[], Request(defaultRegion, service, "")).1
        == if field in c.Fields && c.Fields[field] != "" then c.Fields[field]
           else service + "." + defaultRegion + "." + c.EndpointDomain
  {
    JoinThree(service, defaultRegion, c.EndpointDomain);
  }

  /** The first answer for a region: that one, with the region in the place where the default region first
      occurs, if it does. */
  lemma FirstAnswerFor(c: Config, defaultRegion: string, service: string, region: string)
    requires region != ""
    ensures var plain := Answer(c, map[], Request(defaultRegion, service, "")).1;
      var answer := Answer(c, map[], Request(defaultRegion, service, region)).1;
      && (forall i :: Text.FirstAt(plain, defaultRegion, i) ==>
            answer == plain[..i] + region + plain[i + |defaultRegion|..])
      && (!Text.Contains(plain, defaultRegion) ==> answer == plain)
  {
    AnswersOnce(c, defaultRegion, service, region);
    Text.ReplacedFirst(Answer(c, map[], Request(defaultRegion, service, "")).1, defaultRegion, region);
  }

  lemma AnswersOnce(c: Config, defaultRegion: string, service: string, region: string)
    requires region != ""
    ensures Answer(c, map[], Request(defaultRegion, service, region)).1
      == Text.ReplaceFirst(Answer(c, map[], Request(defaultRegion, service, "")).1, defaultRegion, region)
  {
  }

  function Answers(c: Config, caches: map<string, string>, history: seq<Request>): (map<string, string>, seq<string>) {
    if history == [] then (caches, [])
    else
      var (caches1, answers) := Answers(c, caches, history[..|history| - 1]);
      var (caches2, answer) := Answer(c, caches1, history[|history| - 1]);
      (caches2, answers + [answer])
  }

  // ---------- When the cache cannot be told from no cache ----------

  function Direct(c: Config, history: seq<Request>): seq<string> {
    seq(|history|, k requires 0 <= k < |history| => c.Uncached(history[k]))
  }

  ghost predicate AllAmong(asked: Request -> bool, history: seq<Request>) {
    forall k :: 0 <= k < |history| ==> asked(history[k])
  }

  /** After any history of the requests that may be asked, the answers are those without a cache. */
  ghost predicate Transparent(c: Config, asked: Request -> bool) {
    forall history :: AllAmong(asked, history) ==> Answers(c, map[], history).1 == Direct(c, history)
  }

  /** Requests that share a key have the same answer. */
  ghost predicate CollisionsAgree(c: Config, asked: Request -> bool) {
    forall p, q :: asked(p) && asked(q) && c.Key(p) == c.Key(q) ==> c.Uncached(p) == c.Uncached(q)
  }

  /** Every cached value is the answer to a request that may be asked. */
  ghost predicate CacheSound(c: Config, asked: Request -> bool, caches: map<string, string>) {
    forall key :: key in caches ==> exists q :: asked(q) && c.Key(q) == key && caches[key] == c.Uncached(q)
  }

  lemma AnswerKeepsSound(c: Config, asked: Request -> bool, caches: map<string, string>, q: Request)
    requires CollisionsAgree(c, asked) && CacheSound(c, asked, caches) && asked(q)
    ensures CacheSound(c, asked, Answer(c, caches, q).0) && Answer(c, caches, q).1 == c.Uncached(q)
  {
  }

  lemma AnswersSnoc(c: Config, caches: map<string, string>, history: seq<Request>, q: Request)
    ensures var (caches1, answers) := Answers(c, caches, history);
      Answers(c, caches, history + [q]) == (Answer(c, caches1, q).0, answers + [Answer(c, caches1, q).1])
  {
    assert (history + [q])[..|history|] == history;
  }

  lemma DirectSnoc(c: Config, history: seq<Request>, q: Request)
    ensures Direct(c, history + [q]) == Direct(c, history) + [c.Uncached(q)]
  {
  }

  lemma {:induction false} SoundThroughout(c: Config, asked: Request -> bool, history: seq<Request>)
    requires CollisionsAgree(c, asked) && AllAmong(asked, history)
    ensures CacheSound(c, asked, Answers(c, map[], history).0)
    ensures Answers(c, map[], history).1 == Direct(c, history)
  {
    if history != [] {
      var init, last := history[..|history| - 1], history[|history| - 1];
      SoundThroughout(c, asked, init);
      AnswerKeepsSound(c, asked, Answers(c, map[], init).0, last);
      assert history == init + [last];
      AnswersSnoc(c, map[], init, last);
      DirectSnoc(c, init, last);
    }
  }

  lemma {:induction false} ReplacedIsNotEmpty(s: string, x: string, y: string)
    requires s != "" && y != ""
    ensures Text.ReplaceFirst(s, x, y) != ""
  {
  }

  lemma UncachedIsNotEmpty(c: Config, q: Request)
    ensures c.Uncached(q) != ""
  {
    JoinThree(q.serviceName, q.defaultRegion, c.EndpointDomain);
    if q.region != "" {
      ReplacedIsNotEmpty(c.Base(q), q.defaultRegion, q.region);
    }
  }

  lemma JoinThree(a: string, b: string, d: string)
    ensures Text.Join([a, b, d], ".") == a + "." + b + "." + d
  {
    assert [a, b, d][1..] == [b, d] && [b, d][1..] == [d];
    assert Text.Join([b, d], ".") == b + "." + d;
  }

  lemma TwoAnswers(c: Config, p: Request, q: Request)
    requires c.Key(p) == c.Key(q)
    ensures Answers(c, map[], [p, q]).1 == [c.Uncached(p), c.Uncached(p)]
  {
    UncachedIsNotEmpty(c, p);
    assert [] + [p] == [p] && [p] + [q] == [p, q];
    AnswersSnoc(c, map[], [], p);
    AnswersSnoc(c, map[], [p], q);
  }

  /** The cache cannot be told from no cache exactly when requests that share a key have the same answer. */
  lemma TransparentIffCollisionsAgree(c: Config, asked: Request -> bool)
    ensures Transparent(c, asked) <==> CollisionsAgree(c, asked)
  {
    if CollisionsAgree(c, asked) {
      forall history | AllAmong(asked, history) ensures Answers(c, map[], history).1 == Direct(c, history) {
        SoundThroughout(c, asked, history);
      }
    }
    if Transparent(c, asked) {
      forall p, q | asked(p) && asked(q) && c.Key(p) == c.Key(q) ensures c.Uncached(p) == c.Uncached(q) {
        TwoAnswers(c, p, q);
        assert AllAmong(asked, [p, q]);
        assert Direct(c, [p, q])[1] == c.Uncached(q);
      }
    }
  }

  // ---------- One default region ----------

  /** Requests for some services with one default region. */
  function OneRegion(defaultRegion: string, services: string -> bool): Request -> bool {
    (q: Request) => q.defaultRegion == defaultRegion && services(q.serviceName)
  }

  /** The field names of these services have no dot, and tell the services apart. */
  ghost predicate ToldApart(c: Config, services: string -> bool) {
    && (forall x :: services(x) ==> '.' !in c.Kebab2Camel(x))
    && (forall x, y :: services(x) && services(y) && c.Kebab2Camel(x) == c.Kebab2Camel(y) ==> x == y)
  }

  /** The only requests that share a key are the same request, and the one for no region
      with the one for the default region; these have the same answer. */
  lemma OnlyDefaultCollides(c: Config, defaultRegion: string, services: string -> bool, p: Request, q: Request)
    requires OneRegion(defaultRegion, services)(p) && OneRegion(defaultRegion, services)(q) && ToldApart(c, services)
    ensures c.Key(p) == c.Key(q)
      <==> p.serviceName == q.serviceName
           && (|| p.region == q.region
               || (p.region == "" && q.region == defaultRegion)
               || (p.region == defaultRegion && q.region == ""))
    ensures c.Key(p) == c.Key(q) ==> c.Uncached(p) == c.Uncached(q)
  {
    var pr := if p.region != "" then p.region else defaultRegion;
    var qr := if q.region != "" then q.region else defaultRegion;
    if c.Key(p) == c.Key(q) {
      Text.LastSplit(pr, c.Kebab2Camel(p.serviceName), qr, c.Kebab2Camel(q.serviceName), '.');
      Text.ReplaceBySelf(c.Base(p), defaultRegion);
    }
  }

  /** With one default region and field names that tell services apart, the cache cannot be told from no cache. */
  lemma OneRegionIsTransparent(c: Config, defaultRegion: string, services: string -> bool)
    requires ToldApart(c, services)
    ensures Transparent(c, OneRegion(defaultRegion, services))
  {
    var asked := OneRegion(defaultRegion, services);
    forall p, q | asked(p) && asked(q) && c.Key(p) == c.Key(q) ensures c.Uncached(p) == c.Uncached(q) {
      OnlyDefaultCollides(c, defaultRegion, services, p, q);
    }
    TransparentIffCollisionsAgree(c, asked);
  }

  // ---------- Several default regions ----------

  /** Requests for some services with some default regions. */
  function Regions(ds: string -> bool, services: string -> bool): Request -> bool {
    (q: Request) => ds(q.defaultRegion) && services(q.serviceName)
  }

  /** What surrounds the place a region is put in, or the whole text if there is none. */
  datatype Cut = Whole(text: string) | Around(before: string, after: string)

  function Fill(cut: Cut, region: string): string {
    match cut
    case Whole(text) => text
    case Around(before, after) => before + region + after
  }

  function CutAt(s: string, x: string): (r: Cut)
    ensures r.Around? <==> Text.Index(s, x) >= 0
    ensures r.Around? ==> s == r.before + x + r.after && |r.before| == Text.Index(s, x)
    ensures r.Around? ==> r.after == s[|r.before| + |x|..]
  {
    Text.IndexIsFirst(s, x);
    var i := Text.Index(s, x);
    if i < 0 then Whole(s)
    else
      assert s == s[..i] + s[i..i + |x|] + s[i + |x|..];
      Around(s[..i], s[i + |x|..])
  }

  /** What the endpoint of a service leaves fixed when a region takes the place of the default region. */
  function FixedPart(c: Config, service: string, defaultRegion: string): Cut {
    CutAt(c.Base(Request(defaultRegion, service, "")), defaultRegion)
  }

  lemma ReplaceFills(s: string, x: string, y: string)
    ensures Text.ReplaceFirst(s, x, y) == Fill(CutAt(s, x), y)
  {
    if Text.Index(s, x) < 0 {
      Text.ReplaceAbsent(s, x, y);
    } else {
      Text.ReplaceAtIndex(s, x, y);
    }
  }

  /** The region a request is answered for. */
  function Effective(q: Request): string { if q.region != "" then q.region else q.defaultRegion }

  lemma BaseIgnoresRegion(c: Config, q: Request)
    ensures c.Base(Request(q.defaultRegion, q.serviceName, "")) == c.Base(q)
  {
  }

  lemma UncachedFills(c: Config, q: Request)
    ensures c.Uncached(q) == Fill(FixedPart(c, q.serviceName, q.defaultRegion), Effective(q))
  {
    BaseIgnoresRegion(c, q);
    Text.ReplaceBySelf(c.Base(q), q.defaultRegion);
    ReplaceFills(c.Base(q), q.defaultRegion, Effective(q));
  }

  /** Services with one field name are one service, or their endpoint is configured. */
  ghost predicate SharedOnlyIfConfigured(c: Config, services: string -> bool) {
    forall x, y :: services(x) && services(y) && c.Kebab2Camel(x) == c.Kebab2Camel(y) ==>
      x == y || c.Configured(Request("", x, "")) != ""
  }

  /** With one default region and field names without dots, the cache cannot be told from no cache exactly
      when services that share a field name have their endpoint configured. */
  lemma OneRegionIff(c: Config, defaultRegion: string, services: string -> bool)
    requires forall x :: services(x) ==> '.' !in c.Kebab2Camel(x)
    ensures Transparent(c, OneRegion(defaultRegion, services)) <==> SharedOnlyIfConfigured(c, services)
  {
    var asked := OneRegion(defaultRegion, services);
    TransparentIffCollisionsAgree(c, asked);
    if SharedOnlyIfConfigured(c, services) {
      forall p, q | asked(p) && asked(q) && c.Key(p) == c.Key(q) ensures c.Uncached(p) == c.Uncached(q) {
        Text.LastSplit(Effective(p), c.Kebab2Camel(p.serviceName), Effective(q), c.Kebab2Camel(q.serviceName), '.');
        SameBaseSameAnswer(c, p, q);
      }
    } else {
      var x, y :| services(x) && services(y) && c.Kebab2Camel(x) == c.Kebab2Camel(y)
                  && x != y && c.Configured(Request("", x, "")) == "";
      NotConfiguredApart(c, defaultRegion, x, y);
      var p, q := Request(defaultRegion, x, ""), Request(defaultRegion, y, "");
      assert asked(p) && asked(q) && c.Key(p) == c.Key(q);
    }
  }

  lemma SameBaseSameAnswer(c: Config, p: Request, q: Request)
    requires p.defaultRegion == q.defaultRegion && Effective(p) == Effective(q)
    requires c.Kebab2Camel(p.serviceName) == c.Kebab2Camel(q.serviceName)
    requires p.serviceName == q.serviceName || c.Configured(Request("", p.serviceName, "")) != ""
    ensures c.Uncached(p) == c.Uncached(q)
  {
    Text.ReplaceBySelf(c.Base(p), p.defaultRegion);
  }

  lemma NotConfiguredApart(c: Config, defaultRegion: string, x: string, y: string)
    requires c.Kebab2Camel(x) == c.Kebab2Camel(y) && x != y && c.Configured(Request("", x, "")) == ""
    ensures c.Uncached(Request(defaultRegion, x, "")) != c.Uncached(Request(defaultRegion, y, ""))
  {
    JoinThree(x, defaultRegion, c.EndpointDomain);
    JoinThree(y, defaultRegion, c.EndpointDomain);
    var tail := "." + defaultRegion + "." + c.EndpointDomain;
    JoinedTail(x, defaultRegion, c.EndpointDomain);
    JoinedTail(y, defaultRegion, c.EndpointDomain);
    if x + tail == y + tail {
      EndsAlike(x, y, tail);
    }
  }

  lemma JoinedTail(a: string, b: string, d: string)
    ensures a + "." + b + "." + d == a + ("." + b + "." + d)
  {
  }

  /** Two fixed parts give the same endpoint for every region exactly when they are the same. */
  lemma FillsAgreeIff(a: Cut, b: Cut)
    ensures (forall r :: r != "" ==> Fill(a, r) == Fill(b, r)) <==> a == b
  {
    if forall r :: r != "" ==> Fill(a, r) == Fill(b, r) {
      assert Fill(a, "x") == Fill(b, "x") && Fill(a, "y") == Fill(b, "y") && Fill(a, "xx") == Fill(b, "xx");
      if a.Around? && b.Around? {
        SamePlace(a.before, a.after, b.before, b.after);
      } else {
        assert |Fill(a, "x")| == |Fill(b, "x")| && |Fill(a, "xx")| == |Fill(b, "xx")|;
      }
    }
  }

  lemma SamePlace(a: string, x: string, b: string, y: string)
    requires a + "x" + x == b + "x" + y && a + "y" + x == b + "y" + y
    ensures a == b && x == y
  {
    NotShorter(a, x, b, y);
    NotShorter(b, y, a, x);
    Text.SameLengthSplit(a, x, b, y, 'x');
  }

  lemma NotShorter(a: string, x: string, b: string, y: string)
    requires a + "x" + x == b + "x" + y && a + "y" + x == b + "y" + y
    ensures |a| >= |b|
  {
    Text.CharacterAt(a, x, b, y, 'x');
    Text.CharacterAt(a, x, b, y, 'y');
  }

  /** Every service has the same fixed part for all the default regions. */
  ghost predicate FixedPartsAgree(c: Config, ds: string -> bool, services: string -> bool) {
    forall s, d, e :: services(s) && ds(d) && ds(e) ==> FixedPart(c, s, d) == FixedPart(c, s, e)
  }

  /** For any default regions: the cache cannot be told from no cache exactly when every service
      has the same fixed part for all of them. */
  lemma RegionsTransparentIff(c: Config, ds: string -> bool, services: string -> bool)
    requires ToldApart(c, services)
    ensures Transparent(c, Regions(ds, services)) <==> FixedPartsAgree(c, ds, services)
  {
    var asked := Regions(ds, services);
    TransparentIffCollisionsAgree(c, asked);
    if CollisionsAgree(c, asked) {
      forall s, d, e | services(s) && ds(d) && ds(e) ensures FixedPart(c, s, d) == FixedPart(c, s, e) {
        forall r | r != "" ensures Fill(FixedPart(c, s, d), r) == Fill(FixedPart(c, s, e), r) {
          var p, q := Request(d, s, r), Request(e, s, r);
          assert asked(p) && asked(q) && c.Key(p) == c.Key(q);
          UncachedFills(c, p);
          UncachedFills(c, q);
        }
        FillsAgreeIff(FixedPart(c, s, d), FixedPart(c, s, e));
      }
    }
    if FixedPartsAgree(c, ds, services) {
      forall p, q | asked(p) && asked(q) && c.Key(p) == c.Key(q) ensures c.Uncached(p) == c.Uncached(q) {
        Text.LastSplit(Effective(p), c.Kebab2Camel(p.serviceName), Effective(q), c.Kebab2Camel(q.serviceName), '.');
        UncachedFills(c, p);
        UncachedFills(c, q);
      }
    }
  }

  /** Where a default region would be mistaken: the configured endpoint or, there being none, the service name. */
  function Home(c: Config, service: string): string {
    if c.Configured(Request("", service, "")) != "" then c.Configured(Request("", service, "")) else service
  }

  lemma NotMistaken(c: Config, service: string, d: string)
    requires '.' !in d && !Text.Contains(Home(c, service), d)
    ensures FixedPart(c, service, d)
      == if c.Configured(Request("", service, "")) != "" then Whole(Home(c, service))
         else Around(service + ".", "." + c.EndpointDomain)
  {
    if c.Configured(Request("", service, "")) != "" {
      Text.ContainsIff(Home(c, service), d);
    } else {
      JoinedBase(c, service, d);
      FirstBehind(service, d, "." + c.EndpointDomain);
    }
  }

  lemma JoinedBase(c: Config, service: string, d: string)
    requires c.Configured(Request("", service, "")) == ""
    ensures c.Base(Request(d, service, "")) == service + "." + d + ("." + c.EndpointDomain)
  {
    JoinThree(service, d, c.EndpointDomain);
    assert service + "." + d + "." + c.EndpointDomain == service + "." + d + ("." + c.EndpointDomain);
  }

  /** A text without dots that is not in the service name first occurs right behind its dot. */
  lemma FirstBehind(service: string, d: string, rest: string)
    requires '.' !in d && !Text.Contains(service, d)
    ensures CutAt(service + "." + d + rest, d) == Around(service + ".", rest)
  {
    var b := service + "." + d + rest;
    var n := |service| + 1;
    Text.IndexIsFirst(b, d);
    assert b[n..n + |d|] == d && Text.OccursAt(b, d, n);
    InsideOrBehind(service, d, d + rest, Text.Index(b, d));
    assert b == service + "." + (d + rest);
    assert b[..n] == service + "." && b[n + |d|..] == rest;
  }

  /** A text without dots occurs before the dot or behind it. */
  lemma InsideOrBehind(service: string, d: string, rest: string, k: int)
    requires '.' !in d && Text.OccursAt(service + "." + rest, d, k)
    ensures k > |service| || (k + |d| <= |service| && Text.OccursAt(service, d, k) && Text.Contains(service, d))
  {
    var b := service + "." + rest;
    CharacterInside(b, d, k, |service|);
    if k + |d| <= |service| {
      assert service[k..k + |d|] == b[k..k + |d|];
      assert Text.OccursAt(service, d, k);
    }
  }

  lemma CharacterInside(b: string, d: string, k: int, n: int)
    requires Text.OccursAt(b, d, k) && n < |b|
    ensures k <= n < k + |d| ==> b[n] in d
  {
    if k <= n < k + |d| {
      assert b[k..k + |d|][n - k] == b[n];
    }
  }

  lemma EndsAlike(a: string, b: string, tail: string)
    requires a + tail == b + tail
    ensures a == b
  {
    assert |a| == |b|;
    assert a == (a + tail)[..|a|] && b == (b + tail)[..|b|];
  }

  /** A default region that is mistaken leaves another fixed part than any other default region. */
  lemma MistakenDiffers(c: Config, service: string, d: string, e: string)
    requires '.' !in d && '.' !in e && d != e && Text.Contains(Home(c, service), d)
    ensures FixedPart(c, service, d) != FixedPart(c, service, e)
  {
    if c.Configured(Request("", service, "")) != "" {
      Text.ContainsIff(Home(c, service), d);
      SameCutSameRegion(Home(c, service), d, e);
    } else {
      JoinedBase(c, service, d);
      JoinedBase(c, service, e);
      CutInService(service, d, e, "." + c.EndpointDomain);
    }
  }

  lemma SameCutSameRegion(s: string, d: string, e: string)
    requires Text.Index(s, d) >= 0
    ensures CutAt(s, d) == CutAt(s, e) ==> d == e
  {
    var cut := CutAt(s, d);
    if cut == CutAt(s, e) {
      assert d == s[|cut.before|..|s| - |cut.after|] == e;
    }
  }

  lemma CutInService(service: string, d: string, e: string, rest: string)
    requires '.' !in d && '.' !in e && Text.Contains(service, d)
    ensures CutAt(service + "." + d + rest, d) == CutAt(service + "." + e + rest, e) ==> d == e
  {
    EarlyInService(service, d, rest);
    if CutAt(service + "." + d + rest, d) == CutAt(service + "." + e + rest, e) {
      var i := Text.Index(service + "." + d + rest, d);
      EndsInService(service, e, rest, i);
      SameTails(service, d, e, rest, i);
    }
  }

  lemma EndsInService(service: string, e: string, rest: string, i: int)
    requires '.' !in e && Text.Index(service + "." + e + rest, e) == i && 0 <= i <= |service|
    ensures i <= |service| - |e|
  {
    assert service + "." + e + rest == service + "." + (e + rest);
    Text.IndexIsFirst(service + "." + e + rest, e);
    InsideOrBehind(service, e, e + rest, i);
  }

  lemma SameTails(service: string, d: string, e: string, rest: string, i: int)
    requires '.' !in d && '.' !in e && 0 <= i <= |service| - |d| && i <= |service| - |e|
    requires Text.Index(service + "." + d + rest, d) == i == Text.Index(service + "." + e + rest, e)
    requires CutAt(service + "." + d + rest, d).after == CutAt(service + "." + e + rest, e).after
    ensures d == e
  {
    TailAfter(service, d, rest, i);
    TailAfter(service, e, rest, i);
    EndsAlike(service[i + |d|..] + "." + d, service[i + |e|..] + "." + e, rest);
    Text.LastSplit(service[i + |d|..], d, service[i + |e|..], e, '.');
  }

  lemma EarlyInService(service: string, d: string, rest: string)
    requires Text.Contains(service, d)
    ensures 0 <= Text.Index(service + "." + d + rest, d) <= |service| - |d|
  {
    var b := service + "." + d + rest;
    var k :| 0 <= k <= |service| - |d| && Text.OccursAt(service, d, k);
    assert service[k..k + |d|] == b[k..k + |d|];
    assert Text.OccursAt(b, d, k);
    Text.IndexIsFirst(b, d);
  }

  lemma TailAfter(service: string, d: string, rest: string, i: int)
    requires 0 <= i <= |service| - |d| && Text.Index(service + "." + d + rest, d) == i
    ensures CutAt(service + "." + d + rest, d).after == service[i + |d|..] + "." + d + rest
  {
    Text.Regrouped(service, ".", d, rest);
    Text.TailWithin(service, "." + d + rest, i + |d|);
    Text.Regrouped(service[i + |d|..], ".", d, rest);
  }

  /** With at least two default regions, none with a dot: the cache cannot be told from no cache
      exactly when no default region occurs in the configured endpoint of a service or, where none
      is configured, in the name of the service. */
  lemma SeveralRegionsIff(c: Config, ds: string -> bool, services: string -> bool, d0: string, e0: string)
    requires ToldApart(c, services) && ds(d0) && ds(e0) && d0 != e0
    requires forall d :: ds(d) ==> '.' !in d
    ensures Transparent(c, Regions(ds, services))
      <==> forall s, d :: services(s) && ds(d) ==> !Text.Contains(Home(c, s), d)
  {
    RegionsTransparentIff(c, ds, services);
    if FixedPartsAgree(c, ds, services) {
      forall s, d | services(s) && ds(d) ensures !Text.Contains(Home(c, s), d) {
        if Text.Contains(Home(c, s), d) {
          MistakenDiffers(c, s, d, if d == d0 then e0 else d0);
        }
      }
    }
    if forall s, d :: services(s) && ds(d) ==> !Text.Contains(Home(c, s), d) {
      forall s, d, e | services(s) && ds(d) && ds(e) ensures FixedPart(c, s, d) == FixedPart(c, s, e) {
        NotMistaken(c, s, d);
        NotMistaken(c, s, e);
      }
    }
  }

  // ---------- Instances ----------

  function NorthOrSouth(): string -> bool {
    (d: string) => d == "cn-north-1" || d == "cn-south-1"
  }

  function OnlyEcs(): string -> bool {
    (s: string) => s == "ecs"
  }

  /** Two default regions and one service: where nothing is configured the cache does no harm; an
      endpoint configured with one of the regions in it does, once the other is the default. */
  lemma TwoRegions(c: Config)
    requires '.' !in c.Kebab2Camel("ecs")
    ensures Home(c, "ecs") == "ecs" ==> Transparent(c, Regions(NorthOrSouth(), OnlyEcs()))
    ensures Home(c, "ecs") == "ecs.cn-north-1.hcso.com" ==> !Transparent(c, Regions(NorthOrSouth(), OnlyEcs()))
  {
    NorthAndSouth();
    SeveralRegionsIff(c, NorthOrSouth(), OnlyEcs(), "cn-north-1", "cn-south-1");
    assert OnlyEcs()("ecs") && NorthOrSouth()("cn-north-1");
  }

  lemma NorthAndSouth()
    ensures "cn-north-1" != "cn-south-1" && '.' !in "cn-north-1" && '.' !in "cn-south-1"
    ensures !Text.Contains("ecs", "cn-north-1") && !Text.Contains("ecs", "cn-south-1")
    ensures Text.Contains("ecs.cn-north-1.hcso.com", "cn-north-1")
  {
    assert "cn-north-1"[3] != "cn-south-1"[3];
    assert "ecs.cn-north-1.hcso.com"[4..14] == "cn-north-1";
    assert Text.OccursAt("ecs.cn-north-1.hcso.com", "cn-north-1", 4);
  }

  /** If any text at all may be a default region, it can be told, whatever the configuration: one may
      be equal to the configured endpoint or to the service name. */
  lemma AnyRegionIsNot(c: Config)
    ensures !Transparent(c, (q: Request) => true)
  {
    var first := if c.Configured(Request("", "ecs", "")) != "" then c.Configured(Request("", "ecs", "")) else "ecs";
    var region := "x" + first;
    var p, q := Request(first, "ecs", region), Request(region, "ecs", region);
    Text.ReplaceBySelf(c.Base(q), region);
    JoinThree("ecs", first, c.EndpointDomain);
    JoinThree("ecs", region, c.EndpointDomain);
    assert c.Key(p) == c.Key(q);
    assert first <= c.Base(p);
    assert region <= c.Uncached(p);
    if c.Configured(q) != "" {
      assert |c.Uncached(q)| < |region|;
    } else {
      assert c.Uncached(q)[0] == 'e' && c.Uncached(p)[0] == 'x';
    }
    TransparentIffCollisionsAgree(c, (q: Request) => true);
    assert c.Uncached(p) != c.Uncached(q);
  }
}
