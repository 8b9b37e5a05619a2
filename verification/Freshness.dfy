/** Leases travel daemon -> gateway cache -> /daemons -> router cache -> desired
    routes.  A protocol of interleaved gateway rounds, served snapshots and
    router rounds, with arbitrary fetch failures, and the bound on how old a
    routed lease can be. */
module Freshness {
  import opened Base
  import opened Routing
  import opened LeaseCache
  import opened Specs

  const GATEWAY_CACHE_KEY := "gateway"

  /** At time `at` the daemon answered a fetch with these leases. */
  datatype Report = Report(name: string, leases: Leases, at: int)

  /** The deployment: the gateway's daemons, both stale windows, the largest gap
      between a gateway round and a snapshot, and the largest fetch latency. */
  datatype Params = Params(cfg: seq<DaemonEntry>, staleGateway: nat, staleRouter: nat, gap: nat, latency: nat) {
    ghost predicate Valid() {
      staleGateway > 0 && staleRouter > 0
    }
  }

  /** A snapshot on its way to the router. */
  datatype Response = Response(daemons: seq<DaemonRoutes>, served: int)

  datatype System = System(
    now: int,
    gateway: map<string, Entry<Leases>>,
    lastRound: int,
    wire: Option<Response>,
    router: map<string, Entry<seq<DaemonRoutes>>>,
    desired: seq<RouteSpec>,
    desiredAt: int,
    reports: set<Report>)

  datatype Event =
    | GatewayRound(at: int, results: seq<Result<Leases>>, times: seq<int>)
    | Serve(at: int)
    | RouterRound(at: int, delivered: bool, policy: Policy)

  function Names(cfg: seq<DaemonEntry>): (names: seq<string>)
    ensures |names| == |cfg|
  {
    seq(|cfg|, k requires 0 <= k < |cfg| => cfg[k].name)
  }

  function Named(cfg: seq<DaemonEntry>, results: seq<Result<Leases>>, at: int): (fs: seq<Fetch<Leases>>)
    requires |cfg| == |results|
    ensures |fs| == |cfg|
  {
    Round(Zip(Names(cfg), results), at)
  }

  ghost predicate Enabled(p: Params, s: System, e: Event) {
    && e.at >= s.now
    && match e
       case GatewayRound(at, results, times) =>
         && |results| == |p.cfg| == |times|
         && forall k :: 0 <= k < |times| ==> at - p.latency <= times[k] <= at
       case Serve(at) => at - s.lastRound <= p.gap
       case RouterRound(at, delivered, _) =>
         delivered ==> s.wire.Some? && at - s.wire.value.served <= p.latency
  }

  ghost function Apply(p: Params, s: System, e: Event): System
    requires Enabled(p, s, e)
  {
    match e
    case GatewayRound(at, results, times) =>
      s.(now := at, lastRound := at,
         gateway := Replay(s.gateway, Named(p.cfg, results, at), p.staleGateway),
         reports := s.reports + set k | 0 <= k < |results| && results[k].Ok?
                                  :: Report(p.cfg[k].name, results[k].value, times[k]))
    case Serve(at) =>
      s.(now := at, wire := Some(Response(Known(p.cfg, View(s.gateway)), at)))
    case RouterRound(at, delivered, policy) =>
      var fetched := Fetch(at, GATEWAY_CACHE_KEY, if delivered then Ok(s.wire.value.daemons) else Err);
      var router := Absorb(s.router, fetched, p.staleRouter);
      var daemons := if GATEWAY_CACHE_KEY in router then router[GATEWAY_CACHE_KEY].value else [];
      s.(now := at, router := router, desired := policy.Build(daemons), desiredAt := at)
  }

  ghost predicate Start(s: System) {
    && s.gateway == map[] && s.wire == None && s.router == map[] && s.desired == [] && s.reports == {}
    && s.lastRound <= s.now && s.desiredAt <= s.now
  }

  ghost predicate Execution(p: Params, ss: seq<System>, es: seq<Event>) {
    && |ss| == |es| + 1 && Start(ss[0])
    && forall i :: 0 <= i < |es| ==> Enabled(p, ss[i], es[i]) && ss[i + 1] == Apply(p, ss[i], es[i])
  }

  // ---------- The invariant ----------

  /** Some report of exactly these leases is less than `bound` older than t. */
  ghost predicate Backed(reports: set<Report>, name: string, leases: Leases, t: int, bound: int) {
    exists r :: r in reports && r.name == name && r.leases == leases && t - r.at < bound
  }

  ghost predicate GatewayFresh(p: Params, s: System) {
    forall name :: name in s.gateway ==>
      && s.lastRound - p.staleGateway < s.gateway[name].lastSuccess <= s.lastRound
      && Backed(s.reports, name, s.gateway[name].value, s.gateway[name].lastSuccess, p.latency + 1)
  }

  ghost predicate AllBacked(cfg: seq<DaemonEntry>, reports: set<Report>, daemons: seq<DaemonRoutes>, t: int,
                            bound: int) {
    forall d :: d in daemons ==>
      DaemonEntry(d.name, d.nexthop, d.device) in cfg && Backed(reports, d.name, Leases(d.ips, d.id), t, bound)
  }

  ghost predicate WireFresh(p: Params, s: System) {
    s.wire.Some? ==>
      AllBacked(p.cfg, s.reports, s.wire.value.daemons, s.wire.value.served, p.staleGateway + p.gap + p.latency)
  }

  ghost predicate RouterFresh(p: Params, s: System) {
    forall key :: key in s.router ==>
      && s.router[key].lastSuccess <= s.now
      && AllBacked(p.cfg, s.reports, s.router[key].value, s.router[key].lastSuccess,
                   p.staleGateway + p.gap + 2 * p.latency)
  }

  /** r is a report, recent enough at t, of spec's source address by the daemon
      whose next hop spec routes to. */
  ghost predicate Justifies(p: Params, r: Report, spec: RouteSpec, t: int) {
    && spec.src in r.leases.ips
    && (exists d :: d in p.cfg && d.name == r.name && d.nexthop == spec.gateway)
    && t - r.at < p.staleGateway + p.staleRouter + p.gap + 2 * p.latency
  }

  ghost predicate DesiredFresh(p: Params, s: System) {
    forall spec :: spec in s.desired ==> exists r :: r in s.reports && Justifies(p, r, spec, s.desiredAt)
  }

  ghost predicate Inv(p: Params, s: System) {
    s.lastRound <= s.now && GatewayFresh(p, s) && WireFresh(p, s) && RouterFresh(p, s) && DesiredFresh(p, s)
  }

  lemma {:induction false} AllBackedLater(cfg: seq<DaemonEntry>, reports: set<Report>, more: set<Report>,
                                          daemons: seq<DaemonRoutes>,
                       t: int, bound: int, u: int, wider: int)
    requires AllBacked(cfg, reports, daemons, t, bound) && reports <= more && u - t <= wider - bound
    ensures AllBacked(cfg, more, daemons, u, wider)
  {
    forall d | d in daemons ensures Backed(more, d.name, Leases(d.ips, d.id), u, wider) {
      var r :| r in reports && r.name == d.name && r.leases == Leases(d.ips, d.id) && t - r.at < bound;
      assert r in more;
    }
  }

  /** What one round of simultaneous fetches does to one name. */
  lemma {:induction false} RoundEffect<T>(c: map<string, Entry<T>>, fs: seq<Fetch<T>>, stale: nat, at: int,
                                          name: string)
    requires forall f :: f in fs ==> f.at == at
    ensures name in Replay(c, fs, stale) ==>
              || (exists f :: f in fs && f.name == name && f.result.Ok?
                              && Replay(c, fs, stale)[name] == Entry(f.result.value, at))
              || (name in c && Replay(c, fs, stale)[name] == c[name]
                  && ((exists f :: f in fs && f.name == name) ==> Usable(c, name, stale, at)))
  {
    if fs != [] {
      var n := |fs| - 1;
      RoundEffect(c, fs[..n], stale, at, name);
      assert fs == fs[..n] + [fs[n]];
    }
  }

  lemma {:induction false} GatewayRoundFresh(p: Params, s: System, e: Event)
    requires p.Valid() && Inv(p, s) && Enabled(p, s, e) && e.GatewayRound?
    requires forall name :: name in s.gateway ==> Configured(p, name)
    ensures GatewayFresh(p, Apply(p, s, e))
    ensures forall name :: name in Apply(p, s, e).gateway ==> Configured(p, name)
  {
    var s', fs := Apply(p, s, e), Named(p.cfg, e.results, e.at);
    forall name | name in s'.gateway
      ensures Configured(p, name)
      ensures s'.lastRound - p.staleGateway < s'.gateway[name].lastSuccess <= s'.lastRound
      ensures Backed(s'.reports, name, s'.gateway[name].value, s'.gateway[name].lastSuccess, p.latency + 1)
    {
      RoundEffect(s.gateway, fs, p.staleGateway, e.at, name);
      if k :| 0 <= k < |fs| && fs[k].name == name && fs[k].result.Ok?
              && s'.gateway[name] == Entry(fs[k].result.value, e.at) {
        assert Report(name, fs[k].result.value, e.times[k]) in s'.reports;
      } else {
        assert name in s.gateway && s'.gateway[name] == s.gateway[name];
        var k :| 0 <= k < |p.cfg| && p.cfg[k].name == name;
        assert fs[k] in fs && fs[k].name == name;
        var r :| r in s.reports && r.name == name && r.leases == s.gateway[name].value
                 && s.gateway[name].lastSuccess - r.at < p.latency + 1;
        assert r in s'.reports;
      }
    }
  }

  /** The gateway only ever caches what it is configured to poll. */
  ghost predicate Configured(p: Params, name: string) {
    exists k :: 0 <= k < |p.cfg| && p.cfg[k].name == name
  }

  lemma {:induction false} ServeFresh(p: Params, s: System, e: Event)
    requires p.Valid() && Inv(p, s) && Enabled(p, s, e) && e.Serve?
    ensures WireFresh(p, Apply(p, s, e))
  {
    var view := View(s.gateway);
    forall d | d in Known(p.cfg, view)
      ensures DaemonEntry(d.name, d.nexthop, d.device) in p.cfg
      ensures Backed(s.reports, d.name, Leases(d.ips, d.id), e.at, p.staleGateway + p.gap + p.latency)
    {
      KnownOrigin(p.cfg, view, d);
      var entry := s.gateway[d.name];
      var r :| r in s.reports && r.name == d.name && r.leases == entry.value && entry.lastSuccess - r.at < p.latency + 1;
    }
  }

  lemma {:induction false} RouterRoundFresh(p: Params, s: System, e: Event)
    requires p.Valid() && Inv(p, s) && Enabled(p, s, e) && e.RouterRound?
    ensures RouterFresh(p, Apply(p, s, e)) && DesiredFresh(p, Apply(p, s, e))
  {
    var s' := Apply(p, s, e);
    var bound := p.staleGateway + p.gap + 2 * p.latency;
    if e.delivered {
      AllBackedLater(p.cfg, s.reports, s.reports, s.wire.value.daemons, s.wire.value.served,
                     p.staleGateway + p.gap + p.latency, e.at, bound);
    }
    assert RouterFresh(p, s');
    var daemons := if GATEWAY_CACHE_KEY in s'.router then s'.router[GATEWAY_CACHE_KEY].value else [];
    forall spec | spec in s'.desired
      ensures exists r :: r in s'.reports && Justifies(p, r, spec, s'.desiredAt)
    {
      e.policy.SpecOrigin(daemons, spec);
      var d :| d in daemons && spec in e.policy.SpecsOf(d);
      e.policy.SpecsOfMember(d, spec);
      assert DaemonEntry(d.name, d.nexthop, d.device) in p.cfg;
      var r :| r in s'.reports && r.name == d.name && r.leases == Leases(d.ips, d.id)
               && s'.router[GATEWAY_CACHE_KEY].lastSuccess - r.at < bound;
      assert Justifies(p, r, spec, s'.desiredAt);
    }
  }

  lemma {:induction false} GatewayRoundKeeps(p: Params, s: System, e: Event)
    requires Inv(p, s) && Enabled(p, s, e) && e.GatewayRound?
    ensures WireFresh(p, Apply(p, s, e)) && RouterFresh(p, Apply(p, s, e)) && DesiredFresh(p, Apply(p, s, e))
  {
    var s' := Apply(p, s, e);
    if s.wire.Some? {
      var b := p.staleGateway + p.gap + p.latency;
      AllBackedLater(p.cfg, s.reports, s'.reports, s.wire.value.daemons, s.wire.value.served, b, s.wire.value.served, b);
    }
    forall key | key in s.router
      ensures AllBacked(p.cfg, s'.reports, s.router[key].value, s.router[key].lastSuccess, p.staleGateway + p.gap + 2 * p.latency)
    {
      var b, t := p.staleGateway + p.gap + 2 * p.latency, s.router[key].lastSuccess;
      AllBackedLater(p.cfg, s.reports, s'.reports, s.router[key].value, t, b, t, b);
    }
    forall spec | spec in s'.desired
      ensures exists r :: r in s'.reports && Justifies(p, r, spec, s'.desiredAt)
    {
      var r :| r in s.reports && Justifies(p, r, spec, s.desiredAt);
      assert r in s'.reports;
    }
  }

  lemma {:induction false} InvStep(p: Params, s: System, e: Event)
    requires p.Valid() && Inv(p, s) && Enabled(p, s, e)
    requires forall name :: name in s.gateway ==> Configured(p, name)
    ensures Inv(p, Apply(p, s, e))
    ensures forall name :: name in Apply(p, s, e).gateway ==> Configured(p, name)
  {
    match e
    case GatewayRound(_, _, _) =>
      GatewayRoundFresh(p, s, e);
      GatewayRoundKeeps(p, s, e);
    case Serve(_) => ServeFresh(p, s, e);
    case RouterRound(_, _, _) => RouterRoundFresh(p, s, e);
  }

  lemma {:induction false} InvAlways(p: Params, ss: seq<System>, es: seq<Event>, i: nat)
    requires p.Valid() && Execution(p, ss, es) && i < |ss|
    ensures Inv(p, ss[i]) && forall name :: name in ss[i].gateway ==> Configured(p, name)
  {
    if i > 0 {
      InvAlways(p, ss, es, i - 1);
      InvStep(p, ss[i - 1], es[i - 1]);
      assert ss[i - 1 + 1] == Apply(p, ss[i - 1], es[i - 1]);
    }
  }

  /** Two-tier freshness: in every execution, with arbitrary failures and
      interleaving, a source address in the router's desired list was reported
      by the daemon it is routed to less than both windows plus the gap plus two
      fetch latencies before the round that desires it. */
  lemma {:induction false} TwoTierFreshness(p: Params, ss: seq<System>, es: seq<Event>, i: nat, spec: RouteSpec)
    requires p.Valid() && Execution(p, ss, es) && i < |ss| && spec in ss[i].desired
    ensures exists r :: r in ss[i].reports && Justifies(p, r, spec, ss[i].desiredAt)
  {
    InvAlways(p, ss, es, i);
  }

  // ---------- Leases do get through ----------

  /** What a router round desires: specs for the delivered snapshot, else for the cached
      one while less than a window old, else nothing. */
  lemma {:induction false} RouterRoundOutcome(p: Params, s: System, e: Event)
    requires p.Valid() && Enabled(p, s, e) && e.RouterRound?
    ensures var key := "gateway";
            Apply(p, s, e).desired
            == if e.delivered then e.policy.Build(s.wire.value.daemons)
               else if key in s.router && e.at - s.router[key].lastSuccess < p.staleRouter
               then e.policy.Build(s.router[key].value) else []
  {
  }

  /** What a gateway round leaves for a daemon that answered: its leases, as of now. */
  lemma {:induction false} GatewayRoundCaches(p: Params, s: System, e: Event, k: nat)
    requires p.Valid() && Enabled(p, s, e) && e.GatewayRound? && Distinct(Names(p.cfg))
    requires k < |p.cfg| && e.results[k].Ok?
    ensures Get(Apply(p, s, e).gateway, p.cfg[k].name) == Some(Entry(e.results[k].value, e.at))
  {
    var results := Zip(Names(p.cfg), e.results);
    CallOutcome(s.gateway, results, e.at, p.staleGateway, p.cfg[k].name);
    assert results[k] == (p.cfg[k].name, Ok(e.results[k].value));
    forall q | k < q < |results| ensures results[q].0 != p.cfg[k].name {
      assert Names(p.cfg)[k] != Names(p.cfg)[q];
    }
    assert OnlyErrsAfter(results, p.cfg[k].name, k);
    assert Brings(results, p.cfg[k].name, e.results[k].value);
  }

  /** A daemon's answer to a gateway round, served and then delivered, is routed: every
      lease of it that the router's policy emits is in the desired list. */
  lemma {:induction false} AnswerIsRouted(p: Params, ss: seq<System>, es: seq<Event>, i: nat, k: nat, ip: Ip)
    requires p.Valid() && Execution(p, ss, es) && i + 2 < |es| && Distinct(Names(p.cfg)) && k < |p.cfg|
    requires es[i].GatewayRound? && es[i].results[k].Ok? && ip in es[i].results[k].value.ips
    requires es[i + 1].Serve? && es[i + 2].RouterRound? && es[i + 2].delivered
    ensures var policy, d := es[i + 2].policy, Reported(p.cfg[k], es[i].results[k].value);
            policy.Emits(d) ==> policy.Spec(d, ip) in ss[i + 3].desired
  {
    var policy, leases := es[i + 2].policy, es[i].results[k].value;
    var d := Reported(p.cfg[k], leases);
    assert ss[i + 1] == Apply(p, ss[i], es[i]);
    assert ss[i + 1 + 1] == Apply(p, ss[i + 1], es[i + 1]);
    assert ss[i + 2 + 1] == Apply(p, ss[i + 2], es[i + 2]);
    GatewayRoundCaches(p, ss[i], es[i], k);
    var view := View(ss[i + 1].gateway);
    KnownOrigin(p.cfg, view, d);
    assert p.cfg[k] in p.cfg;
    RouterRoundOutcome(p, ss[i + 2], es[i + 2]);
    if policy.Emits(d) {
      policy.SpecsOfMember(d, policy.Spec(d, ip));
      policy.SpecOrigin(Known(p.cfg, view), policy.Spec(d, ip));
    }
  }
}
