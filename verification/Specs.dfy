/** From leases to desired route specs: the list builders of the gateway and the routers. */
module Specs {
  import opened Base
  import opened Routing

  /** What a daemon reports about itself. */
  datatype Leases = Leases(ips: seq<Ip>, id: Option<Byte>)

  /** One daemon as a router knows it. */
  datatype DaemonRoutes =
    DaemonRoutes(name: string, nexthop: Ip, device: string, id: Option<Byte>, ips: seq<Ip>)

  datatype DaemonEntry = DaemonEntry(name: string, nexthop: Ip, device: string)

  lemma {:induction false} ConcatAssociates<T>(a: seq<T>, b: seq<T>, c: seq<T>)
    ensures (a + b) + c == a + (b + c)
  {
  }

  /** How one router turns daemons into specs: its device overrides, the ids in
      force, and whether it routes by source alone. */
  datatype Policy = Policy(overrides: map<string, string>, ids: map<string, Byte>, sourceBased: bool) {
    predicate Emits(d: DaemonRoutes) {
      sourceBased || d.name in ids
    }

    function Device(d: DaemonRoutes): string {
      if d.name in overrides then overrides[d.name] else d.device
    }

    function Mark(d: DaemonRoutes): Option<U32>
      requires Emits(d)
    {
      if sourceBased then None else Some(ids[d.name])
    }

    function Spec(d: DaemonRoutes, ip: Ip): RouteSpec
      requires Emits(d)
    {
      RouteSpec(ip, d.nexthop, Device(d), Mark(d))
    }

    function SpecsOf(d: DaemonRoutes): seq<RouteSpec> {
      if Emits(d) then seq(|d.ips|, i requires 0 <= i < |d.ips| => Spec(d, d.ips[i])) else []
    }

    lemma {:induction false} SpecsOfMember(d: DaemonRoutes, s: RouteSpec)
      ensures s in SpecsOf(d) <==> Emits(d) && s.src in d.ips && s == Spec(d, s.src)
    {
      if Emits(d) && s.src in d.ips && s == Spec(d, s.src) {
        var i :| 0 <= i < |d.ips| && d.ips[i] == s.src;
        assert SpecsOf(d)[i] == s;
      }
    }

    function Build(daemons: seq<DaemonRoutes>): seq<RouteSpec> {
      if daemons == [] then []
      else Build(daemons[..|daemons| - 1]) + SpecsOf(daemons[|daemons| - 1])
    }

    lemma {:induction false} BuildConcat(a: seq<DaemonRoutes>, b: seq<DaemonRoutes>)
      ensures Build(a + b) == Build(a) + Build(b)
      decreases |b|
    {
      if b == [] {
        assert a + b == a;
      } else {
        var rest, own := b[..|b| - 1], SpecsOf(b[|b| - 1]);
        BuildConcat(a, rest);
        assert (a + b)[..|a + b| - 1] == a + rest;
        ConcatAssociates(Build(a), Build(rest), own);
      }
    }

    /** A spec is emitted exactly when some listed daemon emits it for one of its own leases. */
    lemma {:induction false} SpecOrigin(daemons: seq<DaemonRoutes>, s: RouteSpec)
      ensures s in Build(daemons) <==> exists d :: d in daemons && s in SpecsOf(d)
    {
      if daemons != [] {
        var n := |daemons| - 1;
        SpecOrigin(daemons[..n], s);
        assert daemons == daemons[..n] + [daemons[n]];
      }
    }

    /** `build_gateway_specs`. */
    method BuildGatewaySpecs(daemons: seq<DaemonRoutes>) returns (desired: seq<RouteSpec>)
      ensures desired == Build(daemons)
    {
      desired := [];
      for i := 0 to |daemons|
        invariant desired == Build(daemons[..i])
      {
        assert daemons[..i + 1][..i] == daemons[..i];
        var d := daemons[i];
        var device := if d.name in overrides then overrides[d.name] else d.device;
        var fwmark: Option<U32> := None;
        if !sourceBased {
          if d.name !in ids {
            assert Build(daemons[..i]) + [] == Build(daemons[..i]);
            continue;
          }
          fwmark := Some(ids[d.name]);
        }
        for k := 0 to |d.ips|
          invariant desired == Build(daemons[..i]) + SpecsOf(d)[..k]
        {
          desired := desired + [RouteSpec(d.ips[k], d.nexthop, device, fwmark)];
          assert SpecsOf(d)[..k + 1] == SpecsOf(d)[..k] + [SpecsOf(d)[k]];
        }
        assert SpecsOf(d)[..|d.ips|] == SpecsOf(d);
      }
      assert daemons[..|daemons|] == daemons;
    }
  }

  /** The configured daemons that a view has leases for, in configuration order:
      what `/daemons` serves, and what a router in direct mode works from. */
  function Known(cfg: seq<DaemonEntry>, view: map<string, Leases>): seq<DaemonRoutes> {
    if cfg == [] then []
    else
      var d := cfg[|cfg| - 1];
      Known(cfg[..|cfg| - 1], view)
      + if d.name in view then [Reported(d, view[d.name])] else []
  }

  function Reported(d: DaemonEntry, leases: Leases): DaemonRoutes {
    DaemonRoutes(d.name, d.nexthop, d.device, leases.id, leases.ips)
  }

  /** The configured order is kept. */
  lemma {:induction false} KnownConcat(a: seq<DaemonEntry>, b: seq<DaemonEntry>, view: map<string, Leases>)
    ensures Known(a + b, view) == Known(a, view) + Known(b, view)
    decreases |b|
  {
    if b == [] {
      assert a + b == a;
    } else {
      var rest, d := b[..|b| - 1], b[|b| - 1];
      KnownConcat(a, rest, view);
      assert (a + b)[..|a + b| - 1] == a + rest;
      ConcatAssociates(Known(a, view), Known(rest, view), if d.name in view then [Reported(d, view[d.name])] else []);
    }
  }

  /** The emitted specs, field by field: a listed daemon's own lease, towards its next
      hop, over its override device if it has one, and marked with its id, which it
      must have, unless routing is by source alone. */
  lemma {:induction false} EmittedSpecs(p: Policy, daemons: seq<DaemonRoutes>, s: RouteSpec)
    ensures s in p.Build(daemons) <==>
            exists d :: d in daemons && s.src in d.ips && s.gateway == d.nexthop
              && s.iface == (if d.name in p.overrides then p.overrides[d.name] else d.device)
              && (if p.sourceBased then s.fwmark == None else d.name in p.ids && s.fwmark == Some(p.ids[d.name]))
  {
    p.SpecOrigin(daemons, s);
    forall d | d in daemons
      ensures s in p.SpecsOf(d) <==>
              && s.src in d.ips && s.gateway == d.nexthop
              && s.iface == (if d.name in p.overrides then p.overrides[d.name] else d.device)
              && (if p.sourceBased then s.fwmark == None else d.name in p.ids && s.fwmark == Some(p.ids[d.name]))
    {
      p.SpecsOfMember(d, s);
    }
  }

  /** `push_specs`, shared by the gateway (which never marks) and the routers in direct mode. */
  method PushSpecs(daemon: DaemonEntry, ips: seq<Ip>, fwmark: Option<U32>, out: seq<RouteSpec>)
    returns (out': seq<RouteSpec>)
    ensures |out'| == |out| + |ips| && out <= out'
    ensures forall i :: 0 <= i < |ips| ==>
              out'[|out| + i] == RouteSpec(ips[i], daemon.nexthop, daemon.device, fwmark)
  {
    out' := out;
    for i := 0 to |ips|
      invariant |out'| == |out| + i && out <= out'
      invariant forall k :: 0 <= k < i ==>
                  out'[|out| + k] == RouteSpec(ips[k], daemon.nexthop, daemon.device, fwmark)
    {
      out' := out' + [RouteSpec(ips[i], daemon.nexthop, daemon.device, fwmark)];
    }
  }

  lemma {:induction false} KnownStep(p: Policy, cfg: seq<DaemonEntry>, daemon: DaemonEntry, view: map<string, Leases>)
    ensures p.Build(Known(cfg + [daemon], view))
         == if daemon.name in view && p.Emits(Reported(daemon, view[daemon.name]))
            then p.Build(Known(cfg, view)) + p.SpecsOf(Reported(daemon, view[daemon.name]))
            else p.Build(Known(cfg, view))
  {
    var before := Known(cfg, view);
    assert (cfg + [daemon])[..|cfg|] == cfg;
    if daemon.name in view {
      assert (before + [Reported(daemon, view[daemon.name])])[..|before|] == before;
      assert p.Build(before) + [] == p.Build(before);
    } else {
      assert before + [] == before;
    }
  }

  lemma {:induction false} PushedIsSpecsOf(p: Policy, daemon: DaemonEntry, leases: Leases, fwmark: Option<U32>,
                        out: seq<RouteSpec>, out': seq<RouteSpec>)
    requires p.overrides == map[] && p.Emits(Reported(daemon, leases)) && fwmark == p.Mark(Reported(daemon, leases))
    requires |out'| == |out| + |leases.ips| && out <= out'
    requires forall i :: 0 <= i < |leases.ips| ==>
               out'[|out| + i] == RouteSpec(leases.ips[i], daemon.nexthop, daemon.device, fwmark)
    ensures out' == out + p.SpecsOf(Reported(daemon, leases))
  {
  }

  /** The direct-mode loop over configured daemons emits what the gateway-mode
      builder would for the same daemons without overrides. */
  method DirectSpecs(cfg: seq<DaemonEntry>, view: map<string, Leases>, ids: map<string, Byte>, sourceBased: bool)
    returns (desired: seq<RouteSpec>)
    ensures desired == Policy(map[], ids, sourceBased).Build(Known(cfg, view))
  {
    var p := Policy(map[], ids, sourceBased);
    desired := [];
    for i := 0 to |cfg|
      invariant desired == p.Build(Known(cfg[..i], view))
    {
      var daemon := cfg[i];
      KnownStep(p, cfg[..i], daemon, view);
      assert cfg[..i + 1] == cfg[..i] + [daemon];
      if daemon.name !in view {
        continue;
      }
      var leases := view[daemon.name];
      var fwmark: Option<U32> := None;
      if !sourceBased {
        if daemon.name !in ids {
          continue;
        }
        fwmark := Some(ids[daemon.name]);
      }
      ghost var was := desired;
      desired := PushSpecs(daemon, leases.ips, fwmark, desired);
      PushedIsSpecsOf(p, daemon, leases, fwmark, was, desired);
    }
    assert cfg[..|cfg|] == cfg;
  }

  /** Exactly the configured daemons with leases in the view are known, with those leases. */
  lemma {:induction false} KnownOrigin(cfg: seq<DaemonEntry>, view: map<string, Leases>, d: DaemonRoutes)
    ensures d in Known(cfg, view) <==>
            && DaemonEntry(d.name, d.nexthop, d.device) in cfg
            && d.name in view && view[d.name] == Leases(d.ips, d.id)
  {
    if cfg != [] {
      var n := |cfg| - 1;
      KnownOrigin(cfg[..n], view, d);
      assert cfg == cfg[..n] + [cfg[n]];
    }
  }

  /** A daemon's specs sit together, between those of earlier and later daemons. */
  lemma {:induction false} BuildSplit(p: Policy, daemons: seq<DaemonRoutes>, i: nat)
    requires i < |daemons|
    ensures p.Build(daemons) == p.Build(daemons[..i]) + p.SpecsOf(daemons[i]) + p.Build(daemons[i + 1..])
  {
    var upto := daemons[..i + 1];
    assert daemons == upto + daemons[i + 1..];
    assert upto[..|upto| - 1] == daemons[..i];
    p.BuildConcat(upto, daemons[i + 1..]);
  }

  /** No daemon from position i on emits x. */
  ghost predicate NoneEmits(p: Policy, daemons: seq<DaemonRoutes>, i: nat, x: Ip) {
    forall j :: i <= j < |daemons| && p.Emits(daemons[j]) ==> x !in daemons[j].ips
  }

  lemma {:induction false} NotEmitted(p: Policy, daemons: seq<DaemonRoutes>, i: nat, x: Ip, s: RouteSpec)
    requires i <= |daemons| && NoneEmits(p, daemons, i, x) && s in p.Build(daemons[i..])
    ensures s.src != x
  {
    p.SpecOrigin(daemons[i..], s);
    var d :| d in daemons[i..] && s in p.SpecsOf(d);
    p.SpecsOfMember(d, s);
    var j :| 0 <= j < |daemons[i..]| && daemons[i..][j] == d;
    assert daemons[i + j] == d;
  }

  /** A spec for x at or after daemon i's own specs, when no later daemon emits x, is daemon i's. */
  lemma {:induction false} EmitterOfIndex(p: Policy, daemons: seq<DaemonRoutes>, i: nat, x: Ip, k: nat)
    requires i < |daemons| && p.Emits(daemons[i]) && NoneEmits(p, daemons, i + 1, x)
    requires |p.Build(daemons[..i])| <= k < |p.Build(daemons)| && p.Build(daemons)[k].src == x
    ensures p.Build(daemons)[k] == p.Spec(daemons[i], x)
  {
    var before, own, after := p.Build(daemons[..i]), p.SpecsOf(daemons[i]), p.Build(daemons[i + 1..]);
    BuildSplit(p, daemons, i);
    var s := p.Build(daemons)[k];
    PastPrefix(before, own, after, k);
    if s in own {
      p.SpecsOfMember(daemons[i], s);
    } else {
      NotEmitted(p, daemons, i + 1, x, s);
    }
  }

  lemma {:induction false} PastPrefix<T>(a: seq<T>, b: seq<T>, c: seq<T>, k: nat)
    requires |a| <= k < |a + b + c|
    ensures (a + b + c)[k] in b || (a + b + c)[k] in c
  {
    assert (a + b + c)[k] == if k < |a| + |b| then b[k - |a|] else c[k - |a| - |b|];
  }

  /** The last resolvable spec for x's table is for another address. */
  ghost predicate Displaced(desired: seq<RouteSpec>, links: map<string, U32>, x: Ip) {
    exists k: nat :: LastFor(desired, links, TableIdFor(x), k) && desired[k].src != x
  }

  /** Only a reserved number and the number it is nudged to can displace each other. */
  lemma {:induction false} DisplacedIsNudged(desired: seq<RouteSpec>, links: map<string, U32>, x: Ip)
    requires Displaced(desired, links, x)
    ensures ReservedTable(x) || (x >= 0x1_0000 && ReservedTable(x - 0x1_0000))
  {
    var k: nat :| LastFor(desired, links, TableIdFor(x), k) && desired[k].src != x;
    TableCollisions(desired[k].src, x);
  }

  /** 0.0.0.253 loses its table to a later spec for 0.1.0.253. */
  lemma {:induction false} DisplacedExample(g: Ip)
    ensures Displaced([RouteSpec(253, g, "e", None), RouteSpec(0x1_00FD, g, "e", None)], map["e" := 1], 253)
  {
    assert LastFor([RouteSpec(253, g, "e", None), RouteSpec(0x1_00FD, g, "e", None)], map["e" := 1], 0x1_00FD, 1);
  }

  /** The last daemon that emits x over an interface that exists decides x's
      table, if and only if no other address displaces x there. */
  lemma {:induction false} LastEmitterWins(p: Policy, daemons: seq<DaemonRoutes>, links: map<string, U32>,
                                           i: nat, x: Ip)
    requires i < |daemons| && p.Emits(daemons[i]) && x in daemons[i].ips && p.Device(daemons[i]) in links
    requires NoneEmits(p, daemons, i + 1, x)
    ensures TableIdFor(x) in Resolve(p.Build(daemons), links)
    ensures Resolve(p.Build(daemons), links)[TableIdFor(x)] == Resolved(p.Spec(daemons[i], x), links)
       <==> !Displaced(p.Build(daemons), links, x)
  {
    var desired := p.Build(daemons);
    var at := SpecIndex(p, daemons, i, x);
    var k := LastIndex(desired, links, TableIdFor(x), at);
    if desired[k].src == x {
      EmitterOfIndex(p, daemons, i, x, k);
    }
    ResolveIsLast(desired, links, TableIdFor(x));
  }

  lemma {:induction false} SpecIndex(p: Policy, daemons: seq<DaemonRoutes>, i: nat, x: Ip) returns (at: nat)
    requires i < |daemons| && p.Emits(daemons[i]) && x in daemons[i].ips
    ensures |p.Build(daemons[..i])| <= at < |p.Build(daemons)| && p.Build(daemons)[at] == p.Spec(daemons[i], x)
  {
    var before, own, after := p.Build(daemons[..i]), p.SpecsOf(daemons[i]), p.Build(daemons[i + 1..]);
    assert p.Build(daemons) == before + own + after by { BuildSplit(p, daemons, i); }
    p.SpecsOfMember(daemons[i], p.Spec(daemons[i], x));
    var m :| 0 <= m < |own| && own[m] == p.Spec(daemons[i], x);
    at := |before| + m;
    assert (before + own + after)[at] == own[m];
  }

  /** From any resolvable spec for t, the last one. */
  lemma {:induction false} LastIndex(desired: seq<RouteSpec>, links: map<string, U32>, t: U32, at: nat)
    returns (k: nat)
    requires at < |desired| && desired[at].iface in links && TableIdFor(desired[at].src) == t
    ensures at <= k && LastFor(desired, links, t, k)
    decreases |desired| - at
  {
    if j :| at < j < |desired| && desired[j].iface in links && TableIdFor(desired[j].src) == t {
      k := LastIndex(desired, links, t, j);
    } else {
      k := at;
    }
  }
}
