/** A router after a successful pass, as a whole: ids, id table, rules and routes
    agree, and replies are steered back to the daemon their connection came
    through. */
module ReturnPath {
  import opened Base
  import opened Partition
  import opened Routing
  import opened RoutingSafety
  import opened RoutingConvergence
  import opened RoutingConfluence
  import opened Identity
  import opened Specs
  import opened RouterDatapath
  import Edge

  /** What one round in fwmark mode works from. */
  datatype Round = Round(rem: Remembered, adverts: Adverts, stale: nat, now: int,
                         overrides: map<string, string>, daemons: seq<DaemonRoutes>, links: map<string, U32>) {
    function Ids(): map<string, Byte> {
      Identity.Ids(rem, adverts, stale, now)
    }

    function Policy(): Policy {
      Specs.Policy(overrides, Ids(), false)
    }

    function Wants(): map<U32, ResolvedSpec> {
      Resolve(Policy().Build(daemons), links)
    }
  }

  /** Daemon d is why the round wants w. */
  ghost predicate WantedBy(r: Round, w: ResolvedSpec, d: DaemonRoutes) {
    && d in r.daemons && r.Policy().Emits(d) && w.src in d.ips
    && r.Policy().Device(d) in r.links && w == Resolved(r.Policy().Spec(d, w.src), r.links)
  }

  lemma {:induction false} WantOrigin(r: Round, t: U32) returns (d: DaemonRoutes)
    requires t in r.Wants()
    ensures WantedBy(r, r.Wants()[t], d) && TableIdFor(r.Wants()[t].src) == t
  {
    var desired := r.Policy().Build(r.daemons);
    ResolveIsLast(desired, r.links, t);
    var i: nat :| LastFor(desired, r.links, t, i);
    assert desired[i] in desired;
    r.Policy().SpecOrigin(r.daemons, desired[i]);
    d :| d in r.daemons && desired[i] in r.Policy().SpecsOf(d);
    r.Policy().SpecsOfMember(d, desired[i]);
  }

  /** `validate_id` keeps marks in 1..63, so no wanted mark is 0. */
  lemma {:induction false} WantedMarksInRange(r: Round, t: U32)
    requires t in r.Wants()
    ensures r.Wants()[t].fwmark.Some? && 1 <= r.Wants()[t].fwmark.value <= 63
    ensures r.Wants()[t].fwmark.value in r.Ids().Values
  {
    var d := WantOrigin(r, t);
    IdsInjective(r.rem, r.adverts, r.stale, r.now, d.name, d.name);
    assert r.Ids()[d.name] in r.Ids().Values;
  }

  /** The router's state once the round succeeded.  The id table may still hold
      ids whose removal the kernel refused: the sync ignores that. */
  ghost predicate Agreed(r: Round, table: IdMap, fib: Fib) {
    && Tame(table) && r.Ids().Values <= table.Keys
    && TidyRoutes(fib) && AllHold(fib, r.Wants())
  }

  /** A fully granted routing pass and a successful id sync bring that state about,
      if and only if the pass was not content with a rule that only reads as wanted. */
  lemma {:induction false} SuccessfulPassAgrees(r: Round, table: IdMap, k: Kernel, env: Env, k': Kernel)
    requires Tame(table) && r.Ids().Values <= table.Keys
    requires TidyRoutes(k.fib) && IsPass(k, env, r.Wants(), k') && AllGranted(k, k')
    ensures Agreed(r, table, k'.fib) <==> NoLookAlike(r, k.fib)
  {
    PassTidy(k, env, r.Wants(), k');
    forall t: U32 ensures Holds(k'.fib, Get(r.Wants(), t), t) <==> RightlySettled(r, k.fib, t) {
      if t in r.Wants() {
        WantedMarksInRange(r, t);
      }
      GrantedPassReachesGoal(k, env, r.Wants(), k', t);
    }
    if AllHold(k'.fib, r.Wants()) {
      forall t: U32 ensures RightlySettled(r, k.fib, t) {
        assert Holds(k'.fib, Get(r.Wants(), t), t);
      }
    }
  }

  /** If the program is content with table t as it is, rightly so. */
  ghost predicate RightlySettled(r: Round, fib: Fib, t: U32) {
    Settled(fib, Get(r.Wants(), t), t) ==> PlainRules(fib, t)
  }

  ghost predicate NoLookAlike(r: Round, fib: Fib) {
    forall t: U32 :: RightlySettled(r, fib, t)
  }

  lemma {:induction false} SettledView(r: Round, table: IdMap, fib: Fib, t: U32)
    requires Agreed(r, table, fib)
    ensures RulesView(fib, t) != [] ==> t in r.Wants()
    ensures t in r.Wants() ==>
              var w := r.Wants()[t];
              && RulesView(fib, t) == [CurrentRule(w.src, w.fwmark, ExpectedFwmask(w.fwmark))]
              && RouteView(fib, t) == Some(CurrentRoute(w.gateway, w.ifindex, true))
  {
    HoldsIffPlain(fib, Get(r.Wants(), t), t);
    assert Holds(fib, Get(r.Wants(), t), t);
  }

  /** Mark agreement: every rule's mark is an id in 1..63 that the id table maps
      to itself, and two rules carry one mark exactly when they stem from one
      daemon name. */
  lemma {:induction false} MarkAgreement(r: Round, table: IdMap, fib: Fib, t: U32, u: U32)
    requires Agreed(r, table, fib) && OwnRules(fib, t) != [] && OwnRules(fib, u) != []
    ensures t in r.Wants() && u in r.Wants() && |RulesView(fib, t)| == 1
    ensures var m := RulesView(fib, t)[0].fwmark;
            m.Some? && 1 <= m.value <= 63 && m.value in table && table[m.value] == m.value
    ensures exists d :: WantedBy(r, r.Wants()[t], d)
    ensures forall d, e :: WantedBy(r, r.Wants()[t], d) && WantedBy(r, r.Wants()[u], e) ==>
              (RulesView(fib, t)[0].fwmark == RulesView(fib, u)[0].fwmark <==> d.name == e.name)
  {
    SettledView(r, table, fib, t);
    SettledView(r, table, fib, u);
    WantedMarksInRange(r, t);
    var d0 := WantOrigin(r, t);
    forall d, e | WantedBy(r, r.Wants()[t], d) && WantedBy(r, r.Wants()[u], e)
      ensures RulesView(fib, t)[0].fwmark == RulesView(fib, u)[0].fwmark <==> d.name == e.name
    {
      IdsInjective(r.rem, r.adverts, r.stale, r.now, d.name, e.name);
    }
  }

  // ---------- Which table a packet selects ----------

  /** A rule of ours sends every packet with this source and mark to table t. */
  ghost predicate SelectsTable(fib: Fib, t: U32, src: Ip, mark: U32) {
    exists m :: m in OwnRules(fib, t) && Covers(m, src, mark)
  }

  lemma {:induction false} SelectedTable(r: Round, table: IdMap, fib: Fib, t: U32, src: Ip, mark: U32)
    requires Agreed(r, table, fib)
    ensures SelectsTable(fib, t, src, mark) <==>
            t in r.Wants() && r.Wants()[t].src == src && r.Wants()[t].fwmark == Some(mark)
  {
    assert Holds(fib, Get(r.Wants(), t), t);
    HeldTableSelects(fib, Get(r.Wants(), t), t, src, mark);
    if t in r.Wants() {
      WantedMarksInRange(r, t);
    }
  }

  lemma {:induction false} HeldTableSelects(fib: Fib, want: Option<ResolvedSpec>, t: U32, src: Ip, mark: U32)
    requires Holds(fib, want, t)
    ensures SelectsTable(fib, t, src, mark) <==> want.Some? && SpecCovers(want.value, src, mark)
  {
    if want.Some? {
      var m := OwnRules(fib, t)[0];
      OneRuleSelects(fib, t, m, src, mark);
      ExactCovers(m, want.value, src, mark);
    }
  }

  lemma {:induction false} OneRuleSelects(fib: Fib, t: U32, m: RuleMsg, src: Ip, mark: U32)
    requires |OwnRules(fib, t)| == 1 && OwnRules(fib, t)[0] == m
    ensures SelectsTable(fib, t, src, mark) <==> Covers(m, src, mark)
  {
    OneElement(OwnRules(fib, t), m, src, mark);
  }

  lemma {:induction false} OneElement(rules: seq<RuleMsg>, m: RuleMsg, src: Ip, mark: U32)
    requires |rules| == 1 && rules[0] == m
    ensures (exists x :: x in rules && Covers(x, src, mark)) <==> Covers(m, src, mark)
  {
    assert m in rules;
  }

  lemma {:induction false} ExactCovers(m: RuleMsg, w: ResolvedSpec, src: Ip, mark: U32)
    requires Exact(m, w)
    ensures Covers(m, src, mark) <==> SpecCovers(w, src, mark)
  {
  }

  /** Daemon i is the last one that emits a spec for x, over an interface that exists. */
  ghost predicate LastEmitter(r: Round, i: nat, x: Ip) {
    && i < |r.daemons| && r.Policy().Emits(r.daemons[i]) && x in r.daemons[i].ips
    && r.Policy().Device(r.daemons[i]) in r.links
    && NoneEmits(r.Policy(), r.daemons, i + 1, x)
  }

  /** Return path: after a successful pass, if the last tagged packet seen while a
      connection was new carried daemon D's id in the upper six bits of its TOS
      byte, and D is the last daemon emitting
      x, then every later packet of the connection from x that reaches netfilter
      unmarked gets D's mark.  It selects exactly one table of ours, whose route
      goes to D's next hop, unless another address displaces x, and then none. */
  lemma {:induction false} ReturnPathTheorem(r: Round, table: IdMap, fib: Fib, before: seq<Packet>, k: nat,
                                             p: Packet, i: nat)
    requires Agreed(r, table, fib) && LastEmitter(r, i, p.src)
    requires LastTag(table, before, p.conn, k)
    requires CarriesId(before[k].arrival, r.Ids()[r.daemons[i].name])
    requires !Tagged(table, p.arrival)
    ensures FinalMark(table, before, p) == r.Ids()[r.daemons[i].name]
    ensures forall t: U32 :: SelectsTable(fib, t, p.src, FinalMark(table, before, p)) <==>
              t == TableIdFor(p.src) && !Displaced(r.Policy().Build(r.daemons), r.links, p.src)
    ensures !Displaced(r.Policy().Build(r.daemons), r.links, p.src) ==>
              RouteView(fib, TableIdFor(p.src))
              == Some(CurrentRoute(r.daemons[i].nexthop, r.links[r.Policy().Device(r.daemons[i])], true))
  {
    var d := r.Ids()[r.daemons[i].name];
    IdsInjective(r.rem, r.adverts, r.stale, r.now, r.daemons[i].name, r.daemons[i].name);
    assert d in r.Ids().Values;
    CtMarkIsLastTag(table, before, p.conn, k, d);
    MarkIsTag(table, p.arrival);
    LastEmitterWins(r.Policy(), r.daemons, r.links, i, p.src);
    var m := FinalMark(table, before, p);
    var displaced := Displaced(r.Policy().Build(r.daemons), r.links, p.src);
    if displaced {
      ResolveIsLast(r.Policy().Build(r.daemons), r.links, TableIdFor(p.src));
    }
    forall t: U32 ensures SelectsTable(fib, t, p.src, m) <==> t == TableIdFor(p.src) && !displaced {
      SelectedTable(r, table, fib, t, p.src, m);
      if t in r.Wants() {
        var _ := WantOrigin(r, t);
      }
    }
    SettledView(r, table, fib, TableIdFor(p.src));
  }

  /** The two ends agree: a frame the daemon's ingress stamped with id d is marked d
      by every router whose table has d. */
  lemma {:induction false} StampedFrameIsMarked(m: Edge.Maps, ifindex: U32, f: seq<Byte>, table: IdMap)
    requires Tame(table) && Edge.StampId(m, ifindex, f).Some? && Edge.StampId(m, ifindex, f).value in table
    ensures var tos := Edge.Stamped(m, ifindex, f)[Edge.ETH_LEN + 1];
            && CarriesId(Arrival(true, true, tos), Edge.StampId(m, ifindex, f).value)
            && Mark(table, Arrival(true, true, tos)) == m.dscpId[ifindex]
  {
    var d := Edge.StampId(m, ifindex, f).value;
    Edge.StampIsRight(m, ifindex, f);
    MarkIsTag(table, Arrival(true, true, Edge.Stamped(m, ifindex, f)[Edge.ETH_LEN + 1]));
  }

  /** A connection that never carried a tag while new keeps mark 0, and its
      untagged packets match no rule of ours: they are routed normally. */
  lemma {:induction false} UntaggedRoutesNormally(r: Round, table: IdMap, fib: Fib, before: seq<Packet>,
                                                  p: Packet, t: U32)
    requires Agreed(r, table, fib)
    requires forall j :: 0 <= j < |before| ==> !Tags(table, before[j], p.conn)
    requires !Tagged(table, p.arrival)
    ensures FinalMark(table, before, p) == 0 && !SelectsTable(fib, t, p.src, 0)
  {
    UntaggedHasNoMark(table, before, p.conn);
    MarkIsTag(table, p.arrival);
    SelectedTable(r, table, fib, t, p.src, 0);
    if t in r.Wants() {
      WantedMarksInRange(r, t);
    }
  }
}
