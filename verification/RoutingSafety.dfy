/** What no run of reconcile passes can do, whatever is desired and whatever the
    kernel refuses: touch somebody else's rules or routes, or leave a table with
    two of ours. */
module RoutingSafety {
  import opened Base
  import opened Partition
  import opened Routing
  import opened Messages

  // ---------- A pass is a list of requests, each about one table ----------

  function Requests(k: Kernel, env: Env, ops: seq<Op>): Kernel {
    if ops == [] then k
    else Request(Requests(k, env, ops[..|ops| - 1]), env, ops[|ops| - 1])
  }

  lemma {:induction false} RequestsConcat(k: Kernel, env: Env, a: seq<Op>, b: seq<Op>)
    ensures Requests(k, env, a + b) == Requests(Requests(k, env, a), env, b)
    decreases |b|
  {
    if b == [] {
      assert a + b == a;
    } else {
      RequestsConcat(k, env, a, b[..|b| - 1]);
      assert (a + b)[..|a + b| - 1] == a + b[..|b| - 1];
    }
  }

  ghost predicate AllAbout(ops: seq<Op>, t: U32) {
    forall op :: op in ops ==> op.table == t
  }

  lemma {:induction false} DelRulesIsRequests(k: Kernel, env: Env, t: U32, rules: seq<CurrentRule>)
    returns (ops: seq<Op>)
    ensures DelRules(k, env, t, rules).0 == Requests(k, env, ops) && AllAbout(ops, t)
  {
    if rules == [] {
      ops := [];
    } else {
      var n := |rules| - 1;
      var rest := DelRulesIsRequests(k, env, t, rules[..n]);
      ops := rest + [DelRule(t, rules[n].src, rules[n].fwmark)];
      assert ops[..|ops| - 1] == rest;
    }
  }

  lemma {:induction false} SyncIsRequests(k: Kernel, env: Env, t: U32, want: Option<ResolvedSpec>,
                       rules: seq<CurrentRule>, route: Option<CurrentRoute>)
    returns (ops: seq<Op>)
    ensures SyncTable(k, env, t, want, rules, route) == Requests(k, env, ops) && AllAbout(ops, t)
  {
    if InSync(want, rules, route) {
      return [];
    }
    ops := DelRulesIsRequests(k, env, t, rules);
    var (k1, ok1) := DelRules(k, env, t, rules);
    var (k2, ok2) := DelRouteIf(k1, env, t, route.Some?);
    if route.Some? {
      RequestsConcat(k, env, ops, [DelRoute(t)]);
      ops := ops + [DelRoute(t)];
    }
    assert k2 == Requests(k, env, ops);
    if want.Some? && ok1 && ok2 {
      RequestsConcat(k, env, ops, [AddRule(t, want.value)]);
      ops := ops + [AddRule(t, want.value)];
      if Granted(k2, env, AddRule(t, want.value)) {
        RequestsConcat(k, env, ops, [AddRoute(t, want.value)]);
        ops := ops + [AddRoute(t, want.value)];
      }
    }
  }

  lemma {:induction false} VisitIsRequests(k: Kernel, env: Env, wants: map<U32, ResolvedSpec>,
                                           snap: Fib, order: seq<U32>) returns (ops: seq<Op>)
    ensures Visit(k, env, wants, snap, order) == Requests(k, env, ops)
    ensures forall op :: op in ops ==> op.table in order
  {
    if order == [] {
      ops := [];
    } else {
      var n := |order| - 1;
      var first := VisitIsRequests(k, env, wants, snap, order[..n]);
      var k1 := Visit(k, env, wants, snap, order[..n]);
      var rest := SyncIsRequests(k1, env, order[n], Get(wants, order[n]),
                                 RulesView(snap, order[n]), RouteView(snap, order[n]));
      RequestsConcat(k, env, first, rest);
      ops := first + rest;
    }
  }

  // ---------- Frames ----------

  /** a and b hold the same rules and routes under key c. */
  ghost predicate SameAt(a: Fib, b: Fib, c: Option<U32>) {
    && Part(RuleTable, a.rules, c) == Part(RuleTable, b.rules, c)
    && Part(RouteOwner, a.routes, c) == Part(RouteOwner, b.routes, c)
  }

  lemma {:induction false} RequestFrame(k: Kernel, env: Env, op: Op, c: Option<U32>)
    requires c != Some(op.table)
    ensures SameAt(k.fib, Request(k, env, op).fib, c)
  {
    var pick := env.picks(|k.log|);
    match op
    case DelRule(_, _, _) =>
      var i := VictimRule(k.fib.rules, op, pick);
      if i.Some? { PartWithout(RuleTable, k.fib.rules, i.value, c); }
    case DelRoute(t) =>
      var i := VictimRoute(k.fib.routes, t, pick);
      if i.Some? { PartWithout(RouteOwner, k.fib.routes, i.value, c); }
    case AddRule(t, w) =>
      BuiltRuleParses(t, w);
      PartAppend(RuleTable, k.fib.rules, BuildRule(t, w), c);
    case AddRoute(t, w) =>
      BuiltRouteParses(t, w);
      PartAppend(RouteOwner, k.fib.routes, BuildRoute(t, w), c);
  }

  lemma {:induction false} RequestsFrame(k: Kernel, env: Env, ops: seq<Op>, c: Option<U32>)
    requires forall op :: op in ops ==> c != Some(op.table)
    ensures SameAt(k.fib, Requests(k, env, ops).fib, c)
  {
    if ops != [] {
      var n := |ops| - 1;
      RequestsFrame(k, env, ops[..n], c);
      RequestFrame(Requests(k, env, ops[..n]), env, ops[n], c);
    }
  }

  lemma {:induction false} VisitFrame(k: Kernel, env: Env, wants: map<U32, ResolvedSpec>, snap: Fib,
                                      order: seq<U32>, t: U32)
    requires t !in order
    ensures SameAt(k.fib, Visit(k, env, wants, snap, order).fib, Some(t))
  {
    var ops := VisitIsRequests(k, env, wants, snap, order);
    RequestsFrame(k, env, ops, Some(t));
  }

  /** A table's listings depend only on our rules and routes in that table. */
  lemma {:induction false} LastRouteOfPart(routes: seq<RouteMsg>, t: U32)
    ensures LastRoute(routes, t) == LastRoute(Part(RouteOwner, routes, Some(t)), t)
  {
    if routes != [] {
      var n := |routes| - 1;
      LastRouteOfPart(routes[..n], t);
      var p := Part(RouteOwner, routes[..n], Some(t));
      if RouteOwner(routes[n]) == Some(t) {
        assert (p + [routes[n]])[..|p|] == p;
      } else {
        assert p + [] == p;
      }
    }
  }

  lemma {:induction false} SameViews(a: Fib, b: Fib, t: U32)
    requires SameAt(a, b, Some(t))
    ensures RulesView(a, t) == RulesView(b, t) && RouteView(a, t) == RouteView(b, t)
  {
    LastRouteOfPart(a.routes, t);
    LastRouteOfPart(b.routes, t);
  }

  // ---------- Runs ----------

  /** Consecutive passes, the i-th towards wants[i]. */
  ghost predicate Run(ks: seq<Kernel>, env: Env, wants: seq<map<U32, ResolvedSpec>>) {
    && |ks| == |wants| + 1
    && forall i :: 0 <= i < |wants| ==> IsPass(ks[i], env, wants[i], ks[i + 1])
  }

  lemma {:induction false} PassIsRequests(k: Kernel, env: Env, wants: map<U32, ResolvedSpec>,
                                          k': Kernel) returns (ops: seq<Op>)
    requires IsPass(k, env, wants, k')
    ensures k' == Requests(k, env, ops)
  {
    var order :| Enumerates(order, AllTables(k.fib, wants)) && k' == Visit(k, env, wants, k.fib, order);
    ops := VisitIsRequests(k, env, wants, k.fib, order);
  }

  lemma {:induction false} RunIsRequests(ks: seq<Kernel>, env: Env, wants: seq<map<U32, ResolvedSpec>>)
    returns (ops: seq<Op>)
    requires Run(ks, env, wants)
    ensures ks[|wants|] == Requests(ks[0], env, ops)
    decreases |wants|
  {
    if wants == [] {
      ops := [];
    } else {
      var n := |wants| - 1;
      var first := RunIsRequests(ks[..n + 1], env, wants[..n]);
      assert ks[..n + 1][0] == ks[0];
      var rest := PassIsRequests(ks[n], env, wants[n], ks[n + 1]);
      RequestsConcat(ks[0], env, first, rest);
      ops := first + rest;
    }
  }

  /** The log is the whole history: it starts at `start`, each request begins
      where the previous one ended, and the last one ends at the present state. */
  ghost predicate WholeHistory(start: Fib, k: Kernel) {
    && (forall i :: 0 <= i < |k.log| ==> k.log[i].before == After(start, k.log, i))
    && k.fib == After(start, k.log, |k.log|)
  }

  /** The tables after the first n requests. */
  function After(start: Fib, log: seq<Event>, n: nat): Fib
    requires n <= |log|
  {
    if n == 0 then start else log[n - 1].after
  }

  lemma {:induction false} HistoryStep(start: Fib, k: Kernel, env: Env, op: Op)
    requires WholeHistory(start, k)
    ensures WholeHistory(start, Request(k, env, op))
  {
    var log := Request(k, env, op).log;
    forall i | 0 <= i < |log| ensures log[i].before == After(start, log, i) {
      assert After(start, log, i) == After(start, k.log, i);
    }
  }

  lemma {:induction false} RequestsHistory(k: Kernel, env: Env, ops: seq<Op>)
    requires k.log == []
    ensures WholeHistory(k.fib, Requests(k, env, ops))
    ensures forall e :: e in Requests(k, env, ops).log ==> SameAt(e.before, e.after, None)
    ensures forall e :: e in Requests(k, env, ops).log && !e.ok ==> e.before == e.after
  {
    if ops != [] {
      var n := |ops| - 1;
      RequestsHistory(k, env, ops[..n]);
      HistoryStep(k.fib, Requests(k, env, ops[..n]), env, ops[n]);
      RequestFrame(Requests(k, env, ops[..n]), env, ops[n], None);
    }
  }

  lemma {:induction false} SameForOthers(a: Fib, b: Fib)
    ensures SameAt(a, b, None) <==> Others(a) == Others(b)
  {
    OthersAreUnowned(a);
    OthersAreUnowned(b);
  }

  /** Ownership: whatever is desired and whatever fails, no request of any run
      changes a rule that is not for a single IPv4 source at our priority, or a
      route that is not IPv4 and under our protocol number. */
  lemma {:induction false} Ownership(ks: seq<Kernel>, env: Env, wants: seq<map<U32, ResolvedSpec>>)
    requires Run(ks, env, wants) && ks[0].log == []
    ensures Others(ks[|wants|].fib) == Others(ks[0].fib)
    ensures WholeHistory(ks[0].fib, ks[|wants|])
    ensures forall e :: e in ks[|wants|].log ==> Others(e.after) == Others(e.before)
    ensures forall e :: e in ks[|wants|].log && !e.ok ==> e.before == e.after
  {
    var ops := RunIsRequests(ks, env, wants);
    RequestsFrame(ks[0], env, ops, None);
    SameForOthers(ks[0].fib, ks[|wants|].fib);
    RequestsHistory(ks[0], env, ops);
    forall e | e in ks[|wants|].log ensures Others(e.after) == Others(e.before) {
      SameForOthers(e.before, e.after);
    }
  }

  // ---------- Counting what a delete removes ----------

  /** At most one route of ours per table, and every route of ours names a
      gateway and an output interface. */
  ghost predicate TidyRoutes(fib: Fib) {
    && (forall t: U32 :: |Part(RouteOwner, fib.routes, Some(t))| <= 1)
    && (forall m :: m in fib.routes && RouteOwner(m).Some? ==> ParseRoute(m).Some?)
  }

  /** Every route of ours in table t names a gateway and an output interface. */
  ghost predicate Readable(fib: Fib, t: U32) {
    forall m :: m in OwnRoutes(fib, t) ==> ParseRoute(m).Some?
  }

  /** Every rule of ours in table t has the action our delete requests name. */
  ghost predicate Deletable(fib: Fib, t: U32) {
    forall m :: m in OwnRules(fib, t) ==> m.action == ToTable
  }

  lemma {:induction false} RouteViewAt(fib: Fib, t: U32)
    requires |OwnRoutes(fib, t)| <= 1
    ensures |OwnRoutes(fib, t)| == 0 ==> RouteView(fib, t) == None
    ensures |OwnRoutes(fib, t)| == 1 ==>
              var p := ParseRoute(OwnRoutes(fib, t)[0]);
              if p.Some? then p.value.0 == t && RouteView(fib, t) == Some(p.value.1) else RouteView(fib, t) == None
  {
    LastRouteOfPart(fib.routes, t);
    var own := OwnRoutes(fib, t);
    if |own| == 1 {
      assert own[0] in own;
      assert own[..0] == [];
    } else {
      assert own == [];
    }
  }

  lemma {:induction false} RouteViewSome(fib: Fib, t: U32)
    requires TidyRoutes(fib)
    ensures RouteView(fib, t).Some? <==> |OwnRoutes(fib, t)| == 1
    ensures RouteView(fib, t).Some? ==>
              && OwnRoutes(fib, t)[0] in fib.routes
              && ParseRoute(OwnRoutes(fib, t)[0]) == Some((t, RouteView(fib, t).value))
  {
    assert |OwnRoutes(fib, t)| <= 1;
    RouteViewAt(fib, t);
    if |OwnRoutes(fib, t)| == 1 {
      assert OwnRoutes(fib, t)[0] in OwnRoutes(fib, t);
    }
  }

  lemma {:induction false} DelRuleCount(k: Kernel, env: Env, op: Op)
    requires op.DelRule?
    ensures var k' := Request(k, env, op);
            && k'.fib.routes == k.fib.routes
            && (forall m :: m in k'.fib.rules ==> m in k.fib.rules)
            && |OwnRules(k'.fib, op.table)|
               == |OwnRules(k.fib, op.table)| - if Granted(k, env, op) then 1 else 0
  {
    var i := VictimRule(k.fib.rules, op, env.picks(|k.log|));
    if i.Some? {
      PartWithout(RuleTable, k.fib.rules, i.value, Some(op.table));
    }
  }

  lemma {:induction false} DelRulesCount(k: Kernel, env: Env, t: U32, rules: seq<CurrentRule>)
    ensures var (k', ok) := DelRules(k, env, t, rules);
            && k'.fib.routes == k.fib.routes
            && (forall m :: m in k'.fib.rules ==> m in k.fib.rules)
            && |OwnRules(k'.fib, t)| <= |OwnRules(k.fib, t)|
            && (ok ==> |OwnRules(k'.fib, t)| + |rules| == |OwnRules(k.fib, t)|)
            && (!ok ==> |OwnRules(k'.fib, t)| + |rules| > |OwnRules(k.fib, t)|)
  {
    if rules != [] {
      var n := |rules| - 1;
      DelRulesCount(k, env, t, rules[..n]);
      DelRuleCount(DelRules(k, env, t, rules[..n]).0, env, DelRule(t, rules[n].src, rules[n].fwmark));
    }
  }

  lemma {:induction false} DelRouteAt(k: Kernel, env: Env, t: U32)
    requires |OwnRoutes(k.fib, t)| <= 1
    ensures var k' := Request(k, env, DelRoute(t));
            && k'.fib.rules == k.fib.rules
            && (forall m :: m in k'.fib.routes ==> m in k.fib.routes)
            && (Granted(k, env, DelRoute(t)) ==> OwnRoutes(k'.fib, t) == [])
            && |OwnRoutes(k'.fib, t)| <= |OwnRoutes(k.fib, t)|
  {
    var i := VictimRoute(k.fib.routes, t, env.picks(|k.log|));
    if i.Some? {
      PartWithout(RouteOwner, k.fib.routes, i.value, Some(t));
    }
  }

  lemma {:induction false} DelRouteCount(k: Kernel, env: Env, t: U32)
    requires TidyRoutes(k.fib)
    ensures var k' := Request(k, env, DelRoute(t));
            && k'.fib.rules == k.fib.rules && TidyRoutes(k'.fib)
            && (Granted(k, env, DelRoute(t)) ==> OwnRoutes(k'.fib, t) == [])
            && |OwnRoutes(k'.fib, t)| <= |OwnRoutes(k.fib, t)|
  {
    assert |OwnRoutes(k.fib, t)| <= 1;
    DelRouteAt(k, env, t);
    var k' := Request(k, env, DelRoute(t));
    forall u: U32 ensures |Part(RouteOwner, k'.fib.routes, Some(u))| <= 1 {
      assert |OwnRoutes(k.fib, u)| <= 1;
      if u != t { RequestFrame(k, env, DelRoute(t), Some(u)); }
    }
  }

  lemma {:induction false} AddRuleCount(k: Kernel, env: Env, t: U32, w: ResolvedSpec)
    ensures var k' := Request(k, env, AddRule(t, w));
            && k'.fib.routes == k.fib.routes
            && OwnRules(k'.fib, t)
               == OwnRules(k.fib, t) + if Granted(k, env, AddRule(t, w)) then [BuildRule(t, w)] else []
  {
    BuiltRuleParses(t, w);
    PartAppend(RuleTable, k.fib.rules, BuildRule(t, w), Some(t));
    assert OwnRules(k.fib, t) + [] == OwnRules(k.fib, t);
  }

  lemma {:induction false} AddRouteAt(k: Kernel, env: Env, t: U32, w: ResolvedSpec)
    requires OwnRoutes(k.fib, t) == []
    ensures var k' := Request(k, env, AddRoute(t, w));
            && k'.fib.rules == k.fib.rules
            && OwnRoutes(k'.fib, t) == if Granted(k, env, AddRoute(t, w)) then [BuildRoute(t, w)] else []
  {
    BuiltRouteParses(t, w);
    PartAppend(RouteOwner, k.fib.routes, BuildRoute(t, w), Some(t));
  }

  lemma {:induction false} AddRouteCount(k: Kernel, env: Env, t: U32, w: ResolvedSpec)
    requires TidyRoutes(k.fib) && OwnRoutes(k.fib, t) == []
    ensures var k' := Request(k, env, AddRoute(t, w));
            && k'.fib.rules == k.fib.rules && TidyRoutes(k'.fib)
            && OwnRoutes(k'.fib, t) == if Granted(k, env, AddRoute(t, w)) then [BuildRoute(t, w)] else []
  {
    var k' := Request(k, env, AddRoute(t, w));
    forall u: U32 ensures |Part(RouteOwner, k'.fib.routes, Some(u))| <= 1 {
      assert |OwnRoutes(k.fib, u)| <= 1;
      if u != t { RequestFrame(k, env, AddRoute(t, w), Some(u)); } else { AddRouteAt(k, env, t, w); }
    }
    forall m | m in k'.fib.routes && RouteOwner(m).Some? ensures ParseRoute(m).Some? {
      BuiltRouteParses(t, w);
    }
    AddRouteAt(k, env, t, w);
  }

  // ---------- Rules our deletes cannot name ----------

  /** A listed rule with the action we name is matched by the delete request built from it. */
  lemma {:induction false} ListedRuleIsSelected(fib: Fib, t: U32, i: nat)
    requires i < |OwnRules(fib, t)| && OwnRules(fib, t)[i].action == ToTable
    ensures var v := RulesView(fib, t)[i];
            Selects(DelRule(t, v.src, v.fwmark), OwnRules(fib, t)[i])
  {
    var own := OwnRules(fib, t);
    assert own[i] in own;
  }

  /** A rule with another action survives every request of ours. */
  lemma {:induction false} StuckRuleSurvives(k: Kernel, env: Env, op: Op, m: RuleMsg)
    requires m in k.fib.rules && m.action != ToTable
    ensures m in Request(k, env, op).fib.rules
  {
    if op.DelRule? {
      var i := VictimRule(k.fib.rules, op, env.picks(|k.log|));
      if i.Some? {
        var j :| 0 <= j < |k.fib.rules| && k.fib.rules[j] == m;
        assert Without(k.fib.rules, i.value)[if j < i.value then j else j - 1] == m;
      }
    }
  }

  lemma {:induction false} StuckRuleStays(k: Kernel, env: Env, t: U32, rules: seq<CurrentRule>, m: RuleMsg)
    requires m in k.fib.rules && m.action != ToTable
    ensures m in DelRules(k, env, t, rules).0.fib.rules
  {
    if rules != [] {
      var n := |rules| - 1;
      StuckRuleStays(k, env, t, rules[..n], m);
      StuckRuleSurvives(DelRules(k, env, t, rules[..n]).0, env, DelRule(t, rules[n].src, rules[n].fwmark), m);
    }
  }

  lemma {:induction false} StuckTableStays(k: Kernel, env: Env, t: U32, rules: seq<CurrentRule>)
    requires !Deletable(k.fib, t)
    ensures !Deletable(DelRules(k, env, t, rules).0.fib, t) && OwnRules(DelRules(k, env, t, rules).0.fib, t) != []
  {
    var m :| m in OwnRules(k.fib, t) && m.action != ToTable;
    StuckRuleStays(k, env, t, rules, m);
    assert m in OwnRules(DelRules(k, env, t, rules).0.fib, t);
  }

  // ---------- Failure safety ----------

  ghost predicate AtMostOne(fib: Fib) {
    forall t: U32 :: |OwnRules(fib, t)| <= 1 && |OwnRoutes(fib, t)| <= 1
  }

  /** No table holds two of ours afterwards; a rule goes in only where neither a
      rule nor a route of ours is left, and a route is asked for only next to the
      rule just added, where none is. */
  ghost predicate SafeEvent(e: Event) {
    && AtMostOne(e.after)
    && (e.ok && e.op.AddRule? ==> OwnRules(e.before, e.op.table) == [] && OwnRoutes(e.before, e.op.table) == [])
    && (e.op.AddRoute? ==>
          OwnRules(e.before, e.op.table) == [BuildRule(e.op.table, e.op.want)] && OwnRoutes(e.before, e.op.table) == [])
  }

  ghost predicate SafeSoFar(k: Kernel) {
    AtMostOne(k.fib) && forall e :: e in k.log ==> SafeEvent(e)
  }

  /** Our listing sees the table's route, or a rule we cannot delete keeps us
      from ever adding to the table. */
  ghost predicate Guarded(fib: Fib, t: U32) {
    Readable(fib, t) || !Deletable(fib, t)
  }

  ghost predicate AllGuarded(fib: Fib) {
    forall t: U32 :: Guarded(fib, t)
  }

  lemma {:induction false} GuardedFrame(k: Kernel, env: Env, op: Op, t: U32)
    requires t != op.table && Guarded(k.fib, t)
    ensures Guarded(Request(k, env, op).fib, t)
  {
    RequestFrame(k, env, op, Some(t));
  }

  lemma {:induction false} GuardedDelete(k: Kernel, env: Env, op: Op)
    requires |OwnRoutes(k.fib, op.table)| <= 1 && (op.DelRule? || op.DelRoute?) && Guarded(k.fib, op.table)
    ensures Guarded(Request(k, env, op).fib, op.table)
  {
    var t, k' := op.table, Request(k, env, op);
    if op.DelRule? { DelRuleCount(k, env, op); } else { DelRouteAt(k, env, t); }
    if m :| m in OwnRules(k.fib, t) && m.action != ToTable {
      StuckRuleSurvives(k, env, op, m);
      assert m in OwnRules(k'.fib, t);
    }
  }

  lemma {:induction false} SafeDelete(k: Kernel, env: Env, op: Op)
    requires SafeSoFar(k) && AllGuarded(k.fib) && (op.DelRule? || op.DelRoute?)
    ensures SafeSoFar(Request(k, env, op)) && AllGuarded(Request(k, env, op).fib)
  {
    var k' := Request(k, env, op);
    assert |OwnRoutes(k.fib, op.table)| <= 1;
    if op.DelRule? { DelRuleCount(k, env, op); } else { DelRouteAt(k, env, op.table); }
    forall t: U32 ensures |OwnRules(k'.fib, t)| <= 1 && |OwnRoutes(k'.fib, t)| <= 1 {
      assert |OwnRules(k.fib, t)| <= 1 && |OwnRoutes(k.fib, t)| <= 1;
      if t != op.table { RequestFrame(k, env, op, Some(t)); }
    }
    forall t: U32 ensures Guarded(k'.fib, t) {
      assert Guarded(k.fib, t);
      if t == op.table { GuardedDelete(k, env, op); } else { GuardedFrame(k, env, op, t); }
    }
  }

  lemma {:induction false} SafeDeletes(k: Kernel, env: Env, t: U32, rules: seq<CurrentRule>)
    requires SafeSoFar(k) && AllGuarded(k.fib)
    ensures SafeSoFar(DelRules(k, env, t, rules).0) && AllGuarded(DelRules(k, env, t, rules).0.fib)
  {
    if rules != [] {
      var n := |rules| - 1;
      SafeDeletes(k, env, t, rules[..n]);
      SafeDelete(DelRules(k, env, t, rules[..n]).0, env, DelRule(t, rules[n].src, rules[n].fwmark));
    }
  }

  lemma {:induction false} SafeAddRule(k: Kernel, env: Env, t: U32, w: ResolvedSpec)
    requires SafeSoFar(k) && AllGuarded(k.fib) && OwnRules(k.fib, t) == [] && OwnRoutes(k.fib, t) == []
    ensures SafeSoFar(Request(k, env, AddRule(t, w))) && AllGuarded(Request(k, env, AddRule(t, w)).fib)
  {
    var k' := Request(k, env, AddRule(t, w));
    AddRuleCount(k, env, t, w);
    forall u: U32 ensures |OwnRules(k'.fib, u)| <= 1 && |OwnRoutes(k'.fib, u)| <= 1 && Guarded(k'.fib, u) {
      assert |OwnRules(k.fib, u)| <= 1 && |OwnRoutes(k.fib, u)| <= 1 && Guarded(k.fib, u);
      if u != t { RequestFrame(k, env, AddRule(t, w), Some(u)); }
    }
  }

  lemma {:induction false} SafeAddRoute(k: Kernel, env: Env, t: U32, w: ResolvedSpec)
    requires SafeSoFar(k) && AllGuarded(k.fib) && OwnRoutes(k.fib, t) == [] && OwnRules(k.fib, t) == [BuildRule(t, w)]
    ensures SafeSoFar(Request(k, env, AddRoute(t, w))) && AllGuarded(Request(k, env, AddRoute(t, w)).fib)
  {
    var k' := Request(k, env, AddRoute(t, w));
    forall u: U32 ensures |OwnRules(k'.fib, u)| <= 1 && |OwnRoutes(k'.fib, u)| <= 1 && Guarded(k'.fib, u) {
      assert |OwnRules(k.fib, u)| <= 1 && |OwnRoutes(k.fib, u)| <= 1 && Guarded(k.fib, u);
      if u != t { RequestFrame(k, env, AddRoute(t, w), Some(u)); } else { AddedRouteIsReadable(k, env, t, w); }
    }
  }

  lemma {:induction false} AddedRouteIsReadable(k: Kernel, env: Env, t: U32, w: ResolvedSpec)
    requires OwnRoutes(k.fib, t) == []
    ensures var k' := Request(k, env, AddRoute(t, w));
            k'.fib.rules == k.fib.rules && |OwnRoutes(k'.fib, t)| <= 1 && Readable(k'.fib, t)
  {
    AddRouteAt(k, env, t, w);
    BuiltRouteParses(t, w);
  }

  lemma {:induction false} SafeInstall(k: Kernel, env: Env, t: U32, w: ResolvedSpec)
    requires SafeSoFar(k) && AllGuarded(k.fib) && OwnRules(k.fib, t) == [] && OwnRoutes(k.fib, t) == []
    ensures SafeSoFar(Install(k, env, t, w)) && AllGuarded(Install(k, env, t, w).fib)
  {
    SafeAddRule(k, env, t, w);
    AddRuleCount(k, env, t, w);
    if Granted(k, env, AddRule(t, w)) {
      SafeAddRoute(Request(k, env, AddRule(t, w)), env, t, w);
    }
  }

  /** If every rule of a guarded table could be deleted, its route is one we list. */
  lemma {:induction false} ClearedIsReadable(k: Kernel, env: Env, t: U32)
    requires Guarded(k.fib, t) && DelRules(k, env, t, RulesView(k.fib, t)).1
    ensures OwnRules(DelRules(k, env, t, RulesView(k.fib, t)).0.fib, t) == [] && Readable(k.fib, t)
  {
    DelRulesCount(k, env, t, RulesView(k.fib, t));
    if !Deletable(k.fib, t) {
      StuckTableStays(k, env, t, RulesView(k.fib, t));
    }
  }

  lemma {:induction false} SafeSync(k: Kernel, env: Env, t: U32, want: Option<ResolvedSpec>)
    requires SafeSoFar(k) && AllGuarded(k.fib)
    ensures var k' := SyncTable(k, env, t, want, RulesView(k.fib, t), RouteView(k.fib, t));
            SafeSoFar(k') && AllGuarded(k'.fib)
  {
    var rules, route := RulesView(k.fib, t), RouteView(k.fib, t);
    if !InSync(want, rules, route) {
      var (k1, ok1) := DelRules(k, env, t, rules);
      SafeDeletes(k, env, t, rules);
      DelRulesCount(k, env, t, rules);
      var (k2, ok2) := DelRouteIf(k1, env, t, route.Some?);
      assert |OwnRoutes(k.fib, t)| <= 1 && Guarded(k.fib, t);
      RouteViewAt(k.fib, t);
      if route.Some? {
        SafeDelete(k1, env, DelRoute(t));
        DelRouteAt(k1, env, t);
      }
      if want.Some? && ok1 && ok2 {
        ClearedIsReadable(k, env, t);
        assert |OwnRoutes(k.fib, t)| == 1 ==> OwnRoutes(k.fib, t)[0] in OwnRoutes(k.fib, t);
        SafeInstall(k2, env, t, want.value);
      }
    }
  }

  lemma {:induction false} SafeVisit(k: Kernel, env: Env, wants: map<U32, ResolvedSpec>, order: seq<U32>)
    requires SafeSoFar(k) && AllGuarded(k.fib) && Distinct(order)
    ensures var k' := Visit(k, env, wants, k.fib, order); SafeSoFar(k') && AllGuarded(k'.fib)
  {
    if order != [] {
      var n := |order| - 1;
      var k1 := Visit(k, env, wants, k.fib, order[..n]);
      SafeVisit(k, env, wants, order[..n]);
      VisitFrame(k, env, wants, k.fib, order[..n], order[n]);
      SameViews(k.fib, k1.fib, order[n]);
      SafeSync(k1, env, order[n], Get(wants, order[n]));
    }
  }

  /** Failure safety: over every run of passes with arbitrary desired lists and
      arbitrary refusals, starting from at most one rule and one route of ours
      per table, every request of the run is safe. */
  lemma {:induction false} FailureSafety(ks: seq<Kernel>, env: Env, wants: seq<map<U32, ResolvedSpec>>)
    requires Run(ks, env, wants) && ks[0].log == [] && AtMostOne(ks[0].fib) && AllGuarded(ks[0].fib)
    ensures SafeSoFar(ks[|wants|]) && AllGuarded(ks[|wants|].fib)
    decreases |wants|
  {
    if wants != [] {
      var n := |wants| - 1;
      FailureSafety(ks[..n + 1], env, wants[..n]);
      var k := ks[n];
      assert IsPass(k, env, wants[n], ks[n + 1]);
      var order :| Enumerates(order, AllTables(k.fib, wants[n])) && ks[n + 1] == Visit(k, env, wants[n], k.fib, order);
      SafeVisit(k, env, wants[n], order);
    }
  }

  // ---------- Safety fails exactly on unguarded tables ----------

  lemma {:induction false} LogGrows(k: Kernel, env: Env, ops: seq<Op>)
    ensures k.log <= Requests(k, env, ops).log
  {
    if ops != [] {
      LogGrows(k, env, ops[..|ops| - 1]);
    }
  }

  lemma {:induction false} SyncLogGrows(k: Kernel, env: Env, t: U32, want: Option<ResolvedSpec>,
                                        rules: seq<CurrentRule>, route: Option<CurrentRoute>)
    ensures k.log <= SyncTable(k, env, t, want, rules, route).log
  {
    var ops := SyncIsRequests(k, env, t, want, rules, route);
    LogGrows(k, env, ops);
  }

  lemma {:induction false} VisitLogGrows(k: Kernel, env: Env, wants: map<U32, ResolvedSpec>, snap: Fib,
                                         order: seq<U32>, n: nat)
    requires n <= |order|
    ensures Visit(k, env, wants, snap, order[..n]).log <= Visit(k, env, wants, snap, order).log
    decreases |order|
  {
    if n == |order| {
      assert order[..n] == order;
    } else {
      var m := |order| - 1;
      assert order[..m][..n] == order[..n];
      VisitLogGrows(k, env, wants, snap, order[..m], n);
      SyncLogGrows(Visit(k, env, wants, snap, order[..m]), env, order[m], Get(wants, order[m]),
                   RulesView(snap, order[m]), RouteView(snap, order[m]));
    }
  }

  lemma {:induction false} Enumeration<T(!new)>(s: set<T>) returns (order: seq<T>)
    ensures Enumerates(order, s)
  {
    if s == {} {
      order := [];
    } else {
      var x :| x in s;
      var rest := Enumeration(s - {x});
      order := [x] + rest;
    }
  }

  lemma {:induction false} EnumerationFrom<T(!new)>(s: set<T>, x: T) returns (order: seq<T>)
    requires x in s
    ensures Enumerates(order, s) && order != [] && order[0] == x
  {
    var rest := Enumeration(s - {x});
    order := [x] + rest;
  }

  /** A route we do not list, in a table whose rules can all be deleted: a granting
      kernel lets us add a rule on top of it. */
  lemma {:induction false} AddsOverUnreadable(k: Kernel, env: Env, t: U32, w: ResolvedSpec)
    requires |OwnRules(k.fib, t)| <= 1 && |OwnRoutes(k.fib, t)| <= 1 && !Guarded(k.fib, t)
    requires forall n: nat :: env.answers(n)
    ensures exists e :: e in SyncTable(k, env, t, Some(w), RulesView(k.fib, t), RouteView(k.fib, t)).log && !SafeEvent(e)
  {
    var rules := RulesView(k.fib, t);
    RouteViewAt(k.fib, t);
    assert |OwnRoutes(k.fib, t)| == 1 && RouteView(k.fib, t) == None;
    var (k1, ok1) := DelRules(k, env, t, rules);
    DelRulesCount(k, env, t, rules);
    if |rules| == 1 {
      assert rules[..0] == [] && OwnRules(k.fib, t)[0] in OwnRules(k.fib, t);
      ListedRuleIsSelected(k.fib, t, 0);
    }
    assert ok1;
    var k2 := Request(k1, env, AddRule(t, w));
    var e := k2.log[|k1.log|];
    assert e.ok && e.op == AddRule(t, w) && e.before == k1.fib;
    assert !SafeEvent(e);
    assert e in k2.log && e in Install(k1, env, t, w).log;
  }

  lemma {:induction false} UnguardedRun(fib: Fib, t: U32)
    returns (ks: seq<Kernel>, env: Env, wants: seq<map<U32, ResolvedSpec>>)
    requires AtMostOne(fib) && !Guarded(fib, t)
    ensures Run(ks, env, wants) && ks[0] == Kernel(fib, []) && !SafeSoFar(ks[|wants|])
  {
    env := Env((n: nat) => true, (n: nat) => None);
    var w := ResolvedSpec(0, 0, 0, None);
    var want: map<U32, ResolvedSpec> := map[t := w];
    var k := Kernel(fib, []);
    var order := EnumerationFrom(AllTables(fib, want), t);
    wants, ks := [want], [k, Visit(k, env, want, fib, order)];
    assert IsPass(k, env, want, ks[1]);
    UnsafeFirstVisit(k, env, want, order);
  }

  lemma {:induction false} UnsafeFirstVisit(k: Kernel, env: Env, wants: map<U32, ResolvedSpec>, order: seq<U32>)
    requires AtMostOne(k.fib) && (forall n: nat :: env.answers(n))
    requires order != [] && order[0] in wants && !Guarded(k.fib, order[0])
    ensures !SafeSoFar(Visit(k, env, wants, k.fib, order))
  {
    var t := order[0];
    assert |OwnRules(k.fib, t)| <= 1 && |OwnRoutes(k.fib, t)| <= 1;
    AddsOverUnreadable(k, env, t, wants[t]);
    var k1 := Visit(k, env, wants, k.fib, order[..1]);
    FirstVisit(k, env, wants, k.fib, order);
    var e :| e in k1.log && !SafeEvent(e);
    VisitLogGrows(k, env, wants, k.fib, order, 1);
    assert e in Visit(k, env, wants, k.fib, order).log;
  }

  lemma {:induction false} FirstVisit(k: Kernel, env: Env, wants: map<U32, ResolvedSpec>, snap: Fib, order: seq<U32>)
    requires order != []
    ensures Visit(k, env, wants, snap, order[..1])
         == SyncTable(k, env, order[0], Get(wants, order[0]), RulesView(snap, order[0]), RouteView(snap, order[0]))
  {
    assert order[..1][..0] == [];
  }

  ghost predicate SafeForever(fib: Fib) {
    forall ks: seq<Kernel>, env, wants :: Run(ks, env, wants) && ks[0] == Kernel(fib, []) ==> SafeSoFar(ks[|wants|])
  }

  /** From at most one rule and one route of ours per table, every run is safe if
      and only if every table is guarded. */
  lemma {:induction false} SafeExactlyIfGuarded(fib: Fib)
    requires AtMostOne(fib)
    ensures SafeForever(fib) <==> AllGuarded(fib)
  {
    if AllGuarded(fib) {
      forall ks: seq<Kernel>, env, wants | Run(ks, env, wants) && ks[0] == Kernel(fib, [])
        ensures SafeSoFar(ks[|wants|])
      {
        FailureSafety(ks, env, wants);
      }
    } else {
      var t: U32 :| !Guarded(fib, t);
      var ks, env, wants := UnguardedRun(fib, t);
    }
  }

  /** An instance: one route under our protocol that names no gateway. */
  lemma {:induction false} UnreadableRouteIsUnsafe(t: U32)
    ensures var m := RouteMsg(Inet, DUMBARP_PROTO, 0, false, [RouteTable(t)]);
            AtMostOne(Fib([], [m])) && !SafeForever(Fib([], [m]))
  {
    var m := RouteMsg(Inet, DUMBARP_PROTO, 0, false, [RouteTable(t)]);
    SingleRoute(m);
    assert RouteOwner(m) == Some(t) && ParseRoute(m) == None by {
      RouteScanAppend([], RouteTable(t));
      assert [] + [RouteTable(t)] == m.attrs;
    }
    assert m in OwnRoutes(Fib([], [m]), t);
    assert !Guarded(Fib([], [m]), t);
    SafeExactlyIfGuarded(Fib([], [m]));
  }

  lemma {:induction false} SingleRoute(m: RouteMsg)
    ensures AtMostOne(Fib([], [m]))
  {
    forall u: U32 ensures |OwnRoutes(Fib([], [m]), u)| <= 1 {
      PartAppend(RouteOwner, [], m, Some(u));
      assert [] + [m] == [m];
    }
  }
}
