/** The visiting order of the unordered table set does not matter: a pass whose
    requests are all granted ends the same way for every order, and whichever
    matching object the kernel unlinks. */
module RoutingConfluence {
  import opened Base
  import opened Partition
  import opened Routing
  import opened RoutingSafety
  import opened RoutingConvergence

  /** k' extends k's log, and every request in between was granted. */
  ghost predicate AllGranted(k: Kernel, k': Kernel) {
    k.log <= k'.log && forall i :: |k.log| <= i < |k'.log| ==> k'.log[i].ok
  }

  lemma {:induction false} GrantedDeletes(k: Kernel, env: Env, t: U32, rules: seq<CurrentRule>)
    requires AllGranted(k, DelRules(k, env, t, rules).0)
    ensures DelRules(k, env, t, rules).1
  {
    if rules != [] {
      var n := |rules| - 1;
      var k1 := DelRules(k, env, t, rules[..n]).0;
      var k2 := DelRules(k, env, t, rules).0;
      var ops := DelRulesIsRequests(k, env, t, rules[..n]);
      LogGrows(k, env, ops);
      forall i | |k.log| <= i < |k1.log| ensures k1.log[i].ok {
        assert k2.log[i].ok;
      }
      GrantedDeletes(k, env, t, rules[..n]);
      assert k2.log[|k1.log|].ok;
    }
  }

  /** What a fully granted visit leaves in table t. */
  function GoalRules(fib: Fib, want: Option<ResolvedSpec>, t: U32): seq<RuleMsg> {
    if InSync(want, RulesView(fib, t), RouteView(fib, t)) then OwnRules(fib, t)
    else if want.Some? then [BuildRule(t, want.value)] else []
  }

  function GoalRoutes(fib: Fib, want: Option<ResolvedSpec>, t: U32): seq<RouteMsg> {
    if InSync(want, RulesView(fib, t), RouteView(fib, t)) then OwnRoutes(fib, t)
    else if want.Some? then [BuildRoute(t, want.value)] else []
  }

  ghost predicate AtGoal(before: Fib, after: Fib, want: Option<ResolvedSpec>, t: U32) {
    OwnRules(after, t) == GoalRules(before, want, t) && OwnRoutes(after, t) == GoalRoutes(before, want, t)
  }

  lemma {:induction false} GrantedDeletePhase(k: Kernel, env: Env, t: U32)
    requires TidyRoutes(k.fib)
    requires var k1 := DelRules(k, env, t, RulesView(k.fib, t)).0;
             AllGranted(k, DelRouteIf(k1, env, t, RouteView(k.fib, t).Some?).0)
    ensures var (k1, ok1) := DelRules(k, env, t, RulesView(k.fib, t));
            var (k2, ok2) := DelRouteIf(k1, env, t, RouteView(k.fib, t).Some?);
            && ok1 && ok2 && TidyRoutes(k2.fib)
            && OwnRules(k2.fib, t) == [] && OwnRoutes(k2.fib, t) == []
  {
    var rules, route := RulesView(k.fib, t), RouteView(k.fib, t);
    var k1 := DelRules(k, env, t, rules).0;
    var k2 := DelRouteIf(k1, env, t, route.Some?).0;
    var ops := DelRulesIsRequests(k, env, t, rules);
    LogGrows(k, env, ops);
    forall i | |k.log| <= i < |k1.log| ensures k1.log[i].ok {
      assert k2.log[i].ok;
    }
    GrantedDeletes(k, env, t, rules);
    DelRulesCount(k, env, t, rules);
    RouteViewSome(k.fib, t);
    if route.Some? {
      assert k2.log[|k1.log|].ok;
      DelRouteCount(k1, env, t);
    }
  }

  lemma {:induction false} GrantedInstall(k: Kernel, env: Env, t: U32, w: ResolvedSpec)
    requires AllGranted(k, Install(k, env, t, w))
    ensures Granted(k, env, AddRule(t, w))
    ensures Granted(Request(k, env, AddRule(t, w)), env, AddRoute(t, w))
  {
    var k' := Install(k, env, t, w);
    assert k'.log[|k.log|].ok;
    assert k'.log[|k.log| + 1].ok;
  }

  lemma {:induction false} GrantedSync(k: Kernel, env: Env, t: U32, want: Option<ResolvedSpec>)
    requires TidyRoutes(k.fib)
    requires AllGranted(k, SyncTable(k, env, t, want, RulesView(k.fib, t), RouteView(k.fib, t)))
    ensures AtGoal(k.fib, SyncTable(k, env, t, want, RulesView(k.fib, t), RouteView(k.fib, t)).fib, want, t)
  {
    var rules, route := RulesView(k.fib, t), RouteView(k.fib, t);
    if !InSync(want, rules, route) {
      var (k1, ok1) := DelRules(k, env, t, rules);
      var (k2, ok2) := DelRouteIf(k1, env, t, route.Some?);
      var k' := SyncTable(k, env, t, want, rules, route);
      assert k2.log <= k'.log;
      var ops := SyncIsRequests(k, env, t, None, rules, route);
      LogGrows(k, env, ops);
      assert k.log <= k2.log;
      forall i | |k.log| <= i < |k2.log| ensures k2.log[i].ok {
        assert k'.log[i].ok;
      }
      GrantedDeletePhase(k, env, t);
      if want.Some? {
        GrantedInstall(k2, env, t, want.value);
        InstallResult(k2, env, t, want.value);
      }
    }
  }

  lemma {:induction false} GrantedVisit(k: Kernel, env: Env, wants: map<U32, ResolvedSpec>, order: seq<U32>, t: U32)
    requires TidyRoutes(k.fib) && Distinct(order) && t in order
    requires AllGranted(k, Visit(k, env, wants, k.fib, order))
    ensures AtGoal(k.fib, Visit(k, env, wants, k.fib, order).fib, Get(wants, t), t)
  {
    var n := |order| - 1;
    var u := order[n];
    VisitStep(k, env, wants, order);
    var k1 := Visit(k, env, wants, k.fib, order[..n]);
    var k2 := Visit(k, env, wants, k.fib, order);
    var first := VisitIsRequests(k, env, wants, k.fib, order[..n]);
    LogGrows(k, env, first);
    var ops := SyncIsRequests(k1, env, u, Get(wants, u), RulesView(k1.fib, u), RouteView(k1.fib, u));
    LogGrows(k1, env, ops);
    if u == t {
      GrantedSync(k1, env, t, Get(wants, t));
      SameViews(k.fib, k1.fib, t);
    } else {
      forall i | |k.log| <= i < |k1.log| ensures k1.log[i].ok {
        assert k2.log[i].ok;
      }
      GrantedVisit(k, env, wants, order[..n], t);
      RequestsFrame(k1, env, ops, Some(t));
    }
  }

  lemma {:induction false} GrantedPass(k: Kernel, env: Env, wants: map<U32, ResolvedSpec>, k': Kernel, t: U32)
    requires TidyRoutes(k.fib) && IsPass(k, env, wants, k') && AllGranted(k, k')
    ensures AtGoal(k.fib, k'.fib, Get(wants, t), t)
  {
    var order :| Enumerates(order, AllTables(k.fib, wants)) && k' == Visit(k, env, wants, k.fib, order);
    if t in order {
      GrantedVisit(k, env, wants, order, t);
    } else {
      OwnTablesAreListed(k.fib, t);
      VisitFrame(k, env, wants, k.fib, order, t);
    }
  }

  /** Confluence: two fully granted passes from one state agree on every table
      and on everything foreign, for any two visiting orders and kernels. */
  lemma {:induction false} Confluence(k: Kernel, e1: Env, k1: Kernel, e2: Env, k2: Kernel,
                   wants: map<U32, ResolvedSpec>, c: Option<U32>)
    requires TidyRoutes(k.fib)
    requires IsPass(k, e1, wants, k1) && AllGranted(k, k1)
    requires IsPass(k, e2, wants, k2) && AllGranted(k, k2)
    ensures SameAt(k1.fib, k2.fib, c)
  {
    if c.Some? {
      GrantedPass(k, e1, wants, k1, c.value);
      GrantedPass(k, e2, wants, k2, c.value);
    } else {
      var ops1 := PassIsRequests(k, e1, wants, k1);
      var ops2 := PassIsRequests(k, e2, wants, k2);
      RequestsFrame(k, e1, ops1, None);
      RequestsFrame(k, e2, ops2, None);
    }
  }

  /** A fully granted pass towards non-zero marks brings table t to its goal if
      and only if the pass does not find, and accept, a rule there that only
      reads as wanted; whatever else the kernel does. */
  lemma {:induction false} GrantedPassReachesGoal(k: Kernel, env: Env, wants: map<U32, ResolvedSpec>,
                                                  k': Kernel, t: U32)
    requires TidyRoutes(k.fib) && IsPass(k, env, wants, k') && AllGranted(k, k')
    requires t in wants ==> wants[t].fwmark != Some(0)
    ensures TidyRoutes(k'.fib)
    ensures Holds(k'.fib, Get(wants, t), t) <==> (Settled(k.fib, Get(wants, t), t) ==> PlainRules(k.fib, t))
  {
    PassTidy(k, env, wants, k');
    GrantedPass(k, env, wants, k', t);
    SettledIsInSync(k.fib, Get(wants, t), t);
    if InSync(Get(wants, t), RulesView(k.fib, t), RouteView(k.fib, t)) {
      SameSettled(k.fib, k'.fib, Get(wants, t), t);
      HoldsIffPlain(k'.fib, Get(wants, t), t);
    } else if t in wants {
      BuiltHolds(k'.fib, t, wants[t]);
    }
  }
}
