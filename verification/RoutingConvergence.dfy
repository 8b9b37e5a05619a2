/** Where repeated passes end up when the kernel cooperates, and exactly when
    that is the desired state. */
module RoutingConvergence {
  import opened Base
  import opened Partition
  import opened Routing
  import opened RoutingSafety

  /** Adds succeed, and a delete succeeds whenever something matches it. */
  ghost predicate Cooperative(env: Env) {
    forall n: nat :: env.answers(n)
  }

  // ---------- The goal, and what the program takes for it ----------

  /** The route is the one wanted. */
  ghost predicate RouteReadsAs(m: RouteMsg, t: U32, w: ResolvedSpec) {
    ParseRoute(m) == Some((t, CurrentRoute(w.gateway, w.ifindex, true)))
  }

  /** Table t holds exactly what is wanted: one rule that reads as specified and
      covers exactly the packets specified, and one route as specified; or
      nothing of ours at all. */
  ghost predicate Holds(fib: Fib, want: Option<ResolvedSpec>, t: U32) {
    if want.Some? then
      && |OwnRules(fib, t)| == 1 && ReadsAs(OwnRules(fib, t)[0], t, want.value)
      && Exact(OwnRules(fib, t)[0], want.value)
      && |OwnRoutes(fib, t)| == 1 && RouteReadsAs(OwnRoutes(fib, t)[0], t, want.value)
    else OwnRules(fib, t) == [] && OwnRoutes(fib, t) == []
  }

  ghost predicate AllHold(fib: Fib, wants: map<U32, ResolvedSpec>) {
    forall t: U32 :: Holds(fib, Get(wants, t), t)
  }

  /** What a pass leaves alone: its own test of rules and route succeeds, or
      there is nothing of ours and nothing wanted. */
  ghost predicate Settled(fib: Fib, want: Option<ResolvedSpec>, t: U32) {
    if want.Some? then InSync(want, RulesView(fib, t), RouteView(fib, t))
    else OwnRules(fib, t) == [] && OwnRoutes(fib, t) == []
  }

  ghost predicate AllSettled(fib: Fib, wants: map<U32, ResolvedSpec>) {
    forall t: U32 :: Settled(fib, Get(wants, t), t)
  }

  ghost predicate PlainRules(fib: Fib, t: U32) {
    forall m :: m in OwnRules(fib, t) ==> Plain(m)
  }

  lemma {:induction false} OwnRuleReads(fib: Fib, t: U32, w: ResolvedSpec)
    requires |OwnRules(fib, t)| == 1
    ensures RulesView(fib, t)[0].Matches(w) <==> ReadsAs(OwnRules(fib, t)[0], t, w)
  {
    assert OwnRules(fib, t)[0] in OwnRules(fib, t);
  }

  lemma {:induction false} OwnRouteReads(fib: Fib, t: U32, w: ResolvedSpec)
    requires TidyRoutes(fib)
    ensures (|OwnRoutes(fib, t)| == 1 && RouteReadsAs(OwnRoutes(fib, t)[0], t, w))
       <==> RouteView(fib, t) == Some(CurrentRoute(w.gateway, w.ifindex, true))
  {
    RouteViewSome(fib, t);
  }

  /** The goal is reached exactly where the program is content and the rule it is
      content with is plain. */
  lemma {:induction false} HoldsIffPlain(fib: Fib, want: Option<ResolvedSpec>, t: U32)
    requires TidyRoutes(fib)
    ensures Holds(fib, want, t) <==> Settled(fib, want, t) && PlainRules(fib, t)
  {
    if want.Some? {
      OwnRouteReads(fib, t, want.value);
      if |OwnRules(fib, t)| == 1 {
        var m := OwnRules(fib, t)[0];
        OwnRuleReads(fib, t, want.value);
        assert PlainRules(fib, t) <==> Plain(m) by {
          assert m in OwnRules(fib, t);
        }
        if ReadsAs(m, t, want.value) {
          ExactIffPlain(m, t, want.value);
        }
      }
    }
  }

  lemma {:induction false} SettledIsInSync(fib: Fib, want: Option<ResolvedSpec>, t: U32)
    requires TidyRoutes(fib)
    ensures want.Some? ==> (Settled(fib, want, t) <==> InSync(want, RulesView(fib, t), RouteView(fib, t)))
    ensures want.None? ==> !InSync(want, RulesView(fib, t), RouteView(fib, t))
    ensures want.None? && Settled(fib, want, t) ==> PlainRules(fib, t)
  {
  }

  lemma {:induction false} SameSettled(a: Fib, b: Fib, want: Option<ResolvedSpec>, t: U32)
    requires SameAt(a, b, Some(t))
    ensures Settled(a, want, t) <==> Settled(b, want, t)
    ensures Holds(a, want, t) <==> Holds(b, want, t)
    ensures PlainRules(a, t) <==> PlainRules(b, t)
    ensures Deletable(a, t) <==> Deletable(b, t)
  {
    SameViews(a, b, t);
  }

  /** No wanted mark is 0, our deletes can name every rule of ours in the table,
      and if the program is content with the table as it is, rightly so. */
  ghost predicate Attainable(fib: Fib, want: Option<ResolvedSpec>, t: U32) {
    && (want.Some? ==> want.value.fwmark != Some(0))
    && Deletable(fib, t)
    && (Settled(fib, want, t) ==> PlainRules(fib, t))
  }

  // ---------- One table, one pass ----------

  /** The state of table t after a cooperative visit, in terms of what it held before. */
  ghost predicate Progress(before: Fib, after: Fib, want: Option<ResolvedSpec>, t: U32) {
    && (Settled(before, want, t) ==> SameAt(before, after, Some(t)))
    && (!Settled(before, want, t) && Deletable(before, t) ==>
          || Holds(after, want, t)
          || (Clearing(after, t) && |OwnRules(after, t)| < |OwnRules(before, t)|))
    && (!Settled(before, want, t) && !Deletable(before, t) ==> Stuck(after, t))
  }

  /** Some but not all of the table's rules have been deleted. */
  ghost predicate Clearing(fib: Fib, t: U32) {
    Deletable(fib, t) && OwnRules(fib, t) != [] && OwnRoutes(fib, t) == []
  }

  ghost predicate Stuck(fib: Fib, t: U32) {
    !Deletable(fib, t) && OwnRoutes(fib, t) == []
  }

  lemma {:induction false} UnfinishedIsUnsettled(fib: Fib, want: Option<ResolvedSpec>, t: U32)
    requires TidyRoutes(fib) && (Clearing(fib, t) || Stuck(fib, t))
    ensures !Settled(fib, want, t) && !Holds(fib, want, t)
  {
    RouteViewSome(fib, t);
  }

  /** Deleting a full listing either empties the table or still removes at least one rule. */
  lemma {:induction false} DeletesProgress(k: Kernel, env: Env, t: U32, rules: seq<CurrentRule>)
    requires Cooperative(env) && rules != []
    requires exists m :: m in k.fib.rules && Selects(DelRule(t, rules[0].src, rules[0].fwmark), m)
    ensures |OwnRules(DelRules(k, env, t, rules).0.fib, t)| < |OwnRules(k.fib, t)|
  {
    var n := |rules| - 1;
    DelRulesCount(k, env, t, rules[..n]);
    var k1 := DelRules(k, env, t, rules[..n]).0;
    var op := DelRule(t, rules[n].src, rules[n].fwmark);
    DelRuleCount(k1, env, op);
    if n == 0 {
      assert k1 == k;
    } else {
      DeletesProgress(k, env, t, rules[..n]);
    }
  }

  lemma {:induction false} BuiltHolds(fib: Fib, t: U32, w: ResolvedSpec)
    requires w.fwmark != Some(0)
    requires OwnRules(fib, t) == [BuildRule(t, w)] && OwnRoutes(fib, t) == [BuildRoute(t, w)]
    ensures Holds(fib, Some(w), t)
  {
    BuiltRuleIsPlain(t, w);
    ExactIffPlain(BuildRule(t, w), t, w);
    BuiltRouteParses(t, w);
  }

  lemma {:induction false} InstallResult(k: Kernel, env: Env, t: U32, w: ResolvedSpec)
    requires TidyRoutes(k.fib) && OwnRules(k.fib, t) == [] && OwnRoutes(k.fib, t) == []
    requires Granted(k, env, AddRule(t, w))
    requires Granted(Request(k, env, AddRule(t, w)), env, AddRoute(t, w))
    ensures OwnRules(Install(k, env, t, w).fib, t) == [BuildRule(t, w)]
    ensures OwnRoutes(Install(k, env, t, w).fib, t) == [BuildRoute(t, w)]
  {
    AddRuleCount(k, env, t, w);
    AddRouteCount(Request(k, env, AddRule(t, w)), env, t, w);
  }

  lemma {:induction false} SettledTableIsLeftAlone(fib: Fib, want: Option<ResolvedSpec>, t: U32, k: Kernel, env: Env)
    requires TidyRoutes(fib) && Settled(fib, want, t)
    ensures SyncTable(k, env, t, want, RulesView(fib, t), RouteView(fib, t)) == k
  {
    RouteViewSome(fib, t);
  }

  /** What a cooperative kernel leaves in table t once the delete requests have been sent. */
  lemma {:induction false} DeletePhase(k: Kernel, env: Env, t: U32)
    requires Cooperative(env) && TidyRoutes(k.fib)
    ensures var (k1, ok1) := DelRules(k, env, t, RulesView(k.fib, t));
            var (k2, ok2) := DelRouteIf(k1, env, t, RouteView(k.fib, t).Some?);
            && ok2 && TidyRoutes(k2.fib) && OwnRoutes(k2.fib, t) == []
            && k2.fib.rules == k1.fib.rules
            && (forall m :: m in OwnRules(k2.fib, t) ==> m in OwnRules(k.fib, t))
            && (ok1 <==> OwnRules(k2.fib, t) == [])
  {
    var (k1, ok1) := DelRules(k, env, t, RulesView(k.fib, t));
    DelRulesCount(k, env, t, RulesView(k.fib, t));
    RouteViewSome(k.fib, t);
    if RouteView(k.fib, t).Some? {
      DelRouteCount(k1, env, t);
      assert OwnRoutes(k1.fib, t)[0] in OwnRoutes(k1.fib, t);
    }
  }

  lemma {:induction false} SyncStuck(k: Kernel, env: Env, t: U32, want: Option<ResolvedSpec>)
    requires Cooperative(env) && TidyRoutes(k.fib)
    requires !Settled(k.fib, want, t) && !Deletable(k.fib, t)
    ensures Stuck(SyncTable(k, env, t, want, RulesView(k.fib, t), RouteView(k.fib, t)).fib, t)
  {
    DeletePhase(k, env, t);
    StuckTableStays(k, env, t, RulesView(k.fib, t));
    SettledIsInSync(k.fib, want, t);
  }

  /** Once every delete was granted, the table ends as wanted. */
  lemma {:induction false} SyncCleared(k: Kernel, env: Env, t: U32, want: Option<ResolvedSpec>)
    requires Cooperative(env) && TidyRoutes(k.fib) && (want.Some? ==> want.value.fwmark != Some(0))
    requires !Settled(k.fib, want, t) && DelRules(k, env, t, RulesView(k.fib, t)).1
    ensures Holds(SyncTable(k, env, t, want, RulesView(k.fib, t), RouteView(k.fib, t)).fib, want, t)
  {
    DeletePhase(k, env, t);
    if want.Some? {
      var k1 := DelRules(k, env, t, RulesView(k.fib, t)).0;
      var k2 := DelRouteIf(k1, env, t, RouteView(k.fib, t).Some?).0;
      InstallResult(k2, env, t, want.value);
      BuiltHolds(Install(k2, env, t, want.value).fib, t, want.value);
    }
  }

  lemma {:induction false} SyncDrift(k: Kernel, env: Env, t: U32, want: Option<ResolvedSpec>)
    requires Cooperative(env) && TidyRoutes(k.fib) && (want.Some? ==> want.value.fwmark != Some(0))
    requires !Settled(k.fib, want, t) && Deletable(k.fib, t)
    ensures var after := SyncTable(k, env, t, want, RulesView(k.fib, t), RouteView(k.fib, t)).fib;
            Holds(after, want, t) || (Clearing(after, t) && |OwnRules(after, t)| < |OwnRules(k.fib, t)|)
  {
    if DelRules(k, env, t, RulesView(k.fib, t)).1 {
      SyncCleared(k, env, t, want);
    } else {
      DeletePhase(k, env, t);
      ListedRuleIsSelected(k.fib, t, 0);
      assert OwnRules(k.fib, t)[0] in OwnRules(k.fib, t);
      DeletesProgress(k, env, t, RulesView(k.fib, t));
    }
  }

  lemma {:induction false} SyncProgress(k: Kernel, env: Env, t: U32, want: Option<ResolvedSpec>)
    requires Cooperative(env) && TidyRoutes(k.fib) && (want.Some? ==> want.value.fwmark != Some(0))
    ensures Progress(k.fib, SyncTable(k, env, t, want, RulesView(k.fib, t), RouteView(k.fib, t)).fib, want, t)
  {
    if Settled(k.fib, want, t) {
      SettledTableIsLeftAlone(k.fib, want, t, k, env);
    } else if Deletable(k.fib, t) {
      SyncDrift(k, env, t, want);
    } else {
      SyncStuck(k, env, t, want);
    }
  }

  // ---------- One table, over a whole pass ----------

  lemma {:induction false} SyncTidy(k: Kernel, env: Env, t: U32, want: Option<ResolvedSpec>)
    requires TidyRoutes(k.fib)
    ensures TidyRoutes(SyncTable(k, env, t, want, RulesView(k.fib, t), RouteView(k.fib, t)).fib)
  {
    var rules, route := RulesView(k.fib, t), RouteView(k.fib, t);
    var (k1, ok1) := DelRules(k, env, t, rules);
    DelRulesCount(k, env, t, rules);
    RouteViewSome(k.fib, t);
    var (k2, ok2) := DelRouteIf(k1, env, t, route.Some?);
    DelRouteCount(k1, env, t);
    if want.Some? && ok1 && ok2 {
      AddRuleCount(k2, env, t, want.value);
      AddRouteCount(Request(k2, env, AddRule(t, want.value)), env, t, want.value);
    }
  }

  /** Visiting table order[n] reads the listing as if it had just been taken. */
  lemma {:induction false} VisitStep(k: Kernel, env: Env, wants: map<U32, ResolvedSpec>, order: seq<U32>)
    requires TidyRoutes(k.fib) && Distinct(order) && order != []
    ensures var t, k1 := order[|order| - 1], Visit(k, env, wants, k.fib, order[..|order| - 1]);
            && TidyRoutes(k1.fib) && SameAt(k.fib, k1.fib, Some(t))
            && Visit(k, env, wants, k.fib, order)
               == SyncTable(k1, env, t, Get(wants, t), RulesView(k1.fib, t), RouteView(k1.fib, t))
            && TidyRoutes(Visit(k, env, wants, k.fib, order).fib)
  {
    var n := |order| - 1;
    var k1 := Visit(k, env, wants, k.fib, order[..n]);
    if n > 0 {
      VisitStep(k, env, wants, order[..n]);
    }
    VisitFrame(k, env, wants, k.fib, order[..n], order[n]);
    SameViews(k.fib, k1.fib, order[n]);
    SyncTidy(k1, env, order[n], Get(wants, order[n]));
  }

  /** The kernel k1 that a pass visits table t in; nothing before or after touches t. */
  lemma {:induction false} VisitAt(k: Kernel, env: Env, wants: map<U32, ResolvedSpec>, order: seq<U32>, t: U32)
    returns (k1: Kernel)
    requires TidyRoutes(k.fib) && Distinct(order) && t in order
    ensures TidyRoutes(k1.fib) && SameAt(k.fib, k1.fib, Some(t))
    ensures SameAt(SyncTable(k1, env, t, Get(wants, t), RulesView(k1.fib, t), RouteView(k1.fib, t)).fib,
                   Visit(k, env, wants, k.fib, order).fib, Some(t))
  {
    var n := |order| - 1;
    VisitStep(k, env, wants, order);
    var kn := Visit(k, env, wants, k.fib, order[..n]);
    if order[n] == t {
      k1 := kn;
    } else {
      k1 := VisitAt(k, env, wants, order[..n], t);
      var u := order[n];
      var ops := SyncIsRequests(kn, env, u, Get(wants, u), RulesView(kn.fib, u), RouteView(kn.fib, u));
      RequestsFrame(kn, env, ops, Some(t));
    }
  }

  lemma {:induction false} OwnTablesAreListed(fib: Fib, t: U32)
    requires TidyRoutes(fib)
    ensures OwnRules(fib, t) != [] ==> t in RuleTables(fib.rules)
    ensures OwnRoutes(fib, t) != [] ==> t in RouteTables(fib.routes)
  {
    if OwnRules(fib, t) != [] {
      var m := OwnRules(fib, t)[0];
      assert m in OwnRules(fib, t);
    }
    RouteViewSome(fib, t);
    if OwnRoutes(fib, t) != [] {
      var m := OwnRoutes(fib, t)[0];
      assert m in OwnRoutes(fib, t) && ParseRoute(m).Some?;
    }
  }

  lemma {:induction false} UnlistedTableIsEmpty(fib: Fib, wants: map<U32, ResolvedSpec>, t: U32)
    requires TidyRoutes(fib) && t !in AllTables(fib, wants)
    ensures Settled(fib, Get(wants, t), t)
  {
    OwnTablesAreListed(fib, t);
  }

  lemma {:induction false} PassTidy(k: Kernel, env: Env, wants: map<U32, ResolvedSpec>, k': Kernel)
    requires TidyRoutes(k.fib) && IsPass(k, env, wants, k')
    ensures TidyRoutes(k'.fib)
  {
    var order :| Enumerates(order, AllTables(k.fib, wants)) && k' == Visit(k, env, wants, k.fib, order);
    if order != [] {
      VisitStep(k, env, wants, order);
    }
  }

  lemma {:induction false} SameProgress(a: Fib, a': Fib, b: Fib, b': Fib, want: Option<ResolvedSpec>, t: U32)
    requires SameAt(a, a', Some(t)) && SameAt(b, b', Some(t)) && Progress(a', b, want, t)
    ensures Progress(a, b', want, t)
  {
    SameSettled(a, a', want, t);
    SameSettled(b, b', want, t);
  }

  lemma {:induction false} PassProgress(k: Kernel, env: Env, wants: map<U32, ResolvedSpec>, k': Kernel, t: U32)
    requires Cooperative(env) && TidyRoutes(k.fib) && IsPass(k, env, wants, k')
    requires t in wants ==> wants[t].fwmark != Some(0)
    ensures Progress(k.fib, k'.fib, Get(wants, t), t)
  {
    var order :| Enumerates(order, AllTables(k.fib, wants)) && k' == Visit(k, env, wants, k.fib, order);
    if t in order {
      var k1 := VisitAt(k, env, wants, order, t);
      SyncProgress(k1, env, t, Get(wants, t));
      SameProgress(k.fib, k1.fib,
                   SyncTable(k1, env, t, Get(wants, t), RulesView(k1.fib, t), RouteView(k1.fib, t)).fib,
                   k'.fib, Get(wants, t), t);
    } else {
      UnlistedTableIsEmpty(k.fib, wants, t);
      VisitFrame(k, env, wants, k.fib, order, t);
    }
  }

  // ---------- Repeated passes ----------

  /** Consecutive passes towards one fixed desired state. */
  ghost predicate SteadyRun(ks: seq<Kernel>, env: Env, wants: map<U32, ResolvedSpec>) {
    ks != [] && forall i :: 0 <= i < |ks| - 1 ==> IsPass(ks[i], env, wants, ks[i + 1])
  }

  /** Where table t is after i passes. */
  ghost predicate Trajectory(start: Fib, fib: Fib, i: nat, want: Option<ResolvedSpec>, t: U32) {
    && (Settled(start, want, t) ==> SameAt(start, fib, Some(t)))
    && (!Settled(start, want, t) && Deletable(start, t) && i > 0 ==>
          || Holds(fib, want, t)
          || (Clearing(fib, t) && |OwnRules(fib, t)| <= |OwnRules(start, t)| - i))
    && (!Settled(start, want, t) && !Deletable(start, t) && i > 0 ==> Stuck(fib, t))
  }

  lemma {:induction false} TrajectoryStep(start: Fib, fib: Fib, i: nat, fib': Fib, want: Option<ResolvedSpec>, t: U32)
    requires TidyRoutes(fib) && (i == 0 ==> fib == start)
    requires Trajectory(start, fib, i, want, t) && Progress(fib, fib', want, t)
    ensures Trajectory(start, fib', i + 1, want, t)
  {
    if Settled(start, want, t) {
      SameSettled(start, fib, want, t);
    } else if i > 0 && Holds(fib, want, t) {
      HoldsIffPlain(fib, want, t);
      SameSettled(fib, fib', want, t);
    } else if i > 0 {
      UnfinishedIsUnsettled(fib, want, t);
    }
  }

  lemma {:induction false} TidyThroughout(ks: seq<Kernel>, env: Env, wants: map<U32, ResolvedSpec>, i: nat)
    requires SteadyRun(ks, env, wants) && TidyRoutes(ks[0].fib) && i < |ks|
    ensures TidyRoutes(ks[i].fib)
  {
    if i > 0 {
      TidyThroughout(ks, env, wants, i - 1);
      assert IsPass(ks[i - 1], env, wants, ks[i - 1 + 1]);
      PassTidy(ks[i - 1], env, wants, ks[i]);
    }
  }

  lemma {:induction false} StepProgress(ks: seq<Kernel>, env: Env, wants: map<U32, ResolvedSpec>, t: U32, i: nat)
    requires SteadyRun(ks, env, wants) && Cooperative(env) && TidyRoutes(ks[0].fib) && 0 < i < |ks|
    requires t in wants ==> wants[t].fwmark != Some(0)
    ensures TidyRoutes(ks[i - 1].fib) && Progress(ks[i - 1].fib, ks[i].fib, Get(wants, t), t)
  {
    TidyThroughout(ks, env, wants, i - 1);
    assert IsPass(ks[i - 1], env, wants, ks[i - 1 + 1]);
    PassProgress(ks[i - 1], env, wants, ks[i], t);
  }

  lemma {:induction false} Trajectories(ks: seq<Kernel>, env: Env, wants: map<U32, ResolvedSpec>, t: U32, i: nat)
    requires SteadyRun(ks, env, wants) && Cooperative(env) && TidyRoutes(ks[0].fib) && i < |ks|
    requires t in wants ==> wants[t].fwmark != Some(0)
    ensures Trajectory(ks[0].fib, ks[i].fib, i, Get(wants, t), t)
  {
    if i > 0 {
      Trajectories(ks, env, wants, t, i - 1);
      StepProgress(ks, env, wants, t, i);
      TrajectoryStep(ks[0].fib, ks[i - 1].fib, i - 1, ks[i].fib, Get(wants, t), t);
    }
  }

  lemma {:induction false} ZeroMarkNeverSettles(fib: Fib, w: ResolvedSpec, t: U32)
    requires w.fwmark == Some(0)
    ensures !Settled(fib, Some(w), t) && !Holds(fib, Some(w), t)
  {
    var own := OwnRules(fib, t);
    if |own| == 1 {
      assert own[0] in own;
    }
  }

  lemma {:induction false} EndOfTrajectory(start: Fib, end: Fib, i: nat, want: Option<ResolvedSpec>, t: U32)
    requires TidyRoutes(start) && TidyRoutes(end) && i > 0 && |OwnRules(start, t)| <= i
    requires Trajectory(start, end, i, want, t) && (want.Some? ==> want.value.fwmark != Some(0))
    ensures Holds(end, want, t) <==> Attainable(start, want, t)
  {
    if Settled(start, want, t) {
      SameSettled(start, end, want, t);
      HoldsIffPlain(start, want, t);
    } else if !Deletable(start, t) {
      UnfinishedIsUnsettled(end, want, t);
    }
  }

  /** Convergence: with the desired state fixed and a cooperative kernel that may
      unlink any matching rule, from at most n rules of ours in any table, once
      max(1, n) passes have run a table holds exactly what is wanted if and only
      if its wanted mark is not 0, its rules all look up a table, and a rule the
      program takes for the wanted one at the start is plain. */
  lemma {:induction false} Convergence(ks: seq<Kernel>, env: Env, wants: map<U32, ResolvedSpec>, n: nat)
    requires SteadyRun(ks, env, wants) && Cooperative(env) && TidyRoutes(ks[0].fib)
    requires forall t: U32 :: |OwnRules(ks[0].fib, t)| <= n
    requires |ks| > n && |ks| > 1
    ensures forall t: U32 :: Holds(ks[|ks| - 1].fib, Get(wants, t), t) <==> Attainable(ks[0].fib, Get(wants, t), t)
  {
    var start, end := ks[0].fib, ks[|ks| - 1].fib;
    TidyThroughout(ks, env, wants, |ks| - 1);
    forall t: U32 ensures Holds(end, Get(wants, t), t) <==> Attainable(start, Get(wants, t), t) {
      if t in wants && wants[t].fwmark == Some(0) {
        ZeroMarkNeverSettles(end, wants[t], t);
      } else {
        assert |OwnRules(start, t)| <= n;
        Trajectories(ks, env, wants, t, |ks| - 1);
        EndOfTrajectory(start, end, |ks| - 1, Get(wants, t), t);
      }
    }
  }

  /** All of it at once: where every recognised rule is plain, the whole desired
      state is reached if and only if no wanted mark is 0. */
  lemma {:induction false} ConvergenceFromPlain(ks: seq<Kernel>, env: Env, wants: map<U32, ResolvedSpec>, n: nat)
    requires SteadyRun(ks, env, wants) && Cooperative(env) && TidyRoutes(ks[0].fib)
    requires forall t: U32 :: |OwnRules(ks[0].fib, t)| <= n && PlainRules(ks[0].fib, t)
    requires |ks| > n && |ks| > 1
    ensures AllHold(ks[|ks| - 1].fib, wants) <==> forall t :: t in wants ==> wants[t].fwmark != Some(0)
  {
    Convergence(ks, env, wants, n);
    var end := ks[|ks| - 1].fib;
    if AllHold(end, wants) {
      forall t | t in wants ensures wants[t].fwmark != Some(0) {
        assert Holds(end, Get(wants, t), t);
        assert Attainable(ks[0].fib, Get(wants, t), t);
      }
    } else {
      var t: U32 :| !Holds(end, Get(wants, t), t);
      assert !Attainable(ks[0].fib, Get(wants, t), t);
      assert PlainRules(ks[0].fib, t);
    }
  }

  /** A family of concrete failures: a rule exactly like the one wanted but with
      another action is recognised as ours, yet no number of passes replaces it
      and the route is never installed. */
  lemma {:induction false} OtherActionIsStuck(ks: seq<Kernel>, env: Env, t: U32, w: ResolvedSpec)
    requires SteadyRun(ks, env, map[t := w]) && Cooperative(env) && |ks| > 1
    requires ks[0].fib == Fib([BuildRule(t, w).(action := OtherAction)], [])
    ensures !Holds(ks[|ks| - 1].fib, Some(w), t)
  {
    var m, fib := BuildRule(t, w).(action := OtherAction), ks[0].fib;
    BuiltRuleParses(t, w);
    assert RuleTable(m) == Some(t);
    assert m in OwnRules(fib, t) && !Deletable(fib, t);
    forall u: U32 ensures |OwnRules(fib, u)| <= 1 {
      PartAppend(RuleTable, [], m, Some(u));
      assert [] + [m] == [m];
    }
    var wants: map<U32, ResolvedSpec> := map[t := w];
    Convergence(ks, env, wants, 1);
    assert !Attainable(fib, Get(wants, t), t);
  }

  /** The other family: a rule that reads as the one wanted but is not plain, next
      to the right route.  Every pass takes the table to be in order and sends
      nothing, whatever the kernel would grant, and the goal is not reached. */
  lemma {:induction false} LookAlikeIsKept(k: Kernel, env: Env, t: U32, w: ResolvedSpec, m: RuleMsg, k': Kernel)
    requires k.fib == Fib([m], [BuildRoute(t, w)]) && ReadsAs(m, t, w) && !Plain(m)
    requires IsPass(k, env, map[t := w], k')
    ensures k' == k && !Holds(k.fib, Some(w), t)
  {
    var wants: map<U32, ResolvedSpec> := map[t := w];
    OneRouteIsTidy(t, w, m);
    forall u: U32 ensures Settled(k.fib, Get(wants, u), u) {
      LookAlikeSettles(t, w, m, u);
    }
    Quiescence(k, env, wants, k');
    OnlyRuleAndRoute(t, w, m, t);
    assert m in OwnRules(k.fib, t);
    HoldsIffPlain(k.fib, Some(w), t);
  }

  lemma {:induction false} OneRouteIsTidy(t: U32, w: ResolvedSpec, m: RuleMsg)
    requires RuleTable(m) == Some(t)
    ensures TidyRoutes(Fib([m], [BuildRoute(t, w)]))
  {
    BuiltRouteParses(t, w);
    forall u: U32 ensures |Part(RouteOwner, [BuildRoute(t, w)], Some(u))| <= 1 {
      OnlyRuleAndRoute(t, w, m, u);
    }
  }

  lemma {:induction false} LookAlikeSettles(t: U32, w: ResolvedSpec, m: RuleMsg, u: U32)
    requires ReadsAs(m, t, w)
    ensures Settled(Fib([m], [BuildRoute(t, w)]), if u == t then Some(w) else None, u)
  {
    var fib := Fib([m], [BuildRoute(t, w)]);
    OnlyRuleAndRoute(t, w, m, u);
    if u == t {
      OneRouteIsTidy(t, w, m);
      BuiltRouteParses(t, w);
      OwnRuleReads(fib, t, w);
      OwnRouteReads(fib, t, w);
    }
  }

  lemma {:induction false} OnlyRuleAndRoute(t: U32, w: ResolvedSpec, m: RuleMsg, u: U32)
    requires RuleTable(m) == Some(t)
    ensures OwnRules(Fib([m], [BuildRoute(t, w)]), u) == if u == t then [m] else []
    ensures OwnRoutes(Fib([m], [BuildRoute(t, w)]), u) == if u == t then [BuildRoute(t, w)] else []
  {
    BuiltRouteParses(t, w);
    PartAppend(RuleTable, [], m, Some(u));
    PartAppend(RouteOwner, [], BuildRoute(t, w), Some(u));
    assert [] + [m] == [m] && [] + [BuildRoute(t, w)] == [BuildRoute(t, w)];
  }

  /** Three look-alikes of any wanted rule: another action, a further selector,
      and, for an unmarked one, a mask that makes it test for mark 0. */
  lemma {:induction false} LookAlikes(t: U32, w: ResolvedSpec)
    requires w.fwmark != Some(0)
    ensures var m := BuildRule(t, w);
            && (var a := m.(action := OtherAction); ReadsAs(a, t, w) && !Plain(a))
            && (var b := m.(attrs := m.attrs + [Narrowing]); ReadsAs(b, t, w) && !Plain(b))
            && (w.fwmark.None? ==>
                  var c := m.(attrs := m.attrs + [FwMask(FWMASK_EXACT)]); ReadsAs(c, t, w) && !Plain(c))
  {
    var m := BuildRule(t, w);
    BuiltRuleFields(t, w);
    BuiltRuleIsPlain(t, w);
    RuleScanAppend(m.attrs, Narrowing);
    RuleScanAppend(m.attrs, FwMask(FWMASK_EXACT));
    assert (m.attrs + [Narrowing])[|m.attrs|] == Narrowing;
  }

  /** Later passes issue no request at all, whatever the environment. */
  lemma {:induction false} Quiescence(k: Kernel, env: Env, wants: map<U32, ResolvedSpec>, k': Kernel)
    requires TidyRoutes(k.fib) && AllSettled(k.fib, wants) && IsPass(k, env, wants, k')
    ensures k' == k
  {
    var order :| Enumerates(order, AllTables(k.fib, wants)) && k' == Visit(k, env, wants, k.fib, order);
    VisitSettled(k, env, wants, order);
  }

  /** In particular a reached goal stays. */
  lemma {:induction false} GoalIsKept(k: Kernel, env: Env, wants: map<U32, ResolvedSpec>, k': Kernel)
    requires TidyRoutes(k.fib) && AllHold(k.fib, wants) && IsPass(k, env, wants, k')
    ensures k' == k
  {
    forall t: U32 ensures Settled(k.fib, Get(wants, t), t) {
      assert Holds(k.fib, Get(wants, t), t);
      HoldsIffPlain(k.fib, Get(wants, t), t);
    }
    Quiescence(k, env, wants, k');
  }

  lemma {:induction false} VisitSettled(k: Kernel, env: Env, wants: map<U32, ResolvedSpec>, order: seq<U32>)
    requires TidyRoutes(k.fib) && AllSettled(k.fib, wants)
    ensures Visit(k, env, wants, k.fib, order) == k
  {
    if order != [] {
      var n := |order| - 1;
      VisitSettled(k, env, wants, order[..n]);
      assert Settled(k.fib, Get(wants, order[n]), order[n]);
      SettledTableIsLeftAlone(k.fib, Get(wants, order[n]), order[n], k, env);
    }
  }

  // ---------- A kernel that unlinks the first match ----------

  ghost predicate FirstMatch(env: Env) {
    forall n: nat :: env.picks(n) == None
  }

  /** Asked to delete the head of the listing, such a kernel deletes exactly it. */
  lemma {:induction false} FirstMatchPopsHead(k: Kernel, env: Env, op: Op)
    requires Cooperative(env) && FirstMatch(env) && op.DelRule?
    requires OwnRules(k.fib, op.table) != [] && Selects(op, OwnRules(k.fib, op.table)[0])
    ensures Granted(k, env, op)
    ensures OwnRules(Request(k, env, op).fib, op.table) == OwnRules(k.fib, op.table)[1..]
  {
    var i := FirstOfPart(RuleTable, k.fib.rules, Some(op.table));
    var v := VictimRule(k.fib.rules, op, None);
    assert env.picks(|k.log|) == None;
    assert v == Some(i) by {
      assert k.fib.rules[i] in k.fib.rules;
      assert RuleTable(k.fib.rules[v.value]) == Some(op.table);
    }
    PartWithoutHead(RuleTable, k.fib.rules, i, Some(op.table));
  }

  lemma {:induction false} FirstMatchDeletes(k: Kernel, env: Env, t: U32, n: nat)
    requires Cooperative(env) && FirstMatch(env) && Deletable(k.fib, t) && n <= |RulesView(k.fib, t)|
    ensures var (k', ok) := DelRules(k, env, t, RulesView(k.fib, t)[..n]);
            ok && OwnRules(k'.fib, t) == OwnRules(k.fib, t)[n..]
  {
    if n > 0 {
      var view := RulesView(k.fib, t);
      FirstMatchDeletes(k, env, t, n - 1);
      assert view[..n][..n - 1] == view[..n - 1];
      assert OwnRules(k.fib, t)[n - 1] in OwnRules(k.fib, t);
      ListedRuleIsSelected(k.fib, t, n - 1);
      FirstMatchPopsHead(DelRules(k, env, t, view[..n - 1]).0, env,
                         DelRule(t, view[n - 1].src, view[n - 1].fwmark));
    }
  }

  lemma {:induction false} FirstMatchSync(k: Kernel, env: Env, t: U32, want: Option<ResolvedSpec>)
    requires Cooperative(env) && FirstMatch(env) && TidyRoutes(k.fib) && Attainable(k.fib, want, t)
    ensures Holds(SyncTable(k, env, t, want, RulesView(k.fib, t), RouteView(k.fib, t)).fib, want, t)
  {
    if Settled(k.fib, want, t) {
      SettledTableIsLeftAlone(k.fib, want, t, k, env);
      HoldsIffPlain(k.fib, want, t);
    } else {
      var rules := RulesView(k.fib, t);
      assert rules[..|rules|] == rules;
      FirstMatchDeletes(k, env, t, |rules|);
      SyncCleared(k, env, t, want);
    }
  }

  /** A kernel that unlinks the first match needs one pass, however many rules there are. */
  lemma {:induction false} OnePass(k: Kernel, env: Env, wants: map<U32, ResolvedSpec>, k': Kernel, t: U32)
    requires Cooperative(env) && FirstMatch(env) && TidyRoutes(k.fib) && IsPass(k, env, wants, k')
    requires Attainable(k.fib, Get(wants, t), t)
    ensures Holds(k'.fib, Get(wants, t), t)
  {
    var want := Get(wants, t);
    var order :| Enumerates(order, AllTables(k.fib, wants)) && k' == Visit(k, env, wants, k.fib, order);
    if t in order {
      var k1 := VisitAt(k, env, wants, order, t);
      SameSettled(k.fib, k1.fib, want, t);
      FirstMatchSync(k1, env, t, want);
      SameSettled(SyncTable(k1, env, t, want, RulesView(k1.fib, t), RouteView(k1.fib, t)).fib, k'.fib, want, t);
    } else {
      UnlistedTableIsEmpty(k.fib, wants, t);
      HoldsIffPlain(k.fib, want, t);
      VisitFrame(k, env, wants, k.fib, order, t);
      SameSettled(k.fib, k'.fib, want, t);
    }
  }

  // ---------- Recovery ----------

  /** Every recognised rule is plain. */
  ghost predicate AllPlain(fib: Fib) {
    forall m :: m in fib.rules && RuleTable(m).Some? ==> Plain(m)
  }

  ghost predicate NonZeroMarks(wants: map<U32, ResolvedSpec>) {
    forall t :: t in wants ==> wants[t].fwmark != Some(0)
  }

  lemma {:induction false} SyncKeepsPlain(k: Kernel, env: Env, t: U32, want: Option<ResolvedSpec>,
                                          rules: seq<CurrentRule>, route: Option<CurrentRoute>)
    requires AllPlain(k.fib) && (want.Some? ==> want.value.fwmark != Some(0))
    ensures AllPlain(SyncTable(k, env, t, want, rules, route).fib)
  {
    DelRulesCount(k, env, t, rules);
    if want.Some? {
      BuiltRuleIsPlain(t, want.value);
    }
  }

  lemma {:induction false} VisitKeepsPlain(k: Kernel, env: Env, wants: map<U32, ResolvedSpec>, snap: Fib,
                                           order: seq<U32>)
    requires AllPlain(k.fib) && NonZeroMarks(wants)
    ensures AllPlain(Visit(k, env, wants, snap, order).fib)
  {
    if order != [] {
      var n := |order| - 1;
      VisitKeepsPlain(k, env, wants, snap, order[..n]);
      SyncKeepsPlain(Visit(k, env, wants, snap, order[..n]), env, order[n], Get(wants, order[n]),
                     RulesView(snap, order[n]), RouteView(snap, order[n]));
    }
  }

  lemma {:induction false} RunKeepsPlain(ks: seq<Kernel>, env: Env, wants: seq<map<U32, ResolvedSpec>>)
    requires Run(ks, env, wants) && AllPlain(ks[0].fib)
    requires forall i :: 0 <= i < |wants| ==> NonZeroMarks(wants[i])
    ensures AllPlain(ks[|wants|].fib)
    decreases |wants|
  {
    if wants != [] {
      var n := |wants| - 1;
      RunKeepsPlain(ks[..n + 1], env, wants[..n]);
      var k := ks[n];
      assert IsPass(k, env, wants[n], ks[n + 1]);
      var order :| Enumerates(order, AllTables(k.fib, wants[n])) && ks[n + 1] == Visit(k, env, wants[n], k.fib, order);
      VisitKeepsPlain(k, env, wants[n], k.fib, order);
    }
  }

  lemma {:induction false} TidyIfGuarded(fib: Fib)
    requires AtMostOne(fib) && AllGuarded(fib) && AllPlain(fib)
    ensures TidyRoutes(fib) && forall t: U32 :: |OwnRules(fib, t)| <= 1 && PlainRules(fib, t)
  {
    forall t: U32 ensures |Part(RouteOwner, fib.routes, Some(t))| <= 1 && |OwnRules(fib, t)| <= 1
      ensures PlainRules(fib, t) && Readable(fib, t) {
      assert |OwnRules(fib, t)| <= 1 && |OwnRoutes(fib, t)| <= 1 && Guarded(fib, t);
    }
    forall m | m in fib.routes && RouteOwner(m).Some? ensures ParseRoute(m).Some? {
      assert m in OwnRoutes(fib, RouteOwner(m).value) && Readable(fib, RouteOwner(m).value);
    }
  }

  /** Recovery: however many passes have gone wrong and whatever they wanted, one
      pass with a cooperative kernel brings about exactly what is wanted now. */
  lemma {:induction false} Recovery(ks: seq<Kernel>, env: Env, wants: seq<map<U32, ResolvedSpec>>,
                                    env': Env, want: map<U32, ResolvedSpec>, k': Kernel)
    requires Run(ks, env, wants) && ks[0].log == []
    requires AtMostOne(ks[0].fib) && AllGuarded(ks[0].fib) && AllPlain(ks[0].fib)
    requires NonZeroMarks(want) && forall i :: 0 <= i < |wants| ==> NonZeroMarks(wants[i])
    requires Cooperative(env') && IsPass(ks[|wants|], env', want, k')
    ensures AllHold(k'.fib, want)
  {
    FailureSafety(ks, env, wants);
    RunKeepsPlain(ks, env, wants);
    TidyIfGuarded(ks[|wants|].fib);
    ConvergenceFromPlain([ks[|wants|], k'], env', want, 1);
  }
}
