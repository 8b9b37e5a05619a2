/** The reconciler as the program runs it: parsers that read attributes one by
    one, listings built in maps, an interface-index cache, and the nested loops
    over tables and rules.  Each is proved to compute the functions of module
    Routing, so the theorems about passes are theorems about these methods. */
module RouteManagerImpl {
  import opened Base
  import opened Partition
  import opened Routing

  method ParseDumbarpRule(msg: RuleMsg) returns (r: Option<(U32, CurrentRule)>)
    ensures r == ParseRule(msg)
  {
    if msg.family != Inet {
      return None;
    }
    var priority, src, tableAttr, fwmark, fwmask := None, None, None, None, None;
    for i := 0 to |msg.attrs|
      invariant RuleFields(priority, src, tableAttr, fwmark, fwmask) == RuleScan(msg.attrs[..i])
    {
      assert msg.attrs[..i + 1] == msg.attrs[..i] + [msg.attrs[i]];
      RuleScanAppend(msg.attrs[..i], msg.attrs[i]);
      match msg.attrs[i]
      case Priority(p) => priority := Some(p);
      case SourceV4(v4) => src := Some(v4);
      case Table(t) => tableAttr := Some(t);
      case FwMark(m) => fwmark := Some(m);
      case FwMask(m) => fwmask := Some(m);
      case Narrowing =>
      case OtherRuleAttr =>
    }
    assert msg.attrs[..|msg.attrs|] == msg.attrs;
    if priority != Some(DUMBARP_PRIORITY) || src.None? || msg.srcLen != 32 {
      return None;
    }
    var table: U32 := if tableAttr.Some? then tableAttr.value else msg.headerTable;
    if fwmark == Some(0) {
      fwmark := None;
    }
    return Some((table, CurrentRule(src.value, fwmark, if fwmark.Some? then fwmask else None)));
  }

  method ParseDumbarpRoute(msg: RouteMsg) returns (r: Option<(U32, CurrentRoute)>)
    ensures r == ParseRoute(msg)
  {
    if msg.family != Inet || msg.protocol != DUMBARP_PROTO {
      return None;
    }
    var gateway, oif, tableAttr := None, None, None;
    for i := 0 to |msg.attrs|
      invariant RouteFields(gateway, oif, tableAttr) == RouteScan(msg.attrs[..i])
    {
      assert msg.attrs[..i + 1] == msg.attrs[..i] + [msg.attrs[i]];
      RouteScanAppend(msg.attrs[..i], msg.attrs[i]);
      match msg.attrs[i]
      case Gateway(v4) => gateway := Some(v4);
      case Oif(idx) => oif := Some(idx);
      case RouteTable(t) => tableAttr := Some(t);
      case OtherRouteAttr =>
    }
    assert msg.attrs[..|msg.attrs|] == msg.attrs;
    if gateway.None? || oif.None? {
      return None;
    }
    var table: U32 := if tableAttr.Some? then tableAttr.value else msg.headerTable;
    return Some((table, CurrentRoute(gateway.value, oif.value, msg.onlink)));
  }

  /** Interface indexes are looked up once per name and pass; the cache does not change the result. */
  method ResolveSpecs(desired: seq<RouteSpec>, links: map<string, U32>) returns (resolved: map<U32, ResolvedSpec>)
    ensures resolved == Resolve(desired, links)
  {
    var cache: map<string, U32> := map[];
    resolved := map[];
    for i := 0 to |desired|
      invariant forall name :: name in cache ==> name in links && cache[name] == links[name]
      invariant resolved == Resolve(desired[..i], links)
    {
      var spec := desired[i];
      assert desired[..i + 1][..i] == desired[..i];
      if spec.iface !in cache {
        if spec.iface !in links {
          continue;
        }
        cache := cache[spec.iface := links[spec.iface]];
      }
      resolved := resolved[TableIdFor(spec.src)
                           := ResolvedSpec(spec.src, spec.gateway, cache[spec.iface], spec.fwmark)];
    }
    assert desired[..|desired|] == desired;
  }

  lemma {:induction false} RulesViewAppend(rules: seq<RuleMsg>, m: RuleMsg, t: U32)
    ensures RulesView(Fib(rules + [m], []), t)
         == RulesView(Fib(rules, []), t) + if RuleTable(m) == Some(t) then [ParseRule(m).value.1] else []
  {
    PartAppend(RuleTable, rules, m, Some(t));
    if RuleTable(m) != Some(t) {
      assert OwnRules(Fib(rules, []), t) + [] == OwnRules(Fib(rules, []), t);
    }
  }

  ghost predicate Lists(out: map<U32, seq<CurrentRule>>, rules: seq<RuleMsg>) {
    && out.Keys == RuleTables(rules)
    && forall t: U32 :: ListedFor(out, t) == RulesView(Fib(rules, []), t)
  }

  function ListedFor(out: map<U32, seq<CurrentRule>>, t: U32): seq<CurrentRule> {
    if t in out then out[t] else []
  }

  function Pushed(out: map<U32, seq<CurrentRule>>, p: Option<(U32, CurrentRule)>): map<U32, seq<CurrentRule>> {
    if p.None? then out else out[p.value.0 := ListedFor(out, p.value.0) + [p.value.1]]
  }

  lemma {:induction false} PushedKeys(out: map<U32, seq<CurrentRule>>, rules: seq<RuleMsg>, m: RuleMsg)
    requires out.Keys == RuleTables(rules)
    ensures Pushed(out, ParseRule(m)).Keys == RuleTables(rules + [m])
  {
    var added := if RuleTable(m).Some? then {RuleTable(m).value} else {};
    assert RuleTables(rules + [m]) == RuleTables(rules) + added;
    assert Pushed(out, ParseRule(m)).Keys == out.Keys + added;
  }

  lemma {:induction false} ListsStep(out: map<U32, seq<CurrentRule>>, rules: seq<RuleMsg>, m: RuleMsg)
    requires Lists(out, rules)
    ensures Lists(Pushed(out, ParseRule(m)), rules + [m])
  {
    PushedKeys(out, rules, m);
    forall t: U32 ensures ListedFor(Pushed(out, ParseRule(m)), t) == RulesView(Fib(rules + [m], []), t) {
      RulesViewAppend(rules, m, t);
      assert ListedFor(out, t) == RulesView(Fib(rules, []), t);
    }
  }

  /** The rules of ours per table, in kernel order; tables without any are absent. */
  method ListRules(rules: seq<RuleMsg>) returns (out: map<U32, seq<CurrentRule>>)
    ensures Lists(out, rules)
  {
    out := map[];
    for i := 0 to |rules|
      invariant Lists(out, rules[..i])
    {
      ListsStep(out, rules[..i], rules[i]);
      assert rules[..i + 1] == rules[..i] + [rules[i]];
      var p := ParseDumbarpRule(rules[i]);
      out := Pushed(out, p);
    }
    assert rules[..|rules|] == rules;
  }

  method ListRoutes(routes: seq<RouteMsg>) returns (out: map<U32, CurrentRoute>)
    ensures out.Keys == RouteTables(routes)
    ensures forall t: U32 :: Get(out, t) == LastRoute(routes, t)
  {
    out := map[];
    for i := 0 to |routes|
      invariant out.Keys == RouteTables(routes[..i])
      invariant forall t: U32 :: Get(out, t) == LastRoute(routes[..i], t)
    {
      assert routes[..i + 1] == routes[..i] + [routes[i]] && routes[..i + 1][..i] == routes[..i];
      var p := ParseDumbarpRoute(routes[i]);
      if p.Some? {
        out := out[p.value.0 := p.value.1];
      }
    }
    assert routes[..|routes|] == routes;
  }

  lemma {:induction false} VisitAppend(k: Kernel, env: Env, wants: map<U32, ResolvedSpec>, snap: Fib,
                                       order: seq<U32>, t: U32)
    ensures Visit(k, env, wants, snap, order + [t])
         == SyncTable(Visit(k, env, wants, snap, order), env, t, Get(wants, t), RulesView(snap, t), RouteView(snap, t))
  {
    assert (order + [t])[..|order|] == order;
  }

  lemma {:induction false} EnumeratesAppend(order: seq<U32>, all: set<U32>, todo: set<U32>, t: U32)
    requires Enumerates(order, all - todo) && t in todo && todo <= all
    ensures Enumerates(order + [t], all - (todo - {t}))
  {
  }

  class RouteManager {
    const env: Env
    var kernel: Kernel

    constructor (env: Env, fib: Fib)
      ensures this.env == env && kernel == Kernel(fib, [])
    {
      this.env := env;
      kernel := Kernel(fib, []);
    }

    method Send(op: Op) returns (ok: bool)
      modifies this
      ensures kernel == Request(old(kernel), env, op) && ok == Granted(old(kernel), env, op)
    {
      ok := Granted(kernel, env, op);
      kernel := Request(kernel, env, op);
    }

    /** The body of the loop over tables. */
    method SyncOne(table: U32, want: Option<ResolvedSpec>, haveRules: seq<CurrentRule>,
                   haveRoute: Option<CurrentRoute>)
      modifies this
      ensures kernel == SyncTable(old(kernel), env, table, want, haveRules, haveRoute)
    {
      if InSync(want, haveRules, haveRoute) {
        return;
      }
      var deleteFailed := false;
      for i := 0 to |haveRules|
        invariant (kernel, !deleteFailed) == DelRules(old(kernel), env, table, haveRules[..i])
      {
        assert haveRules[..i + 1][..i] == haveRules[..i];
        var ok := Send(DelRule(table, haveRules[i].src, haveRules[i].fwmark));
        if !ok {
          deleteFailed := true;
        }
      }
      assert haveRules[..|haveRules|] == haveRules;
      if haveRoute.Some? {
        var ok := Send(DelRoute(table));
        if !ok {
          deleteFailed := true;
        }
      }
      if want.Some? && !deleteFailed {
        var ok := Send(AddRule(table, want.value));
        if ok {
          var _ := Send(AddRoute(table, want.value));
        }
      }
    }

    /** One pass.  The tables form an unordered set; `order` records the order
        in which this pass happened to visit them. */
    method Reconcile(desired: seq<RouteSpec>, links: map<string, U32>, listed: bool)
      returns (r: Result<()>, ghost order: seq<U32>)
      modifies this
      ensures r.Ok? <==> listed
      ensures !listed ==> kernel == old(kernel)
      ensures listed ==>
                && Enumerates(order, AllTables(old(kernel).fib, Resolve(desired, links)))
                && kernel == Visit(old(kernel), env, Resolve(desired, links), old(kernel).fib, order)
                && IsPass(old(kernel), env, Resolve(desired, links), kernel)
    {
      order := [];
      var resolved := ResolveSpecs(desired, links);
      if !listed {
        return Err, order;
      }
      var currentRules := ListRules(kernel.fib.rules);
      var currentRoutes := ListRoutes(kernel.fib.routes);
      ghost var start := kernel;
      var allTables := currentRules.Keys + currentRoutes.Keys + resolved.Keys;
      var todo := allTables;
      while todo != {}
        invariant todo <= allTables && Enumerates(order, allTables - todo)
        invariant kernel == Visit(start, env, resolved, start.fib, order)
        decreases todo
      {
        var table :| table in todo;
        assert ListedFor(currentRules, table) == RulesView(Fib(start.fib.rules, []), table)
            == RulesView(start.fib, table);
        SyncOne(table, Get(resolved, table), ListedFor(currentRules, table), Get(currentRoutes, table));
        VisitAppend(start, env, resolved, start.fib, order, table);
        EnumeratesAppend(order, allTables, todo, table);
        order := order + [table];
        todo := todo - {table};
      }
      assert allTables - todo == allTables == AllTables(start.fib, resolved);
      r := Ok(());
    }
  }
}
