/** The policy-routing reconciler: what it reads from the kernel, the requests
    it sends, and one reconcile pass as a function of the kernel's answers.

    The kernel is explicit state.  Every request may be refused, and a refused
    request changes nothing.  A delete succeeds only if some object matches it;
    attributes absent from the request are wildcards, and when several objects
    match, the environment says which one goes. */
module Routing {
  import opened Base
  import opened Partition

  const DUMBARP_PROTO: Byte := 0x9A
  const DUMBARP_PRIORITY: U32 := 9876
  const FWMASK_EXACT: U32 := 0xFFFF_FFFF

  // ---------- Specs ----------

  datatype RouteSpec = RouteSpec(src: Ip, gateway: Ip, iface: string, fwmark: Option<U32>)

  datatype ResolvedSpec = ResolvedSpec(src: Ip, gateway: Ip, ifindex: U32, fwmark: Option<U32>)

  predicate ReservedTable(t: U32) {
    t == 0 || t == 253 || t == 254 || t == 255
  }

  function TableIdFor(ip: Ip): (t: U32)
    ensures !ReservedTable(t)
  {
    if ReservedTable(ip) then ip + 0x1_0000 else ip
  }

  /** An address is its own table number unless that is reserved; two addresses
      share a table exactly when one is a reserved number and the other is the
      number it is nudged to. */
  lemma {:induction false} TableCollisions(a: Ip, b: Ip)
    ensures TableIdFor(a) !in {0, 253, 254, 255} && (a !in {0, 253, 254, 255} ==> TableIdFor(a) == a)
    ensures TableIdFor(a) == TableIdFor(b) <==>
            || a == b
            || (ReservedTable(a) && b == a + 0x1_0000)
            || (ReservedTable(b) && a == b + 0x1_0000)
  {
  }

  /** Specs whose interface exists, keyed by table; later specs replace earlier ones. */
  function Resolve(desired: seq<RouteSpec>, links: map<string, U32>): (m: map<U32, ResolvedSpec>) {
    if desired == [] then map[]
    else
      var spec := desired[|desired| - 1];
      var m := Resolve(desired[..|desired| - 1], links);
      if spec.iface in links then m[TableIdFor(spec.src) := Resolved(spec, links)] else m
  }

  function Resolved(spec: RouteSpec, links: map<string, U32>): ResolvedSpec
    requires spec.iface in links
  {
    ResolvedSpec(spec.src, spec.gateway, links[spec.iface], spec.fwmark)
  }

  /** Position i holds the last resolvable spec for table t. */
  ghost predicate LastFor(desired: seq<RouteSpec>, links: map<string, U32>, t: U32, i: nat) {
    && i < |desired| && desired[i].iface in links && TableIdFor(desired[i].src) == t
    && forall j :: i < j < |desired| && desired[j].iface in links ==> TableIdFor(desired[j].src) != t
  }

  lemma {:induction false} ResolveIsLast(desired: seq<RouteSpec>, links: map<string, U32>, t: U32)
    ensures t in Resolve(desired, links) <==> exists i: nat :: LastFor(desired, links, t, i)
    ensures forall i: nat :: LastFor(desired, links, t, i)
              ==> t in Resolve(desired, links) && Resolve(desired, links)[t] == Resolved(desired[i], links)
  {
    if desired != [] {
      var n := |desired| - 1;
      ResolveIsLast(desired[..n], links, t);
      if desired[n].iface in links && TableIdFor(desired[n].src) == t {
        assert LastFor(desired, links, t, n);
      } else {
        forall i: nat ensures LastFor(desired, links, t, i) <==> LastFor(desired[..n], links, t, i) {
        }
      }
    }
  }

  // ---------- Rule messages ----------

  datatype Family = Inet | OtherFamily

  datatype Action = ToTable | OtherAction

  /** `Narrowing` stands for any further selector: an interface, a destination,
      a port range, an inverted match. `OtherRuleAttr` does not affect matching. */
  datatype RuleAttr =
    | Priority(priority: U32)
    | SourceV4(src: Ip)
    | Table(table: U32)
    | FwMark(mark: U32)
    | FwMask(mask: U32)
    | Narrowing
    | OtherRuleAttr

  datatype RuleMsg =
    RuleMsg(family: Family, srcLen: Byte, action: Action, headerTable: Byte, attrs: seq<RuleAttr>)

  /** The parser's local variables after reading some attributes. */
  datatype RuleFields =
    RuleFields(priority: Option<U32>, src: Option<Ip>, table: Option<U32>,
               fwmark: Option<U32>, fwmask: Option<U32>)

  const NoRuleFields := RuleFields(None, None, None, None, None)

  function ReadRuleAttr(f: RuleFields, a: RuleAttr): RuleFields {
    match a
    case Priority(p) => f.(priority := Some(p))
    case SourceV4(s) => f.(src := Some(s))
    case Table(t) => f.(table := Some(t))
    case FwMark(m) => f.(fwmark := Some(m))
    case FwMask(m) => f.(fwmask := Some(m))
    case Narrowing => f
    case OtherRuleAttr => f
  }

  function RuleScan(attrs: seq<RuleAttr>): RuleFields {
    if attrs == [] then NoRuleFields
    else ReadRuleAttr(RuleScan(attrs[..|attrs| - 1]), attrs[|attrs| - 1])
  }

  lemma {:induction false} RuleScanAppend(attrs: seq<RuleAttr>, a: RuleAttr)
    ensures RuleScan(attrs + [a]) == ReadRuleAttr(RuleScan(attrs), a)
  {
    assert (attrs + [a])[..|attrs|] == attrs;
  }

  datatype CurrentRule = CurrentRule(src: Ip, fwmark: Option<U32>, fwmask: Option<U32>) {
    predicate Matches(want: ResolvedSpec) {
      src == want.src && fwmark == want.fwmark && fwmask == ExpectedFwmask(want.fwmark)
    }
  }

  function ExpectedFwmask(fwmark: Option<U32>): Option<U32> {
    if fwmark.Some? then Some(FWMASK_EXACT) else None
  }

  /** What remains of the parse once all attributes have been read. */
  function FinishRule(msg: RuleMsg, f: RuleFields): (r: Option<(U32, CurrentRule)>)
    ensures r.Some? ==> r.value.1.fwmark != Some(0)
  {
    if msg.family != Inet || f.priority != Some(DUMBARP_PRIORITY) || f.src.None? || msg.srcLen != 32 then None
    else
      var table := if f.table.Some? then f.table.value else msg.headerTable;
      var fwmark := if f.fwmark == Some(0) then None else f.fwmark;
      Some((table, CurrentRule(f.src.value, fwmark, if fwmark.Some? then f.fwmask else None)))
  }

  function ParseRule(msg: RuleMsg): Option<(U32, CurrentRule)> {
    FinishRule(msg, RuleScan(msg.attrs))
  }

  /** The table a recognised rule belongs to; None for a rule that is not ours. */
  function RuleTable(msg: RuleMsg): Option<U32> {
    var p := ParseRule(msg);
    if p.Some? then Some(p.value.0) else None
  }

  function BuildRule(table: U32, w: ResolvedSpec): RuleMsg {
    RuleMsg(Inet, 32, ToTable, 0,
            [SourceV4(w.src), Table(table), Priority(DUMBARP_PRIORITY)]
            + if w.fwmark.Some? then [FwMark(w.fwmark.value), FwMask(FWMASK_EXACT)] else [])
  }

  /** A rule we add reads back as what was asked for, except that mark 0 reads back as no mark. */
  lemma {:induction false} BuiltRuleParses(table: U32, w: ResolvedSpec)
    ensures ParseRule(BuildRule(table, w)).Some?
    ensures ParseRule(BuildRule(table, w)).value.0 == table
    ensures ParseRule(BuildRule(table, w)).value.1.Matches(w) <==> w.fwmark != Some(0)
  {
    BuiltRuleFields(table, w);
  }

  lemma {:induction false} BuiltRuleFields(table: U32, w: ResolvedSpec)
    ensures RuleScan(BuildRule(table, w).attrs)
         == RuleFields(Some(DUMBARP_PRIORITY), Some(w.src), Some(table), w.fwmark, ExpectedFwmask(w.fwmark))
  {
    var a1 := [] + [SourceV4(w.src)];
    var a2 := a1 + [Table(table)];
    var a3 := a2 + [Priority(DUMBARP_PRIORITY)];
    RuleScanAppend([], SourceV4(w.src));
    RuleScanAppend(a1, Table(table));
    RuleScanAppend(a2, Priority(DUMBARP_PRIORITY));
    if w.fwmark.Some? {
      var a4 := a3 + [FwMark(w.fwmark.value)];
      RuleScanAppend(a3, FwMark(w.fwmark.value));
      RuleScanAppend(a4, FwMask(FWMASK_EXACT));
      assert BuildRule(table, w).attrs == a4 + [FwMask(FWMASK_EXACT)];
    } else {
      assert BuildRule(table, w).attrs == a3;
    }
  }

  // ---------- What a rule does to packets ----------

  function And32(a: U32, b: U32): U32 {
    ((a as bv32) & (b as bv32)) as int
  }

  lemma {:induction false} And32Exact(a: U32)
    ensures And32(a, FWMASK_EXACT) == a
  {
    assert (a as bv32) & 0xFFFF_FFFF == a as bv32;
  }

  lemma {:induction false} And32ExactLeft(a: U32)
    ensures And32(FWMASK_EXACT, a) == a
  {
    assert 0xFFFF_FFFF & (a as bv32) == a as bv32;
  }

  lemma {:induction false} And32Zero(a: U32)
    ensures And32(a, 0) == 0 && And32(0, a) == 0
  {
    assert (a as bv32) & 0 == 0 && 0 & (a as bv32) == 0;
  }

  function MarkValue(f: RuleFields): U32 {
    if f.fwmark.Some? then f.fwmark.value else 0
  }

  /** The kernel's mask: as given, else all bits for a non-zero mark and none otherwise. */
  function MarkMask(f: RuleFields): U32 {
    if f.fwmask.Some? then f.fwmask.value else if MarkValue(f) != 0 then FWMASK_EXACT else 0
  }

  /** The rule sends every packet with this source and mark to its table. */
  predicate Covers(m: RuleMsg, src: Ip, mark: U32) {
    var f := RuleScan(m.attrs);
    && m.family == Inet && m.srcLen == 32 && f.src == Some(src)
    && m.action == ToTable && Narrowing !in m.attrs
    && And32(mark, MarkMask(f)) == And32(MarkValue(f), MarkMask(f))
  }

  /** The rule looks up its table, has no further selector, and does not test for mark 0. */
  predicate Plain(m: RuleMsg) {
    var f := RuleScan(m.attrs);
    m.action == ToTable && Narrowing !in m.attrs && (MarkValue(f) == 0 ==> MarkMask(f) == 0)
  }

  /** The rule covers exactly the packets the spec is about. */
  ghost predicate Exact(m: RuleMsg, w: ResolvedSpec) {
    forall src: Ip, mark: U32 :: Covers(m, src, mark) <==> SpecCovers(w, src, mark)
  }

  predicate SpecCovers(w: ResolvedSpec, src: Ip, mark: U32) {
    src == w.src && (w.fwmark.Some? ==> mark == w.fwmark.value)
  }

  ghost predicate ReadsAs(m: RuleMsg, t: U32, w: ResolvedSpec) {
    var p := ParseRule(m);
    p.Some? && p.value.0 == t && p.value.1.Matches(w)
  }

  /** A rule that reads back as wanted acts as wanted exactly when it is plain. */
  lemma {:induction false} ExactIffPlain(m: RuleMsg, t: U32, w: ResolvedSpec)
    requires ReadsAs(m, t, w)
    ensures Exact(m, w) <==> Plain(m)
  {
    var f := RuleScan(m.attrs);
    if Plain(m) {
      forall src: Ip, mark: U32 ensures Covers(m, src, mark) <==> SpecCovers(w, src, mark) {
        And32Exact(mark);
        And32Exact(MarkValue(f));
        And32Zero(mark);
        And32Zero(MarkValue(f));
      }
    } else {
      // A packet the spec covers and the rule does not.
      var mark := if w.fwmark.Some? then w.fwmark.value else FWMASK_EXACT;
      And32ExactLeft(MarkMask(f));
      And32Zero(MarkMask(f));
      assert SpecCovers(w, w.src, mark) && !Covers(m, w.src, mark);
    }
  }

  lemma {:induction false} BuiltRuleIsPlain(table: U32, w: ResolvedSpec)
    requires w.fwmark != Some(0)
    ensures ReadsAs(BuildRule(table, w), table, w) && Plain(BuildRule(table, w))
  {
    BuiltRuleParses(table, w);
    BuiltRuleFields(table, w);
  }

  // ---------- Route messages ----------

  datatype RouteAttr =
    | Gateway(gateway: Ip)
    | Oif(oif: U32)
    | RouteTable(table: U32)
    | OtherRouteAttr

  datatype RouteMsg =
    RouteMsg(family: Family, protocol: Byte, headerTable: Byte, onlink: bool, attrs: seq<RouteAttr>)

  datatype RouteFields = RouteFields(gateway: Option<Ip>, oif: Option<U32>, table: Option<U32>)

  function ReadRouteAttr(f: RouteFields, a: RouteAttr): RouteFields {
    match a
    case Gateway(g) => f.(gateway := Some(g))
    case Oif(i) => f.(oif := Some(i))
    case RouteTable(t) => f.(table := Some(t))
    case OtherRouteAttr => f
  }

  function RouteScan(attrs: seq<RouteAttr>): RouteFields {
    if attrs == [] then RouteFields(None, None, None)
    else ReadRouteAttr(RouteScan(attrs[..|attrs| - 1]), attrs[|attrs| - 1])
  }

  lemma {:induction false} RouteScanAppend(attrs: seq<RouteAttr>, a: RouteAttr)
    ensures RouteScan(attrs + [a]) == ReadRouteAttr(RouteScan(attrs), a)
  {
    assert (attrs + [a])[..|attrs|] == attrs;
  }

  datatype CurrentRoute = CurrentRoute(gateway: Ip, oif: U32, onlink: bool)

  function FinishRoute(msg: RouteMsg, f: RouteFields): Option<(U32, CurrentRoute)> {
    if msg.family != Inet || msg.protocol != DUMBARP_PROTO || f.gateway.None? || f.oif.None? then None
    else
      Some((if f.table.Some? then f.table.value else msg.headerTable,
            CurrentRoute(f.gateway.value, f.oif.value, msg.onlink)))
  }

  function ParseRoute(msg: RouteMsg): Option<(U32, CurrentRoute)> {
    FinishRoute(msg, RouteScan(msg.attrs))
  }

  /** The table of a route under our protocol number; None for anybody else's route. */
  function RouteOwner(msg: RouteMsg): Option<U32> {
    if msg.family != Inet || msg.protocol != DUMBARP_PROTO then None
    else
      var f := RouteScan(msg.attrs);
      Some(if f.table.Some? then f.table.value else msg.headerTable)
  }

  function BuildRoute(table: U32, w: ResolvedSpec): RouteMsg {
    RouteMsg(Inet, DUMBARP_PROTO, 0, true, [RouteTable(table), Oif(w.ifindex), Gateway(w.gateway)])
  }

  lemma {:induction false} BuiltRouteParses(table: U32, w: ResolvedSpec)
    ensures ParseRoute(BuildRoute(table, w)) == Some((table, CurrentRoute(w.gateway, w.ifindex, true)))
    ensures RouteOwner(BuildRoute(table, w)) == Some(table)
  {
    var a1 := [] + [RouteTable(table)];
    var a2 := a1 + [Oif(w.ifindex)];
    RouteScanAppend([], RouteTable(table));
    RouteScanAppend(a1, Oif(w.ifindex));
    RouteScanAppend(a2, Gateway(w.gateway));
    assert BuildRoute(table, w).attrs == a2 + [Gateway(w.gateway)];
  }

  // ---------- The kernel ----------

  datatype Fib = Fib(rules: seq<RuleMsg>, routes: seq<RouteMsg>)

  datatype Op =
    | DelRule(table: U32, src: Ip, fwmark: Option<U32>)
    | DelRoute(table: U32)
    | AddRule(table: U32, want: ResolvedSpec)
    | AddRoute(table: U32, want: ResolvedSpec)

  datatype Event = Event(op: Op, ok: bool, before: Fib, after: Fib)

  /** The kernel's tables and every request made so far. */
  datatype Kernel = Kernel(fib: Fib, log: seq<Event>)

  /** The environment's choices, by request number: whether it grants the
      request, and which of several matching objects a delete unlinks (None:
      the first one in kernel order). */
  datatype Env = Env(answers: nat -> bool, picks: nat -> Option<nat>)

  /** Which rules a delete request without a mask attribute matches. */
  predicate Selects(op: Op, msg: RuleMsg)
    requires op.DelRule?
  {
    var f := RuleScan(msg.attrs);
    && msg.family == Inet && msg.srcLen == 32 && msg.action == ToTable
    && f.src == Some(op.src) && f.priority == Some(DUMBARP_PRIORITY)
    && (if f.table.Some? then f.table.value else msg.headerTable) == op.table
    && (op.fwmark.Some? ==> f.fwmark == op.fwmark)
  }

  /** The first index from lo on whose rule matches. */
  function FirstRule(rules: seq<RuleMsg>, op: Op, lo: nat): (i: Option<nat>)
    requires op.DelRule? && lo <= |rules|
    ensures i.Some? ==> lo <= i.value < |rules| && Selects(op, rules[i.value])
                        && forall j :: lo <= j < i.value ==> !Selects(op, rules[j])
    ensures i.None? ==> forall j :: lo <= j < |rules| ==> !Selects(op, rules[j])
    decreases |rules| - lo
  {
    if lo == |rules| then None
    else if Selects(op, rules[lo]) then Some(lo)
    else FirstRule(rules, op, lo + 1)
  }

  function FirstRoute(routes: seq<RouteMsg>, t: U32, lo: nat): (i: Option<nat>)
    requires lo <= |routes|
    ensures i.Some? ==> lo <= i.value < |routes| && RouteOwner(routes[i.value]) == Some(t)
    ensures i.None? ==> forall j :: lo <= j < |routes| ==> RouteOwner(routes[j]) != Some(t)
    decreases |routes| - lo
  {
    if lo == |routes| then None
    else if RouteOwner(routes[lo]) == Some(t) then Some(lo)
    else FirstRoute(routes, t, lo + 1)
  }

  function VictimRule(rules: seq<RuleMsg>, op: Op, pick: Option<nat>): (i: Option<nat>)
    requires op.DelRule?
    ensures i.Some? ==> i.value < |rules| && Selects(op, rules[i.value])
    ensures i.None? ==> forall m :: m in rules ==> !Selects(op, m)
  {
    if pick.Some? && pick.value < |rules| && Selects(op, rules[pick.value]) then pick
    else FirstRule(rules, op, 0)
  }

  function VictimRoute(routes: seq<RouteMsg>, t: U32, pick: Option<nat>): (i: Option<nat>)
    ensures i.Some? ==> i.value < |routes| && RouteOwner(routes[i.value]) == Some(t)
    ensures i.None? ==> forall m :: m in routes ==> RouteOwner(m) != Some(t)
  {
    if pick.Some? && pick.value < |routes| && RouteOwner(routes[pick.value]) == Some(t) then pick
    else FirstRoute(routes, t, 0)
  }

  /** The tables after a granted request, or None if there is nothing to delete. */
  function Effect(fib: Fib, op: Op, pick: Option<nat>): Option<Fib> {
    match op
    case DelRule(_, _, _) =>
      var i := VictimRule(fib.rules, op, pick);
      if i.Some? then Some(fib.(rules := Without(fib.rules, i.value))) else None
    case DelRoute(t) =>
      var i := VictimRoute(fib.routes, t, pick);
      if i.Some? then Some(fib.(routes := Without(fib.routes, i.value))) else None
    case AddRule(t, w) => Some(fib.(rules := fib.rules + [BuildRule(t, w)]))
    case AddRoute(t, w) => Some(fib.(routes := fib.routes + [BuildRoute(t, w)]))
  }

  function Granted(k: Kernel, env: Env, op: Op): bool {
    env.answers(|k.log|) && Effect(k.fib, op, env.picks(|k.log|)).Some?
  }

  function Request(k: Kernel, env: Env, op: Op): Kernel {
    var ok := Granted(k, env, op);
    var fib := if ok then Effect(k.fib, op, env.picks(|k.log|)).value else k.fib;
    Kernel(fib, k.log + [Event(op, ok, k.fib, fib)])
  }

  // ---------- One pass ----------

  function OwnRules(fib: Fib, t: U32): seq<RuleMsg> {
    Part(RuleTable, fib.rules, Some(t))
  }

  function OwnRoutes(fib: Fib, t: U32): seq<RouteMsg> {
    Part(RouteOwner, fib.routes, Some(t))
  }

  /** `list_rules`, for one table. */
  function RulesView(fib: Fib, t: U32): (v: seq<CurrentRule>)
    ensures |v| == |OwnRules(fib, t)|
  {
    var own := OwnRules(fib, t);
    seq(|own|, i requires 0 <= i < |own| =>
      assert own[i] in own;
      ParseRule(own[i]).value.1)
  }

  /** `list_routes`, for one table: the last parseable route of ours. */
  function LastRoute(routes: seq<RouteMsg>, t: U32): Option<CurrentRoute> {
    if routes == [] then None
    else
      var p := ParseRoute(routes[|routes| - 1]);
      if p.Some? && p.value.0 == t then Some(p.value.1) else LastRoute(routes[..|routes| - 1], t)
  }

  function RouteView(fib: Fib, t: U32): Option<CurrentRoute> {
    LastRoute(fib.routes, t)
  }

  predicate InSync(want: Option<ResolvedSpec>, rules: seq<CurrentRule>, route: Option<CurrentRoute>) {
    && want.Some? && |rules| == 1 && route.Some?
    && rules[0].Matches(want.value)
    && route.value.gateway == want.value.gateway
    && route.value.oif == want.value.ifindex
    && route.value.onlink
  }

  /** Delete each listed rule in turn; the flag says whether all deletes were granted. */
  function DelRules(k: Kernel, env: Env, t: U32, rules: seq<CurrentRule>): (Kernel, bool) {
    if rules == [] then (k, true)
    else
      var n := |rules| - 1;
      var (k1, ok) := DelRules(k, env, t, rules[..n]);
      var op := DelRule(t, rules[n].src, rules[n].fwmark);
      (Request(k1, env, op), ok && Granted(k1, env, op))
  }

  function DelRouteIf(k: Kernel, env: Env, t: U32, present: bool): (Kernel, bool) {
    if present then (Request(k, env, DelRoute(t)), Granted(k, env, DelRoute(t))) else (k, true)
  }

  function Install(k: Kernel, env: Env, t: U32, w: ResolvedSpec): Kernel {
    var k1 := Request(k, env, AddRule(t, w));
    if Granted(k, env, AddRule(t, w)) then Request(k1, env, AddRoute(t, w)) else k1
  }

  /** The body of the per-table loop. */
  function SyncTable(k: Kernel, env: Env, t: U32, want: Option<ResolvedSpec>,
                     rules: seq<CurrentRule>, route: Option<CurrentRoute>): Kernel {
    if InSync(want, rules, route) then k
    else
      var (k1, ok1) := DelRules(k, env, t, rules);
      var (k2, ok2) := DelRouteIf(k1, env, t, route.Some?);
      if want.Some? && ok1 && ok2 then Install(k2, env, t, want.value) else k2
  }

  /** The loop over tables, reading the listings `snap` taken at the start of the pass. */
  function Visit(k: Kernel, env: Env, wants: map<U32, ResolvedSpec>, snap: Fib, order: seq<U32>): Kernel {
    if order == [] then k
    else
      var n := |order| - 1;
      SyncTable(Visit(k, env, wants, snap, order[..n]), env, order[n],
                Get(wants, order[n]), RulesView(snap, order[n]), RouteView(snap, order[n]))
  }

  function RuleTables(rules: seq<RuleMsg>): set<U32> {
    set m | m in rules && RuleTable(m).Some? :: RuleTable(m).value
  }

  function RouteTables(routes: seq<RouteMsg>): set<U32> {
    set m | m in routes && ParseRoute(m).Some? :: ParseRoute(m).value.0
  }

  function AllTables(fib: Fib, wants: map<U32, ResolvedSpec>): set<U32> {
    RuleTables(fib.rules) + RouteTables(fib.routes) + wants.Keys
  }

  ghost predicate Enumerates<T(!new)>(order: seq<T>, s: set<T>) {
    Distinct(order) && forall x :: x in order <==> x in s
  }

  /** One complete pass, the tables being visited in some order. */
  ghost predicate IsPass(k: Kernel, env: Env, wants: map<U32, ResolvedSpec>, k': Kernel) {
    exists order :: Enumerates(order, AllTables(k.fib, wants)) && k' == Visit(k, env, wants, k.fib, order)
  }
}
