/** What rule and route messages say, read off their attributes directly: the last
    attribute of a kind counts.  The parsers and the delete requests are compared
    with these readings, and ownership is stated in terms of them. */
module Messages {
  import opened Base
  import opened Partition
  import opened Routing

  // ---------- The last attribute of a kind ----------

  /** v is what the last attribute that `pick` accepts carries; None if there is none. */
  ghost predicate LastValue<A(!new), V>(attrs: seq<A>, pick: A -> Option<V>, v: Option<V>) {
    if v.None? then forall i :: 0 <= i < |attrs| ==> pick(attrs[i]) == None
    else exists i :: 0 <= i < |attrs| && pick(attrs[i]) == v && NoneAfter(attrs, pick, i)
  }

  ghost predicate NoneAfter<A(!new), V>(attrs: seq<A>, pick: A -> Option<V>, i: int) {
    forall j :: i < j < |attrs| && 0 <= j ==> pick(attrs[j]) == None
  }

  lemma {:induction false} LastValueUnique<A(!new), V>(attrs: seq<A>, pick: A -> Option<V>, v: Option<V>, w: Option<V>)
    requires LastValue(attrs, pick, v) && LastValue(attrs, pick, w)
    ensures v == w
  {
    if v.Some? && w.Some? {
      var i :| 0 <= i < |attrs| && pick(attrs[i]) == v && NoneAfter(attrs, pick, i);
      var j :| 0 <= j < |attrs| && pick(attrs[j]) == w && NoneAfter(attrs, pick, j);
      assert i == j;
    }
  }

  lemma {:induction false} LastValueAppend<A(!new), V>(attrs: seq<A>, pick: A -> Option<V>, v: Option<V>, a: A)
    requires LastValue(attrs, pick, v)
    ensures LastValue(attrs + [a], pick, if pick(a).Some? then pick(a) else v)
  {
    var all := attrs + [a];
    assert all[|attrs|] == a && forall i :: 0 <= i < |attrs| ==> all[i] == attrs[i];
    if pick(a).Some? {
      assert NoneAfter(all, pick, |attrs|);
    } else if v.Some? {
      var i :| 0 <= i < |attrs| && pick(attrs[i]) == v && NoneAfter(attrs, pick, i);
      assert NoneAfter(all, pick, i);
    }
  }

  // ---------- Rules ----------

  function PriorityOf(a: RuleAttr): Option<U32> {
    if a.Priority? then Some(a.priority) else None
  }

  function SourceOf(a: RuleAttr): Option<Ip> {
    if a.SourceV4? then Some(a.src) else None
  }

  function TableOf(a: RuleAttr): Option<U32> {
    if a.Table? then Some(a.table) else None
  }

  function MarkOf(a: RuleAttr): Option<U32> {
    if a.FwMark? then Some(a.mark) else None
  }

  function MaskOf(a: RuleAttr): Option<U32> {
    if a.FwMask? then Some(a.mask) else None
  }

  lemma {:induction false} RuleScanIsLast(attrs: seq<RuleAttr>)
    ensures var f := RuleScan(attrs);
            && LastValue(attrs, PriorityOf, f.priority) && LastValue(attrs, SourceOf, f.src)
            && LastValue(attrs, TableOf, f.table) && LastValue(attrs, MarkOf, f.fwmark)
            && LastValue(attrs, MaskOf, f.fwmask)
  {
    if attrs != [] {
      var before, a := attrs[..|attrs| - 1], attrs[|attrs| - 1];
      RuleScanIsLast(before);
      var f := RuleScan(before);
      assert attrs == before + [a];
      LastValueAppend(before, PriorityOf, f.priority, a);
      LastValueAppend(before, SourceOf, f.src, a);
      LastValueAppend(before, TableOf, f.table, a);
      LastValueAppend(before, MarkOf, f.fwmark, a);
      LastValueAppend(before, MaskOf, f.fwmask, a);
    }
  }

  lemma {:induction false} RuleScanValues(attrs: seq<RuleAttr>)
    ensures forall v :: LastValue(attrs, PriorityOf, v) <==> v == RuleScan(attrs).priority
    ensures forall v :: LastValue(attrs, SourceOf, v) <==> v == RuleScan(attrs).src
    ensures forall v :: LastValue(attrs, TableOf, v) <==> v == RuleScan(attrs).table
    ensures forall v :: LastValue(attrs, MarkOf, v) <==> v == RuleScan(attrs).fwmark
    ensures forall v :: LastValue(attrs, MaskOf, v) <==> v == RuleScan(attrs).fwmask
  {
    var f := RuleScan(attrs);
    RuleScanIsLast(attrs);
    forall v | LastValue(attrs, PriorityOf, v) ensures v == f.priority { LastValueUnique(attrs, PriorityOf, v, f.priority); }
    forall v | LastValue(attrs, SourceOf, v) ensures v == f.src { LastValueUnique(attrs, SourceOf, v, f.src); }
    forall v | LastValue(attrs, TableOf, v) ensures v == f.table { LastValueUnique(attrs, TableOf, v, f.table); }
    forall v | LastValue(attrs, MarkOf, v) ensures v == f.fwmark { LastValueUnique(attrs, MarkOf, v, f.fwmark); }
    forall v | LastValue(attrs, MaskOf, v) ensures v == f.fwmask { LastValueUnique(attrs, MaskOf, v, f.fwmask); }
  }

  /** The rule's table: its last table attribute, else the header's. */
  ghost predicate RuleIsIn(m: RuleMsg, t: U32) {
    LastValue(m.attrs, TableOf, Some(t)) || (LastValue(m.attrs, TableOf, None) && m.headerTable == t)
  }

  /** A rule somebody else made: not IPv4, not for a single source, or not of our priority. */
  ghost predicate ForeignRule(m: RuleMsg) {
    || m.family != Inet || m.srcLen != 32
    || LastValue(m.attrs, SourceOf, None) || !LastValue(m.attrs, PriorityOf, Some(9876))
  }

  lemma {:induction false} RuleTableMeans(m: RuleMsg)
    ensures ForeignRule(m) <==> RuleTable(m) == None
    ensures forall t: U32 :: RuleTable(m) == Some(t) <==> !ForeignRule(m) && RuleIsIn(m, t)
  {
    RuleScanValues(m.attrs);
  }

  /** What `parse_dumbarp_rule` returns: the last source, table, mark and mask of a
      rule that is not foreign, mark 0 counting as no mark, and the mask only with a mark. */
  lemma {:induction false} ParseRuleMeans(m: RuleMsg, t: U32, r: CurrentRule)
    ensures ParseRule(m) == Some((t, r)) <==>
            && !ForeignRule(m) && RuleIsIn(m, t) && LastValue(m.attrs, SourceOf, Some(r.src))
            && r.fwmark != Some(0)
            && (LastValue(m.attrs, MarkOf, r.fwmark) || (r.fwmark == None && LastValue(m.attrs, MarkOf, Some(0))))
            && (if r.fwmark.Some? then LastValue(m.attrs, MaskOf, r.fwmask) else r.fwmask == None)
  {
    RuleScanValues(m.attrs);
  }

  /** Which rules a delete request matches: ours, looking up the table, with the
      request's source, and with its mark if it names one. */
  lemma {:induction false} SelectsMeans(op: Op, m: RuleMsg)
    requires op.DelRule?
    ensures Selects(op, m) <==>
            && !ForeignRule(m) && m.action == ToTable && RuleIsIn(m, op.table)
            && LastValue(m.attrs, SourceOf, Some(op.src))
            && (op.fwmark.Some? ==> LastValue(m.attrs, MarkOf, op.fwmark))
  {
    RuleScanValues(m.attrs);
  }

  // ---------- Routes ----------

  function GatewayOf(a: RouteAttr): Option<Ip> {
    if a.Gateway? then Some(a.gateway) else None
  }

  function OifOf(a: RouteAttr): Option<U32> {
    if a.Oif? then Some(a.oif) else None
  }

  function RouteTableOf(a: RouteAttr): Option<U32> {
    if a.RouteTable? then Some(a.table) else None
  }

  lemma {:induction false} RouteScanIsLast(attrs: seq<RouteAttr>)
    ensures var f := RouteScan(attrs);
            && LastValue(attrs, GatewayOf, f.gateway) && LastValue(attrs, OifOf, f.oif)
            && LastValue(attrs, RouteTableOf, f.table)
  {
    if attrs != [] {
      var before, a := attrs[..|attrs| - 1], attrs[|attrs| - 1];
      RouteScanIsLast(before);
      var f := RouteScan(before);
      assert attrs == before + [a];
      LastValueAppend(before, GatewayOf, f.gateway, a);
      LastValueAppend(before, OifOf, f.oif, a);
      LastValueAppend(before, RouteTableOf, f.table, a);
    }
  }

  lemma {:induction false} RouteScanValues(attrs: seq<RouteAttr>)
    ensures forall v :: LastValue(attrs, GatewayOf, v) <==> v == RouteScan(attrs).gateway
    ensures forall v :: LastValue(attrs, OifOf, v) <==> v == RouteScan(attrs).oif
    ensures forall v :: LastValue(attrs, RouteTableOf, v) <==> v == RouteScan(attrs).table
  {
    var f := RouteScan(attrs);
    RouteScanIsLast(attrs);
    forall v | LastValue(attrs, GatewayOf, v) ensures v == f.gateway { LastValueUnique(attrs, GatewayOf, v, f.gateway); }
    forall v | LastValue(attrs, OifOf, v) ensures v == f.oif { LastValueUnique(attrs, OifOf, v, f.oif); }
    forall v | LastValue(attrs, RouteTableOf, v) ensures v == f.table { LastValueUnique(attrs, RouteTableOf, v, f.table); }
  }

  ghost predicate RouteIsIn(m: RouteMsg, t: U32) {
    LastValue(m.attrs, RouteTableOf, Some(t)) || (LastValue(m.attrs, RouteTableOf, None) && m.headerTable == t)
  }

  /** A route of another protocol, or not IPv4. */
  ghost predicate ForeignRoute(m: RouteMsg) {
    m.family != Inet || m.protocol != 0x9A
  }

  lemma {:induction false} RouteOwnerMeans(m: RouteMsg)
    ensures ForeignRoute(m) <==> RouteOwner(m) == None
    ensures forall t: U32 :: RouteOwner(m) == Some(t) <==> !ForeignRoute(m) && RouteIsIn(m, t)
  {
    RouteScanValues(m.attrs);
  }

  /** What `parse_dumbarp_route` returns: the last gateway, interface and table of a
      route of ours that has both of the former, and its on-link flag. */
  lemma {:induction false} ParseRouteMeans(m: RouteMsg, t: U32, r: CurrentRoute)
    ensures ParseRoute(m) == Some((t, r)) <==>
            && !ForeignRoute(m) && RouteIsIn(m, t) && r.onlink == m.onlink
            && LastValue(m.attrs, GatewayOf, Some(r.gateway)) && LastValue(m.attrs, OifOf, Some(r.oif))
  {
    RouteScanValues(m.attrs);
  }

  /** What the message says about table t, if it is a route of ours we can read. */
  function RouteIn(m: RouteMsg, t: U32): Option<CurrentRoute> {
    var p := ParseRoute(m);
    if p.Some? && p.value.0 == t then Some(p.value.1) else None
  }

  /** Of several readable routes of ours in a table, the listing shows the last. */
  lemma {:induction false} LastRouteMeans(routes: seq<RouteMsg>, t: U32)
    ensures LastValue(routes, m => RouteIn(m, t), LastRoute(routes, t))
  {
    if routes != [] {
      var before, m := routes[..|routes| - 1], routes[|routes| - 1];
      LastRouteMeans(before, t);
      assert routes == before + [m];
      LastValueAppend(before, m => RouteIn(m, t), LastRoute(before, t), m);
    }
  }

  // ---------- Requests ----------

  /** The route a granted delete removes is ours and in the table named; everything
      else stays in place, and the delete is granted only if there is one. */
  lemma {:induction false} DelRouteRemovesOurs(fib: Fib, t: U32, pick: Option<nat>)
    ensures Effect(fib, DelRoute(t), pick).None? <==> forall m :: m in fib.routes ==> ForeignRoute(m) || !RouteIsIn(m, t)
    ensures Effect(fib, DelRoute(t), pick).Some? ==>
              exists i: nat :: i < |fib.routes| && !ForeignRoute(fib.routes[i]) && RouteIsIn(fib.routes[i], t)
                && Effect(fib, DelRoute(t), pick).value == Fib(fib.rules, fib.routes[..i] + fib.routes[i + 1..])
  {
    var v := VictimRoute(fib.routes, t, pick);
    forall m | m in fib.routes ensures RouteOwner(m) == Some(t) <==> !ForeignRoute(m) && RouteIsIn(m, t) {
      RouteOwnerMeans(m);
    }
    if v.Some? {
      assert fib.routes[v.value] in fib.routes;
    }
  }

  /** The rule a granted delete removes is ours, of the action, table, source and
      mark named; everything else stays in place. */
  lemma {:induction false} DelRuleRemovesOurs(fib: Fib, op: Op, pick: Option<nat>)
    requires op.DelRule? && Effect(fib, op, pick).Some?
    ensures exists i: nat :: i < |fib.rules| && Effect(fib, op, pick).value
                             == Fib(fib.rules[..i] + fib.rules[i + 1..], fib.routes)
              && !ForeignRule(fib.rules[i]) && fib.rules[i].action == ToTable && RuleIsIn(fib.rules[i], op.table)
              && LastValue(fib.rules[i].attrs, SourceOf, Some(op.src))
              && (op.fwmark.Some? ==> LastValue(fib.rules[i].attrs, MarkOf, op.fwmark))
  {
    var v := VictimRule(fib.rules, op, pick);
    SelectsMeans(op, fib.rules[v.value]);
  }

  // ---------- What belongs to others ----------

  lemma {:induction false} PartSameKeys<T(!new), K, L>(p: T -> K, c: K, q: T -> L, d: L, s: seq<T>)
    requires forall x :: x in s ==> (p(x) == c <==> q(x) == d)
    ensures Part(p, s, c) == Part(q, s, d)
  {
    if s != [] {
      PartSameKeys(p, c, q, d, s[..|s| - 1]);
      assert s[|s| - 1] in s;
    }
  }

  /** The rules and routes of others, in kernel order. */
  ghost function Others(fib: Fib): (seq<RuleMsg>, seq<RouteMsg>) {
    (Part(m => ForeignRule(m), fib.rules, true), Part(m => ForeignRoute(m), fib.routes, true))
  }

  lemma {:induction false} OthersAreUnowned(fib: Fib)
    ensures Others(fib) == (Part(RuleTable, fib.rules, None), Part(RouteOwner, fib.routes, None))
  {
    forall m | m in fib.rules ensures ForeignRule(m) <==> RuleTable(m) == None {
      RuleTableMeans(m);
    }
    forall m | m in fib.routes ensures ForeignRoute(m) <==> RouteOwner(m) == None {
      RouteOwnerMeans(m);
    }
    PartSameKeys((m: RuleMsg) => ForeignRule(m), true, RuleTable, None, fib.rules);
    PartSameKeys((m: RouteMsg) => ForeignRoute(m), true, RouteOwner, None, fib.routes);
  }
}
