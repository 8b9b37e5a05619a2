/** The Kubernetes side: one load-balancer pool per reported address, created,
    touched and pruned by repeated passes. */
module Pools {
  import opened Base

  // ---------- Names ----------

  const DIGITS := "0123456789"

  /** A number in decimal, as `Ipv4Addr::to_string` writes its octets. */
  function Decimal(n: nat): (s: string)
    ensures |s| >= 1 && (|s| == 1 <==> n < 10)
  {
    if n < 10 then [DIGITS[n]] else Decimal(n / 10) + [DIGITS[n % 10]]
  }

  function Octet(ip: Ip, i: nat): Byte
    requires i < 4
  {
    match i
    case 0 => ip / 0x100_0000
    case 1 => ip / 0x1_0000 % 0x100
    case 2 => ip / 0x100 % 0x100
    case _ => ip % 0x100
  }

  function Parts(ip: Ip): seq<string> {
    [Decimal(Octet(ip, 0)), Decimal(Octet(ip, 1)), Decimal(Octet(ip, 2)), Decimal(Octet(ip, 3))]
  }

  /** "dumbarp-" and the address with its dots replaced by dashes. */
  function PoolName(ip: Ip): string {
    "dumbarp-" + Dashed(Parts(ip))
  }

  /** The parts, each followed by a dash except the last. */
  function Dashed(parts: seq<string>): string
    requires parts != []
  {
    if |parts| == 1 then parts[0] else parts[0] + "-" + Dashed(parts[1..])
  }

  lemma {:induction false} DecimalHasNoDash(n: nat)
    ensures '-' !in Decimal(n)
  {
    if n >= 10 {
      DecimalHasNoDash(n / 10);
    }
  }

  lemma {:induction false} DecimalInjective(a: nat, b: nat)
    requires Decimal(a) == Decimal(b)
    ensures a == b
  {
    var s, t := Decimal(a), Decimal(b);
    assert s[|s| - 1] == DIGITS[a % 10] && t[|t| - 1] == DIGITS[b % 10];
    if a >= 10 {
      assert s[..|s| - 1] == Decimal(a / 10) && t[..|t| - 1] == Decimal(b / 10);
      DecimalInjective(a / 10, b / 10);
    }
  }

  lemma {:induction false} DashSplits(x: string, u: string, y: string, v: string)
    requires '-' !in x && '-' !in y && x + "-" + u == y + "-" + v
    ensures x == y && u == v
  {
    var s := x + "-" + u;
    assert s[|x|] == '-' && s[|y|] == '-';
    assert forall k :: 0 <= k < |x| ==> s[k] == x[k];
    assert forall k :: 0 <= k < |y| ==> s[k] == y[k];
    assert |x| == |y|;
    assert x == s[..|x|] && y == s[..|y|] && u == s[|x| + 1..] && v == s[|y| + 1..];
  }

  lemma {:induction false} DashedInjective(a: seq<string>, b: seq<string>)
    requires |a| == |b| > 0 && Dashed(a) == Dashed(b)
    requires forall i :: 0 <= i < |a| ==> '-' !in a[i] && '-' !in b[i]
    ensures a == b
  {
    if |a| > 1 {
      DashSplits(a[0], Dashed(a[1..]), b[0], Dashed(b[1..]));
      DashedInjective(a[1..], b[1..]);
      assert a == [a[0]] + a[1..] && b == [b[0]] + b[1..];
    }
  }

  function DigitValue(c: char): nat
    requires c in DIGITS
  {
    c as int - '0' as int
  }

  /** The number a digit string denotes. */
  function Value(s: string): nat
    requires forall c :: c in s ==> c in DIGITS
  {
    if s == [] then 0 else Value(s[..|s| - 1]) * 10 + DigitValue(s[|s| - 1])
  }

  lemma {:induction false} DigitMeans(n: nat)
    requires n < 10
    ensures DIGITS[n] in DIGITS && DigitValue(DIGITS[n]) == n
    ensures DIGITS[n] == '0' <==> n == 0
  {
  }

  /** Decimal notation: digits only, denoting the number, without leading zeros. */
  lemma {:induction false} DecimalMeans(n: nat)
    ensures forall c :: c in Decimal(n) ==> c in DIGITS
    ensures Value(Decimal(n)) == n && (Decimal(n)[0] == '0' ==> n == 0)
  {
    DigitMeans(n % 10);
    if n < 10 {
      assert Decimal(n)[..0] == [];
    } else {
      DecimalMeans(n / 10);
      var s := Decimal(n / 10);
      assert Decimal(n)[..|s|] == s && Decimal(n)[|s|] == DIGITS[n % 10];
    }
  }

  /** The text of a pool's name. */
  lemma {:induction false} PoolNameMeans(ip: Ip)
    ensures PoolName(ip)
         == "dumbarp-" + Decimal(Octet(ip, 0)) + "-" + Decimal(Octet(ip, 1)) + "-" + Decimal(Octet(ip, 2)) + "-"
            + Decimal(Octet(ip, 3))
  {
    var a, b, c, d := Decimal(Octet(ip, 0)), Decimal(Octet(ip, 1)), Decimal(Octet(ip, 2)), Decimal(Octet(ip, 3));
    assert Parts(ip)[1..] == [b, c, d] && [b, c, d][1..] == [c, d] && [c, d][1..] == [d];
    assert Dashed([c, d]) == c + "-" + d;
    assert Dashed([b, c, d]) == b + "-" + (c + "-" + d);
    assert Dashed(Parts(ip)) == a + "-" + (b + "-" + (c + "-" + d));
    assert "dumbarp-" + (a + "-" + (b + "-" + (c + "-" + d))) == "dumbarp-" + a + "-" + b + "-" + c + "-" + d;
  }

  lemma {:induction false} FromOctets(ip: Ip)
    ensures ip == ((Octet(ip, 0) as int * 0x100 + Octet(ip, 1)) * 0x100 + Octet(ip, 2)) * 0x100 + Octet(ip, 3)
  {
    var a, b := ip / 0x100, ip / 0x1_0000;
    assert b == a / 0x100 && ip / 0x100_0000 == b / 0x100;
  }

  lemma {:induction false} OctetsDetermine(a: Ip, b: Ip)
    requires Octet(a, 0) == Octet(b, 0) && Octet(a, 1) == Octet(b, 1)
    requires Octet(a, 2) == Octet(b, 2) && Octet(a, 3) == Octet(b, 3)
    ensures a == b
  {
    FromOctets(a);
    FromOctets(b);
  }

  /** Distinct addresses have distinct pool names. */
  lemma {:induction false} PoolNameInjective(a: Ip, b: Ip)
    requires PoolName(a) == PoolName(b)
    ensures a == b
  {
    var p, q := Parts(a), Parts(b);
    assert PoolName(a)[8..] == Dashed(p) && PoolName(b)[8..] == Dashed(q);
    forall i | 0 <= i < 4 ensures '-' !in p[i] && '-' !in q[i] {
      DecimalHasNoDash(Octet(a, i));
      DecimalHasNoDash(Octet(b, i));
    }
    DashedInjective(p, q);
    forall i | 0 <= i < 4 ensures Octet(a, i) == Octet(b, i) {
      assert p[i] == Decimal(Octet(a, i)) && q[i] == Decimal(Octet(b, i));
      DecimalInjective(Octet(a, i), Octet(b, i));
    }
    OctetsDetermine(a, b);
  }

  // ---------- The cluster ----------

  /** A pool object: whether it carries our label, the address in its
      annotation (if any, and if it parses), and its last-seen time. */
  datatype Pool = Pool(managed: bool, ip: Option<Ip>, lastSeen: Option<int>)

  type Pools = map<string, Pool>

  /** The pool is ours and annotated with this address. */
  predicate Carries(p: Pool, ip: Ip) {
    p.managed && p.ip == Some(ip)
  }

  /** The names of the pools that carry an address.  Nothing keeps a cluster from
      having several, or from having one under another name. */
  function Carriers(c: Pools, ip: Ip): set<string> {
    set name | name in c && Carries(c[name], ip)
  }

  predicate Listed(c: Pools, ip: Ip) {
    Carriers(c, ip) != {}
  }

  datatype Existing = Existing(name: string, lastSeen: Option<int>)

  type Listing = map<Ip, Existing>

  /** The listing has one carrier of every carried address. */
  ghost predicate Lists(c: Pools, current: Listing) {
    && (forall ip: Ip :: ip in current <==> Listed(c, ip))
    && (forall ip :: ip in current ==>
          current[ip].name in Carriers(c, ip) && c[current[ip].name].lastSeen == current[ip].lastSeen)
  }

  /** The recognised pools by address, read from the listing in any order. */
  method ListCurrent(c: Pools) returns (out: Listing)
    ensures Lists(c, out)
  {
    out := map[];
    var todo := c.Keys;
    while todo != {}
      invariant todo <= c.Keys
      invariant forall name :: name in c && name !in todo && c[name].managed && c[name].ip.Some? ==> c[name].ip.value in out
      invariant forall ip :: ip in out ==>
                  out[ip].name in c && Carries(c[out[ip].name], ip) && c[out[ip].name].lastSeen == out[ip].lastSeen
      decreases todo
    {
      var name :| name in todo;
      todo := todo - {name};
      if c[name].managed && c[name].ip.Some? {
        out := out[c[name].ip.value := Existing(name, c[name].lastSeen)];
      }
    }
    forall ip: Ip ensures ip in out <==> Listed(c, ip) {
      if ip in out {
        assert out[ip].name in Carriers(c, ip);
      } else if name :| name in Carriers(c, ip) {
        assert false;
      }
    }
  }

  /** The union of all reported addresses, and whether every host answered. */
  method CollectDesired(results: seq<Result<set<Ip>>>) returns (desired: set<Ip>, allOk: bool, errors: nat)
    ensures forall ip: Ip :: ip in desired <==>
              exists i :: 0 <= i < |results| && results[i].Ok? && ip in results[i].value
    ensures allOk <==> forall i :: 0 <= i < |results| ==> results[i].Ok?
    ensures allOk <==> errors == 0
  {
    desired, errors := {}, 0;
    for i := 0 to |results|
      invariant forall ip: Ip :: ip in desired <==> exists k :: 0 <= k < i && results[k].Ok? && ip in results[k].value
      invariant errors == 0 <==> forall k :: 0 <= k < i ==> results[k].Ok?
    {
      match results[i]
      case Ok(ips) => desired := desired + ips;
      case Err => errors := errors + 1;
    }
    allOk := errors == 0;
  }

  // ---------- One pass ----------

  datatype Pass = Pass(desired: set<Ip>, allOk: bool, now: int)

  predicate Prunes(seen: Option<int>, p: Pass, stale: nat) {
    p.allOk || seen.None? || seen.value < p.now - stale
  }

  /** A listed pool that nobody asked for and that the pass prunes. */
  predicate Unwanted(current: Listing, p: Pass, stale: nat, ip: Ip) {
    ip in current && ip !in p.desired && Prunes(current[ip].lastSeen, p, stale)
  }

  /** The names a pass deletes. */
  function Deleted(current: Listing, p: Pass, stale: nat): set<string> {
    set ip | ip in current && Unwanted(current, p, stale, ip) :: current[ip].name
  }

  ghost predicate NamedAfter(ips: set<Ip>, name: string) {
    exists ip :: ip in ips && PoolName(ip) == name
  }

  /** What creating or touching leaves under an address's name: a new pool, or
      whatever was there with a new last-seen time. */
  function Stamp(c: Pools, ip: Ip, now: int): Pool {
    if PoolName(ip) in c then c[PoolName(ip)].(lastSeen := Some(now)) else Pool(true, Some(ip), Some(now))
  }

  ghost predicate Touched(c: Pools, c': Pools, done: set<Ip>, now: int) {
    && (forall ip :: ip in done ==> Get(c', PoolName(ip)) == Some(Stamp(c, ip, now)))
    && (forall name :: !NamedAfter(done, name) ==> Get(c', name) == Get(c, name))
  }

  /** A pool carries this address, but not under the name the controller patches. */
  predicate Misnamed(c: Pools, ip: Ip) {
    Listed(c, ip) && PoolName(ip) !in c
  }

  /** A pass that ends well, on any cluster and for any listing: the desired
      addresses are touched, then the unwanted listed pools are deleted. */
  ghost predicate Completed(c: Pools, current: Listing, p: Pass, stale: nat, c': Pools) {
    && Lists(c, current)
    && (forall ip :: ip in p.desired ==> !Misnamed(c, ip))
    && exists touched :: Touched(c, touched, p.desired, p.now) && c' == touched - Deleted(current, p, stale)
  }

  /** What even a pass that ends early respects: only listed pools that are due go,
      and only pools named after desired addresses change. */
  ghost predicate Bounded(c: Pools, current: Listing, p: Pass, stale: nat, c': Pools) {
    && (forall name :: name in c && name !in Deleted(current, p, stale) ==> name in c')
    && (forall name :: name !in Deleted(current, p, stale) && !NamedAfter(p.desired, name) ==> Get(c', name) == Get(c, name))
  }

  lemma {:induction false} TouchedBounded(c: Pools, touched: Pools, done: set<Ip>, current: Listing, p: Pass,
                                          stale: nat, gone: set<string>)
    requires Touched(c, touched, done, p.now) && done <= p.desired && gone <= Deleted(current, p, stale)
    ensures Bounded(c, current, p, stale, touched - gone)
  {
    forall name | name in c && name !in Deleted(current, p, stale) ensures name in touched - gone {
      if NamedAfter(done, name) {
        var ip :| ip in done && PoolName(ip) == name;
        assert Get(touched, PoolName(ip)) == Some(Stamp(c, ip, p.now));
      } else {
        assert Get(touched, name) == Get(c, name);
      }
    }
    forall name | name !in Deleted(current, p, stale) && !NamedAfter(p.desired, name)
      ensures Get(touched - gone, name) == Get(c, name)
    {
      assert !NamedAfter(done, name);
    }
  }

  // ---------- The touching loop ----------

  /** Create or touch one pool; None if the API refuses, or if a listed pool is
      not there under its name. */
  function TouchOne(c: Pools, ip: Ip, listed: bool, now: int, ok: bool): Option<Pools> {
    if !ok || (listed && PoolName(ip) !in c) then None else Some(c[PoolName(ip) := Stamp(c, ip, now)])
  }

  /** The touching loop over addresses in a given order, ended by the first failure. */
  function TouchEach(c: Pools, current: Listing, order: seq<Ip>, now: int, apiOk: Ip -> bool): (Pools, bool) {
    if order == [] then (c, true)
    else
      var ip := order[|order| - 1];
      var (c1, ok) := TouchEach(c, current, order[..|order| - 1], now, apiOk);
      var c2 := TouchOne(c1, ip, ip in current, now, apiOk(ip));
      if !ok || c2.None? then (c1, false) else (c2.value, true)
  }

  lemma {:induction false} TouchEachAppend(c: Pools, current: Listing, order: seq<Ip>, now: int,
                                           apiOk: Ip -> bool, ip: Ip)
    requires TouchEach(c, current, order, now, apiOk).1
    ensures var c1 := TouchEach(c, current, order, now, apiOk).0;
            var c2 := TouchOne(c1, ip, ip in current, now, apiOk(ip));
            TouchEach(c, current, order + [ip], now, apiOk) == if c2.None? then (c1, false) else (c2.value, true)
  {
    assert (order + [ip])[..|order|] == order;
  }

  lemma {:induction false} NamedAfterOne(done: set<Ip>, ip: Ip)
    ensures NamedAfter(done, PoolName(ip)) <==> ip in done
  {
    if other :| other in done && PoolName(other) == PoolName(ip) {
      PoolNameInjective(other, ip);
    }
  }

  lemma {:induction false} TouchedStep(start: Pools, c: Pools, done: set<Ip>, ip: Ip, now: int)
    requires Touched(start, c, done, now)
    ensures Touched(start, c[PoolName(ip) := Stamp(c, ip, now)], done + {ip}, now)
    ensures PoolName(ip) in c <==> PoolName(ip) in start || ip in done
  {
    var c' := c[PoolName(ip) := Stamp(c, ip, now)];
    NamedAfterOne(done, ip);
    assert ip !in done ==> Get(c, PoolName(ip)) == Get(start, PoolName(ip));
    forall other | other in done + {ip} ensures Get(c', PoolName(other)) == Some(Stamp(start, other, now)) {
      if other != ip {
        NamedAfterOne({ip}, other);
        assert PoolName(other) != PoolName(ip);
      }
    }
    forall name | !NamedAfter(done + {ip}, name) ensures Get(c', name) == Get(start, name) {
      assert !NamedAfter(done, name) && name != PoolName(ip);
    }
  }

  function Elements(order: seq<Ip>): (s: set<Ip>) {
    set ip | ip in order
  }

  /** Why the loop stopped: some address of the order was refused or is misnamed. */
  ghost predicate Blocked(start: Pools, current: Listing, order: seq<Ip>, apiOk: Ip -> bool) {
    exists ip :: ip in order && (apiOk(ip) ==> ip in current && PoolName(ip) !in start)
  }

  ghost predicate TouchResult(start: Pools, current: Listing, order: seq<Ip>, now: int,
                              apiOk: Ip -> bool, c: Pools, ok: bool) {
    && (ok ==> Touched(start, c, Elements(order), now))
    && (ok ==> forall ip :: ip in order && ip in current ==> PoolName(ip) in start)
    && (!ok ==> exists done :: done <= Elements(order) && Touched(start, c, done, now))
    && (!ok ==> Blocked(start, current, order, apiOk))
  }

  lemma {:induction false} TouchEachOutcome(start: Pools, current: Listing, order: seq<Ip>, now: int, apiOk: Ip -> bool)
    requires Distinct(order)
    ensures var (c, ok) := TouchEach(start, current, order, now, apiOk);
            TouchResult(start, current, order, now, apiOk, c, ok)
  {
    if order == [] {
      assert Elements(order) == {};
    } else {
      var n := |order| - 1;
      var ip, before := order[n], order[..n];
      TouchEachOutcome(start, current, before, now, apiOk);
      var (c1, ok1) := TouchEach(start, current, before, now, apiOk);
      assert order == before + [ip] && ip !in before;
      if ok1 {
        TouchedFurther(start, current, before, ip, now, apiOk, c1);
      } else {
        StillStopped(start, current, before, ip, now, apiOk, c1);
      }
    }
  }

  lemma {:induction false} TouchedFurther(start: Pools, current: Listing, order: seq<Ip>, ip: Ip, now: int,
                                          apiOk: Ip -> bool, c: Pools)
    requires TouchResult(start, current, order, now, apiOk, c, true) && ip !in order
    ensures var c' := TouchOne(c, ip, ip in current, now, apiOk(ip));
            TouchResult(start, current, order + [ip], now, apiOk, if c'.Some? then c'.value else c, c'.Some?)
  {
    assert Elements(order + [ip]) == Elements(order) + {ip};
    TouchedStep(start, c, Elements(order), ip, now);
    assert ip in order + [ip];
  }

  lemma {:induction false} StillStopped(start: Pools, current: Listing, order: seq<Ip>, ip: Ip, now: int,
                                        apiOk: Ip -> bool, c: Pools)
    requires TouchResult(start, current, order, now, apiOk, c, false)
    ensures TouchResult(start, current, order + [ip], now, apiOk, c, false)
  {
    var done :| done <= Elements(order) && Touched(start, c, done, now);
    assert done <= Elements(order + [ip]);
    var x :| x in order && (apiOk(x) ==> x in current && PoolName(x) !in start);
    assert x in order + [ip];
  }

  /** A pass that the touching loop ended. */
  lemma {:induction false} EndedTouching(start: Pools, current: Listing, order: seq<Ip>, p: Pass, stale: nat,
                                         apiOk: Ip -> bool, c: Pools)
    requires Lists(start, current) && Elements(order) <= p.desired
    requires TouchResult(start, current, order, p.now, apiOk, c, false)
    ensures Bounded(start, current, p, stale, c)
    ensures (forall ip: Ip :: apiOk(ip)) ==> exists ip :: ip in p.desired && Misnamed(start, ip)
  {
    var done :| done <= Elements(order) && Touched(start, c, done, p.now);
    TouchedBounded(start, c, done, current, p, stale, {});
    assert c - {} == c;
    var x :| x in order && (apiOk(x) ==> x in current && PoolName(x) !in start);
    assert x in Elements(order);
  }

  /** A pass that got past the touching loop and deleted `gone`. */
  lemma {:induction false} EndedPruning(start: Pools, current: Listing, order: seq<Ip>, p: Pass, stale: nat,
                                        apiOk: Ip -> bool, touched: Pools, gone: set<string>)
    requires Lists(start, current) && Elements(order) == p.desired && gone <= Deleted(current, p, stale)
    requires TouchResult(start, current, order, p.now, apiOk, touched, true)
    ensures Bounded(start, current, p, stale, touched - gone)
    ensures forall ip :: ip in p.desired ==> !Misnamed(start, ip)
    ensures gone == Deleted(current, p, stale) ==> Completed(start, current, p, stale, touched - gone)
  {
    TouchedBounded(start, touched, p.desired, current, p, stale, gone);
    forall ip | ip in p.desired ensures !Misnamed(start, ip) {
      assert ip in Elements(order);
    }
  }

  class Cluster {
    var pools: Pools

    constructor (pools: Pools)
      ensures this.pools == pools
    {
      this.pools := pools;
    }

    /** `create_pool` for an address that was not listed, `touch_pool` for one that was. */
    method CreateOrTouch(ip: Ip, listed: bool, now: int, ok: bool) returns (r: Result<()>)
      modifies this
      ensures r.Ok? <==> TouchOne(old(pools), ip, listed, now, ok).Some?
      ensures pools == if r.Ok? then TouchOne(old(pools), ip, listed, now, ok).value else old(pools)
    {
      var name := PoolName(ip);
      if !ok || (listed && name !in pools) {
        return Err;
      }
      if name in pools {
        pools := pools[name := pools[name].(lastSeen := Some(now))];
      } else {
        pools := pools[name := Pool(true, Some(ip), Some(now))];
      }
      r := Ok(());
    }

    /** The first loop, over the desired addresses in some order. */
    method TouchAll(current: Listing, desired: set<Ip>, now: int, apiOk: Ip -> bool)
      returns (r: Result<()>, ghost order: seq<Ip>)
      modifies this
      ensures (pools, r.Ok?) == TouchEach(old(pools), current, order, now, apiOk)
      ensures Distinct(order) && Elements(order) <= desired
      ensures r.Ok? ==> Elements(order) == desired
    {
      var todo := desired;
      order := [];
      while todo != {}
        invariant todo <= desired && Distinct(order)
        invariant forall ip :: ip in order <==> ip in desired && ip !in todo
        invariant (pools, true) == TouchEach(old(pools), current, order, now, apiOk)
        decreases todo
      {
        var ip :| ip in todo;
        TouchEachAppend(old(pools), current, order, now, apiOk, ip);
        r := CreateOrTouch(ip, ip in current, now, apiOk(ip));
        order := order + [ip];
        if r.Err? {
          return;
        }
        todo := todo - {ip};
      }
      r := Ok(());
    }

    /** The second loop: exactly the unwanted listed pools go; a refused deletion ends it. */
    method PruneAll(current: Listing, p: Pass, stale: nat, apiOk: Ip -> bool)
      returns (r: Result<()>, ghost gone: set<string>)
      modifies this
      ensures pools == old(pools) - gone && gone <= Deleted(current, p, stale)
      ensures r.Ok? ==> gone == Deleted(current, p, stale)
      ensures r.Err? ==> exists ip :: ip in current && !apiOk(ip)
    {
      var todo := current.Keys;
      gone := {};
      while todo != {}
        invariant todo <= current.Keys
        invariant pools == old(pools) - gone && gone <= Deleted(current, p, stale)
        invariant forall ip :: ip in current && ip !in todo && Unwanted(current, p, stale, ip) ==> current[ip].name in gone
        decreases todo
      {
        var ip :| ip in todo;
        if Unwanted(current, p, stale, ip) {
          if !apiOk(ip) {
            return Err, gone;
          }
          pools := pools - {current[ip].name};
          gone := gone + {current[ip].name};
        }
        todo := todo - {ip};
      }
      r := Ok(());
    }

    /** One pass, on any cluster.  `current` is what its listing returned. */
    method ReconcileOnce(p: Pass, stale: nat, apiOk: Ip -> bool) returns (r: Result<()>, ghost current: Listing)
      modifies this
      ensures Lists(old(pools), current) && Bounded(old(pools), current, p, stale, pools)
      ensures r.Ok? ==> Completed(old(pools), current, p, stale, pools)
      ensures (forall ip: Ip :: apiOk(ip)) ==>
                (r.Ok? <==> forall ip :: ip in p.desired ==> !Misnamed(old(pools), ip))
    {
      ghost var start := pools;
      var listing := ListCurrent(pools);
      current := listing;
      ghost var order;
      r, order := TouchAll(listing, p.desired, p.now, apiOk);
      ghost var touched := pools;
      TouchEachOutcome(start, listing, order, p.now, apiOk);
      if r.Err? {
        EndedTouching(start, listing, order, p, stale, apiOk, touched);
        return;
      }
      ghost var gone;
      r, gone := PruneAll(listing, p, stale, apiOk);
      EndedPruning(start, listing, order, p, stale, apiOk, touched, gone);
    }
  }

  // ---------- What a completed pass does to one address ----------

  /** The carriers of an address after a pass, on any cluster: a desired address
      gains a pool if its name was free; an undesired one loses the listed pool
      if that is due, and only that one. */
  lemma {:induction false} CarriersAfterPass(c: Pools, current: Listing, p: Pass, stale: nat, c': Pools, ip: Ip)
    requires Completed(c, current, p, stale, c')
    ensures ip in p.desired && PoolName(ip) in c ==> Carriers(c', ip) == Carriers(c, ip)
    ensures ip in p.desired && PoolName(ip) !in c ==> Carriers(c, ip) == {} && Carriers(c', ip) == {PoolName(ip)}
    ensures ip !in p.desired ==>
              Carriers(c', ip)
              == Carriers(c, ip) - if Unwanted(current, p, stale, ip) then {current[ip].name} else {}
  {
    var after := if ip in p.desired && PoolName(ip) !in c then {PoolName(ip)}
                 else Carriers(c, ip) - if Unwanted(current, p, stale, ip) then {current[ip].name} else {};
    assert ip in p.desired && PoolName(ip) !in c ==> !Misnamed(c, ip);
    forall name ensures name in Carriers(c', ip) <==> name in after {
      CarrierAfterPass(c, current, p, stale, c', ip, name);
    }
  }

  /** Whether one name carries an address after a pass. */
  lemma {:induction false} CarrierAfterPass(c: Pools, current: Listing, p: Pass, stale: nat, c': Pools, ip: Ip,
                                            name: string)
    requires Completed(c, current, p, stale, c')
    ensures name in Carriers(c', ip) <==>
            || (name in Carriers(c, ip) && !(Unwanted(current, p, stale, ip) && current[ip].name == name))
            || (ip in p.desired && name == PoolName(ip) && name !in c)
  {
    PoolAfterPass(c, current, p, stale, c', name);
    DeletedCarriers(c, current, p, stale, ip, name);
    if other :| other in p.desired && PoolName(other) == name {
      NamedAfterOne({ip}, other);
      if name == PoolName(ip) {
        assert NamedAfter({ip}, PoolName(other));
      }
    } else {
      assert !NamedAfter(p.desired, name);
    }
  }

  /** A pass deletes only pools of ours that carry an undesired address and are due. */
  lemma {:induction false} DeletedIsDue(c: Pools, current: Listing, p: Pass, stale: nat, name: string)
    requires Lists(c, current)
    ensures name in Deleted(current, p, stale) ==>
              && name in c && c[name].managed && c[name].ip.Some? && c[name].ip.value !in p.desired
              && Prunes(c[name].lastSeen, p, stale)
  {
    if name in Deleted(current, p, stale) {
      var ip :| ip in current && Unwanted(current, p, stale, ip) && current[ip].name == name;
      assert name in Carriers(c, ip);
    }
  }

  /** The pools a pass deletes carry undesired addresses that list them. */
  lemma {:induction false} DeletedCarriers(c: Pools, current: Listing, p: Pass, stale: nat, ip: Ip, name: string)
    requires Lists(c, current)
    ensures name in Deleted(current, p, stale) ==> name in c
    ensures name in Carriers(c, ip) ==>
              (name in Deleted(current, p, stale) <==> Unwanted(current, p, stale, ip) && current[ip].name == name)
  {
    if name in Deleted(current, p, stale) {
      var other :| other in current && Unwanted(current, p, stale, other) && current[other].name == name;
      assert name in Carriers(c, other);
    }
  }

  /** What one pass does to one name. */
  lemma {:induction false} PoolAfterPass(c: Pools, current: Listing, p: Pass, stale: nat, c': Pools, name: string)
    requires Completed(c, current, p, stale, c')
    ensures name in Deleted(current, p, stale) ==> Get(c', name) == None
    ensures name !in Deleted(current, p, stale) && !NamedAfter(p.desired, name) ==> Get(c', name) == Get(c, name)
    ensures forall ip :: ip in p.desired && PoolName(ip) == name && name !in Deleted(current, p, stale) ==>
              Get(c', name) == Some(Stamp(c, ip, p.now))
  {
    var touched :| Touched(c, touched, p.desired, p.now) && c' == touched - Deleted(current, p, stale);
    assert !NamedAfter(p.desired, name) ==> Get(touched, name) == Get(c, name);
    forall ip | ip in p.desired && PoolName(ip) == name && name !in Deleted(current, p, stale)
      ensures Get(c', name) == Some(Stamp(c, ip, p.now))
    {
      assert Get(touched, PoolName(ip)) == Some(Stamp(c, ip, p.now));
    }
  }

  /** With every host heard from, on any cluster: a desired address ends up listed
      exactly if it was before or its name was free, and an undesired one exactly
      if two or more pools carried it. */
  lemma {:induction false} AllHostsOk(c: Pools, current: Listing, p: Pass, stale: nat, c': Pools, ip: Ip)
    requires Completed(c, current, p, stale, c') && p.allOk
    ensures ip in p.desired ==> (Listed(c', ip) <==> Listed(c, ip) || PoolName(ip) !in c)
    ensures ip !in p.desired ==> (Listed(c', ip) <==> |Carriers(c, ip)| >= 2)
  {
    CarriersAfterPass(c, current, p, stale, c', ip);
    if ip !in p.desired && Listed(c, ip) {
      var name := current[ip].name;
      assert Carriers(c, ip) == Carriers(c', ip) + {name} && name !in Carriers(c', ip);
      assert |Carriers(c, ip)| == |Carriers(c', ip)| + 1;
    }
  }

  /** The address's pools are where the controller looks for them: its own name is
      free or carries it, it is listed under no other name, and only once. */
  ghost predicate Proper(c: Pools, ip: Ip) {
    Carriers(c, ip) == if PoolName(ip) in c then {PoolName(ip)} else {}
  }

  /** So the recognised pools are exactly the desired addresses if and only if no
      desired address has its name taken by a pool that does not carry it while
      no other does, and no undesired address has two pools. */
  lemma {:induction false} RecognisedIsDesired(c: Pools, current: Listing, p: Pass, stale: nat, c': Pools)
    requires Completed(c, current, p, stale, c') && p.allOk
    ensures (forall ip: Ip :: Listed(c', ip) <==> ip in p.desired)
       <==> forall ip: Ip :: if ip in p.desired then Listed(c, ip) || PoolName(ip) !in c else |Carriers(c, ip)| < 2
  {
    forall ip: Ip ensures (Listed(c', ip) <==> ip in p.desired) <==>
                          if ip in p.desired then Listed(c, ip) || PoolName(ip) !in c else |Carriers(c, ip)| < 2 {
      AllHostsOk(c, current, p, stale, c', ip);
    }
    if forall ip: Ip :: Listed(c', ip) <==> ip in p.desired {
      forall ip: Ip ensures if ip in p.desired then Listed(c, ip) || PoolName(ip) !in c else |Carriers(c, ip)| < 2 {
        assert Listed(c', ip) <==> ip in p.desired;
      }
    }
  }

  // ---------- Where the expected outcome fails ----------

  /** A pool under another name: every pass that desires its address fails. */
  lemma {:induction false} MisnamedExample()
    ensures Misnamed(map["hand-made" := Pool(true, Some(1), None)], 1)
  {
    var c: Pools := map["hand-made" := Pool(true, Some(1), None)];
    assert "hand-made" in Carriers(c, 1);
    assert PoolName(1)[0] == 'd';
  }

  /** Two pools for one address nobody desires: a pass that heard from every host
      deletes one of them, whichever was listed, and the address stays. */
  lemma {:induction false} DuplicateSurvives(c: Pools, current: Listing, p: Pass, stale: nat, c': Pools)
    requires c == map["a" := Pool(true, Some(1), None), "b" := Pool(true, Some(1), None)]
    requires Completed(c, current, p, stale, c') && p.allOk && 1 !in p.desired
    ensures Listed(c', 1)
  {
    assert Carriers(c, 1) == {"a", "b"};
    AllHostsOk(c, current, p, stale, c', 1);
  }

  /** Somebody else's pool under the address's name: the pass ends well, having
      touched that pool, and the address is not recognised. */
  lemma {:induction false} TakenNameShadows(ip: Ip, foreign: Pool, current: Listing, p: Pass, stale: nat, c': Pools)
    requires !foreign.managed && ip in p.desired && p.allOk
    requires Completed(map[PoolName(ip) := foreign], current, p, stale, c')
    ensures !Listed(c', ip)
    ensures Get(c', PoolName(ip)) == Some(foreign.(lastSeen := Some(p.now)))
  {
    var c: Pools := map[PoolName(ip) := foreign];
    assert forall x: Ip :: Carriers(c, x) == {};
    AllHostsOk(c, current, p, stale, c', ip);
    PoolAfterPass(c, current, p, stale, c', PoolName(ip));
    DeletedIsDue(c, current, p, stale, PoolName(ip));
  }

  // ---------- Histories ----------

  ghost predicate Chronological(ps: seq<Pass>) {
    forall i, j :: 0 <= i <= j < |ps| ==> ps[i].now <= ps[j].now
  }

  /** Consecutive completed passes, from any cluster. */
  ghost predicate Run(cs: seq<Pools>, ls: seq<Listing>, ps: seq<Pass>, stale: nat) {
    && |cs| == |ps| + 1 && |ls| == |ps| && Chronological(ps)
    && forall i :: 0 <= i < |ps| ==> Completed(cs[i], ls[i], ps[i], stale, cs[i + 1])
  }

  ghost predicate Unreported(ps: seq<Pass>, ip: Ip) {
    forall i :: 0 <= i < |ps| ==> ip !in ps[i].desired
  }

  /** Pass j is the last one that reported ip. */
  ghost predicate LastReport(ps: seq<Pass>, ip: Ip, j: nat) {
    j < |ps| && ip in ps[j].desired && forall i :: j < i < |ps| ==> ip !in ps[i].desired
  }

  // ---------- How fast an address with d pools goes ----------

  /** At every pass of the run, every pool the address has at the start is due and
      none is named after an address that the pass desires. */
  ghost predicate Abandoned(c: Pools, ps: seq<Pass>, stale: nat, ip: Ip) {
    forall i :: 0 <= i < |ps| ==> AllDue(c, ps[i], stale, ip) && Apart(Carriers(c, ip), ps[i].desired)
  }

  ghost predicate AllDue(c: Pools, p: Pass, stale: nat, ip: Ip) {
    forall name :: name in Carriers(c, ip) ==> Prunes(c[name].lastSeen, p, stale)
  }

  ghost predicate Apart(names: set<string>, ips: set<Ip>) {
    forall name :: name in names ==> !NamedAfter(ips, name)
  }

  /** The address has gained no pool, and those it still has are as they were. */
  ghost predicate Leftover(c: Pools, c': Pools, ip: Ip) {
    Carriers(c', ip) <= Carriers(c, ip) && forall name :: name in Carriers(c', ip) ==> c'[name] == c[name]
  }

  lemma {:induction false} LeftoverStep(start: Pools, c: Pools, current: Listing, p: Pass, stale: nat,
                                        c': Pools, ip: Ip)
    requires Leftover(start, c, ip) && Completed(c, current, p, stale, c') && ip !in p.desired
    requires Apart(Carriers(start, ip), p.desired)
    ensures Leftover(start, c', ip)
  {
    CarriersAfterPass(c, current, p, stale, c', ip);
    forall name | name in Carriers(c', ip) ensures c'[name] == start[name] {
      PoolAfterPass(c, current, p, stale, c', name);
      DeletedCarriers(c, current, p, stale, ip, name);
    }
  }

  /** What is left of the address's pools after n passes: fewer by one a pass. */
  ghost predicate Dwindled(c: Pools, c': Pools, ip: Ip, n: nat) {
    && Leftover(c, c', ip)
    && |Carriers(c', ip)| == if |Carriers(c, ip)| <= n then 0 else |Carriers(c, ip)| - n
  }

  lemma {:induction false} DwindlesByOne(start: Pools, n: nat, c: Pools, current: Listing, p: Pass, stale: nat,
                                         c': Pools, ip: Ip)
    requires Dwindled(start, c, ip, n) && Completed(c, current, p, stale, c') && ip !in p.desired
    requires AllDue(start, p, stale, ip) && Apart(Carriers(start, ip), p.desired)
    ensures Dwindled(start, c', ip, n + 1)
  {
    CarriersAfterPass(c, current, p, stale, c', ip);
    if Listed(c, ip) {
      var name := current[ip].name;
      assert name in Carriers(c, ip) && Unwanted(current, p, stale, ip);
      assert Carriers(c, ip) == Carriers(c', ip) + {name} && name !in Carriers(c', ip);
      assert |Carriers(c, ip)| == |Carriers(c', ip)| + 1;
    }
    LeftoverStep(start, c, current, p, stale, c', ip);
  }

  lemma {:induction false} AbandonedStep(cs: seq<Pools>, ls: seq<Listing>, ps: seq<Pass>, stale: nat, ip: Ip, i: nat)
    requires Run(cs, ls, ps, stale) && Unreported(ps, ip) && Abandoned(cs[0], ps, stale, ip) && i < |ps|
    ensures Completed(cs[i], ls[i], ps[i], stale, cs[i + 1]) && ip !in ps[i].desired
    ensures AllDue(cs[0], ps[i], stale, ip) && Apart(Carriers(cs[0], ip), ps[i].desired)
  {
  }

  lemma {:induction false} DwindlesOverRun(cs: seq<Pools>, ls: seq<Listing>, ps: seq<Pass>, stale: nat, ip: Ip, n: nat)
    requires Run(cs, ls, ps, stale) && Unreported(ps, ip) && Abandoned(cs[0], ps, stale, ip) && n <= |ps|
    ensures Dwindled(cs[0], cs[n], ip, n)
  {
    if n > 0 {
      DwindlesOverRun(cs, ls, ps, stale, ip, n - 1);
      AbandonedStep(cs, ls, ps, stale, ip, n - 1);
      DwindlesByOne(cs[0], n - 1, cs[n - 1], ls[n - 1], ps[n - 1], stale, cs[n], ip);
    }
  }

  /** An abandoned address with d pools loses one a pass, whichever the listings
      show, and so is gone after exactly d passes: after the next one if it had one. */
  lemma {:induction false} GoneAfterAsManyPasses(cs: seq<Pools>, ls: seq<Listing>, ps: seq<Pass>, stale: nat,
                                                 ip: Ip, n: nat)
    requires Run(cs, ls, ps, stale) && Unreported(ps, ip) && Abandoned(cs[0], ps, stale, ip) && n <= |ps|
    ensures Leftover(cs[0], cs[n], ip)
    ensures !Listed(cs[n], ip) <==> |Carriers(cs[0], ip)| <= n
  {
    DwindlesOverRun(cs, ls, ps, stale, ip, n);
    assert Carriers(cs[n], ip) == {} <==> |Carriers(cs[n], ip)| == 0;
  }

  /** No pool claims to have been seen after t. */
  ghost predicate SeenBy(c: Pools, t: int) {
    forall name :: name in c && c[name].lastSeen.Some? ==> c[name].lastSeen.value <= t
  }

  lemma {:induction false} SeenByStep(c: Pools, current: Listing, p: Pass, stale: nat, c': Pools, t: int)
    requires Completed(c, current, p, stale, c') && SeenBy(c, t) && t <= p.now
    ensures SeenBy(c', p.now)
  {
    forall name | name in c' && c'[name].lastSeen.Some? ensures c'[name].lastSeen.value <= p.now {
      PoolAfterPass(c, current, p, stale, c', name);
      if NamedAfter(p.desired, name) {
        var ip :| ip in p.desired && PoolName(ip) == name;
        assert Get(c', name) == Some(Stamp(c, ip, p.now));
      }
    }
  }

  lemma {:induction false} NeverFromTheFuture(cs: seq<Pools>, ls: seq<Listing>, ps: seq<Pass>, stale: nat, n: nat)
    requires Run(cs, ls, ps, stale) && n < |ps| && SeenBy(cs[0], ps[0].now)
    ensures SeenBy(cs[n + 1], ps[n].now)
  {
    if n > 0 {
      NeverFromTheFuture(cs, ls, ps, stale, n - 1);
    }
    assert Completed(cs[n], ls[n], ps[n], stale, cs[n + 1]);
    SeenByStep(cs[n], ls[n], ps[n], stale, cs[n + 1], ps[if n > 0 then n - 1 else 0].now);
  }

  /** No pool the address has at c is named after an address desired from pass `from` on. */
  ghost predicate Unshadowed(c: Pools, ps: seq<Pass>, from: nat, ip: Ip) {
    forall i :: from <= i < |ps| ==> Apart(Carriers(c, ip), ps[i].desired)
  }

  lemma {:induction false} LeftoverSince(cs: seq<Pools>, ls: seq<Listing>, ps: seq<Pass>, stale: nat, ip: Ip,
                                         j: nat, n: nat)
    requires Run(cs, ls, ps, stale) && LastReport(ps, ip, j) && Unshadowed(cs[j + 1], ps, j + 1, ip) && j < n <= |ps|
    ensures Leftover(cs[j + 1], cs[n], ip)
  {
    if n > j + 1 {
      LeftoverSince(cs, ls, ps, stale, ip, j, n - 1);
      assert Completed(cs[n - 1], ls[n - 1], ps[n - 1], stale, cs[n - 1 + 1]);
      LeftoverStep(cs[j + 1], cs[n - 1], ls[n - 1], ps[n - 1], stale, cs[n], ip);
    }
  }

  lemma {:induction false} RunFrom(cs: seq<Pools>, ls: seq<Listing>, ps: seq<Pass>, stale: nat, m: nat)
    requires Run(cs, ls, ps, stale) && m <= |ps|
    ensures Run(cs[m..], ls[m..], ps[m..], stale)
  {
    forall i | 0 <= i < |ps| - m ensures Completed(cs[m..][i], ls[m..][i], ps[m..][i], stale, cs[m..][i + 1]) {
      assert Completed(cs[m + i], ls[m + i], ps[m + i], stale, cs[m + i + 1]);
    }
  }

  lemma {:induction false} AbandonedSince(cs: seq<Pools>, ls: seq<Listing>, ps: seq<Pass>, stale: nat, ip: Ip,
                                          j: nat, m: nat)
    requires Run(cs, ls, ps, stale) && LastReport(ps, ip, j) && Unshadowed(cs[j + 1], ps, j + 1, ip)
    requires SeenBy(cs[0], ps[0].now) && j < m < |ps| && ps[m].now - ps[j].now > stale
    ensures Abandoned(cs[m], ps[m..], stale, ip)
  {
    NeverFromTheFuture(cs, ls, ps, stale, j);
    LeftoverSince(cs, ls, ps, stale, ip, j, m);
    forall i | 0 <= i < |ps[m..]|
      ensures AllDue(cs[m], ps[m..][i], stale, ip) && Apart(Carriers(cs[m], ip), ps[m..][i].desired)
    {
      var p := ps[m + i];
      assert ps[m..][i] == p && ps[m].now <= p.now && Apart(Carriers(cs[j + 1], ip), p.desired);
      forall name | name in Carriers(cs[m], ip) ensures Prunes(cs[m][name].lastSeen, p, stale) {
        assert name in Carriers(cs[j + 1], ip) && cs[m][name] == cs[j + 1][name];
      }
    }
  }

  /** One side of staleness, on any cluster whose pools are not stamped in the
      future: once an address has gone unreported for longer than the window, it
      loses one pool at every pass, whether or not hosts fail, and is gone if and
      only if there have been as many such passes as it had pools.  (Unless one of
      its pools is named after another address that is still reported.) */
  lemma {:induction false} StalePoolIsGone(cs: seq<Pools>, ls: seq<Listing>, ps: seq<Pass>, stale: nat, ip: Ip,
                                           j: nat, m: nat)
    requires Run(cs, ls, ps, stale) && LastReport(ps, ip, j) && Unshadowed(cs[j + 1], ps, j + 1, ip)
    requires SeenBy(cs[0], ps[0].now) && j < m < |ps| && ps[m].now - ps[j].now > stale
    ensures !Listed(cs[|ps|], ip) <==> |Carriers(cs[m], ip)| <= |ps| - m
    ensures |Carriers(cs[m], ip)| <= |Carriers(cs[j + 1], ip)|
  {
    RunFrom(cs, ls, ps, stale, m);
    AbandonedSince(cs, ls, ps, stale, ip, j, m);
    GoneAfterAsManyPasses(cs[m..], ls[m..], ps[m..], stale, ip, |ps| - m);
    assert cs[m..][0] == cs[m] && cs[m..][|ps| - m] == cs[|ps|];
    LeftoverSince(cs, ls, ps, stale, ip, j, m);
    Subset(Carriers(cs[m], ip), Carriers(cs[j + 1], ip));
  }

  lemma {:induction false} Subset(a: set<string>, b: set<string>)
    requires a <= b
    ensures |a| <= |b|
  {
    assert b == a + (b - a);
  }

  /** A pool named after a reported address but carrying another is kept alive by
      the reports: they touch it by name. */
  lemma {:induction false} ShadowedPoolIsKept(a: Ip, b: Ip, seen: int, current: Listing, p: Pass, stale: nat, c': Pools)
    requires a != b && a in p.desired && b !in p.desired && !p.allOk && p.now - seen <= stale
    requires Completed(map[PoolName(a) := Pool(true, Some(b), Some(seen))], current, p, stale, c')
    ensures Get(c', PoolName(a)) == Some(Pool(true, Some(b), Some(p.now))) && Listed(c', b) && !Listed(c', a)
  {
    var c: Pools := map[PoolName(a) := Pool(true, Some(b), Some(seen))];
    assert PoolName(a) in Carriers(c, b);
    assert current[b].name == PoolName(a);
    DeletedCarriers(c, current, p, stale, b, PoolName(a));
    PoolAfterPass(c, current, p, stale, c', PoolName(a));
    assert PoolName(a) in Carriers(c', b);
    CarriersAfterPass(c, current, p, stale, c', a);
    assert Carriers(c, a) == {};
  }

  // ---------- Young pools stay ----------

  /** While some host fails at every pass, a pool seen within the window stays,
      on any cluster and under any name, and its time never goes back. */
  lemma {:induction false} YoungPoolIsKept(cs: seq<Pools>, ls: seq<Listing>, ps: seq<Pass>, stale: nat, name: string,
                                           seen: int, n: nat)
    requires Run(cs, ls, ps, stale) && n <= |ps|
    requires name in cs[0] && cs[0][name].lastSeen == Some(seen)
    requires forall i :: 0 <= i < n ==> !ps[i].allOk && 0 <= ps[i].now - seen <= stale
    ensures name in cs[n] && cs[n][name].lastSeen.Some? && seen <= cs[n][name].lastSeen.value
    ensures cs[n][name] == cs[0][name].(lastSeen := cs[n][name].lastSeen)
  {
    if n > 0 {
      YoungPoolIsKept(cs, ls, ps, stale, name, seen, n - 1);
      assert Completed(cs[n - 1], ls[n - 1], ps[n - 1], stale, cs[n - 1 + 1]);
      YoungPoolStep(cs[n - 1], ls[n - 1], ps[n - 1], stale, cs[n], name, seen);
    }
  }

  lemma {:induction false} YoungPoolStep(c: Pools, current: Listing, p: Pass, stale: nat, c': Pools,
                                         name: string, seen: int)
    requires Completed(c, current, p, stale, c') && !p.allOk && 0 <= p.now - seen <= stale
    requires name in c && c[name].lastSeen.Some? && seen <= c[name].lastSeen.value
    ensures name in c' && c'[name].lastSeen.Some? && seen <= c'[name].lastSeen.value
    ensures c'[name] == c[name].(lastSeen := c'[name].lastSeen)
  {
    PoolAfterPass(c, current, p, stale, c', name);
    DeletedIsDue(c, current, p, stale, name);
    if ip :| ip in p.desired && PoolName(ip) == name {
      assert Get(c', name) == Some(Stamp(c, ip, p.now));
    } else {
      assert !NamedAfter(p.desired, name);
    }
  }

  // ---------- The whole history of a proper address ----------

  /** The pool under an address's name, by its last-seen time; None if there is none. */
  function SeenAt(c: Pools, ip: Ip): Option<Option<int>> {
    if PoolName(ip) in c then Some(c[PoolName(ip)].lastSeen) else None
  }

  /** What one completed pass does to one proper address. */
  function Effect(seen: Option<Option<int>>, wanted: bool, p: Pass, stale: nat): Option<Option<int>> {
    if wanted then Some(Some(p.now))
    else if seen.None? || Prunes(seen.value, p, stale) then None
    else seen
  }

  /** Proper addresses stay proper, whatever the rest of the cluster looks like. */
  lemma {:induction false} ProperEffect(c: Pools, current: Listing, p: Pass, stale: nat, c': Pools, ip: Ip)
    requires Completed(c, current, p, stale, c') && Proper(c, ip)
    ensures Proper(c', ip)
    ensures SeenAt(c', ip) == Effect(SeenAt(c, ip), ip in p.desired, p, stale)
  {
    CarriersAfterPass(c, current, p, stale, c', ip);
    PoolAfterPass(c, current, p, stale, c', PoolName(ip));
    NamedAfterOne(p.desired, ip);
    DeletedCarriers(c, current, p, stale, ip, PoolName(ip));
    if PoolName(ip) in c {
      assert PoolName(ip) in Carriers(c, ip);
      assert current[ip].name in Carriers(c, ip);
    }
  }

  /** From pass `from` on, no pass heard from every host, and the last one still
      finds `seen` inside the window. */
  ghost predicate Spared(ps: seq<Pass>, from: nat, seen: int, stale: nat) {
    && (forall i :: from <= i < |ps| ==> !ps[i].allOk)
    && (from < |ps| ==> ps[|ps| - 1].now - seen <= stale)
  }

  lemma {:induction false} SparedStep(ps: seq<Pass>, p: Pass, from: nat, seen: int, stale: nat)
    requires from <= |ps| && (ps != [] ==> ps[|ps| - 1].now <= p.now)
    ensures Spared(ps + [p], from, seen, stale) <==>
            Spared(ps, from, seen, stale) && !p.allOk && p.now - seen <= stale
  {
    var all := ps + [p];
    assert all[|ps|] == p && forall i :: 0 <= i < |ps| ==> all[i] == ps[i];
  }

  /** One address over some passes. */
  function SeenAfter(seen: Option<Option<int>>, ps: seq<Pass>, ip: Ip, stale: nat): Option<Option<int>> {
    if ps == [] then seen
    else
      var p := ps[|ps| - 1];
      Effect(SeenAfter(seen, ps[..|ps| - 1], ip, stale), ip in p.desired, p, stale)
  }

  lemma {:induction false} RunSeen(cs: seq<Pools>, ls: seq<Listing>, ps: seq<Pass>, stale: nat, ip: Ip, n: nat)
    requires Run(cs, ls, ps, stale) && Proper(cs[0], ip) && n <= |ps|
    ensures Proper(cs[n], ip) && SeenAt(cs[n], ip) == SeenAfter(SeenAt(cs[0], ip), ps[..n], ip, stale)
  {
    if n > 0 {
      RunSeen(cs, ls, ps, stale, ip, n - 1);
      assert ps[..n][..n - 1] == ps[..n - 1];
      assert Completed(cs[n - 1], ls[n - 1], ps[n - 1], stale, cs[n - 1 + 1]);
      ProperEffect(cs[n - 1], ls[n - 1], ps[n - 1], stale, cs[n], ip);
    }
  }

  lemma {:induction false} SeenIfReported(seen: Option<Option<int>>, ps: seq<Pass>, ip: Ip, stale: nat, j: nat)
    requires Chronological(ps) && LastReport(ps, ip, j)
    ensures SeenAfter(seen, ps, ip, stale)
         == if Spared(ps, j + 1, ps[j].now, stale) then Some(Some(ps[j].now)) else None
  {
    var n := |ps| - 1;
    var before, p := ps[..n], ps[n];
    if j < n {
      assert ps == before + [p] && LastReport(before, ip, j);
      SeenIfReported(seen, before, ip, stale, j);
      SparedStep(before, p, j + 1, ps[j].now, stale);
    }
  }

  lemma {:induction false} SeenIfUnreported(t: int, ps: seq<Pass>, ip: Ip, stale: nat)
    requires Chronological(ps) && Unreported(ps, ip)
    ensures SeenAfter(Some(Some(t)), ps, ip, stale) == if Spared(ps, 0, t, stale) then Some(Some(t)) else None
  {
    if ps != [] {
      var n := |ps| - 1;
      assert ps == ps[..n] + [ps[n]];
      SeenIfUnreported(t, ps[..n], ip, stale);
      SparedStep(ps[..n], ps[n], 0, t, stale);
    }
  }

  lemma {:induction false} GoneIfNeverSeen(seen: Option<Option<int>>, ps: seq<Pass>, ip: Ip, stale: nat)
    requires ps != [] && Unreported(ps, ip) && (seen.Some? ==> seen.value.None?)
    ensures SeenAfter(seen, ps, ip, stale) == None
  {
    if |ps| > 1 {
      GoneIfNeverSeen(seen, ps[..|ps| - 1], ip, stale);
    }
  }

  /** Two-sided staleness: over every run of completed passes on any cluster, an
      address that starts out proper has a pool exactly when its last report (or,
      if it was never reported, its initial last-seen time) is no older than the
      window and no pass since then heard from every host; the pool's last-seen
      time is that report's. */
  lemma {:induction false} PoolsAreHistory(cs: seq<Pools>, ls: seq<Listing>, ps: seq<Pass>, stale: nat, ip: Ip)
    requires Run(cs, ls, ps, stale) && ps != [] && Proper(cs[0], ip)
    ensures Proper(cs[|ps|], ip)
    ensures forall j: nat :: LastReport(ps, ip, j) ==>
              SeenAt(cs[|ps|], ip) == if Spared(ps, j + 1, ps[j].now, stale) then Some(Some(ps[j].now)) else None
    ensures Unreported(ps, ip) ==>
              var seen := SeenAt(cs[0], ip);
              SeenAt(cs[|ps|], ip)
              == if seen.Some? && seen.value.Some? && Spared(ps, 0, seen.value.value, stale) then seen else None
  {
    RunSeen(cs, ls, ps, stale, ip, |ps|);
    assert ps[..|ps|] == ps;
    forall j: nat | LastReport(ps, ip, j)
      ensures SeenAt(cs[|ps|], ip) == if Spared(ps, j + 1, ps[j].now, stale) then Some(Some(ps[j].now)) else None
    {
      SeenIfReported(SeenAt(cs[0], ip), ps, ip, stale, j);
    }
    if Unreported(ps, ip) {
      var seen := SeenAt(cs[0], ip);
      if seen.Some? && seen.value.Some? {
        SeenIfUnreported(seen.value.value, ps, ip, stale);
      } else {
        GoneIfNeverSeen(seen, ps, ip, stale);
      }
    }
  }
}
