/** The router's side of the tag: the id table that turns a DSCP into a packet
    mark, and the two netfilter rules that carry the mark over to the whole
    connection. */
module RouterDatapath {
  import opened Base
  import opened Checksum
  import opened Identity

  const CAPACITY: nat := 64

  type IdMap = map<Byte, U32>

  /** Every entry maps a DSCP in 1..63 to itself. */
  ghost predicate Tame(t: IdMap) {
    forall k :: k in t ==> InRange(k) && t[k] == k
  }

  lemma {:induction false} SmallSet(s: set<Byte>, n: nat)
    requires forall k :: k in s ==> 1 <= k <= n
    ensures |s| <= n
  {
    if n == 0 {
      assert s == {};
    } else {
      SmallSet(s - {n}, n - 1);
    }
  }

  lemma {:induction false} TameHasRoom(t: IdMap)
    requires Tame(t)
    ensures |t| <= 63
  {
    SmallSet(t.Keys, 63);
  }

  // ---------- Keeping the id table in step ----------

  datatype MapOp = Remove(id: Byte) | Insert(id: Byte)

  function ApplyOp(t: IdMap, op: MapOp): IdMap {
    match op
    case Remove(id) => t - {id}
    case Insert(id) => t[id := id]
  }

  function ApplyOps(t: IdMap, ops: seq<MapOp>): IdMap {
    if ops == [] then t else ApplyOp(ApplyOps(t, ops[..|ops| - 1]), ops[|ops| - 1])
  }

  ghost predicate OpsInRange(ops: seq<MapOp>) {
    forall op :: op in ops && op.Insert? ==> InRange(op.id)
  }

  lemma {:induction false} OpsKeepTame(t: IdMap, ops: seq<MapOp>)
    requires Tame(t) && OpsInRange(ops)
    ensures Tame(ApplyOps(t, ops))
  {
    if ops != [] {
      var n := |ops| - 1;
      OpsKeepTame(t, ops[..n]);
      assert ops[n] in ops;
    }
  }

  /** What a sync inserts are ids it was given. */
  ghost predicate InsertsFrom(ops: seq<MapOp>, ids: set<Byte>) {
    forall op :: op in ops && op.Insert? ==> op.id in ids
  }

  function Flatten(opss: seq<seq<MapOp>>): seq<MapOp> {
    if opss == [] then [] else Flatten(opss[..|opss| - 1]) + opss[|opss| - 1]
  }

  /** The ids round i hands to the sync. */
  function RoundIds(rounds: seq<IdRound>, stale: nat, i: nat): set<Byte>
    requires i < |rounds|
  {
    Ids(RememberedAfter(rounds[..i], stale), rounds[i].adverts, stale, rounds[i].now).Values
  }

  /** opss[i] are the map operations of round i: any removals, and insertions of
      that round's ids. */
  ghost predicate SyncRun(rounds: seq<IdRound>, stale: nat, opss: seq<seq<MapOp>>) {
    |opss| == |rounds| && forall i :: 0 <= i < |rounds| ==> InsertsFrom(opss[i], RoundIds(rounds, stale, i))
  }

  lemma {:induction false} SyncRunPrefix(rounds: seq<IdRound>, stale: nat, opss: seq<seq<MapOp>>, n: nat)
    requires SyncRun(rounds, stale, opss) && n <= |rounds|
    ensures SyncRun(rounds[..n], stale, opss[..n])
  {
    forall i | 0 <= i < n ensures InsertsFrom(opss[..n][i], RoundIds(rounds[..n], stale, i)) {
      assert rounds[..n][..i] == rounds[..i];
      assert InsertsFrom(opss[i], RoundIds(rounds, stale, i));
    }
  }

  lemma {:induction false} RoundOpsInRange(rounds: seq<IdRound>, stale: nat, i: nat, ops: seq<MapOp>)
    requires i < |rounds| && InsertsFrom(ops, RoundIds(rounds, stale, i))
    ensures OpsInRange(ops)
  {
    var rem, r := RememberedAfter(rounds[..i], stale), rounds[i];
    forall op | op in ops && op.Insert? ensures InRange(op.id) {
      var name :| name in Ids(rem, r.adverts, stale, r.now) && Ids(rem, r.adverts, stale, r.now)[name] == op.id;
      IdsInjective(rem, r.adverts, stale, r.now, name, name);
    }
  }

  lemma {:induction false} SyncRunInRange(rounds: seq<IdRound>, stale: nat, opss: seq<seq<MapOp>>)
    requires SyncRun(rounds, stale, opss)
    ensures OpsInRange(Flatten(opss))
    decreases |opss|
  {
    if opss != [] {
      var n := |opss| - 1;
      SyncRunPrefix(rounds, stale, opss, n);
      SyncRunInRange(rounds[..n], stale, opss[..n]);
      RoundOpsInRange(rounds, stale, n, opss[n]);
    }
  }

  /** Over every run of rounds, with any removals and insertions refused, and after
      every single operation in the middle of any of them, the 64-entry map holds
      at most 63 keys, each in 1..63 and mapped to itself. */
  lemma {:induction false} CapacityNeverReached(rounds: seq<IdRound>, stale: nat, opss: seq<seq<MapOp>>, k: nat)
    requires SyncRun(rounds, stale, opss) && k <= |Flatten(opss)|
    ensures Tame(ApplyOps(map[], Flatten(opss)[..k])) && |ApplyOps(map[], Flatten(opss)[..k])| < CAPACITY
  {
    SyncRunInRange(rounds, stale, opss);
    var ops := Flatten(opss)[..k];
    forall op | op in ops && op.Insert? ensures InRange(op.id) {
      assert op in Flatten(opss);
    }
    OpsKeepTame(map[], ops);
    TameHasRoom(ApplyOps(map[], ops));
  }

  lemma {:induction false} ApplyOpsAppend(t: IdMap, ops: seq<MapOp>, op: MapOp)
    ensures ApplyOps(t, ops + [op]) == ApplyOp(ApplyOps(t, ops), op)
  {
    assert (ops + [op])[..|ops|] == ops;
  }

  /** What the counters and marks of one packet depend on. */
  datatype Arrival = Arrival(ipv4: bool, loadOk: bool, tos: Byte)

  function Mark(t: IdMap, a: Arrival): U32 {
    if a.ipv4 && a.loadOk && Dscp(a.tos) != 0 && Dscp(a.tos) in t then t[Dscp(a.tos)] else 0
  }

  /** An IPv4 packet, readable, with d in the upper six bits of its TOS byte. */
  predicate CarriesId(a: Arrival, d: Byte) {
    var v: int := d;
    a.ipv4 && a.loadOk && v * 4 <= a.tos < v * 4 + 4
  }

  /** The packet carries an id of the table. */
  ghost predicate Tagged(t: IdMap, a: Arrival) {
    exists d :: d in t && CarriesId(a, d)
  }

  /** The mark is the id the packet carries in its upper six TOS bits, if the table
      has it, and 0 otherwise. */
  lemma {:induction false} MarkIsTag(t: IdMap, a: Arrival)
    requires Tame(t)
    ensures forall d :: d in t && CarriesId(a, d) ==> Mark(t, a) == d != 0
    ensures Mark(t, a) == 0 <==> !Tagged(t, a)
  {
    if Mark(t, a) != 0 {
      assert CarriesId(a, Dscp(a.tos));
    }
  }

  /** Whatever its other bits, a packet stamped with an id of the table is marked with it. */
  lemma {:induction false} StampIsMarked(t: IdMap, tos: Byte, d: Byte)
    requires Tame(t) && d in t
    ensures Mark(t, Arrival(true, true, TosWithDscp(tos, d))) == d
  {
    TosWithDscpReplacesDscp(tos, d);
    MarkIsTag(t, Arrival(true, true, TosWithDscp(tos, d)));
  }

  class Datapath {
    var table: IdMap
    var tagged: nat
    var untagged: nat
    var skipped: nat

    constructor ()
      ensures table == map[] && tagged == 0 && untagged == 0 && skipped == 0
    {
      table := map[];
      tagged, untagged, skipped := 0, 0, 0;
    }

    /** Remove the entries that are not wanted; a refused removal is ignored. */
    method DropUnwanted(ids: set<Byte>, removeOk: Byte -> bool) returns (ghost ops: seq<MapOp>)
      requires Tame(table)
      modifies this`table
      ensures table == ApplyOps(old(table), ops) && OpsInRange(ops) && Tame(table)
      ensures forall id :: id in table <==> id in old(table) && (id in ids || !removeOk(id))
      ensures forall op :: op in ops ==> op.Remove?
    {
      ops := [];
      var existing := table.Keys;
      while existing != {}
        invariant existing <= old(table).Keys
        invariant table == ApplyOps(old(table), ops) && OpsInRange(ops) && Tame(table)
        invariant forall op :: op in ops ==> op.Remove?
        invariant forall id :: id in table <==> id in old(table) && (id in existing || id in ids || !removeOk(id))
        decreases existing
      {
        var id :| id in existing;
        existing := existing - {id};
        if id !in ids && removeOk(id) {
          ApplyOpsAppend(old(table), ops, Remove(id));
          ops := ops + [Remove(id)];
          table := table - {id};
        }
      }
    }

    /** Insert into the fixed-size map.  Room never runs out, so only the kernel's
        own refusal can stop it. */
    method InsertOne(id: Byte, ok: bool) returns (done: bool)
      requires Tame(table) && InRange(id)
      modifies this`table
      ensures done == ok && Tame(table)
      ensures table == if done then ApplyOp(old(table), Insert(id)) else old(table)
    {
      TameHasRoom(table);
      if !ok || (id !in table && |table| >= CAPACITY) {
        return false;
      }
      table := table[id := id];
      done := true;
    }

    /** Drop what is not wanted, then insert what is; a refused insertion ends the
        sync.  `ops` records the operations that took effect. */
    method SyncIds(ids: set<Byte>, removeOk: Byte -> bool, insertOk: Byte -> bool)
      returns (r: Result<()>, ghost ops: seq<MapOp>)
      requires Tame(table) && forall id :: id in ids ==> InRange(id)
      modifies this`table
      ensures table == ApplyOps(old(table), ops) && OpsInRange(ops) && Tame(table)
      ensures r.Ok? ==> ids <= table.Keys
      ensures r.Ok? ==> forall id :: id in table && id !in ids ==> id in old(table) && !removeOk(id)
      ensures r.Err? ==> exists id :: id in ids && !insertOk(id)
      ensures InsertsFrom(ops, ids)
    {
      ops := DropUnwanted(ids, removeOk);
      var todo := ids;
      while todo != {}
        invariant todo <= ids
        invariant table == ApplyOps(old(table), ops) && OpsInRange(ops) && Tame(table) && InsertsFrom(ops, ids)
        invariant forall id :: id in ids && id !in todo ==> id in table
        invariant forall id :: id in table && id !in ids ==> id in old(table) && !removeOk(id)
        decreases todo
      {
        var id :| id in todo;
        todo := todo - {id};
        var done := InsertOne(id, insertOk(id));
        if !done {
          return Err, ops;
        }
        ApplyOpsAppend(old(table), ops, Insert(id));
        ops := ops + [Insert(id)];
      }
      r := Ok(());
    }

    /** `steer`: the mark set on the packet (0: none) is the id it carries, and
        exactly one counter is bumped. */
    method Steer(a: Arrival) returns (mark: U32)
      requires Tame(table)
      modifies `tagged, `untagged, `skipped
      ensures mark == Mark(table, a)
      ensures forall d :: d in table && CarriesId(a, d) ==> mark == d != 0
      ensures mark == 0 <==> !Tagged(table, a)
      ensures tagged + untagged + skipped == old(tagged + untagged + skipped) + 1
      ensures tagged == old(tagged) + (if mark != 0 then 1 else 0)
      ensures skipped == old(skipped) + (if a.ipv4 && a.loadOk then 0 else 1)
    {
      MarkIsTag(table, a);
      if !a.ipv4 || !a.loadOk {
        skipped := skipped + 1;
        return 0;
      }
      var dscp := a.tos / 4;
      if dscp != 0 && dscp in table {
        tagged := tagged + 1;
        return table[dscp];
      }
      untagged := untagged + 1;
      return 0;
    }
  }

  // ---------- Connection marks ----------

  /** A packet reaching the router: its connection, whether conntrack still calls
      it new, its source, and what the classifier reads. */
  datatype Packet = Packet(conn: nat, isNew: bool, src: Ip, arrival: Arrival)

  /** The first netfilter rule: a marked packet of a new connection marks the connection. */
  function SaveMark(ct: U32, isNew: bool, mark: U32): U32 {
    if isNew && mark != 0 then mark else ct
  }

  /** The second netfilter rule: an unmarked packet takes its connection's mark. */
  function RestoreMark(ct: U32, mark: U32): U32 {
    if mark == 0 && ct != 0 then ct else mark
  }

  /** The connection mark of c after some packets; 0 if never set. */
  function CtMark(t: IdMap, run: seq<Packet>, c: nat): U32 {
    if run == [] then 0
    else
      var p, ct := run[|run| - 1], CtMark(t, run[..|run| - 1], c);
      if p.conn == c then SaveMark(ct, p.isNew, Mark(t, p.arrival)) else ct
  }

  /** The mark a packet leaves netfilter with, given what came before it. */
  function FinalMark(t: IdMap, before: seq<Packet>, p: Packet): U32 {
    var mark := Mark(t, p.arrival);
    RestoreMark(SaveMark(CtMark(t, before, p.conn), p.isNew, mark), mark)
  }

  ghost predicate Tags(t: IdMap, p: Packet, c: nat) {
    p.conn == c && p.isNew && Tagged(t, p.arrival)
  }

  /** run[i] is the last tagged packet seen while connection c was new. */
  ghost predicate LastTag(t: IdMap, run: seq<Packet>, c: nat, i: nat) {
    i < |run| && Tags(t, run[i], c) && forall j :: i < j < |run| ==> !Tags(t, run[j], c)
  }

  /** A packet that tags a connection gives it the id it carries; any other leaves its mark. */
  lemma {:induction false} CtMarkStep(t: IdMap, run: seq<Packet>, c: nat)
    requires Tame(t) && run != []
    ensures var n := |run| - 1;
            if Tags(t, run[n], c) then forall d :: d in t && CarriesId(run[n].arrival, d) ==> CtMark(t, run, c) == d
            else CtMark(t, run, c) == CtMark(t, run[..n], c)
  {
    MarkIsTag(t, run[|run| - 1].arrival);
  }

  /** A connection's mark is the id carried by the last tagged packet seen while it was new. */
  lemma {:induction false} CtMarkIsLastTag(t: IdMap, run: seq<Packet>, c: nat, i: nat, d: Byte)
    requires Tame(t) && LastTag(t, run, c, i) && d in t && CarriesId(run[i].arrival, d)
    ensures CtMark(t, run, c) == d
  {
    var n := |run| - 1;
    CtMarkStep(t, run, c);
    if i < n {
      assert !Tags(t, run[n], c);
      assert LastTag(t, run[..n], c, i);
      CtMarkIsLastTag(t, run[..n], c, i, d);
    }
  }

  /** A connection never tagged while new has mark 0. */
  lemma {:induction false} UntaggedHasNoMark(t: IdMap, run: seq<Packet>, c: nat)
    requires Tame(t) && forall j :: 0 <= j < |run| ==> !Tags(t, run[j], c)
    ensures CtMark(t, run, c) == 0
  {
    if run != [] {
      var n := |run| - 1;
      CtMarkStep(t, run, c);
      assert !Tags(t, run[n], c);
      forall j | 0 <= j < n ensures !Tags(t, run[..n][j], c) {
        assert run[..n][j] == run[j];
      }
      UntaggedHasNoMark(t, run[..n], c);
    }
  }

  /** A tagged packet keeps its own mark, whatever its connection's is. */
  lemma {:induction false} TaggedKeepsItsMark(t: IdMap, before: seq<Packet>, p: Packet, d: Byte)
    requires Tame(t) && d in t && CarriesId(p.arrival, d)
    ensures FinalMark(t, before, p) == d
  {
    MarkIsTag(t, p.arrival);
  }

  /** Once a connection's packets are no longer new, its mark never changes. */
  lemma {:induction false} CtMarkIsStable(t: IdMap, run: seq<Packet>, c: nat, k: nat)
    requires k <= |run|
    requires forall j :: k <= j < |run| && run[j].conn == c ==> !run[j].isNew
    ensures CtMark(t, run, c) == CtMark(t, run[..k], c)
    decreases |run|
  {
    if k < |run| {
      var n := |run| - 1;
      assert run[..n][..k] == run[..k];
      CtMarkIsStable(t, run[..n], c, k);
    } else {
      assert run[..k] == run;
    }
  }
}
