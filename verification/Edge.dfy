/** The daemon's packet datapath.  Ingress stamps the daemon's DSCP id onto
    packets for a leased address and records the original DSCP under the
    reversed flow; egress puts that DSCP back on replies that still carry the
    id.  The record is an LRU map, so any entry may vanish at any time. */
module Edge {
  import opened Base
  import opened Checksum

  const ETH_LEN: nat := 14
  const IPV4_LEN: nat := 20
  const IPPROTO_TCP: Byte := 6
  const IPPROTO_UDP: Byte := 17

  datatype ArpKey = ArpKey(ifindex: U32, ip: Ip)

  datatype FlowKey = FlowKey(src: Ip, dst: Ip, sport: U16, dport: U16, proto: Byte) {
    function Reversed(): FlowKey {
      FlowKey(dst, src, dport, sport, proto)
    }

    lemma {:induction false} ReversedTwice()
      ensures Reversed().Reversed() == this
    {
    }
  }

  /** The maps the control plane fills: who we answer for, each interface's id,
      and its link-layer header length. */
  datatype Maps = Maps(arp: set<ArpKey>, dscpId: map<U32, Byte>, l2Len: map<U32, Byte>)

  // ---------- Header access ----------

  /** Two bytes in network order. */
  function Pair(hi: Byte, lo: Byte): U16 {
    var h: int := hi;
    h * 256 + lo
  }

  function Word(f: seq<Byte>, i: nat): U16
    requires i + 1 < |f|
  {
    Pair(f[i], f[i + 1])
  }

  function Address(f: seq<Byte>, i: nat): Ip
    requires i + 3 < |f|
  {
    Word(f, i) * 0x1_0000 + Word(f, i + 2)
  }

  predicate HasHeader(f: seq<Byte>, off: nat) {
    off + IPV4_LEN <= |f|
  }

  function IhlBytes(vihl: Byte): nat {
    vihl % 16 * 4
  }

  function FlowKeyAt(f: seq<Byte>, off: nat): FlowKey
    requires HasHeader(f, off)
  {
    var proto := f[off + 9];
    var ported := (proto == IPPROTO_TCP || proto == IPPROTO_UDP) && IhlBytes(f[off]) == IPV4_LEN
                  && off + IPV4_LEN + 4 <= |f|;
    FlowKey(Address(f, off + 12), Address(f, off + 16),
            if ported then Word(f, off + IPV4_LEN) else 0,
            if ported then Word(f, off + IPV4_LEN + 2) else 0, proto)
  }

  predicate WholeHeader(f: seq<Byte>, off: nat) {
    HasHeader(f, off) && IPV4_LEN <= IhlBytes(f[off]) && off + IhlBytes(f[off]) <= |f|
  }

  /** The header's words with the check field counted as zero. */
  function HeaderWords(f: seq<Byte>, off: nat): (w: seq<U16>)
    requires WholeHeader(f, off)
  {
    seq(IhlBytes(f[off]) / 2, k requires 0 <= k < IhlBytes(f[off]) / 2 =>
      if k == 5 then 0 else Word(f, off + 2 * k))
  }

  /** The whole header is present and its checksum is right. */
  predicate CheckIsRight(f: seq<Byte>, off: nat) {
    WholeHeader(f, off) && Word(f, off + 10) == Full(HeaderWords(f, off))
  }

  function SetTos(f: seq<Byte>, off: nat, tos: Byte): seq<Byte>
    requires HasHeader(f, off)
  {
    f[off + 1 := tos]
  }

  function SetCheck(f: seq<Byte>, off: nat, c: U16): seq<Byte>
    requires HasHeader(f, off)
  {
    f[off + 10 := c / 256][off + 11 := c % 256]
  }

  function UpdatedCheck(f: seq<Byte>, off: nat, tos: Byte): U16
    requires HasHeader(f, off)
  {
    CsumReplace2(Word(f, off + 10), Pair(f[off], f[off + 1]), Pair(f[off], tos))
  }

  /** The bytes a rewrite may change: TOS and the two of the check. */
  predicate Rewritten(off: nat, i: int) {
    i == off + 1 || i == off + 10 || i == off + 11
  }

  /** Replace TOS and update the check incrementally. */
  function Rewrite(f: seq<Byte>, off: nat, tos: Byte): (r: seq<Byte>)
    requires HasHeader(f, off)
    ensures |r| == |f| && r[off + 1] == tos
    ensures r[off + 10] == UpdatedCheck(f, off, tos) / 256 && r[off + 11] == UpdatedCheck(f, off, tos) % 256
    ensures forall i :: 0 <= i < |f| && !Rewritten(off, i) ==> r[i] == f[i]
  {
    SetCheck(SetTos(f, off, tos), off, UpdatedCheck(f, off, tos))
  }

  /** r is f with another TOS, and possibly another check. */
  ghost predicate Retagged(f: seq<Byte>, r: seq<Byte>, off: nat, tos: Byte) {
    && |r| == |f| && HasHeader(f, off) && r[off + 1] == tos
    && forall i :: 0 <= i < |f| && !Rewritten(off, i) ==> r[i] == f[i]
  }

  lemma {:induction false} OtherWordsKept(f: seq<Byte>, r: seq<Byte>, off: nat, tos: Byte, k: nat)
    requires Retagged(f, r, off, tos) && k != 0 && k != 5 && off + 2 * k + 1 < |f|
    ensures Word(r, off + 2 * k) == Word(f, off + 2 * k)
  {
    assert !Rewritten(off, off + 2 * k) && !Rewritten(off, off + 2 * k + 1);
  }

  lemma {:induction false} RetaggedWords(f: seq<Byte>, r: seq<Byte>, off: nat, tos: Byte)
    requires WholeHeader(f, off) && Retagged(f, r, off, tos)
    ensures WholeHeader(r, off) && r[off] == f[off]
    ensures HeaderWords(r, off) == HeaderWords(f, off)[0 := Pair(f[off], tos)]
  {
    assert !Rewritten(off, off) && r[off] == f[off];
    var a, b := HeaderWords(r, off), HeaderWords(f, off)[0 := Pair(f[off], tos)];
    forall k | 0 <= k < |a| ensures a[k] == b[k] {
      if k != 0 && k != 5 {
        OtherWordsKept(f, r, off, tos, k);
      }
    }
  }

  /** A header length of at least 20 makes the first word non-zero, whatever the TOS. */
  lemma {:induction false} FirstWord(f: seq<Byte>, off: nat, tos: Byte)
    requires WholeHeader(f, off)
    ensures |HeaderWords(f, off)| > 0 && HeaderWords(f, off)[0] == Pair(f[off], f[off + 1]) != 0
    ensures Pair(f[off], tos) != 0
  {
    assert f[off] != 0;
  }

  lemma {:induction false} UpdatedCheckIsFull(f: seq<Byte>, off: nat, tos: Byte)
    requires CheckIsRight(f, off)
    ensures UpdatedCheck(f, off, tos) == Full(HeaderWords(f, off)[0 := Pair(f[off], tos)])
  {
    FirstWord(f, off, tos);
    IncrementalIsFull(HeaderWords(f, off), 0, Pair(f[off], tos));
  }

  lemma {:induction false} StoredCheck(r: seq<Byte>, off: nat, c: U16)
    requires WholeHeader(r, off) && r[off + 10] == c / 256 && r[off + 11] == c % 256
    requires c == Full(HeaderWords(r, off))
    ensures CheckIsRight(r, off)
  {
  }

  /** A rewritten header is as correct as the original, options or not. */
  lemma {:induction false} RewriteKeepsCheck(f: seq<Byte>, off: nat, tos: Byte)
    requires CheckIsRight(f, off)
    ensures CheckIsRight(Rewrite(f, off, tos), off)
  {
    var r := Rewrite(f, off, tos);
    RetaggedWords(f, r, off, tos);
    UpdatedCheckIsFull(f, off, tos);
    StoredCheck(r, off, UpdatedCheck(f, off, tos));
  }

  /** All words of the header, the check included. */
  function AllWords(f: seq<Byte>, off: nat): (w: seq<U16>)
    requires WholeHeader(f, off)
  {
    seq(IhlBytes(f[off]) / 2, k requires 0 <= k < IhlBytes(f[off]) / 2 => Word(f, off + 2 * k))
  }

  lemma {:induction false} AllWordsSum(f: seq<Byte>, off: nat)
    requires WholeHeader(f, off)
    ensures Sum(AllWords(f, off)) == Sum(HeaderWords(f, off)) + Word(f, off + 10)
    ensures Sum(HeaderWords(f, off)) > 0
  {
    var words := HeaderWords(f, off);
    FirstWord(f, off, 0);
    SumUpdate(words, 5, Word(f, off + 10));
    assert AllWords(f, off) == words[5 := Word(f, off + 10)];
    SumUpdate(words, 0, words[0]);
  }

  /** A receiver's test: the one's-complement sum of the whole header is all ones
      exactly when the check is right, or is 0xFFFF where 0 would be right. */
  lemma {:induction false} RightCheckSumsToOnes(f: seq<Byte>, off: nat)
    requires WholeHeader(f, off)
    ensures Residue(Sum(AllWords(f, off))) == 0xFFFF <==>
            CheckIsRight(f, off) || (Word(f, off + 10) == 0xFFFF && Full(HeaderWords(f, off)) == 0)
  {
    AllWordsSum(f, off);
    OnesWhenComplement(Sum(HeaderWords(f, off)), Word(f, off + 10));
  }

  // ---------- Ingress ----------

  /** The id ingress stamps on this frame, or None if it passes it untouched. */
  function StampId(m: Maps, ifindex: U32, f: seq<Byte>): (id: Option<Byte>)
    ensures id.Some? ==> HasHeader(f, ETH_LEN) && ifindex in m.dscpId && m.dscpId[ifindex] == id.value
                         && 0 < id.value <= DSCP_ID_MAX && Dscp(f[ETH_LEN + 1]) != id.value
  {
    if |f| < ETH_LEN || f[12] != 0x08 || f[13] != 0x00 then None
    else if ifindex !in m.dscpId || m.dscpId[ifindex] == 0 || m.dscpId[ifindex] > DSCP_ID_MAX then None
    else if !HasHeader(f, ETH_LEN) then None
    else if ArpKey(ifindex, Address(f, ETH_LEN + 16)) !in m.arp then None
    else if TosWithDscp(f[ETH_LEN + 1], m.dscpId[ifindex]) == f[ETH_LEN + 1] then None
    else
      TosWithDscpReplacesDscp(f[ETH_LEN + 1], m.dscpId[ifindex]);
      Some(m.dscpId[ifindex])
  }

  function Stamped(m: Maps, ifindex: U32, f: seq<Byte>): seq<Byte> {
    var id := StampId(m, ifindex, f);
    if id.None? then f else Rewrite(f, ETH_LEN, TosWithDscp(f[ETH_LEN + 1], id.value))
  }

  /** What ingress records for a rewritten frame. */
  function Recorded(m: Maps, ifindex: U32, f: seq<Byte>): Option<(FlowKey, Byte)> {
    if StampId(m, ifindex, f).None? then None
    else Some((FlowKeyAt(f, ETH_LEN).Reversed(), Dscp(f[ETH_LEN + 1])))
  }

  // ---------- Egress ----------

  function L2Len(m: Maps, ifindex: U32): Option<nat> {
    if ifindex !in m.l2Len then None else if m.l2Len[ifindex] == 0 then Some(0) else Some(ETH_LEN)
  }

  /** The egress classifier gets as far as reading the IP header. */
  predicate Handles(m: Maps, ifindex: U32, ipv4: bool, f: seq<Byte>) {
    && ipv4 && ifindex in m.dscpId && m.dscpId[ifindex] != 0
    && ifindex in m.l2Len && HasHeader(f, L2Len(m, ifindex).value)
  }

  function Restored(orig: map<FlowKey, Byte>, key: FlowKey): Byte {
    if key in orig then orig[key] else 0
  }

  /** What leaves the interface.  `storeOk` and `csumOk` are the two helper
      calls' results; the checksum helper is the RFC 1624 update. */
  function Terminated(m: Maps, ifindex: U32, ipv4: bool, f: seq<Byte>, orig: map<FlowKey, Byte>,
                      storeOk: bool, csumOk: bool): seq<Byte> {
    if !Handles(m, ifindex, ipv4, f) then f
    else
      var l2 := L2Len(m, ifindex).value;
      var tos := f[l2 + 1];
      if Dscp(tos) != m.dscpId[ifindex] then f
      else
        var tos' := TosWithDscp(tos, Restored(orig, FlowKeyAt(f, l2)));
        if tos' == tos || !storeOk then f
        else if !csumOk then SetTos(f, l2, tos')
        else Rewrite(f, l2, tos')
  }

  // ---------- Byte by byte ----------

  /** Four bytes in network order. */
  function Quad(a: Byte, b: Byte, c: Byte, d: Byte): Ip {
    var v: int := a;
    ((v * 256 + b) * 256 + c) * 256 + d
  }

  function QuadAt(f: seq<Byte>, i: nat): Ip
    requires i + 3 < |f|
  {
    Quad(f[i], f[i + 1], f[i + 2], f[i + 3])
  }

  /** Ingress stamps id on exactly these frames: IPv4 with a whole header, on an
      interface with an id in 1..63, for an address we answer for there, and not
      carrying that id already. */
  lemma {:induction false} StampIdMeans(m: Maps, ifindex: U32, f: seq<Byte>, id: Byte)
    ensures StampId(m, ifindex, f) == Some(id) <==>
            && |f| >= 34 && f[12] == 0x08 && f[13] == 0x00
            && ifindex in m.dscpId && m.dscpId[ifindex] == id && 1 <= id <= 63
            && ArpKey(ifindex, QuadAt(f, 30)) in m.arp
            && f[15] / 4 != id
  {
    if |f| >= 34 {
      assert Address(f, 30) == QuadAt(f, 30);
      if ifindex in m.dscpId && m.dscpId[ifindex] <= 63 {
        TosWithDscpReplacesDscp(f[15], m.dscpId[ifindex]);
      }
    }
  }

  /** r is f with another byte at the header's TOS, and possibly another check. */
  ghost predicate Changed(f: seq<Byte>, r: seq<Byte>, at: nat, tos: Byte, check: bool) {
    && |r| == |f| && at + 20 <= |f| && r[at + 1] == tos
    && forall i :: 0 <= i < |f| && i != at + 1 && !(check && (i == at + 10 || i == at + 11)) ==> r[i] == f[i]
  }

  lemma {:induction false} RewriteChanges(f: seq<Byte>, at: nat, tos: Byte)
    requires HasHeader(f, at)
    ensures Changed(f, Rewrite(f, at, tos), at, tos, true) && Changed(f, SetTos(f, at, tos), at, tos, false)
  {
    var r := Rewrite(f, at, tos);
    forall i | 0 <= i < |f| && i != at + 1 && i != at + 10 && i != at + 11 ensures r[i] == f[i] {
      assert !Rewritten(at, i);
    }
  }

  /** What leaves ingress: the frame itself, or the frame with its DSCP replaced by
      the id in byte 15 and another check in bytes 24 and 25. */
  lemma {:induction false} StampedMeans(m: Maps, ifindex: U32, f: seq<Byte>)
    ensures var out, id := Stamped(m, ifindex, f), StampId(m, ifindex, f);
            if id.None? then out == f else Changed(f, out, 14, TosWithDscp(f[15], id.value), true)
  {
    if StampId(m, ifindex, f).Some? {
      RewriteChanges(f, 14, TosWithDscp(f[15], StampId(m, ifindex, f).value));
    }
  }

  /** The packet's ports are read: TCP or UDP, a header without options, and enough bytes. */
  predicate HasPorts(f: seq<Byte>, off: nat)
    requires HasHeader(f, off)
  {
    f[off + 9] in {6, 17} && f[off] % 16 == 5 && off + 24 <= |f|
  }

  /** The flow key in terms of the header's bytes. */
  lemma {:induction false} FlowKeyMeans(f: seq<Byte>, off: nat)
    requires HasHeader(f, off)
    ensures var key := FlowKeyAt(f, off);
            && key.src == QuadAt(f, off + 12) && key.dst == QuadAt(f, off + 16) && key.proto == f[off + 9]
            && key.sport == (if HasPorts(f, off) then Pair(f[off + 20], f[off + 21]) else 0)
            && key.dport == (if HasPorts(f, off) then Pair(f[off + 22], f[off + 23]) else 0)
  {
  }

  /** A reply: addresses and ports exchanged byte for byte, at any two header offsets. */
  ghost predicate Exchanged(f: seq<Byte>, off: nat, g: seq<Byte>, to: nat)
    requires HasHeader(f, off) && HasHeader(g, to)
  {
    && g[to + 9] == f[off + 9] && (HasPorts(g, to) <==> HasPorts(f, off))
    && g[to + 12..to + 16] == f[off + 16..off + 20] && g[to + 16..to + 20] == f[off + 12..off + 16]
    && (HasPorts(f, off) ==>
          g[to + 20..to + 22] == f[off + 22..off + 24] && g[to + 22..to + 24] == f[off + 20..off + 22])
  }

  lemma {:induction false} SameQuad(f: seq<Byte>, i: nat, g: seq<Byte>, j: nat)
    requires i + 4 <= |f| && j + 4 <= |g| && g[j..j + 4] == f[i..i + 4]
    ensures QuadAt(g, j) == QuadAt(f, i)
  {
    var x, y := f[i..i + 4], g[j..j + 4];
    assert x[0] == y[0] && x[1] == y[1] && x[2] == y[2] && x[3] == y[3];
  }

  lemma {:induction false} SamePair(f: seq<Byte>, i: nat, g: seq<Byte>, j: nat)
    requires i + 2 <= |f| && j + 2 <= |g| && g[j..j + 2] == f[i..i + 2]
    ensures g[j] == f[i] && g[j + 1] == f[i + 1]
  {
    var x, y := f[i..i + 2], g[j..j + 2];
    assert x[0] == y[0] && x[1] == y[1];
  }

  lemma {:induction false} ReplyKeyIsReversed(f: seq<Byte>, off: nat, g: seq<Byte>, to: nat)
    requires HasHeader(f, off) && HasHeader(g, to) && Exchanged(f, off, g, to)
    ensures FlowKeyAt(g, to) == FlowKeyAt(f, off).Reversed()
  {
    FlowKeyMeans(f, off);
    FlowKeyMeans(g, to);
    SameQuad(f, off + 16, g, to + 12);
    SameQuad(f, off + 12, g, to + 16);
    if HasPorts(f, off) {
      SamePair(f, off + 22, g, to + 20);
      SamePair(f, off + 20, g, to + 22);
    }
  }

  /** Packets of one protocol with ports are of one flow exactly when their four
      address and port fields agree. */
  lemma {:induction false} SameFlowIff(f: seq<Byte>, off: nat, g: seq<Byte>, to: nat)
    requires HasHeader(f, off) && HasHeader(g, to) && HasPorts(f, off) && HasPorts(g, to)
    ensures FlowKeyAt(f, off) == FlowKeyAt(g, to) <==>
            && f[off + 9] == g[to + 9]
            && QuadAt(f, off + 12) == QuadAt(g, to + 12) && QuadAt(f, off + 16) == QuadAt(g, to + 16)
            && f[off + 20] == g[to + 20] && f[off + 21] == g[to + 21]
            && f[off + 22] == g[to + 22] && f[off + 23] == g[to + 23]
  {
    FlowKeyMeans(f, off);
    FlowKeyMeans(g, to);
  }

  lemma {:induction false} QuadInjective(a: Byte, b: Byte, c: Byte, d: Byte, e: Byte, f: Byte, g: Byte, h: Byte)
    requires Quad(a, b, c, d) == Quad(e, f, g, h)
    ensures a == e && b == f && c == g && d == h
  {
  }

  /** What ingress records: the reversed flow, and the upper six bits of byte 15. */
  lemma {:induction false} RecordedMeans(m: Maps, ifindex: U32, f: seq<Byte>)
    ensures Recorded(m, ifindex, f).Some? <==> StampId(m, ifindex, f).Some?
    ensures Recorded(m, ifindex, f).Some? ==>
              var (key, d) := Recorded(m, ifindex, f).value;
              key.Reversed() == FlowKeyAt(f, 14) && d == f[15] / 4
  {
  }

  /** Where the IP header starts on egress. */
  function HeaderAt(m: Maps, ifindex: U32): nat
    requires ifindex in m.l2Len
  {
    if m.l2Len[ifindex] == 0 then 0 else 14
  }

  /** The packet is IPv4 with a whole header, leaves an interface with a non-zero id
      and a link length, and carries that id in the upper six bits of its TOS byte. */
  predicate CarriesOurId(m: Maps, ifindex: U32, ipv4: bool, f: seq<Byte>) {
    && ipv4 && ifindex in m.dscpId && m.dscpId[ifindex] != 0 && ifindex in m.l2Len
    && HeaderAt(m, ifindex) + 20 <= |f|
    && f[HeaderAt(m, ifindex) + 1] / 4 == m.dscpId[ifindex]
  }

  /** Egress leaves every other packet alone, and every packet it cannot store to.
      Otherwise the recorded DSCP, or 0, replaces the id; if only the checksum
      update is refused, the TOS byte alone changes. */
  lemma {:induction false} TerminatedMeans(m: Maps, ifindex: U32, ipv4: bool, f: seq<Byte>, orig: map<FlowKey, Byte>,
                                           storeOk: bool, csumOk: bool)
    ensures var out := Terminated(m, ifindex, ipv4, f, orig, storeOk, csumOk);
            if !CarriesOurId(m, ifindex, ipv4, f) || !storeOk then out == f
            else
              var at := HeaderAt(m, ifindex);
              var restored := if FlowKeyAt(f, at) in orig then orig[FlowKeyAt(f, at)] else 0;
              Changed(f, out, at, TosWithDscp(f[at + 1], restored), csumOk)
  {
    if CarriesOurId(m, ifindex, ipv4, f) && storeOk {
      var at := HeaderAt(m, ifindex);
      RewriteChanges(f, at, TosWithDscp(f[at + 1], Restored(orig, FlowKeyAt(f, at))));
    }
  }

  // ---------- The programs, rewriting the packet in place ----------

  class Datapath {
    var maps: Maps
    var orig: map<FlowKey, Byte>

    constructor (maps: Maps)
      ensures this.maps == maps && orig == map[]
    {
      this.maps := maps;
      orig := map[];
    }

    /** `try_stamp`, behind the EtherType test of `try_dumbarp`. */
    method TryStamp(ifindex: U32, frame: array<Byte>, insertOk: bool)
      modifies frame, `orig
      ensures frame[..] == Stamped(maps, ifindex, old(frame[..]))
      ensures var rec := Recorded(maps, ifindex, old(frame[..]));
              orig == if rec.Some? && insertOk then old(orig)[rec.value.0 := rec.value.1] else old(orig)
    {
      if frame.Length < ETH_LEN || frame[12] != 0x08 || frame[13] != 0x00 {
        return;
      }
      if ifindex !in maps.dscpId || maps.dscpId[ifindex] == 0 || maps.dscpId[ifindex] > DSCP_ID_MAX {
        return;
      }
      var id := maps.dscpId[ifindex];
      if frame.Length < ETH_LEN + IPV4_LEN {
        return;
      }
      if ArpKey(ifindex, Address(frame[..], ETH_LEN + 16)) !in maps.arp {
        return;
      }
      var oldTos := frame[ETH_LEN + 1];
      var newTos := TosWithDscp(oldTos, id);
      if newTos == oldTos {
        return;
      }
      var key := FlowKeyAt(frame[..], ETH_LEN);
      if insertOk {
        orig := orig[key.Reversed() := oldTos / 4];
      }
      RewriteInPlace(frame, ETH_LEN, newTos);
    }

    /** Store a new TOS byte and the incrementally updated check. */
    method RewriteInPlace(frame: array<Byte>, off: nat, newTos: Byte)
      requires off + IPV4_LEN <= frame.Length
      modifies frame
      ensures frame[..] == Rewrite(old(frame[..]), off, newTos)
    {
      var vihl, oldTos := frame[off], frame[off + 1];
      var check := CsumReplace2(Word(frame[..], off + 10), Pair(vihl, oldTos), Pair(vihl, newTos));
      frame[off + 1] := newTos;
      frame[off + 10] := check / 256;
      frame[off + 11] := check % 256;
    }

    /** `try_terminate`. */
    method TryTerminate(ifindex: U32, ipv4: bool, frame: array<Byte>, storeOk: bool, csumOk: bool)
      modifies frame
      ensures frame[..] == Terminated(maps, ifindex, ipv4, old(frame[..]), orig, storeOk, csumOk)
    {
      if !ipv4 || ifindex !in maps.dscpId || maps.dscpId[ifindex] == 0 || ifindex !in maps.l2Len {
        return;
      }
      var ourId := maps.dscpId[ifindex];
      var l2: nat := if maps.l2Len[ifindex] == 0 then 0 else ETH_LEN;
      if frame.Length < l2 + IPV4_LEN {
        return;
      }
      var oldTos := frame[l2 + 1];
      if oldTos / 4 != ourId {
        return;
      }
      var key := FlowKeyAt(frame[..], l2);
      var restored: Byte := if key in orig then orig[key] else 0;
      var newTos := TosWithDscp(oldTos, restored);
      if newTos == oldTos || !storeOk {
        return;
      }
      if csumOk {
        RewriteInPlace(frame, l2, newTos);
      } else {
        frame[l2 + 1] := newTos;
      }
    }
  }

  // ---------- Histories ----------

  /** One step of a run.  Every packet carries the map contents it meets, so the
      control plane may change them at any point in between. */
  datatype Event =
    | Ingress(maps: Maps, ifindex: U32, frame: seq<Byte>, insertOk: bool)
    | Egress(maps: Maps, ifindex: U32, ipv4: bool, frame: seq<Byte>, storeOk: bool, csumOk: bool)
    | Evict(key: FlowKey)

  /** ORIG_DSCP after a run. */
  function Orig(run: seq<Event>): map<FlowKey, Byte> {
    if run == [] then map[] else OrigAfter(Orig(run[..|run| - 1]), run[|run| - 1])
  }

  /** e is a rewritten ingress packet of the reversed flow of key that came with DSCP d. */
  ghost predicate Rewrites(e: Event, key: FlowKey, d: Byte) {
    e.Ingress? && Recorded(e.maps, e.ifindex, e.frame) == Some((key, d))
  }

  /** Moreover its record was stored: the map may refuse it, and ingress ignores that. */
  ghost predicate Records(e: Event, key: FlowKey, d: Byte) {
    Rewrites(e, key, d) && e.insertOk
  }

  ghost predicate Disturbs(e: Event, key: FlowKey) {
    e == Evict(key) || exists d :: Records(e, key, d)
  }

  /** run[i] is the most recent packet of the reversed flow whose record was
      stored, and the entry has not been evicted since. */
  ghost predicate LatestRecord(run: seq<Event>, key: FlowKey, i: nat, d: Byte) {
    && i < |run| && Records(run[i], key, d)
    && forall j :: i < j < |run| ==> !Disturbs(run[j], key)
  }

  lemma {:induction false} LatestRecordStep(run: seq<Event>, e: Event, key: FlowKey, i: nat, d: Byte)
    ensures LatestRecord(run + [e], key, i, d) <==>
            (i == |run| && Records(e, key, d)) || (!Disturbs(e, key) && LatestRecord(run, key, i, d))
  {
    var all := run + [e];
    assert forall j :: 0 <= j < |run| ==> all[j] == run[j];
    if i < |run| && LatestRecord(all, key, i, d) {
      assert all[|run|] == e && !Disturbs(all[|run|], key);
    }
  }

  function OrigAfter(before: map<FlowKey, Byte>, e: Event): map<FlowKey, Byte> {
    match e
    case Ingress(m, i, f, ok) =>
      var rec := Recorded(m, i, f);
      if rec.Some? && ok then before[rec.value.0 := rec.value.1] else before
    case Egress(_, _, _, _, _, _) => before
    case Evict(key) => before - {key}
  }

  lemma {:induction false} OrigStep(before: map<FlowKey, Byte>, e: Event, key: FlowKey)
    ensures !Disturbs(e, key) ==> Get(OrigAfter(before, e), key) == Get(before, key)
    ensures e == Evict(key) ==> key !in OrigAfter(before, e)
    ensures forall d :: Records(e, key, d) ==> Get(OrigAfter(before, e), key) == Some(d) && d < 64
  {
    if e.Ingress? && e.insertOk {
      var rec := Recorded(e.maps, e.ifindex, e.frame);
      if rec.Some? && rec.value.0 == key {
        assert Records(e, key, rec.value.1);
      }
    }
  }

  /** Restoration history: in every interleaving, an entry is present exactly
      when its flow has a latest stored record, and holds that packet's DSCP. */
  lemma {:induction false} RestorationHistory(run: seq<Event>, key: FlowKey)
    ensures key in Orig(run) <==> exists i: nat, d :: LatestRecord(run, key, i, d)
    ensures forall i: nat, d :: LatestRecord(run, key, i, d) ==> Get(Orig(run), key) == Some(d) && d < 64
  {
    if run != [] {
      var n := |run| - 1;
      var before, e := run[..n], run[n];
      assert run == before + [e];
      RestorationHistory(before, key);
      OrigStep(Orig(before), e, key);
      forall i: nat, d ensures LatestRecord(run, key, i, d) <==>
              (i == n && Records(e, key, d)) || (!Disturbs(e, key) && LatestRecord(before, key, i, d))
      {
        LatestRecordStep(before, e, key, i, d);
      }
      if d :| Records(e, key, d) {
        assert LatestRecord(run, key, n, d);
      } else if key in Orig(run) {
        var i: nat, d :| LatestRecord(before, key, i, d);
        assert LatestRecord(run, key, i, d);
      }
    }
  }

  /** run[i] is the most recent rewritten packet of the reversed flow, stored or not. */
  ghost predicate LatestRewritten(run: seq<Event>, key: FlowKey, i: nat, d: Byte) {
    && i < |run| && Rewrites(run[i], key, d)
    && forall j :: i < j < |run| ==> !RewritesSome(run[j], key)
  }

  ghost predicate RewritesSome(e: Event, key: FlowKey) {
    exists d :: Rewrites(e, key, d)
  }

  ghost predicate EvictedSince(run: seq<Event>, key: FlowKey, i: nat) {
    exists j :: i < j < |run| && run[j] == Evict(key)
  }

  /** The entry against the most recent rewritten packet: unless evicted since, it
      is that packet's DSCP if its record was stored, and otherwise whatever was
      recorded before it. */
  lemma {:induction false} EntryOfLatestRewritten(run: seq<Event>, key: FlowKey, i: nat, d: Byte)
    requires LatestRewritten(run, key, i, d)
    ensures Get(Orig(run), key)
         == if EvictedSince(run, key, i) then None
            else if run[i].insertOk then Some(d) else Get(Orig(run[..i]), key)
  {
    var n := |run| - 1;
    var before, e := run[..n], run[n];
    if i < n {
      EntryOfLatestRewritten(before, key, i, d);
      assert before[..i] == run[..i];
      assert !RewritesSome(e, key);
      OrigStep(Orig(before), e, key);
      assert EvictedSince(run, key, i) <==> EvictedSince(before, key, i) || e == Evict(key);
    } else {
      assert !EvictedSince(run, key, i);
    }
  }

  /** So a refused insert leaves the DSCP of an older packet for the replies. */
  lemma {:induction false} RefusedInsertLeavesOlder(m: Maps, ifindex: U32, f: seq<Byte>, g: seq<Byte>)
    requires StampId(m, ifindex, f).Some? && StampId(m, ifindex, g).Some?
    requires FlowKeyAt(f, ETH_LEN) == FlowKeyAt(g, ETH_LEN) && Dscp(f[ETH_LEN + 1]) != Dscp(g[ETH_LEN + 1])
    ensures var run := [Ingress(m, ifindex, f, true), Ingress(m, ifindex, g, false)];
            && LatestRewritten(run, FlowKeyAt(g, ETH_LEN).Reversed(), 1, Dscp(g[ETH_LEN + 1]))
            && Get(Orig(run), FlowKeyAt(g, ETH_LEN).Reversed()) == Some(Dscp(f[ETH_LEN + 1]))
  {
    var run := [Ingress(m, ifindex, f, true), Ingress(m, ifindex, g, false)];
    var key := FlowKeyAt(g, ETH_LEN).Reversed();
    EntryOfLatestRewritten(run, key, 1, Dscp(g[ETH_LEN + 1]));
    assert !EvictedSince(run, key, 1);
    assert run[..1] == [run[0]];
    EntryOfLatestRewritten(run[..1], key, 0, Dscp(f[ETH_LEN + 1]));
    assert !EvictedSince(run[..1], key, 0);
  }

  lemma {:induction false} OrigIsDscp(run: seq<Event>, key: FlowKey)
    ensures Restored(Orig(run), key) < 64
  {
    RestorationHistory(run, key);
    if key in Orig(run) {
      var i: nat, d :| LatestRecord(run, key, i, d);
    }
  }

  /** A reply that still carries our id leaves, when no helper fails, with the
      recorded DSCP (or 0 if there is none), the same ECN bits, nothing else
      changed but the check, and a right check if it came with one. */
  lemma {:induction false} ReplyIsRestored(run: seq<Event>, m: Maps, ifindex: U32, f: seq<Byte>)
    requires Handles(m, ifindex, true, f) && Dscp(f[L2Len(m, ifindex).value + 1]) == m.dscpId[ifindex]
    ensures var l2 := L2Len(m, ifindex).value;
            var out := Terminated(m, ifindex, true, f, Orig(run), true, true);
            && |out| == |f|
            && Dscp(out[l2 + 1]) == Restored(Orig(run), FlowKeyAt(f, l2))
            && Ecn(out[l2 + 1]) == Ecn(f[l2 + 1])
            && (forall i :: 0 <= i < |f| && !Rewritten(l2, i) ==> out[i] == f[i])
            && (CheckIsRight(f, l2) ==> CheckIsRight(out, l2))
  {
    var l2 := L2Len(m, ifindex).value;
    var key := FlowKeyAt(f, l2);
    OrigIsDscp(run, key);
    var tos' := TosWithDscp(f[l2 + 1], Restored(Orig(run), key));
    TosWithDscpReplacesDscp(f[l2 + 1], Restored(Orig(run), key));
    if CheckIsRight(f, l2) {
      RewriteKeepsCheck(f, l2, tos');
    }
  }

  /** A stamped frame carries the id, its old ECN bits, and a right check if it came with one. */
  lemma {:induction false} StampIsRight(m: Maps, ifindex: U32, f: seq<Byte>)
    requires StampId(m, ifindex, f).Some?
    ensures var out := Stamped(m, ifindex, f);
            && Dscp(out[ETH_LEN + 1]) == StampId(m, ifindex, f).value
            && Ecn(out[ETH_LEN + 1]) == Ecn(f[ETH_LEN + 1])
            && (CheckIsRight(f, ETH_LEN) ==> CheckIsRight(out, ETH_LEN))
  {
    var id := StampId(m, ifindex, f).value;
    TosWithDscpReplacesDscp(f[ETH_LEN + 1], id);
    if CheckIsRight(f, ETH_LEN) {
      RewriteKeepsCheck(f, ETH_LEN, TosWithDscp(f[ETH_LEN + 1], id));
    }
  }

  /** End to end: if run[i] stamped a packet and nothing has disturbed its record
      since, the reply of that flow leaves with the DSCP the packet came with. */
  lemma {:induction false} ReplyGetsOriginalDscp(run: seq<Event>, i: nat, m: Maps, ifindex: U32, f: seq<Byte>)
    requires i < |run| && run[i].Ingress? && run[i].insertOk
    requires StampId(run[i].maps, run[i].ifindex, run[i].frame).Some?
    requires Handles(m, ifindex, true, f) && Dscp(f[L2Len(m, ifindex).value + 1]) == m.dscpId[ifindex]
    requires FlowKeyAt(f, L2Len(m, ifindex).value) == FlowKeyAt(run[i].frame, ETH_LEN).Reversed()
    requires forall j :: i < j < |run| ==> !Disturbs(run[j], FlowKeyAt(f, L2Len(m, ifindex).value))
    ensures Dscp(Terminated(m, ifindex, true, f, Orig(run), true, true)[L2Len(m, ifindex).value + 1])
         == Dscp(run[i].frame[ETH_LEN + 1])
  {
    var key := FlowKeyAt(f, L2Len(m, ifindex).value);
    assert LatestRecord(run, key, i, Dscp(run[i].frame[ETH_LEN + 1]));
    RestorationHistory(run, key);
    ReplyIsRestored(run, m, ifindex, f);
  }

  // ---------- The tag never leaks ----------

  /** Wherever an id is configured it is this one. */
  ghost predicate SharedId(m: Maps, id: Byte) {
    forall i :: i in m.dscpId ==> m.dscpId[i] == id
  }

  ghost predicate RunShares(run: seq<Event>, id: Byte) {
    forall e :: e in run && e.Ingress? ==> SharedId(e.maps, id)
  }

  /** No recorded DSCP is our own id: a packet already carrying it is not rewritten. */
  lemma {:induction false} RecordsNeverHoldId(run: seq<Event>, id: Byte, key: FlowKey)
    requires RunShares(run, id)
    ensures key in Orig(run) ==> Orig(run)[key] != id
  {
    RestorationHistory(run, key);
    if key in Orig(run) {
      var i: nat, d :| LatestRecord(run, key, i, d);
      assert run[i] in run;
    }
  }

  /** In every reachable state where all interfaces share one id, a packet the
      egress classifier handles without helper failure never leaves with it. */
  lemma {:induction false} TagNeverLeaks(run: seq<Event>, id: Byte, m: Maps, ifindex: U32, f: seq<Byte>)
    requires RunShares(run, id) && SharedId(m, id) && Handles(m, ifindex, true, f)
    ensures Dscp(Terminated(m, ifindex, true, f, Orig(run), true, true)[L2Len(m, ifindex).value + 1]) != id
  {
    var l2 := L2Len(m, ifindex).value;
    if Dscp(f[l2 + 1]) == id {
      RecordsNeverHoldId(run, id, FlowKeyAt(f, l2));
      ReplyIsRestored(run, m, ifindex, f);
    }
  }
}
