/** The attachment engine: XDP and egress programs per interface and the maps
    they read, with rollback when an attachment fails half-way. */
module Engine {
  import opened Base
  import opened Edge

  type Mac = seq<Byte>

  datatype Attached = Attached(key: ArpKey, ifindex: U32, egress: bool)

  /** The engine's table, the three maps it fills, and the interfaces the kernel
      holds an XDP link for. */
  datatype State = State(attached: map<string, Attached>, arp: map<ArpKey, Mac>,
                         dscp: map<U32, Byte>, l2: map<U32, Byte>, xdp: set<string>)

  /** What the system answers to each step of an attachment, in the order the
      steps are taken: two sysfs reads, the XDP attach, the ARP insert, and for
      egress the id insert, the link-type read, its insert and the TC attach. */
  datatype Answers = Answers(mac: Option<Mac>, ifindex: Option<U32>, xdpOk: bool, arpOk: bool,
                             dscpOk: bool, l2Len: Option<Byte>, l2Ok: bool, tcOk: bool)

  predicate EgressOk(a: Answers) {
    a.dscpOk && a.l2Len.Some? && a.l2Ok && a.tcOk
  }

  /** The attachment gets past the ARP insert.  The kernel takes one XDP link per interface. */
  predicate Reaches(s: State, iface: string, a: Answers) {
    && iface !in s.attached && a.mac.Some? && a.ifindex.Some?
    && a.xdpOk && iface !in s.xdp && a.arpOk
  }

  predicate AddSucceeds(s: State, iface: string, id: Option<Byte>, a: Answers) {
    Reaches(s, iface, a) && (id.Some? ==> EgressOk(a))
  }

  function Cleared(s: State, key: ArpKey, ifindex: U32): State {
    s.(arp := s.arp - {key}, dscp := s.dscp - {ifindex}, l2 := s.l2 - {ifindex})
  }

  /** The net effect of `add_interface`. */
  function Add(s: State, iface: string, ip: Ip, id: Option<Byte>, a: Answers): State {
    if !Reaches(s, iface, a) then s
    else
      var key := ArpKey(a.ifindex.value, ip);
      if id.None? then
        s.(attached := s.attached[iface := Attached(key, a.ifindex.value, false)],
           arp := s.arp[key := a.mac.value], xdp := s.xdp + {iface})
      else if EgressOk(a) then
        State(s.attached[iface := Attached(key, a.ifindex.value, true)], s.arp[key := a.mac.value],
              s.dscp[a.ifindex.value := id.value], s.l2[a.ifindex.value := a.l2Len.value],
              s.xdp + {iface})
      else Cleared(s, key, a.ifindex.value)
  }

  /** The net effect of `remove_interface`; only the XDP link depends on the final detach. */
  function Remove(s: State, iface: string, detachOk: bool): State {
    if iface !in s.attached then s
    else
      var e := s.attached[iface];
      State(s.attached - {iface}, s.arp - {e.key},
            if e.egress then s.dscp - {e.ifindex} else s.dscp,
            if e.egress then s.l2 - {e.ifindex} else s.l2,
            if detachOk then s.xdp - {iface} else s.xdp)
  }

  class Dumbarp {
    var attached: map<string, Attached>
    var arp: map<ArpKey, Mac>
    var dscp: map<U32, Byte>
    var l2: map<U32, Byte>
    var xdp: set<string>

    function Now(): State
      reads this
    {
      State(attached, arp, dscp, l2, xdp)
    }

    constructor ()
      ensures Now() == State(map[], map[], map[], map[], {})
    {
      attached, arp, dscp, l2, xdp := map[], map[], map[], map[], {};
    }

    method AttachEgress(ifindex: U32, id: Byte, a: Answers) returns (r: Result<()>)
      modifies this
      ensures r.Ok? <==> EgressOk(a)
      ensures attached == old(attached) && arp == old(arp) && xdp == old(xdp)
      ensures dscp - {ifindex} == old(dscp) - {ifindex} && l2 - {ifindex} == old(l2) - {ifindex}
      ensures r.Ok? ==> dscp == old(dscp)[ifindex := id] && l2 == old(l2)[ifindex := a.l2Len.value]
    {
      if !a.dscpOk {
        return Err;
      }
      dscp := dscp[ifindex := id];
      if a.l2Len.None? || !a.l2Ok {
        return Err;
      }
      l2 := l2[ifindex := a.l2Len.value];
      if !a.tcOk {
        return Err;
      }
      r := Ok(());
    }

    method ClearIfaceMaps(ifindex: U32)
      modifies this
      ensures dscp == old(dscp) - {ifindex} && l2 == old(l2) - {ifindex}
      ensures attached == old(attached) && arp == old(arp) && xdp == old(xdp)
    {
      dscp := dscp - {ifindex};
      l2 := l2 - {ifindex};
    }

    method AddInterface(iface: string, ip: Ip, id: Option<Byte>, a: Answers) returns (r: Result<()>)
      modifies this
      ensures r.Ok? <==> AddSucceeds(old(Now()), iface, id, a)
      ensures Now() == Add(old(Now()), iface, ip, id, a)
    {
      if iface in attached || a.mac.None? || a.ifindex.None? {
        return Err;
      }
      var key := ArpKey(a.ifindex.value, ip);
      if !a.xdpOk || iface in xdp {
        return Err;
      }
      xdp := xdp + {iface};
      if !a.arpOk {
        xdp := xdp - {iface};
        return Err;
      }
      arp := arp[key := a.mac.value];
      if id.Some? {
        var egress := AttachEgress(a.ifindex.value, id.value, a);
        if egress.Err? {
          arp := arp - {key};
          ClearIfaceMaps(a.ifindex.value);
          xdp := xdp - {iface};
          assert arp == old(arp) - {key};
          return Err;
        }
      }
      attached := attached[iface := Attached(key, a.ifindex.value, id.Some?)];
      r := Ok(());
    }

    method RemoveInterface(iface: string, detachOk: bool) returns (r: Result<()>)
      modifies this
      ensures r.Ok? <==> iface in old(attached) && detachOk
      ensures Now() == Remove(old(Now()), iface, detachOk)
    {
      if iface !in attached {
        return Err;
      }
      var e := attached[iface];
      attached := attached - {iface};
      if e.egress {
        ClearIfaceMaps(e.ifindex);
      }
      arp := arp - {e.key};
      if !detachOk {
        return Err;
      }
      xdp := xdp - {iface};
      r := Ok(());
    }
  }

  // ---------- The invariant ----------

  ghost predicate AnswersFor(s: State, key: ArpKey) {
    exists i :: i in s.attached && s.attached[i].key == key
  }

  ghost predicate HasEgress(s: State, x: U32) {
    exists i :: i in s.attached && s.attached[i].egress && s.attached[i].ifindex == x
  }

  /** The ARP map answers for exactly the attached interfaces, and the id and
      link-length maps list exactly the interfaces with an egress link.  Every
      attached interface has its XDP link. */
  ghost predicate Inv(s: State) {
    && (forall i :: i in s.attached ==> s.attached[i].key.ifindex == s.attached[i].ifindex)
    && (forall i, j :: i in s.attached && j in s.attached && i != j ==>
          s.attached[i].ifindex != s.attached[j].ifindex)
    && (forall key :: key in s.arp <==> AnswersFor(s, key))
    && (forall x :: x in s.dscp <==> HasEgress(s, x))
    && s.l2.Keys == s.dscp.Keys
    && s.attached.Keys <= s.xdp
  }

  /** The kernel does not number a new interface like one that is attached. */
  ghost predicate Unnumbered(s: State, a: Answers) {
    a.ifindex.Some? ==> forall i :: i in s.attached ==> s.attached[i].ifindex != a.ifindex.value
  }

  /** A failed add changes nothing if and only if it failed before the egress
      step or no entry of another interface sat under its keys. */
  lemma {:induction false} FailedAddUnchanged(s: State, iface: string, ip: Ip, id: Option<Byte>, a: Answers)
    requires !AddSucceeds(s, iface, id, a)
    ensures Add(s, iface, ip, id, a) == s <==>
            || !Reaches(s, iface, a)
            || (ArpKey(a.ifindex.value, ip) !in s.arp && a.ifindex.value !in s.dscp && a.ifindex.value !in s.l2)
  {
    if Reaches(s, iface, a) {
      var key, x := ArpKey(a.ifindex.value, ip), a.ifindex.value;
      assert key !in s.arp ==> s.arp - {key} == s.arp;
      assert x !in s.dscp ==> s.dscp - {x} == s.dscp;
      assert x !in s.l2 ==> s.l2 - {x} == s.l2;
    }
  }

  /** A concrete failure: with two interfaces numbered alike, the rollback of the
      second wipes the first one's id. */
  lemma {:induction false} ClashingRollback()
    ensures var s := State(map["a" := Attached(ArpKey(5, 1), 5, true)], map[ArpKey(5, 1) := []],
                           map[5 := 9], map[5 := 14], {"a"});
            var a := Answers(Some([]), Some(5), true, true, true, Some(14), true, false);
            Inv(s) && !AddSucceeds(s, "b", Some(9), a) && Add(s, "b", 2, Some(9), a).dscp == map[]
  {
    var s := State(map["a" := Attached(ArpKey(5, 1), 5, true)], map[ArpKey(5, 1) := []],
                   map[5 := 9], map[5 := 14], {"a"});
    assert "a" in s.attached && s.attached["a"].egress;
    assert s.dscp - {5} == map[];
  }

  lemma {:induction false} FailedAddRollsBack(s: State, iface: string, ip: Ip, id: Option<Byte>, a: Answers)
    requires Inv(s) && Unnumbered(s, a) && !AddSucceeds(s, iface, id, a)
    ensures Add(s, iface, ip, id, a) == s
  {
    FailedAddUnchanged(s, iface, ip, id, a);
  }

  lemma {:induction false} AddGrows(s: State, iface: string, ip: Ip, id: Option<Byte>, a: Answers, key: ArpKey, x: U32)
    requires AddSucceeds(s, iface, id, a)
    ensures var s' := Add(s, iface, ip, id, a);
            && (AnswersFor(s', key) <==> AnswersFor(s, key) || key == ArpKey(a.ifindex.value, ip))
            && (HasEgress(s', x) <==> HasEgress(s, x) || (id.Some? && x == a.ifindex.value))
  {
    var s' := Add(s, iface, ip, id, a);
    assert iface in s'.attached && iface !in s.attached;
    assert forall i :: i in s.attached ==> i in s'.attached && s'.attached[i] == s.attached[i];
    if AnswersFor(s, key) {
      var i :| i in s.attached && s.attached[i].key == key;
      assert i in s'.attached;
    }
    if HasEgress(s, x) {
      var i :| i in s.attached && s.attached[i].egress && s.attached[i].ifindex == x;
      assert i in s'.attached;
    }
  }

  lemma {:induction false} AddKeepsInv(s: State, iface: string, ip: Ip, id: Option<Byte>, a: Answers)
    requires Inv(s) && (iface !in s.attached ==> Unnumbered(s, a))
    ensures Inv(Add(s, iface, ip, id, a))
  {
    if AddSucceeds(s, iface, id, a) {
      var s' := Add(s, iface, ip, id, a);
      forall key ensures AnswersFor(s', key) <==> key in s'.arp {
        AddGrows(s, iface, ip, id, a, key, 0);
      }
      forall x ensures HasEgress(s', x) <==> x in s'.dscp {
        AddGrows(s, iface, ip, id, a, ArpKey(0, 0), x);
      }
    } else if Reaches(s, iface, a) {
      FailedAddRollsBack(s, iface, ip, id, a);
    }
  }

  lemma {:induction false} RemoveShrinks(s: State, iface: string, detachOk: bool, key: ArpKey, x: U32)
    requires Inv(s) && iface in s.attached
    ensures var s', e := Remove(s, iface, detachOk), s.attached[iface];
            && (AnswersFor(s', key) <==> AnswersFor(s, key) && key != e.key)
            && (HasEgress(s', x) <==> HasEgress(s, x) && (e.egress ==> x != e.ifindex))
  {
    var s', e := Remove(s, iface, detachOk), s.attached[iface];
    if AnswersFor(s, key) && key != e.key {
      var i :| i in s.attached && s.attached[i].key == key;
      assert i in s'.attached && s'.attached[i] == s.attached[i];
    }
    if HasEgress(s, x) && (e.egress ==> x != e.ifindex) {
      var i :| i in s.attached && s.attached[i].egress && s.attached[i].ifindex == x;
      assert i in s'.attached && s'.attached[i] == s.attached[i];
    }
  }

  lemma {:induction false} RemoveKeepsInv(s: State, iface: string, detachOk: bool)
    requires Inv(s)
    ensures Inv(Remove(s, iface, detachOk))
  {
    if iface in s.attached {
      var s' := Remove(s, iface, detachOk);
      forall key ensures AnswersFor(s', key) <==> key in s'.arp {
        RemoveShrinks(s, iface, detachOk, key, 0);
      }
      forall x ensures HasEgress(s', x) <==> x in s'.dscp {
        RemoveShrinks(s, iface, detachOk, ArpKey(0, 0), x);
      }
    }
  }

  // ---------- Runs ----------

  datatype Call =
    | DoAdd(iface: string, ip: Ip, id: Option<Byte>, answers: Answers)
    | DoRemove(iface: string, detachOk: bool)

  function Step(s: State, c: Call): State {
    match c
    case DoAdd(iface, ip, id, a) => Add(s, iface, ip, id, a)
    case DoRemove(iface, ok) => Remove(s, iface, ok)
  }

  function After(calls: seq<Call>): State {
    if calls == [] then State(map[], map[], map[], map[], {})
    else Step(After(calls[..|calls| - 1]), calls[|calls| - 1])
  }

  ghost predicate WellNumbered(calls: seq<Call>) {
    forall n :: 0 <= n < |calls| && calls[n].DoAdd? && calls[n].iface !in After(calls[..n]).attached ==>
      Unnumbered(After(calls[..n]), calls[n].answers)
  }

  /** After any sequence of adds and removes, failing at any step, the maps say
      exactly what is attached. */
  lemma {:induction false} EngineInvariant(calls: seq<Call>)
    requires WellNumbered(calls)
    ensures Inv(After(calls))
  {
    if calls != [] {
      var n := |calls| - 1;
      assert WellNumbered(calls[..n]) by {
        assert forall k :: 0 <= k < n ==> calls[..n][..k] == calls[..k] && calls[..n][k] == calls[k];
      }
      EngineInvariant(calls[..n]);
      match calls[n]
      case DoAdd(iface, ip, id, a) => AddKeepsInv(After(calls[..n]), iface, ip, id, a);
      case DoRemove(iface, ok) => RemoveKeepsInv(After(calls[..n]), iface, ok);
    }
  }

  // ---------- What is attached, and with which values ----------

  /** When no step fails, a free interface is attached, answers for the address with
      its own MAC, and has the id and link length in the maps if an id was given;
      no other entry changes. */
  lemma {:induction false} AddGranted(s: State, iface: string, ip: Ip, id: Option<Byte>, a: Answers, mac: Mac, x: U32)
    requires iface !in s.attached && iface !in s.xdp && a.mac == Some(mac) && a.ifindex == Some(x) && a.xdpOk && a.arpOk
    requires id.Some? ==> a.dscpOk && a.l2Len.Some? && a.l2Ok && a.tcOk
    ensures AddSucceeds(s, iface, id, a)
    ensures var s' := Add(s, iface, ip, id, a);
            && Reflects(s', iface, ip, id, a)
            && s'.attached - {iface} == s.attached && s'.arp - {ArpKey(x, ip)} == s.arp - {ArpKey(x, ip)}
            && s'.dscp - {x} == s.dscp - {x} && s'.l2 - {x} == s.l2 - {x}
            && (id.None? ==> s'.dscp == s.dscp && s'.l2 == s.l2)
  {
    var s' := Add(s, iface, ip, id, a);
    assert s'.attached - {iface} == s.attached;
    assert s'.arp - {ArpKey(x, ip)} == s.arp - {ArpKey(x, ip)};
    assert s'.dscp - {x} == s.dscp - {x} && s'.l2 - {x} == s.l2 - {x};
  }

  /** Once removed, with its XDP link detached, an interface can be attached again. */
  lemma {:induction false} ReattachWorks(s: State, iface: string, ip: Ip, id: Option<Byte>, a: Answers)
    requires iface in s.attached && a.mac.Some? && a.ifindex.Some? && a.xdpOk && a.arpOk
    requires id.Some? ==> a.dscpOk && a.l2Len.Some? && a.l2Ok && a.tcOk
    ensures var gone := Remove(s, iface, true);
            && iface !in gone.attached && AddSucceeds(gone, iface, id, a)
            && Reflects(Add(gone, iface, ip, id, a), iface, ip, id, a)
  {
    AddGranted(Remove(s, iface, true), iface, ip, id, a, a.mac.value, a.ifindex.value);
  }

  /** The state shows the interface as an add with these arguments and answers left it. */
  ghost predicate Reflects(s: State, iface: string, ip: Ip, id: Option<Byte>, a: Answers) {
    && a.mac.Some? && a.ifindex.Some? && iface in s.attached
    && var x := a.ifindex.value;
    && s.attached[iface] == Attached(ArpKey(x, ip), x, id.Some?)
    && Get(s.arp, ArpKey(x, ip)) == a.mac
    && (id.Some? ==> Get(s.dscp, x) == id && Get(s.l2, x) == a.l2Len)
  }

  /** Calls about other interfaces, and repeated adds, leave it so. */
  lemma {:induction false} StepKeepsReflection(s: State, c: Call, iface: string, ip: Ip, id: Option<Byte>, a: Answers)
    requires Inv(s) && Reflects(s, iface, ip, id, a) && (c.DoRemove? ==> c.iface != iface)
    requires c.DoAdd? && c.iface !in s.attached ==> Unnumbered(s, c.answers)
    ensures Reflects(Step(s, c), iface, ip, id, a)
  {
    if c.DoAdd? && !AddSucceeds(s, c.iface, c.id, c.answers) {
      if c.iface !in s.attached {
        FailedAddRollsBack(s, c.iface, c.ip, c.id, c.answers);
      }
    } else {
      assert s.attached[iface].ifindex == a.ifindex.value;
    }
  }

  /** calls[n] attached the interface, and no removal of it followed. */
  ghost predicate LatestAttach(calls: seq<Call>, iface: string, n: nat) {
    && n < |calls| && calls[n].DoAdd? && calls[n].iface == iface
    && AddSucceeds(After(calls[..n]), iface, calls[n].id, calls[n].answers)
    && forall j :: n < j < |calls| ==> !(calls[j].DoRemove? && calls[j].iface == iface)
  }

  lemma {:induction false} WellNumberedPrefix(calls: seq<Call>, n: nat)
    requires WellNumbered(calls) && n <= |calls|
    ensures WellNumbered(calls[..n])
  {
    assert forall k :: 0 <= k < n ==> calls[..n][..k] == calls[..k] && calls[..n][k] == calls[k];
  }

  lemma {:induction false} LatestAttachStep(calls: seq<Call>, iface: string, n: nat)
    requires calls != []
    ensures var m := |calls| - 1;
            LatestAttach(calls, iface, n) <==>
            if n == m then
              calls[m].DoAdd? && calls[m].iface == iface
              && AddSucceeds(After(calls[..m]), iface, calls[m].id, calls[m].answers)
            else LatestAttach(calls[..m], iface, n) && !(calls[m].DoRemove? && calls[m].iface == iface)
  {
    var m := |calls| - 1;
    if n < m {
      assert calls[..m][..n] == calls[..n] && calls[..m][n] == calls[n];
      if LatestAttach(calls[..m], iface, n) && !(calls[m].DoRemove? && calls[m].iface == iface) {
        forall j | n < j < |calls| ensures !(calls[j].DoRemove? && calls[j].iface == iface) {
          if j < m { assert calls[..m][j] == calls[j]; }
        }
      }
    }
  }

  /** After any calls, an interface is attached if and only if some add of it succeeded
      and no removal followed; and the maps hold what that add read and was given. */
  lemma {:induction false} AttachedIsHistory(calls: seq<Call>, iface: string)
    requires WellNumbered(calls)
    ensures iface in After(calls).attached <==> exists n: nat :: LatestAttach(calls, iface, n)
    ensures forall n: nat :: LatestAttach(calls, iface, n) ==>
              Reflects(After(calls), iface, calls[n].ip, calls[n].id, calls[n].answers)
  {
    if calls != [] {
      var m := |calls| - 1;
      var s, c := After(calls[..m]), calls[m];
      WellNumberedPrefix(calls, m);
      AttachedIsHistory(calls[..m], iface);
      EngineInvariant(calls[..m]);
      forall n: nat ensures LatestAttach(calls, iface, n) <==>
              if n == m then c.DoAdd? && c.iface == iface && AddSucceeds(s, iface, c.id, c.answers)
              else LatestAttach(calls[..m], iface, n) && !(c.DoRemove? && c.iface == iface)
      {
        LatestAttachStep(calls, iface, n);
      }
      if c.DoAdd? && c.iface == iface && AddSucceeds(s, iface, c.id, c.answers) {
        AddGranted(s, iface, c.ip, c.id, c.answers, c.answers.mac.value, c.answers.ifindex.value);
        assert LatestAttach(calls, iface, m);
      }
      forall n: nat | LatestAttach(calls, iface, n)
        ensures Reflects(After(calls), iface, calls[n].ip, calls[n].id, calls[n].answers)
      {
        if n < m {
          assert calls[..m][n] == calls[n];
          StepKeepsReflection(s, c, iface, calls[n].ip, calls[n].id, calls[n].answers);
        }
      }
      if iface in After(calls).attached && iface in s.attached {
        var n: nat :| LatestAttach(calls[..m], iface, n);
        assert LatestAttach(calls, iface, n);
      }
    }
  }
}
