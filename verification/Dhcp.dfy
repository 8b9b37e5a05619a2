/** The per-interface DHCP tasks.  Each task updates the engine under one lock
    and the lease table under another; between the two, any other task may run. */
module Dhcp {
  import opened Base
  import opened Engine

  datatype Lease = Lease(ip: Ip, gateway: Ip)

  /** Where a task is: waiting for an event, or between its engine update and
      the lease update that follows. */
  datatype Phase = Idle | Inserting(lease: Lease) | Removing

  datatype System = System(engine: State, leases: map<string, Lease>, phases: map<string, Phase>)

  /** What happens at lock boundaries.  `LeaseEvent` re-attaches under the engine
      lock; `DetachEvent` is the engine half of `detach`; `Commit` is the lease
      half of either. */
  datatype Step =
    | LeaseEvent(iface: string, ip: Ip, gateway: Option<Ip>, detachOk: bool, answers: Answers)
    | DetachEvent(iface: string, detachOk: bool)
    | Commit(iface: string)

  function PhaseOf(s: System, iface: string): Phase {
    if iface in s.phases then s.phases[iface] else Idle
  }

  /** A task starts an event only when its previous one is finished, and the
      kernel numbers interfaces apart. */
  ghost predicate Enabled(s: System, step: Step) {
    match step
    case LeaseEvent(iface, _, gateway, detachOk, a) =>
      PhaseOf(s, iface) == Idle && (gateway.Some? ==> Unnumbered(Remove(s.engine, iface, detachOk), a))
    case DetachEvent(iface, _) => PhaseOf(s, iface) == Idle
    case Commit(iface) => PhaseOf(s, iface) != Idle
  }

  function Apply(s: System, id: Option<Byte>, step: Step): System {
    match step
    case LeaseEvent(iface, ip, gateway, detachOk, a) =>
      if gateway.None? then s
      else
        var cleared := Remove(s.engine, iface, detachOk);
        var ok := AddSucceeds(cleared, iface, id, a);
        s.(engine := Add(cleared, iface, ip, id, a),
           phases := s.phases[iface := if ok then Inserting(Lease(ip, gateway.value)) else Removing])
    case DetachEvent(iface, detachOk) =>
      s.(engine := Remove(s.engine, iface, detachOk), phases := s.phases[iface := Removing])
    case Commit(iface) =>
      match PhaseOf(s, iface)
      case Idle => s
      case Inserting(lease) => s.(leases := s.leases[iface := lease], phases := s.phases[iface := Idle])
      case Removing => s.(leases := s.leases - {iface}, phases := s.phases[iface := Idle])
  }

  /** One interface's engine entry, lease and task agree. */
  ghost predicate Agrees(s: System, iface: string) {
    match PhaseOf(s, iface)
    case Idle =>
      && (iface in s.leases <==> iface in s.engine.attached)
      && (iface in s.leases ==> s.leases[iface].ip == s.engine.attached[iface].key.ip)
    case Inserting(lease) => iface in s.engine.attached && s.engine.attached[iface].key.ip == lease.ip
    case Removing => iface !in s.engine.attached
  }

  ghost predicate Inv(s: System) {
    Engine.Inv(s.engine) && forall iface: string :: Agrees(s, iface)
  }

  lemma {:induction false} OthersUntouched(s: System, id: Option<Byte>, step: Step, other: string)
    requires Engine.Inv(s.engine) && Enabled(s, step) && other != step.iface && Agrees(s, other)
    ensures Agrees(Apply(s, id, step), other)
  {
    if step.LeaseEvent? && step.gateway.Some? {
      RemoveKeepsInv(s.engine, step.iface, step.detachOk);
      var cleared := Remove(s.engine, step.iface, step.detachOk);
      if !AddSucceeds(cleared, step.iface, id, step.answers) {
        FailedAddRollsBack(cleared, step.iface, step.ip, id, step.answers);
      }
    }
  }

  lemma {:induction false} OwnAgrees(s: System, id: Option<Byte>, step: Step)
    requires Engine.Inv(s.engine) && Enabled(s, step) && Agrees(s, step.iface)
    ensures Agrees(Apply(s, id, step), step.iface)
  {
    if step.LeaseEvent? && step.gateway.Some? {
      RemoveKeepsInv(s.engine, step.iface, step.detachOk);
      var cleared := Remove(s.engine, step.iface, step.detachOk);
      assert step.iface !in cleared.attached;
      if !AddSucceeds(cleared, step.iface, id, step.answers) {
        FailedAddRollsBack(cleared, step.iface, step.ip, id, step.answers);
      }
    }
  }

  lemma {:induction false} EngineKept(s: System, id: Option<Byte>, step: Step)
    requires Engine.Inv(s.engine) && Enabled(s, step)
    ensures Engine.Inv(Apply(s, id, step).engine)
  {
    match step
    case LeaseEvent(iface, ip, gateway, detachOk, a) =>
      RemoveKeepsInv(s.engine, iface, detachOk);
      if gateway.Some? {
        AddKeepsInv(Remove(s.engine, iface, detachOk), iface, ip, id, a);
      }
    case DetachEvent(iface, detachOk) => RemoveKeepsInv(s.engine, iface, detachOk);
    case Commit(_) =>
  }

  lemma {:induction false} InvStep(s: System, id: Option<Byte>, step: Step)
    requires Inv(s) && Enabled(s, step)
    ensures Inv(Apply(s, id, step))
  {
    EngineKept(s, id, step);
    forall iface: string ensures Agrees(Apply(s, id, step), iface) {
      assert Agrees(s, iface);
      if iface == step.iface { OwnAgrees(s, id, step); } else { OthersUntouched(s, id, step, iface); }
    }
  }

  ghost predicate Execution(ss: seq<System>, id: Option<Byte>, steps: seq<Step>) {
    && |ss| == |steps| + 1
    && ss[0] == System(State(map[], map[], map[], map[], {}), map[], map[])
    && forall i :: 0 <= i < |steps| ==> Enabled(ss[i], steps[i]) && ss[i + 1] == Apply(ss[i], id, steps[i])
  }

  lemma {:induction false} InvAlways(ss: seq<System>, id: Option<Byte>, steps: seq<Step>, i: nat)
    requires Execution(ss, id, steps) && i < |ss|
    ensures Inv(ss[i])
  {
    if i > 0 {
      InvAlways(ss, id, steps, i - 1);
      InvStep(ss[i - 1], id, steps[i - 1]);
      assert ss[i - 1 + 1] == Apply(ss[i - 1], id, steps[i - 1]);
    }
  }

  /** Lease and engine agreement: in every interleaving of the tasks, whatever
      attach or detach fails, an interface whose task is not between its two
      updates has a lease exactly when it is attached, with the same address. */
  lemma {:induction false} LeasesMatchEngine(ss: seq<System>, id: Option<Byte>, steps: seq<Step>, i: nat, iface: string)
    requires Execution(ss, id, steps) && i < |ss| && PhaseOf(ss[i], iface) == Idle
    ensures iface in ss[i].leases <==> iface in ss[i].engine.attached
    ensures iface in ss[i].leases ==>
              ss[i].leases[iface].ip == ss[i].engine.attached[iface].key.ip
  {
    InvAlways(ss, id, steps, i);
    assert Agrees(ss[i], iface);
  }

  /** When every task is between events, the addresses served over HTTP are
      exactly those the ARP map answers for. */
  lemma {:induction false} ServedIsAnswered(ss: seq<System>, id: Option<Byte>, steps: seq<Step>, i: nat, ip: Ip)
    requires Execution(ss, id, steps) && i < |ss|
    requires forall iface: string :: PhaseOf(ss[i], iface) == Idle
    ensures (exists iface :: iface in ss[i].leases && ss[i].leases[iface].ip == ip)
       <==> (exists key :: key in ss[i].engine.arp && key.ip == ip)
  {
    InvAlways(ss, id, steps, i);
    var s := ss[i];
    if iface :| iface in s.leases && s.leases[iface].ip == ip {
      assert Agrees(s, iface) && PhaseOf(s, iface) == Idle;
      assert AnswersFor(s.engine, s.engine.attached[iface].key);
    }
    if key :| key in s.engine.arp && key.ip == ip {
      assert AnswersFor(s.engine, key);
      var iface :| iface in s.engine.attached && s.engine.attached[iface].key == key;
      assert Agrees(s, iface) && PhaseOf(s, iface) == Idle;
    }
  }

  // ---------- Leases follow events ----------

  /** An event that the task acts on: a lease with a gateway, or a detach. */
  predicate ActsOn(step: Step, iface: string) {
    step.iface == iface && (step.DetachEvent? || (step.LeaseEvent? && step.gateway.Some?))
  }

  /** steps[j] is the interface's latest such event among the first n steps. */
  ghost predicate LastEvent(steps: seq<Step>, iface: string, n: nat, j: nat)
    requires n <= |steps|
  {
    j < n && ActsOn(steps[j], iface) && forall i :: j < i < n ==> !ActsOn(steps[i], iface)
  }

  /** The lease the event led to in state s: its address and gateway if the interface
      could be attached, none otherwise. */
  function LeaseOf(s: System, id: Option<Byte>, step: Step): Option<Lease> {
    if step.LeaseEvent? && step.gateway.Some?
       && AddSucceeds(Remove(s.engine, step.iface, step.detachOk), step.iface, id, step.answers)
    then Some(Lease(step.ip, step.gateway.value)) else None
  }

  /** The lease, the engine entry, and the pending lease update if there is one, are
      those of the given outcome. */
  ghost predicate Follows(s: System, iface: string, lease: Option<Lease>) {
    && (match PhaseOf(s, iface)
        case Idle => Get(s.leases, iface) == lease
        case Inserting(l) => lease == Some(l)
        case Removing => lease == None)
    && (iface in s.engine.attached <==> lease.Some?)
    && (lease.Some? ==> s.engine.attached[iface].key.ip == lease.value.ip)
  }

  lemma {:induction false} EventOutcome(s: System, id: Option<Byte>, step: Step)
    requires Inv(s) && Enabled(s, step) && ActsOn(step, step.iface)
    ensures Follows(Apply(s, id, step), step.iface, LeaseOf(s, id, step))
  {
    InvStep(s, id, step);
    assert Agrees(Apply(s, id, step), step.iface);
  }

  /** The lease update ends the event. */
  lemma {:induction false} CommitFinishes(s: System, id: Option<Byte>, iface: string)
    requires Enabled(s, Commit(iface))
    ensures PhaseOf(Apply(s, id, Commit(iface)), iface) == Idle
    ensures Apply(s, id, Commit(iface)).engine == s.engine
  {
  }

  lemma {:induction false} OtherStepOutcome(s: System, id: Option<Byte>, step: Step, iface: string,
                                            lease: Option<Lease>)
    requires Inv(s) && Enabled(s, step) && !ActsOn(step, iface) && Follows(s, iface, lease)
    ensures Follows(Apply(s, id, step), iface, lease)
  {
    if step.LeaseEvent? && step.gateway.Some? {
      RemoveKeepsInv(s.engine, step.iface, step.detachOk);
      var cleared := Remove(s.engine, step.iface, step.detachOk);
      if !AddSucceeds(cleared, step.iface, id, step.answers) {
        FailedAddRollsBack(cleared, step.iface, step.ip, id, step.answers);
      }
    }
  }

  /** In every interleaving, an interface's lease and attachment are what its latest
      event led to (or none, before any event); while its task is between its two
      updates, the update it is about to make is. */
  lemma {:induction false} LeaseIsLastEvent(ss: seq<System>, id: Option<Byte>, steps: seq<Step>, n: nat, iface: string)
    requires Execution(ss, id, steps) && n < |ss|
    ensures forall j: nat :: LastEvent(steps, iface, n, j) ==> Follows(ss[n], iface, LeaseOf(ss[j], id, steps[j]))
    ensures (forall j :: 0 <= j < n ==> !ActsOn(steps[j], iface)) ==> Follows(ss[n], iface, None)
  {
    if n > 0 {
      var m := n - 1;
      LeaseIsLastEvent(ss, id, steps, m, iface);
      InvAlways(ss, id, steps, m);
      assert Enabled(ss[m], steps[m]) && ss[m + 1] == Apply(ss[m], id, steps[m]);
      if ActsOn(steps[m], iface) {
        EventOutcome(ss[m], id, steps[m]);
      } else {
        forall j: nat | LastEvent(steps, iface, n, j) ensures Follows(ss[n], iface, LeaseOf(ss[j], id, steps[j])) {
          assert LastEvent(steps, iface, m, j);
          OtherStepOutcome(ss[m], id, steps[m], iface, LeaseOf(ss[j], id, steps[j]));
        }
        if forall j :: 0 <= j < n ==> !ActsOn(steps[j], iface) {
          OtherStepOutcome(ss[m], id, steps[m], iface, None);
        }
      }
    }
  }
}
