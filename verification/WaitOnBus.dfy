/** The event-driven wait together with the bus it listens on: one callback registered under two
    patterns, of which the bus remembers the second only. */
module WaitOnBus {
  import opened Wrappers
  import opened Sequences
  import opened Topics
  import opened BoundedWait
  import Bus = BusSpec
  import Dispatch
  import Trie = EventBus

  function Changed(nodeId: string): string {
    "space.node." + nodeId + ".changed"
  }

  function SyncAck(nodeId: string): string {
    "space.node." + nodeId + ".sync-ack"
  }

  lemma NodeTopics(nodeId: string)
    requires '*' !in nodeId
    ensures Bus.PatternOk(Changed(nodeId)) && Bus.PatternOk(SyncAck(nodeId)) && Changed(nodeId) != SyncAck(nodeId)
    ensures '*' !in Changed(nodeId) && '*' !in SyncAck(nodeId)
  {
    assert |Changed(nodeId)| + 1 == |SyncAck(nodeId)|;
    NoStars("space.node.", nodeId, ".changed");
    NoStars("space.node.", nodeId, ".sync-ack");
    LiteralIsFine(Changed(nodeId));
    LiteralIsFine(SyncAck(nodeId));
  }

  lemma NoStars(a: string, b: string, c: string)
    ensures '*' !in a && '*' !in b && '*' !in c ==> '*' !in a + b + c
  {
  }

  lemma LiteralIsFine(pattern: string)
    requires pattern != "" && '*' !in pattern
    ensures Bus.PatternOk(pattern)
  {
    SplitKeepsOut(pattern, '.', '*');
    assert GLOBSTAR[0] == '*';
    var segments := Split(pattern, '.');
    forall i | 0 <= i < |segments| ensures segments[i] != GLOBSTAR {
      assert segments[i] in segments;
    }
  }

  /** What waiting does to the bus when it begins, and when it resolves. */
  function Listened(b: Bus.Bus, nodeId: string, recheck: Bus.Handler): Bus.Bus {
    Bus.ApplyOn(Bus.ApplyOn(b, Changed(nodeId), recheck, 0.0), SyncAck(nodeId), recheck, 0.0)
  }

  function TakenOff(b: Bus.Bus, nodeId: string, recheck: Bus.Handler): Bus.Bus {
    Bus.ApplyOff(Bus.ApplyOff(b, Changed(nodeId), recheck), SyncAck(nodeId), recheck)
  }

  // ----- a wait and everything else on the bus ------------------------------------------------------------

  datatype World<V> = World(bus: Bus.Bus, wait: Wait<V>)

  datatype Act<V> = OfWait(event: Event<V>) | OfBus(op: Bus.Op)

  function StepOnBus<V>(l: Limits, nodeId: string, recheck: Bus.Handler, w: World<V>, a: Act<V>): World<V> {
    match a
    case OfWait(e) =>
      var wait := BoundedWait.Step(l, w.wait, e);
      World(if w.wait.resolved.None? && wait.resolved.Some? then TakenOff(w.bus, nodeId, recheck) else w.bus, wait)
    case OfBus(op) => w.(bus := Bus.Apply(w.bus, op))
  }

  function RunOnBus<V>(l: Limits, nodeId: string, recheck: Bus.Handler, w: World<V>, acts: seq<Act<V>>): World<V>
    decreases |acts|
  {
    if acts == [] then w else RunOnBus(l, nodeId, recheck, StepOnBus(l, nodeId, recheck, w, acts[0]), acts[1..])
  }

  function Started<V>(l: Limits, nodeId: string, recheck: Bus.Handler, b: Bus.Bus): World<V> {
    World(Listened(b, nodeId, recheck), Begun(l))
  }

  /** `recheck` is the wait's own: nobody else registers it or takes it off. */
  ghost predicate Private<V>(acts: seq<Act<V>>, recheck: Bus.Handler) {
    forall a :: a in acts && a.OfBus? ==> a.op.handler != recheck
  }

  predicate Unknown(b: Bus.Bus, recheck: Bus.Handler) {
    forall x :: x in b.live ==> x.handler != recheck
  }

  function OnChanged(b: Bus.Bus, nodeId: string, recheck: Bus.Handler): Bus.Entry {
    Bus.Entry(recheck, 0.0, b.next, Changed(nodeId))
  }

  function OnSyncAck(b: Bus.Bus, nodeId: string, recheck: Bus.Handler): Bus.Entry {
    Bus.Entry(recheck, 0.0, b.next + 1, SyncAck(nodeId))
  }

  /** The callback's entries are the `changed` one and, until the wait has resolved, the `sync-ack`
      one, which is the one that the reverse index names. */
  ghost predicate ListensAs<V>(w: World<V>, first: Bus.Entry, second: Bus.Entry, recheck: Bus.Handler) {
    && Bus.Valid(w.bus) && first in w.bus.live
    && (forall x :: x in w.bus.live && x.handler == recheck ==> x == first || x == second)
    && (second in w.bus.live <==> w.wait.resolved.None?)
    && (if w.wait.resolved.None? then recheck in w.bus.index && w.bus.index[recheck] == second
        else recheck !in w.bus.index)
    && w.wait.onChanged && (w.wait.onSyncAck <==> w.wait.resolved.None?)
  }

  lemma StartListens<V>(l: Limits, b: Bus.Bus, nodeId: string, recheck: Bus.Handler)
    requires Bus.Valid(b) && '*' !in nodeId && Unknown(b, recheck)
    ensures ListensAs(Started<V>(l, nodeId, recheck, b), OnChanged(b, nodeId, recheck), OnSyncAck(b, nodeId, recheck), recheck)
  {
    NodeTopics(nodeId);
    var one := Bus.ApplyOn(b, Changed(nodeId), recheck, 0.0);
    Bus.ApplyKeepsValid(b, Bus.On(Changed(nodeId), recheck, 0.0));
    Bus.ApplyKeepsValid(one, Bus.On(SyncAck(nodeId), recheck, 0.0));
    assert Listened(b, nodeId, recheck).live == b.live + [OnChanged(b, nodeId, recheck)] + [OnSyncAck(b, nodeId, recheck)];
  }

  /** The bus's own part: the first `off` finds the record of the other pattern and does nothing,
      the second removes the entry of the second registration. */
  lemma TakenOffExactly(b: Bus.Bus, nodeId: string, first: Bus.Entry, second: Bus.Entry, recheck: Bus.Handler)
    requires Bus.Valid(b) && '*' !in nodeId && first in b.live && second in b.live && first != second
    requires second.handler == recheck && second.pattern == SyncAck(nodeId)
    requires recheck in b.index && b.index[recheck] == second
    ensures var b' := TakenOff(b, nodeId, recheck);
      && Bus.Valid(b') && first in b'.live && second !in b'.live && recheck !in b'.index
      && (forall x :: x in b'.live ==> x in b.live)
  {
    NodeTopics(nodeId);
    Bus.WithoutKeepsValid(b, recheck);
    Bus.RemovalIsExact(b, second);
    Bus.RemoveFirstKeepsOrder(b.live, second);
    RemoveFirstKeepsOthers(b.live, second, first);
  }

  lemma OthersKeepListening<V>(w: World<V>, first: Bus.Entry, second: Bus.Entry, recheck: Bus.Handler, op: Bus.Op)
    requires ListensAs(w, first, second, recheck) && op.handler != recheck
    requires first.handler == recheck && second.handler == recheck
    ensures ListensAs(w.(bus := Bus.Apply(w.bus, op)), first, second, recheck)
  {
    Bus.ApplyKeepsValid(w.bus, op);
    if op.Off? && Bus.Apply(w.bus, op) != w.bus {
      var r := w.bus.index[op.handler];
      Bus.RemoveFirstKeepsOrder(w.bus.live, r);
      RemoveFirstKeepsOthers(w.bus.live, r, first);
      if second in w.bus.live {
        RemoveFirstKeepsOthers(w.bus.live, r, second);
      }
    }
  }

  lemma StepListens<V>(l: Limits, nodeId: string, w: World<V>, first: Bus.Entry, second: Bus.Entry, recheck: Bus.Handler, a: Act<V>)
    requires ListensAs(w, first, second, recheck) && '*' !in nodeId && (a.OfBus? ==> a.op.handler != recheck)
    requires first.handler == recheck && second.handler == recheck && first != second && second.pattern == SyncAck(nodeId)
    ensures ListensAs(StepOnBus(l, nodeId, recheck, w, a), first, second, recheck)
  {
    match a
    case OfBus(op) => OthersKeepListening(w, first, second, recheck, op);
    case OfWait(e) =>
      SubscriptionFlags(l, w.wait, e);
      WaitKeepsListening(w, nodeId, first, second, recheck, BoundedWait.Step(l, w.wait, e));
  }

  lemma SubscriptionFlags<V>(l: Limits, w: Wait<V>, e: Event<V>)
    ensures var w' := BoundedWait.Step(l, w, e);
      && w'.onChanged == w.onChanged
      && (w.resolved.Some? ==> w'.resolved.Some? && w'.onSyncAck == w.onSyncAck)
      && (w.resolved.None? ==> w'.onSyncAck == (w.onSyncAck && w'.resolved.None?))
  {
  }

  lemma WaitKeepsListening<V>(w: World<V>, nodeId: string, first: Bus.Entry, second: Bus.Entry, recheck: Bus.Handler, wait: Wait<V>)
    requires ListensAs(w, first, second, recheck) && '*' !in nodeId
    requires first.handler == recheck && second.handler == recheck && first != second && second.pattern == SyncAck(nodeId)
    requires wait.onChanged == w.wait.onChanged
    requires w.wait.resolved.Some? ==> wait.resolved.Some? && wait.onSyncAck == w.wait.onSyncAck
    requires w.wait.resolved.None? ==> wait.onSyncAck == (w.wait.onSyncAck && wait.resolved.None?)
    ensures ListensAs(World(if w.wait.resolved.None? && wait.resolved.Some? then TakenOff(w.bus, nodeId, recheck) else w.bus, wait),
                      first, second, recheck)
  {
    if w.wait.resolved.None? {
      TakenOffExactly(w.bus, nodeId, first, second, recheck);
    }
  }

  lemma {:induction false} RunListens<V>(l: Limits, nodeId: string, w: World<V>, first: Bus.Entry, second: Bus.Entry,
                                         recheck: Bus.Handler, acts: seq<Act<V>>)
    requires ListensAs(w, first, second, recheck) && '*' !in nodeId && Private(acts, recheck)
    requires first.handler == recheck && second.handler == recheck && first != second && second.pattern == SyncAck(nodeId)
    ensures ListensAs(RunOnBus(l, nodeId, recheck, w, acts), first, second, recheck)
    decreases |acts|
  {
    if acts != [] {
      assert acts[0] in acts && forall a :: a in acts[1..] ==> a in acts;
      StepListens(l, nodeId, w, first, second, recheck, acts[0]);
      RunListens(l, nodeId, StepOnBus(l, nodeId, recheck, w, acts[0]), first, second, recheck, acts[1..]);
    }
  }

  /** "Both listeners are taken off" holds of one of them. Over every run of a wait and of everything
      else on its bus, the callback's entries are the `changed` one, for ever, and the `sync-ack` one
      exactly until the wait has resolved; so every later change of the node still calls it. */
  lemma ListenersExactly<V>(l: Limits, b: Bus.Bus, nodeId: string, recheck: Bus.Handler, acts: seq<Act<V>>)
    requires Bus.Valid(b) && '*' !in nodeId && Unknown(b, recheck) && Private(acts, recheck)
    ensures var w := RunOnBus(l, nodeId, recheck, Started(l, nodeId, recheck, b), acts);
      var first, second := OnChanged(b, nodeId, recheck), OnSyncAck(b, nodeId, recheck);
      && (forall x :: x in w.bus.live && x.handler == recheck <==> x == first || (x == second && w.wait.resolved.None?))
      && w.wait.onChanged && (w.wait.onSyncAck <==> second in w.bus.live)
      && first in Bus.Deliveries(w.bus, Changed(nodeId))
      && (second in Bus.Deliveries(w.bus, SyncAck(nodeId)) <==> w.wait.resolved.None?)
  {
    var w := RunOnBus(l, nodeId, recheck, Started(l, nodeId, recheck, b), acts);
    var first, second := OnChanged(b, nodeId, recheck), OnSyncAck(b, nodeId, recheck);
    StartListens<V>(l, b, nodeId, recheck);
    RunListens(l, nodeId, Started(l, nodeId, recheck, b), first, second, recheck, acts);
    NodeTopics(nodeId);
    Bus.LiteralHearsItself(first);
    Bus.LiteralHearsItself(second);
    Bus.DeliveriesElements(w.bus, Changed(nodeId), first);
    Bus.DeliveriesElements(w.bus, SyncAck(nodeId), second);
  }

  // ----- when nothing is left -----------------------------------------------------------------------------

  function OpsOf<V>(acts: seq<Act<V>>): seq<Bus.Op> {
    if acts == [] then [] else (if acts[0].OfBus? then [acts[0].op] else []) + OpsOf(acts[1..])
  }

  /** The bus around a whole `waitFor`: a first check that answers, or a Space without a bus, and
      nothing is registered at all. */
  function Around<V>(l: Limits, nodeId: string, recheck: Bus.Handler, bus: Option<Bus.Bus>, initial: Option<V>, acts: seq<Act<V>>)
    : Option<Bus.Bus>
  {
    match bus
    case None => None
    case Some(b) =>
      if initial.Some? then Some(Bus.Run(b, OpsOf(acts)))
      else Some(RunOnBus(l, nodeId, recheck, Started(l, nodeId, recheck, b), acts).bus)
  }

  ghost predicate Left(bus: Option<Bus.Bus>, recheck: Bus.Handler) {
    bus.Some? && exists x :: x in bus.value.live && x.handler == recheck
  }

  lemma {:induction false} OpsArePrivate<V>(acts: seq<Act<V>>, recheck: Bus.Handler)
    requires Private(acts, recheck)
    ensures forall op :: op in OpsOf(acts) ==> op.handler != recheck
    decreases |acts|
  {
    if acts != [] {
      assert acts[0] in acts && forall a :: a in acts[1..] ==> a in acts;
      OpsArePrivate(acts[1..], recheck);
    }
  }

  /** A wait leaves its callback on the bus exactly when there is one and the first check did not
      answer, however it ends. */
  lemma LeftExactly<V>(l: Limits, bus: Option<Bus.Bus>, initial: Option<V>, nodeId: string, recheck: Bus.Handler, acts: seq<Act<V>>)
    requires '*' !in nodeId && Private(acts, recheck)
    requires bus.Some? ==> Bus.Valid(bus.value) && Unknown(bus.value, recheck)
    ensures Left(Around(l, nodeId, recheck, bus, initial, acts), recheck) <==> bus.Some? && initial.None?
  {
    if bus.Some? {
      if initial.Some? {
        OpsArePrivate(acts, recheck);
        Dispatch.GoneStaysGone(bus.value, recheck, OpsOf(acts));
      } else {
        ListenersExactly(l, bus.value, nodeId, recheck, acts);
        var w := RunOnBus(l, nodeId, recheck, Started(l, nodeId, recheck, bus.value), acts);
        assert OnChanged(bus.value, nodeId, recheck) in w.bus.live;
      }
    }
  }

  // ----- the closure that holds this state ------------------------------------------------------------------

  class Waiter<V> {
    const limits: Limits
    const bus: Trie.EventBus
    const nodeId: string
    const recheck: Bus.Handler
    var resolved: Option<Outcome<V>>
    var settleArmed: bool         // settleTimer !== null
    var settleTimer: Option<int>
    var deadlineTimer: Option<int>
    ghost var model: Wait<V>

    ghost predicate Valid()
      reads this
    {
      && resolved == model.resolved && settleArmed == model.armed
      && settleTimer == model.settleDue && deadlineTimer == model.deadlineDue
      && Inv(limits, model)
    }

    ghost function Abstract(): World<V>
      reads this, bus
    {
      World(bus.model, model)
    }

    constructor (limits: Limits, bus: Trie.EventBus, nodeId: string, recheck: Bus.Handler)
      requires bus.Ok()
      modifies bus, bus.nodes.Values
      ensures Valid() && this.limits == limits && this.bus == bus && this.nodeId == nodeId && this.recheck == recheck
      ensures bus.Ok() && fresh(bus.nodes.Values - old(bus.nodes.Values))
      ensures Abstract() == Started(limits, nodeId, recheck, old(bus.model))
    {
      this.limits, this.bus, this.nodeId, this.recheck := limits, bus, nodeId, recheck;
      resolved, settleArmed, settleTimer := None, false, None;
      deadlineTimer := Some(limits.start + limits.timeout);
      model := Begun(limits);
      new;
      var _ := bus.On(Changed(nodeId), recheck, 0.0);
      var _ := bus.On(SyncAck(nodeId), recheck, 0.0);
    }

    /** `offChanged(); offSyncAck();` */
    method TakeOff()
      requires bus.Ok()
      modifies bus, bus.nodes.Values
      ensures bus.Ok() && bus.nodes == old(bus.nodes)
      ensures bus.model == TakenOff(old(bus.model), nodeId, recheck)
    {
      bus.Off(Changed(nodeId), recheck);
      bus.Off(SyncAck(nodeId), recheck);
    }

    /** `finish`: only the first call has an effect. It clears the timers and calls both
        unsubscribe functions. */
    method FinishWith(now: int, value: Option<V>)
      requires bus.Ok()
      modifies this`resolved, this`settleTimer, this`deadlineTimer, bus, bus.nodes.Values
      ensures bus.Ok() && bus.nodes == old(bus.nodes)
      ensures resolved == if old(resolved).Some? then old(resolved) else Some(Outcome(now, value))
      ensures old(resolved).Some? ==>
        settleTimer == old(settleTimer) && deadlineTimer == old(deadlineTimer) && bus.model == old(bus.model)
      ensures old(resolved).None? ==>
        settleTimer == None && deadlineTimer == None && bus.model == TakenOff(old(bus.model), nodeId, recheck)
    {
      if resolved.Some? {
        return;
      }
      TakeOff();
      Settle(Outcome(now, value));
    }

    method Settle(outcome: Outcome<V>)
      requires bus.Ok()
      modifies this`resolved, this`settleTimer, this`deadlineTimer
      ensures bus.Ok() && resolved == Some(outcome) && settleTimer == None && deadlineTimer == None
    {
      resolved := Some(outcome);
      settleTimer, deadlineTimer := None, None;
    }

    /** `recheck` up to its await, called for a change, an ack, or at the start: once the wait has
        resolved it returns at once. */
    method BeginRecheck() returns (checks: bool)
      requires Valid()
      modifies this`model
      ensures Valid() && model == BoundedWait.Step(limits, old(model), Notify) && checks == resolved.None?
    {
      StepKeepsInv(limits, model, Notify);
      model := BoundedWait.Step(limits, model, Notify);
      checks := resolved.None?;
    }

    /** `recheck` after its await. */
    method CheckReturned(now: int, value: Option<V>, synced: bool)
      requires Valid() && bus.Ok() && model.inFlight > 0 && now == model.now
      modifies this, bus, bus.nodes.Values
      ensures Valid() && bus.Ok()
      ensures Abstract() == StepOnBus(limits, nodeId, recheck, old(Abstract()), OfWait(Returned(value, synced)))
    {
      StepKeepsInv(limits, model, Returned(value, synced));
      if value.Some? {
        FinishWith(now, value);
      } else if synced && !settleArmed {
        settleArmed := true;
        settleTimer := Some(now + limits.settle);
      }
      model := BoundedWait.Step(limits, model, Returned(value, synced));
    }

    method OnSettle(now: int)
      requires Valid() && bus.Ok() && now == model.now && settleTimer.Some? && now >= settleTimer.value
      modifies this, bus, bus.nodes.Values
      ensures Valid() && bus.Ok()
      ensures Abstract() == StepOnBus(limits, nodeId, recheck, old(Abstract()), OfWait(SettleFires))
    {
      StepKeepsInv(limits, model, SettleFires);
      settleTimer := None;
      FinishWith(now, None);
      model := BoundedWait.Step(limits, model, SettleFires);
    }

    method OnDeadline(now: int)
      requires Valid() && bus.Ok() && now == model.now && deadlineTimer.Some? && now >= deadlineTimer.value
      modifies this, bus, bus.nodes.Values
      ensures Valid() && bus.Ok()
      ensures Abstract() == StepOnBus(limits, nodeId, recheck, old(Abstract()), OfWait(DeadlineFires))
    {
      StepKeepsInv(limits, model, DeadlineFires);
      deadlineTimer := None;
      FinishWith(now, None);
      model := BoundedWait.Step(limits, model, DeadlineFires);
    }
  }
}
