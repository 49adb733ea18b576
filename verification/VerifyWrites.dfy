/** Waiting until the relay has acknowledged a save: two counters, fed by the bus while the
    save runs, a settle margin, and a deadline. One step is the code between two awaits, so
    resolving the promise of the decision and going on behind it are two steps, and the bus
    may report writes and acks between them. */
module VerifyWrites {
  import opened Sequences

  datatype Phase =
    | Saving              // awaiting fn()
    | Settling            // the margin after it
    | Waiting             // onAcked is set
    | Resolved(ok: bool)  // the decision is made, its await has not gone on yet
    | Returned            // normally
    | Refused             // with the error that the relay did not confirm
    | Threw               // fn() threw

  /** `counted` are the writes reported for the node, `acks` the writes whose acks came in. */
  datatype State = State(phase: Phase, counted: seq<nat>, acks: seq<nat>)

  datatype Event =
    | Local(write: nat)
    | Ack(write: nat)
    | Saved
    | SaveThrows
    | MarginOver
    | Timeout
    | Resume      // the await of the decision goes on; the listeners come off

  predicate Ended(s: State) {
    s.phase.Returned? || s.phase.Refused? || s.phase.Threw?
  }

  function Step(s: State, e: Event): State {
    match e
    case Local(w) => if Ended(s) then s else s.(counted := s.counted + [w])
    case Ack(w) =>
      if Ended(s) then s
      else
        var s' := s.(acks := s.acks + [w]);
        if s.phase.Waiting? && |s'.acks| >= |s'.counted| then s'.(phase := Resolved(true)) else s'
    case Saved => if s.phase.Saving? then s.(phase := Settling) else s
    case SaveThrows => if s.phase.Saving? then s.(phase := Threw) else s
    case MarginOver =>
      if !s.phase.Settling? then s
      else if |s.acks| >= |s.counted| then s.(phase := Resolved(true))
      else s.(phase := Waiting)
    case Timeout => if s.phase.Waiting? then s.(phase := Resolved(false)) else s
    case Resume => if s.phase.Resolved? then s.(phase := if s.phase.ok then Returned else Refused) else s
  }

  function Run(s: State, events: seq<Event>): State {
    if events == [] then s else Step(Run(s, events[..|events| - 1]), events[|events| - 1])
  }

  const STARTED := State(Saving, [], [])

  /** Acks that confirm no counted write, or one that was confirmed before. */
  function Stray(s: State): int {
    |s.acks| - |Elements(s.acks) * Elements(s.counted)|
  }

  function Unconfirmed(s: State): set<nat> {
    Elements(s.counted) - Elements(s.acks)
  }

  // ----- the counters ----------------------------------------------------------------------------------

  lemma SplitSet(a: set<nat>, b: set<nat>)
    ensures |a| == |a * b| + |a - b|
  {
    assert a == (a * b) + (a - b);
  }

  /** What the two counters say about the writes: their difference is off by the stray acks. */
  lemma UnconfirmedIsStray(s: State)
    requires NoDuplicates(s.counted)
    ensures |Unconfirmed(s)| == Stray(s) + |s.counted| - |s.acks|
  {
    NoDuplicatesSize(s.counted);
    SplitSet(Elements(s.counted), Elements(s.acks));
    assert Elements(s.counted) * Elements(s.acks) == Elements(s.acks) * Elements(s.counted);
  }

  lemma NoneLeft(a: set<nat>, b: set<nat>)
    ensures a <= b <==> a - b == {}
  {
    assert forall x :: x in a && x !in b ==> x in a - b;
  }

  // ----- the moment of the decision --------------------------------------------------------------------

  predicate Decided(s: State) {
    s.phase.Resolved? || s.phase.Returned? || s.phase.Refused?
  }

  /** The state in which the decision was made. */
  function AtDecision(events: seq<Event>): State {
    if events == [] then STARTED
    else if Decided(Run(STARTED, events[..|events| - 1])) then AtDecision(events[..|events| - 1])
    else Run(STARTED, events)
  }

  /** What happened after it and before the listeners came off. */
  function Gap(events: seq<Event>): seq<Event> {
    if events == [] then []
    else
      var init := events[..|events| - 1];
      Gap(init) + if Run(STARTED, init).phase.Resolved? then [events[|events| - 1]] else []
  }

  function Reported(events: seq<Event>): set<nat> {
    set e | e in events && e.Local? :: e.write
  }

  function Confirmed(events: seq<Event>): set<nat> {
    set e | e in events && e.Ack? :: e.write
  }

  /** Every write is reported once, and every ack is for a write that was reported before and
      was not acked yet. */
  predicate Orderly(events: seq<Event>) {
    events == [] ||
    var init, last := events[..|events| - 1], events[|events| - 1];
    && Orderly(init)
    && (last.Local? ==> last.write !in Run(STARTED, init).counted)
    && (last.Ack? ==> last.write in Run(STARTED, init).counted && last.write !in Run(STARTED, init).acks)
  }

  lemma OrderlyStep(s: State, e: Event)
    requires NoDuplicates(s.counted) && NoDuplicates(s.acks) && Elements(s.acks) <= Elements(s.counted)
    requires e.Local? ==> e.write !in s.counted
    requires e.Ack? ==> e.write in s.counted && e.write !in s.acks
    ensures var s' := Step(s, e);
      NoDuplicates(s'.counted) && NoDuplicates(s'.acks) && Elements(s'.acks) <= Elements(s'.counted)
  {
    match e
    case Local(w) => OneMoreElement(s.counted, w);
    case Ack(w) => OneMoreElement(s.acks, w);
    case _ =>
  }

  /** In an orderly run no ack is ever stray. */
  lemma {:induction false} OrderlyCounts(events: seq<Event>)
    requires Orderly(events)
    ensures var s := Run(STARTED, events);
      NoDuplicates(s.counted) && NoDuplicates(s.acks) && Elements(s.acks) <= Elements(s.counted) && Stray(s) == 0
  {
    if events != [] {
      var init, last := events[..|events| - 1], events[|events| - 1];
      OrderlyCounts(init);
      OrderlyStep(Run(STARTED, init), last);
    }
    NeverStray(Run(STARTED, events));
  }

  lemma NeverStray(s: State)
    ensures NoDuplicates(s.acks) && Elements(s.acks) <= Elements(s.counted) ==> Stray(s) == 0
  {
    if NoDuplicates(s.acks) && Elements(s.acks) <= Elements(s.counted) {
      NoDuplicatesSize(s.acks);
      assert Elements(s.acks) * Elements(s.counted) == Elements(s.acks);
    }
  }

  /** The decision itself is right about the counters. */
  lemma {:induction false} DecisionCounts(events: seq<Event>)
    ensures var s, d := Run(STARTED, events), AtDecision(events);
      && (Decided(s) ==> d.phase.Resolved?)
      && (d.phase == Resolved(true) ==> |d.acks| >= |d.counted|)
      && (d.phase == Resolved(false) ==> |d.acks| < |d.counted|)
      && (s.phase.Waiting? ==> |s.acks| < |s.counted|)
      && (s.phase.Resolved? ==> s.phase == d.phase)
      && (s.phase.Returned? ==> d.phase == Resolved(true))
      && (s.phase.Refused? ==> d.phase == Resolved(false))
      && (!Decided(s) ==> d == s)
  {
    if events != [] {
      DecisionCounts(events[..|events| - 1]);
    }
  }

  /** After the decision the gap is all that is still counted. */
  lemma {:induction false} GapIsCounted(events: seq<Event>)
    ensures var s, d, gap := Run(STARTED, events), AtDecision(events), Gap(events);
      && Elements(s.counted) == Elements(d.counted) + Reported(gap)
      && Elements(s.acks) == Elements(d.acks) + Confirmed(gap)
      && (!Decided(s) ==> gap == [])
  {
    if events != [] {
      var init, last := events[..|events| - 1], events[|events| - 1];
      GapIsCounted(init);
      DecisionCounts(init);
      var before := Run(STARTED, init);
      if before.phase.Resolved? {
        assert Gap(events) == Gap(init) + [last];
        ResolvedCounts(before, last);
        GapGrows(Gap(init), last);
      }
    }
  }

  lemma ResolvedCounts(s: State, e: Event)
    requires s.phase.Resolved?
    ensures Elements(Step(s, e).counted) == Elements(s.counted) + if e.Local? then {e.write} else {}
    ensures Elements(Step(s, e).acks) == Elements(s.acks) + if e.Ack? then {e.write} else {}
    ensures Decided(Step(s, e))
  {
    if e.Local? || e.Ack? {
      OneMoreElement(s.counted, e.write);
      OneMoreElement(s.acks, e.write);
    }
  }

  lemma GapGrows(gap: seq<Event>, e: Event)
    ensures Reported(gap + [e]) == Reported(gap) + if e.Local? then {e.write} else {}
    ensures Confirmed(gap + [e]) == Confirmed(gap) + if e.Ack? then {e.write} else {}
  {
    assert forall x :: x in gap + [e] <==> x in gap || x == e;
  }

  // ----- the law ---------------------------------------------------------------------------------------

  /** When the decision is for the save, every write counted so far has been confirmed; when it
      is against it, one is missing. What is unconfirmed at the end are those and the writes
      reported in the gap, without the ones confirmed there. */
  lemma UnconfirmedExactly(events: seq<Event>)
    requires Orderly(events)
    ensures var s, d, gap := Run(STARTED, events), AtDecision(events), Gap(events);
      && (Decided(s) ==> (d.phase == Resolved(true) <==> Unconfirmed(d) == {}))
      && Unconfirmed(s) == (Unconfirmed(d) + Reported(gap)) - Confirmed(gap)
  {
    GapIsCounted(events);
    DecisionCounts(events);
    DecisionIsOrderly(events);
    var s, d, gap := Run(STARTED, events), AtDecision(events), Gap(events);
    UnconfirmedIsStray(d);
    ReportedIsNew(events);
    assert |Unconfirmed(d)| == 0 <==> Unconfirmed(d) == {};
  }

  /** In any run, stray acks or not: a decision for the save leaves at most as many writes
      unconfirmed as stray acks have come in, and exactly as many as they outnumber the
      surplus of acks. (Each write is reported once.) */
  lemma DecisionAtMostStray(events: seq<Event>)
    requires NoDuplicates(AtDecision(events).counted)
    ensures var d := AtDecision(events);
      Decided(Run(STARTED, events)) && d.phase == Resolved(true) ==>
        |Unconfirmed(d)| == Stray(d) - (|d.acks| - |d.counted|) <= Stray(d)
  {
    UnconfirmedIsStray(AtDecision(events));
    DecisionCounts(events);
  }

  lemma {:induction false} DecisionIsOrderly(events: seq<Event>)
    requires Orderly(events)
    ensures var d := AtDecision(events);
      NoDuplicates(d.counted) && Elements(d.acks) <= Elements(d.counted) && Stray(d) == 0
  {
    if events != [] {
      OrderlyCounts(events);
      DecisionIsOrderly(events[..|events| - 1]);
    }
  }

  lemma {:induction false} ReportedIsNew(events: seq<Event>)
    requires Orderly(events)
    ensures Reported(Gap(events)) !! Elements(AtDecision(events).counted)
  {
    if events != [] {
      var init, last := events[..|events| - 1], events[|events| - 1];
      ReportedIsNew(init);
      GapIsCounted(init);
      if Run(STARTED, init).phase.Resolved? {
        assert Gap(events) == Gap(init) + [last];
        GapGrows(Gap(init), last);
      } else {
        DecisionCounts(init);
      }
    }
  }

  /** A normal return means that every counted write has been confirmed, exactly when each one
      reported between the decision and the return was confirmed there too. */
  lemma ReturnMeansConfirmedExactly(events: seq<Event>)
    requires Orderly(events)
    ensures var s := Run(STARTED, events);
      s.phase.Returned? ==>
        (Elements(s.counted) <= Elements(s.acks) <==> Reported(Gap(events)) <= Confirmed(Gap(events)))
  {
    var s, gap := Run(STARTED, events), Gap(events);
    UnconfirmedExactly(events);
    DecisionCounts(events);
    NoneLeft(Elements(s.counted), Elements(s.acks));
    NoneLeft(Unconfirmed(AtDecision(events)) + Reported(gap), Confirmed(gap));
  }

  /** A refusal is right at the deadline; at the return it is wrong exactly when everything
      that was missing or reported since was confirmed in the gap. */
  lemma RefusalIsStaleExactly(events: seq<Event>)
    requires Orderly(events)
    ensures var s, d, gap := Run(STARTED, events), AtDecision(events), Gap(events);
      s.phase.Refused? ==>
        && Unconfirmed(d) != {}
        && (Elements(s.counted) <= Elements(s.acks) <==> Unconfirmed(d) + Reported(gap) <= Confirmed(gap))
  {
    var s, d, gap := Run(STARTED, events), AtDecision(events), Gap(events);
    UnconfirmedExactly(events);
    DecisionCounts(events);
    NoneLeft(Elements(s.counted), Elements(s.acks));
    NoneLeft(Unconfirmed(d) + Reported(gap), Confirmed(gap));
  }

  lemma OneMore(events: seq<Event>, e: Event)
    ensures var s := Run(STARTED, events);
      && Run(STARTED, events + [e]) == Step(s, e)
      && (Orderly(events + [e]) <==>
            && Orderly(events)
            && (e.Local? ==> e.write !in s.counted)
            && (e.Ack? ==> e.write in s.counted && e.write !in s.acks))
  {
    assert (events + [e])[..|events|] == events;
  }

  /** An orderly run that returns normally with a write unconfirmed: the last missing ack
      settles the promise, and another write is reported before the function goes on. */
  lemma GapLosesAWrite() returns (events: seq<Event>)
    ensures events == [Local(1)] + [Saved] + [MarginOver] + [Ack(1)] + [Local(2)] + [Resume]
    ensures Orderly(events) && Run(STARTED, events) == State(Returned, [1, 2], [1])
    ensures Stray(Run(STARTED, events)) == 0
  {
    events := [Local(1)];
    OneMore([], Local(1));
    assert [] + [Local(1)] == events;
    OneMore(events, Saved);
    events := events + [Saved];
    OneMore(events, MarginOver);
    events := events + [MarginOver];
    OneMore(events, Ack(1));
    events := events + [Ack(1)];
    assert Run(STARTED, events) == State(Resolved(true), [1], [1]);
    OneMore(events, Local(2));
    events := events + [Local(2)];
    OneMore(events, Resume);
    events := events + [Resume];
    OrderlyCounts(events);
  }

  /** An orderly run of the machine that is refused with every write confirmed: the ack comes in
      after the deadline has settled the promise. (A host that drains its microtasks right after a
      timer callback leaves no room for it.) */
  lemma GapMissesAnAck() returns (events: seq<Event>)
    ensures events == [Local(1)] + [Saved] + [MarginOver] + [Timeout] + [Ack(1)] + [Resume]
    ensures Orderly(events) && Run(STARTED, events) == State(Refused, [1], [1])
  {
    events := [Local(1)];
    OneMore([], Local(1));
    assert [] + [Local(1)] == events;
    OneMore(events, Saved);
    events := events + [Saved];
    OneMore(events, MarginOver);
    events := events + [MarginOver];
    OneMore(events, Timeout);
    events := events + [Timeout];
    OneMore(events, Ack(1));
    events := events + [Ack(1)];
    OneMore(events, Resume);
    events := events + [Resume];
  }

  /** One stray ack is enough to return with a write unconfirmed. */
  lemma StrayAckReturnsEarly(mine: nat, other: nat) returns (events: seq<Event>)
    requires mine != other
    ensures events == [Local(mine)] + [Ack(other)] + [Saved] + [MarginOver] + [Resume]
    ensures var s := Run(STARTED, events);
      s == State(Returned, [mine], [other]) && Unconfirmed(s) == {mine} && Stray(s) == 1
  {
    events := [Local(mine)];
    OneMore([], Local(mine));
    assert [] + [Local(mine)] == events;
    OneMore(events, Ack(other));
    events := events + [Ack(other)];
    OneMore(events, Saved);
    events := events + [Saved];
    OneMore(events, MarginOver);
    events := events + [MarginOver];
    OneMore(events, Resume);
    events := events + [Resume];
    assert Elements([other]) * Elements([mine]) == {};
  }

  /** A throwing save ends it at once. It is refused only by the deadline's decision, made with acks missing, and whenever it has
      ended, by whichever exit, both listeners are off and nothing is counted any more. */
  lemma EndedIsFinal(s: State, e: Event)
    ensures Ended(s) ==> Step(s, e) == s
    ensures s.phase.Saving? ==> Step(s, SaveThrows).phase == Threw && Step(s, Saved).phase == Settling
    ensures Step(s, e).phase.Refused? && !Ended(s) ==> e == Resume && s.phase == Resolved(false)
    ensures Step(s, e).phase == Resolved(false) && s.phase != Resolved(false) ==> e == Timeout && s.phase.Waiting?
  {
  }

  // ----- the function's local state --------------------------------------------------------------------

  class Verification {
    var expected: nat
    var acked: nat
    var onAcked: bool        // set once the decision is awaited, together with the timer
    var resolved: bool       // the promise of the decision is settled ...
    var decision: bool       // ... with this value
    var listening: bool      // offLocal and offAck have not been called
    ghost var model: State

    ghost predicate Valid()
      reads this
    {
      && expected == |model.counted| && acked == |model.acks|
      && listening == !Ended(model)
      && (model.phase.Saving? || model.phase.Settling? ==> !onAcked)
      && (!Ended(model) ==> resolved == model.phase.Resolved? && (resolved ==> model.phase == Resolved(decision)))
      && (model.phase.Waiting? ==> onAcked)
    }

    constructor ()
      ensures Valid() && model == STARTED
    {
      expected, acked, model := 0, 0, STARTED;
      onAcked, resolved, decision, listening := false, false, false, true;
    }

    method OnLocal(write: nat)
      requires Valid() && listening
      modifies this
      ensures Valid() && model == Step(old(model), Local(write))
    {
      model := Step(model, Local(write));
      expected := expected + 1;
    }

    /** The listener stays on; only the promise may be settled. */
    method OnAck(write: nat)
      requires Valid() && listening
      modifies this
      ensures Valid() && model == Step(old(model), Ack(write)) && listening
      ensures resolved <==> old(resolved) || (old(model).phase.Waiting? && acked >= expected)
    {
      model := Step(model, Ack(write));
      acked := acked + 1;
      if onAcked && acked >= expected {
        ResolveWith(true);
      }
    }

    /** `resolve`: only the first call has an effect. */
    method ResolveWith(value: bool)
      modifies this`resolved, this`decision
      ensures resolved
      ensures decision == if old(resolved) then old(decision) else value
    {
      if !resolved {
        resolved, decision := true, value;
      }
    }

    method FinishSave(threw: bool)
      requires Valid() && model.phase.Saving?
      modifies this
      ensures Valid() && model == Step(old(model), if threw then SaveThrows else Saved)
    {
      model := Step(model, if threw then SaveThrows else Saved);
      if threw {
        TakeOff();
      }
    }

    /** The executor of the decision's promise, after the settle margin. */
    method Decide()
      requires Valid() && model.phase.Settling?
      modifies this
      ensures Valid() && model == Step(old(model), MarginOver) && listening
    {
      model := Step(model, MarginOver);
      if acked >= expected {
        ResolveWith(true);
      } else {
        onAcked := true;
      }
    }

    method OnTimeout()
      requires Valid() && onAcked && listening
      modifies this
      ensures Valid() && model == Step(old(model), Timeout) && listening
    {
      model := Step(model, Timeout);
      ResolveWith(false);
    }

    /** What follows the await of the decision, with the `finally` block. */
    method GoOn() returns (ok: bool)
      requires Valid() && listening && resolved
      modifies this
      ensures Valid() && model == Step(old(model), Resume) && !listening
      ensures ok <==> model.phase.Returned?
    {
      model := Step(model, Resume);
      ok := decision;
      TakeOff();
    }

    /** The `finally` block. */
    method TakeOff()
      modifies this`listening
      ensures !listening
    {
      listening := false;
    }
  }
}
