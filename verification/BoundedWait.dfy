/** Waiting for a value that may never come: the event-driven form and the polling form of
    `waitFor`, and the one specification that both meet. With `V` the unit type this is
    also `waitForSync`, where null reads as false. */
module BoundedWait {
  import opened Wrappers

  /** One `checkFn` call that has returned: when, what, and whether the node was synced then. */
  datatype Check<V> = Check(at: int, value: Option<V>, synced: bool)

  datatype Limits = Limits(start: int, timeout: int, settle: int)

  datatype Outcome<V> = Outcome(at: int, value: Option<V>)

  ghost predicate AllEmpty<V>(checks: seq<Check<V>>) {
    forall c :: c in checks ==> c.value == None
  }

  /** A value comes from the check that just returned it; null comes only when every check
      was empty and either the deadline has passed or one of them came back empty on a
      synced node at least `settle` ago. */
  ghost predicate Legal<V>(l: Limits, checks: seq<Check<V>>, o: Outcome<V>) {
    match o.value
    case Some(v) =>
      && checks != [] && checks[|checks| - 1].value == Some(v) && o.at == checks[|checks| - 1].at
      && AllEmpty(checks[..|checks| - 1])
    case None =>
      && AllEmpty(checks)
      && (o.at >= l.start + l.timeout || exists c :: c in checks && c.synced && o.at - c.at >= l.settle)
  }

  // ----- the event-driven form ----------------------------------------------------------------

  /** `checks` are those that returned before the promise was resolved. `armed` says that
      `settleTimer` is no longer null; `settleDue` and `deadlineDue` are the timers that are
      still set. `onChanged` and `onSyncAck` say which of the two subscriptions are on the bus;
      `WaitOnBus.dfy` proves that this is where the bus has them. */
  datatype Wait<V> = Wait(
    now: int, resolved: Option<Outcome<V>>, onChanged: bool, onSyncAck: bool, armed: bool,
    settleDue: Option<int>, deadlineDue: Option<int>, inFlight: nat, checks: seq<Check<V>>)

  datatype Event<V> =
    | Tick(ms: nat)
    | Notify                                     // a `changed` or `sync-ack` event
    | Returned(value: Option<V>, synced: bool)   // a check in flight returns
    | SettleFires
    | DeadlineFires

  /** After the first check came back empty: both listeners and the deadline are set, and
      the first recheck is under way. */
  function Begun<V>(l: Limits): Wait<V> {
    Wait(l.start, None, true, true, false, None, Some(l.start + l.timeout), 1, [])
  }

  /** `finish`: of the two calls that take the one callback off the bus only the second has an
      effect. */
  function Finish<V>(w: Wait<V>, value: Option<V>): Wait<V> {
    if w.resolved.Some? then w
    else w.(resolved := Some(Outcome(w.now, value)), onSyncAck := false, settleDue := None, deadlineDue := None)
  }

  function Step<V>(l: Limits, w: Wait<V>, e: Event<V>): Wait<V> {
    match e
    case Tick(ms) => w.(now := w.now + ms)
    case Notify => if w.resolved.None? then w.(inFlight := w.inFlight + 1) else w
    case Returned(value, synced) =>
      if w.inFlight == 0 then w
      else
        var w' := w.(inFlight := w.inFlight - 1,
                     checks := if w.resolved.Some? then w.checks else w.checks + [Check(w.now, value, synced)]);
        if value.Some? then Finish(w', value)
        else if synced && !w.armed then w'.(armed := true, settleDue := Some(w.now + l.settle))
        else w'
    case SettleFires =>
      if w.settleDue.Some? && w.now >= w.settleDue.value then Finish(w.(settleDue := None), None) else w
    case DeadlineFires =>
      if w.deadlineDue.Some? && w.now >= w.deadlineDue.value then Finish(w.(deadlineDue := None), None) else w
  }

  function Run<V>(l: Limits, w: Wait<V>, events: seq<Event<V>>): Wait<V>
    decreases |events|
  {
    if events == [] then w else Run(l, Step(l, w, events[0]), events[1..])
  }

  ghost predicate SettledBy<V>(l: Limits, checks: seq<Check<V>>, due: int) {
    exists c :: c in checks && c.synced && due == c.at + l.settle
  }

  ghost predicate Inv<V>(l: Limits, w: Wait<V>) {
    && w.onChanged && (w.onSyncAck <==> w.resolved.None?)
    && if w.resolved.Some? then w.deadlineDue == None && Legal(l, w.checks, w.resolved.value)
    else
      && w.deadlineDue == Some(l.start + l.timeout)
      && AllEmpty(w.checks)
      && (w.armed <==> w.settleDue.Some?)
      && (w.armed ==> SettledBy(l, w.checks, w.settleDue.value))
  }

  lemma StepKeepsInv<V>(l: Limits, w: Wait<V>, e: Event<V>)
    requires Inv(l, w)
    ensures Inv(l, Step(l, w, e))
  {
    match e
    case Returned(value, synced) =>
      ReturnKeepsInv(l, w, value, synced);
    case SettleFires =>
      if w.armed && w.resolved.None? {
        var d :| d in w.checks && d.synced && w.settleDue.value == d.at + l.settle;
      }
    case _ =>
  }

  lemma ReturnKeepsInv<V>(l: Limits, w: Wait<V>, value: Option<V>, synced: bool)
    requires Inv(l, w)
    ensures Inv(l, Step(l, w, Returned(value, synced)))
  {
    if w.inFlight > 0 && w.resolved.None? {
      var w' := Step(l, w, Returned(value, synced));
      var c := Check(w.now, value, synced);
      assert w'.checks == w.checks + [c];
      assert w'.checks[..|w'.checks| - 1] == w.checks;
      if w.armed {
        var d :| d in w.checks && d.synced && w.settleDue.value == d.at + l.settle;
        assert d in w'.checks;
      }
      assert c in w'.checks;
    }
  }

  lemma {:induction false} RunKeepsInv<V>(l: Limits, w: Wait<V>, events: seq<Event<V>>)
    requires Inv(l, w)
    ensures Inv(l, Run(l, w, events))
    decreases |events|
  {
    if events != [] {
      StepKeepsInv(l, w, events[0]);
      RunKeepsInv(l, Step(l, w, events[0]), events[1..]);
    }
  }

  /** Every run, in every order of events, checks and timers: an outcome is a legal one. */
  lemma EveryOutcomeIsLegal<V>(l: Limits, events: seq<Event<V>>)
    ensures var w := Run(l, Begun(l), events);
      w.resolved.Some? ==> Legal(l, w.checks, w.resolved.value) && !w.onSyncAck && w.onChanged && w.deadlineDue == None
  {
    RunKeepsInv(l, Begun(l), events);
  }

  /** The promise is resolved at most once: later events change neither the outcome nor the
      checks it was based on. */
  lemma {:induction false} ResolvedOnce<V>(l: Limits, w: Wait<V>, events: seq<Event<V>>)
    requires w.resolved.Some?
    ensures var w' := Run(l, w, events); w'.resolved == w.resolved && w'.checks == w.checks
    decreases |events|
  {
    if events != [] {
      ResolvedOnce(l, Step(l, w, events[0]), events[1..]);
    }
  }

  /** What ends an open wait: a check that returns a value, with that value, or one of the two timers
      when it is due, with null. */
  lemma ResolvesExactly<V>(l: Limits, w: Wait<V>, e: Event<V>)
    requires Inv(l, w) && w.resolved.None?
    ensures var w' := Step(l, w, e);
      match e
      case Returned(value, _) =>
        w'.resolved == if w.inFlight > 0 && value.Some? then Some(Outcome(w.now, value)) else None
      case SettleFires =>
        w'.resolved == if w.settleDue.Some? && w.now >= w.settleDue.value then Some(Outcome(w.now, None)) else None
      case DeadlineFires =>
        w'.resolved == if w.now >= l.start + l.timeout then Some(Outcome(w.now, None)) else None
      case _ => w'.resolved == None
  {
  }

  /** Every change or ack of the node starts another check while the wait is open, and a value that
      check finds ends it; afterwards none is started. */
  lemma NotifiedWaitAnswers<V>(l: Limits, w: Wait<V>, value: V, synced: bool)
    requires Inv(l, w)
    ensures var w' := Step(l, w, Notify);
      && w'.inFlight == w.inFlight + (if w.resolved.None? then 1 else 0) && w'.resolved == w.resolved
      && (w.resolved.None? ==> Step(l, w', Returned(Some(value), synced)).resolved == Some(Outcome(w.now, Some(value))))
  {
  }

  ghost predicate FirstSyncedCheck<V>(checks: seq<Check<V>>, k: int) {
    0 <= k < |checks| && checks[k].synced && forall m :: 0 <= m < k ==> !checks[m].synced
  }

  /** When the settle timer of an open wait is due, from the checks so far. */
  function SettleDue<V>(l: Limits, checks: seq<Check<V>>): Option<int> {
    if checks == [] then None
    else
      var due, last := SettleDue(l, checks[..|checks| - 1]), checks[|checks| - 1];
      if due.None? && last.synced then Some(last.at + l.settle) else due
  }

  lemma {:induction false} SettleDueIsFirst<V>(l: Limits, checks: seq<Check<V>>)
    ensures SettleDue(l, checks).None? <==> forall k :: 0 <= k < |checks| ==> !checks[k].synced
    ensures forall k :: FirstSyncedCheck(checks, k) ==> SettleDue(l, checks) == Some(checks[k].at + l.settle)
  {
    if checks != [] {
      var n := |checks| - 1;
      var init := checks[..n];
      SettleDueIsFirst(l, init);
      assert forall k :: 0 <= k < n ==> init[k] == checks[k];
      forall k | FirstSyncedCheck(checks, k) ensures SettleDue(l, checks) == Some(checks[k].at + l.settle) {
        assert k < n ==> FirstSyncedCheck(init, k);
      }
    }
  }

  ghost predicate SettleOk<V>(l: Limits, w: Wait<V>) {
    w.resolved.None? ==> w.settleDue == SettleDue(l, w.checks) && (w.armed <==> w.settleDue.Some?)
  }

  lemma StepKeepsSettleOk<V>(l: Limits, w: Wait<V>, e: Event<V>)
    requires SettleOk(l, w)
    ensures SettleOk(l, Step(l, w, e))
  {
    if e.Returned? && w.inFlight > 0 && w.resolved.None? {
      var checks := w.checks + [Check(w.now, e.value, e.synced)];
      assert checks[..|checks| - 1] == w.checks;
    }
  }

  lemma {:induction false} RunKeepsSettleOk<V>(l: Limits, w: Wait<V>, events: seq<Event<V>>)
    requires SettleOk(l, w)
    ensures SettleOk(l, Run(l, w, events))
    decreases |events|
  {
    if events != [] {
      StepKeepsSettleOk(l, w, events[0]);
      RunKeepsSettleOk(l, Step(l, w, events[0]), events[1..]);
    }
  }

  /** Over every run the settle timer of an open wait is due a margin after the first check that
      came back from a synced node, and not set before there is one. */
  lemma SettleTimerExactly<V>(l: Limits, events: seq<Event<V>>)
    ensures var w := Run(l, Begun(l), events);
      w.resolved.None? ==>
        && (w.settleDue.None? <==> forall k :: 0 <= k < |w.checks| ==> !w.checks[k].synced)
        && forall k :: FirstSyncedCheck(w.checks, k) ==> w.settleDue == Some(w.checks[k].at + l.settle)
  {
    RunKeepsSettleOk(l, Begun(l), events);
    SettleDueIsFirst(l, Run(l, Begun<V>(l), events).checks);
  }

  /** It cannot be missed: once the deadline has come, its timer resolves an open wait. */
  lemma DeadlineResolves<V>(l: Limits, events: seq<Event<V>>)
    ensures var w := Run(l, Begun(l), events);
      w.now >= l.start + l.timeout ==> Step(l, w, DeadlineFires).resolved.Some?
  {
    RunKeepsInv(l, Begun(l), events);
  }

  // ----- what is left behind ------------------------------------------------------------------

  /** The step that resolves clears both timers and takes the `sync-ack` subscription off; the
      `changed` one stays. */
  lemma CleanOnResolution<V>(l: Limits, w: Wait<V>, e: Event<V>)
    requires Inv(l, w) && w.resolved.None? && Step(l, w, e).resolved.Some?
    ensures var w' := Step(l, w, e);
      !w'.onSyncAck && w'.onChanged && w'.settleDue == None && w'.deadlineDue == None
  {
  }

  /** Whether this run lets a check that was in flight come back empty on a synced node. */
  predicate ComesBackEmpty<V>(inFlight: nat, events: seq<Event<V>>)
    decreases |events|
  {
    events != [] &&
    match events[0]
    case Returned(value, synced) =>
      if inFlight == 0 then ComesBackEmpty(0, events[1..])
      else (value.None? && synced) || ComesBackEmpty(inFlight - 1, events[1..])
    case _ => ComesBackEmpty(inFlight, events[1..])
  }

  /** After `k` events the settle timer is set. */
  ghost predicate TimerSet<V>(l: Limits, w: Wait<V>, events: seq<Event<V>>, k: int) {
    0 <= k <= |events| && Run(l, w, events[..k]).settleDue.Some?
  }

  /** It does not stay clean: over every run after its resolution a wait with no timer left sets
      a settle timer exactly when it never had one and a check still in flight comes back empty
      on a synced node. */
  lemma {:induction false} LateTimerExactly<V>(l: Limits, w: Wait<V>, events: seq<Event<V>>)
    requires w.resolved.Some? && w.settleDue == None
    ensures (exists k :: TimerSet(l, w, events, k)) <==> !w.armed && ComesBackEmpty(w.inFlight, events)
    decreases |events|
  {
    if events == [] {
      assert forall k :: 0 <= k <= |events| ==> events[..k] == [];
    } else {
      var w' := Step(l, w, events[0]);
      forall k ensures TimerSet(l, w, events, k) <==> TimerSet(l, w', events[1..], k - 1) {
        if 1 <= k <= |events| {
          assert events[..k][1..] == events[1..][..k - 1];
        }
      }
      if w'.settleDue.Some? {
        assert TimerSet(l, w', events[1..], 0) && TimerSet(l, w, events, 1);
      } else {
        LateTimerExactly(l, w', events[1..]);
        forall m | TimerSet(l, w', events[1..], m) ensures TimerSet(l, w, events, m + 1) {
        }
      }
    }
  }

  /** So the deadline can pass while a check is in flight, and leave a timer behind. */
  lemma DeadlineLeavesTimer<V>(l: Limits)
    requires l.timeout >= 0
    ensures var w := Step(l, Step(l, Begun<V>(l), Tick(l.timeout)), DeadlineFires);
      var late := Step(l, w, Returned(None, true));
      && w.resolved == Some(Outcome(l.start + l.timeout, None)) && w.settleDue == None
      && late.settleDue == Some(l.start + l.timeout + l.settle)
  {
  }

  // ----- the polling form -----------------------------------------------------------------------

  /** One turn of the polling loop: the check, and the clock as it is read up to three times
      after it (for `syncedAt`, for the settle margin, for the deadline). */
  datatype Turn<V> = Turn(check: Check<V>, syncedAt: int, settleAt: int, deadlineAt: int)

  ghost predicate ClockRuns<V>(turns: seq<Turn<V>>) {
    && (forall t :: t in turns ==> t.check.at <= t.syncedAt <= t.settleAt <= t.deadlineAt)
    && (forall i, j :: 0 <= i < j < |turns| ==> turns[i].deadlineAt <= turns[j].check.at)
  }

  function Checks<V>(turns: seq<Turn<V>>): seq<Check<V>> {
    seq(|turns|, i requires 0 <= i < |turns| => turns[i].check)
  }

  ghost predicate FirstSynced<V>(turns: seq<Turn<V>>, i: nat, at: int) {
    exists k {:trigger turns[k]} ::
      0 <= k < i <= |turns| && turns[k].check.synced && turns[k].syncedAt == at
      && (forall m :: 0 <= m < k ==> !turns[m].check.synced)
  }

  lemma FirstSyncedExtends<V>(turns: seq<Turn<V>>, i: nat, at: int)
    requires i < |turns| && turns[i].check.synced
    requires FirstSynced(turns, i, at) || (at == turns[i].syncedAt && forall k :: 0 <= k < i ==> !turns[k].check.synced)
    ensures FirstSynced(turns, i + 1, at)
  {
    if !FirstSynced(turns, i, at) {
      assert turns[i].syncedAt == at;
    }
  }

  lemma SettledLegally<V>(l: Limits, turns: seq<Turn<V>>, i: nat, at: int)
    requires ClockRuns(turns) && i < |turns| && FirstSynced(turns, i + 1, at)
    requires turns[i].settleAt - at >= l.settle && AllEmpty(Checks(turns[..i + 1]))
    ensures Legal(l, Checks(turns[..i + 1]), Outcome(turns[i].settleAt, None))
  {
    var k :| 0 <= k < i + 1 && turns[k].check.synced && turns[k].syncedAt == at;
    assert turns[k] in turns;
    assert Checks(turns[..i + 1])[k] == turns[k].check;
  }

  /** After the first `n` turns the loop goes on: every check was empty, the deadline has not been
      seen, and no turn on a synced node has seen the settle margin over since one. */
  ghost predicate MustGoOn<V>(l: Limits, turns: seq<Turn<V>>, n: nat) {
    n <= |turns| && forall m :: 0 <= m < n ==> GoesOn(l, turns, m)
  }

  ghost predicate GoesOn<V>(l: Limits, turns: seq<Turn<V>>, m: int)
    requires 0 <= m < |turns|
  {
    && turns[m].check.value == None && turns[m].deadlineAt < l.start + l.timeout
    && (turns[m].check.synced ==>
          forall k :: 0 <= k <= m && turns[k].check.synced ==> turns[m].settleAt - turns[k].syncedAt < l.settle)
  }

  /** The margin counts from the first synced turn. */
  lemma MarginFromFirst<V>(l: Limits, turns: seq<Turn<V>>, m: nat, at: int)
    requires ClockRuns(turns) && m < |turns| && turns[m].check.synced && FirstSynced(turns, m + 1, at)
    ensures turns[m].settleAt - at < l.settle <==>
      forall k :: 0 <= k <= m && turns[k].check.synced ==> turns[m].settleAt - turns[k].syncedAt < l.settle
  {
    var first :| 0 <= first < m + 1 && turns[first].check.synced && turns[first].syncedAt == at
      && forall k :: 0 <= k < first ==> !turns[k].check.synced;
    forall k | first < k <= m ensures turns[first].syncedAt <= turns[k].syncedAt {
      assert turns[first] in turns && turns[k] in turns;
    }
  }

  /** `waitForByPolling` over the turns the environment gives it; it is still waiting when
      they run out. It meets the same specification, and goes on exactly while it must: it ends in
      the first turn that does not let it go on, at the time of that turn. */
  method Poll<V>(l: Limits, turns: seq<Turn<V>>) returns (outcome: Option<Outcome<V>>, used: nat)
    requires ClockRuns(turns)
    ensures used <= |turns|
    ensures outcome.Some? ==>
      && Legal(l, Checks(turns[..used]), outcome.value)
      && used > 0 && MustGoOn(l, turns, used - 1) && !GoesOn(l, turns, used - 1)
      && (outcome.value.value == None ==>
            outcome.value.at == turns[used - 1].settleAt || outcome.value.at == turns[used - 1].deadlineAt)
    ensures outcome.None? ==> used == |turns| && MustGoOn(l, turns, used)
  {
    var syncedAt: Option<int> := None;
    var i := 0;
    while i < |turns|
      invariant 0 <= i <= |turns| && MustGoOn(l, turns, i)
      invariant syncedAt.None? ==> forall k :: 0 <= k < i ==> !turns[k].check.synced
      invariant syncedAt.Some? ==> FirstSynced(turns, i, syncedAt.value)
    {
      var turn := turns[i];
      if turn.check.value.Some? {
        ValueIsLegal(l, turns, i);
        return Some(Outcome(turn.check.at, turn.check.value)), i + 1;
      }
      if turn.check.synced {
        if syncedAt.None? {
          syncedAt := Some(turn.syncedAt);
        }
        FirstSyncedExtends(turns, i, syncedAt.value);
        MarginFromFirst(l, turns, i, syncedAt.value);
        if turn.settleAt - syncedAt.value >= l.settle {
          ChecksSoFar(l, turns, i);
          SettledLegally(l, turns, i, syncedAt.value);
          return Some(Outcome(turn.settleAt, None)), i + 1;
        }
      }
      if turn.deadlineAt >= l.start + l.timeout {
        DeadlineIsLegal(l, turns, i);
        return Some(Outcome(turn.deadlineAt, None)), i + 1;
      }
      i := i + 1;
    }
    return None, i;
  }

  lemma ChecksSoFar<V>(l: Limits, turns: seq<Turn<V>>, i: nat)
    requires i < |turns| && MustGoOn(l, turns, i)
    ensures var checks := Checks(turns[..i + 1]);
      && |checks| == i + 1 && checks[i] == turns[i].check && AllEmpty(checks[..i])
      && (turns[i].check.value.None? ==> AllEmpty(checks))
  {
    var checks := Checks(turns[..i + 1]);
    forall k | 0 <= k < i ensures checks[k].value == None {
      assert GoesOn(l, turns, k);
    }
  }

  lemma ValueIsLegal<V>(l: Limits, turns: seq<Turn<V>>, i: nat)
    requires i < |turns| && MustGoOn(l, turns, i) && turns[i].check.value.Some?
    ensures Legal(l, Checks(turns[..i + 1]), Outcome(turns[i].check.at, turns[i].check.value))
  {
    ChecksSoFar(l, turns, i);
  }

  lemma DeadlineIsLegal<V>(l: Limits, turns: seq<Turn<V>>, i: nat)
    requires i < |turns| && MustGoOn(l, turns, i) && turns[i].check.value.None?
    requires turns[i].deadlineAt >= l.start + l.timeout
    ensures Legal(l, Checks(turns[..i + 1]), Outcome(turns[i].deadlineAt, None))
  {
    ChecksSoFar(l, turns, i);
  }
}
