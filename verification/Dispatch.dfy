/** What the three emit modes promise about one delivery list, whatever the handlers do. */
module Dispatch {
  import opened Wrappers
  import opened BusSpec

  datatype Answer = Undefined | Single(item: nat) | Many(items: seq<nat>)

  datatype Outcome = Threw(error: nat) | Gave(answer: Answer)

  /** One call of a handler: the `on` and `off` calls that happen until the dispatch goes
      on, whether `ctx.stop()` has been called by then, and how the call ended. */
  datatype Reaction = Reaction(ops: seq<Op>, stops: bool, outcome: Outcome)

  type Script = (nat, Entry) -> Reaction

  datatype Failure = Failure(topic: string, error: nat)

  /** How many handlers of `list` an `emit` calls, given that it has called `i`. */
  function Served(list: seq<Entry>, script: Script, i: nat): (k: nat)
    requires i <= |list|
    ensures i <= k <= |list|
    decreases |list| - i
  {
    if i == |list| then i
    else if script(i, list[i]).stops then i + 1
    else Served(list, script, i + 1)
  }

  /** `emit` calls the shortest non-empty prefix that ends in a handler that stops it, and
      the whole list when no handler does. */
  lemma {:induction false} ServedIsFirstStop(list: seq<Entry>, script: Script, i: nat)
    requires i <= |list|
    ensures var k := Served(list, script, i);
      && (forall j :: i <= j < k - 1 ==> !script(j, list[j]).stops)
      && (k < |list| ==> k > i && script(k - 1, list[k - 1]).stops)
      && (i < |list| ==> k > i)
    decreases |list| - i
  {
    if i < |list| && !script(i, list[i]).stops {
      ServedIsFirstStop(list, script, i + 1);
    }
  }

  /** The bus after the first `k` handlers of `list` have done their part. */
  function After(b: Bus, list: seq<Entry>, script: Script, k: nat): Bus
    requires k <= |list|
  {
    if k == 0 then b else Run(After(b, list, script, k - 1), script(k - 1, list[k - 1]).ops)
  }

  /** One record for each throwing handler among the first `k`. */
  function FailuresOf(topic: string, list: seq<Entry>, script: Script, k: nat): seq<Failure>
    requires k <= |list|
  {
    if k == 0 then []
    else
      FailuresOf(topic, list, script, k - 1) +
      match script(k - 1, list[k - 1]).outcome
      case Threw(error) => [Failure(topic, error)]
      case Gave(_) => []
  }

  /** Handler `j` of the called ones threw, and `f` records it. */
  predicate Records(called: seq<Entry>, topic: string, script: Script, f: Failure, j: int) {
    && 0 <= j < |called| && script(j, called[j]).outcome.Threw?
    && f.topic == topic && f.error == script(j, called[j]).outcome.error
  }

  predicate Throws(called: seq<Entry>, script: Script, j: int) {
    0 <= j < |called| && script(j, called[j]).outcome.Threw?
  }

  /** These failures are one for each of the called handlers that threw, in the order of the calls;
      `at` names the calls. */
  ghost predicate RecordsAt(called: seq<Entry>, topic: string, script: Script, failures: seq<Failure>, at: seq<nat>) {
    && |at| == |failures|
    && (forall m, n :: 0 <= m < n < |at| ==> at[m] < at[n])
    && (forall m :: 0 <= m < |at| ==> Records(called, topic, script, failures[m], at[m]))
    && (forall j :: Throws(called, script, j) ==> j in at)
  }

  ghost predicate RecordsThrows(called: seq<Entry>, topic: string, script: Script, failures: seq<Failure>) {
    exists at :: RecordsAt(called, topic, script, failures, at)
  }

  lemma OneMoreCall(called: seq<Entry>, e: Entry, topic: string, script: Script, failures: seq<Failure>, at: seq<nat>)
    requires RecordsAt(called, topic, script, failures, at)
    ensures var k := |called|;
      match script(k, e).outcome
      case Threw(error) => RecordsAt(called + [e], topic, script, failures + [Failure(topic, error)], at + [k])
      case Gave(_) => RecordsAt(called + [e], topic, script, failures, at)
  {
    var k := |called|;
    var all := called + [e];
    forall j ensures Throws(all, script, j) <==> Throws(called, script, j) || (j == k && script(k, e).outcome.Threw?) {
    }
    forall f, j | Records(called, topic, script, f, j) ensures Records(all, topic, script, f, j) {
    }
    assert (at + [k])[|at|] == k;
    assert forall j :: j in at ==> j in at + [k];
  }

  /** No throw goes unrecorded and nothing else is recorded. */
  lemma {:induction false} FailuresAreExact(topic: string, list: seq<Entry>, script: Script, k: nat) returns (at: seq<nat>)
    requires k <= |list|
    ensures RecordsAt(list[..k], topic, script, FailuresOf(topic, list, script, k), at)
  {
    if k == 0 {
      at := [];
    } else {
      at := FailuresAreExact(topic, list, script, k - 1);
      OneMoreCall(list[..k - 1], list[k - 1], topic, script, FailuresOf(topic, list, script, k - 1), at);
      assert list[..k] == list[..k - 1] + [list[k - 1]];
      if script(k - 1, list[k - 1]).outcome.Threw? {
        at := at + [k - 1];
      }
    }
  }

  /** The result of an `emit` over `list`, on top of the failures the caller passed in. */
  ghost predicate Emitted(list: seq<Entry>, topic: string, script: Script, earlier: seq<Failure>,
                          called: seq<Entry>, failures: seq<Failure>, stopped: bool)
  {
    var k := Served(list, script, 0);
    && called == list[..k]
    && failures == earlier + FailuresOf(topic, list, script, k)
    && stopped == (k > 0 && script(k - 1, list[k - 1]).stops)
  }

  /** Who is called is a prefix of the list, which ends at the first handler that stops the emit and
      only there or with the list; the flag says whether one did. */
  lemma EmittedIsExact(list: seq<Entry>, topic: string, script: Script, earlier: seq<Failure>,
                       called: seq<Entry>, failures: seq<Failure>, stopped: bool)
    requires Emitted(list, topic, script, earlier, called, failures, stopped)
    ensures called <= list && (called == list || stopped)
    ensures forall j :: 0 <= j < |called| - 1 ==> !script(j, called[j]).stops
    ensures stopped <==> exists j :: 0 <= j < |called| && script(j, called[j]).stops
  {
    ServedIsFirstStop(list, script, 0);
  }

  /** `collect`: the answers in order, an array answer spread one level. */
  function AnswersOf(list: seq<Entry>, script: Script, k: nat): seq<nat>
    requires k <= |list|
  {
    if k == 0 then []
    else AnswersOf(list, script, k - 1) + Spread(script(k - 1, list[k - 1]).outcome)
  }

  function Spread(outcome: Outcome): seq<nat> {
    match outcome
    case Gave(Single(item)) => [item]
    case Gave(Many(items)) => items
    case _ => []
  }

  /** What a handler contributes to a `collect`: nothing when it throws or gives nothing, and an
      array answer element by element. */
  predicate Contributes(outcome: Outcome, piece: seq<nat>) {
    match outcome
    case Threw(_) => piece == []
    case Gave(Undefined) => piece == []
    case Gave(Single(item)) => |piece| == 1 && piece[0] == item
    case Gave(Many(items)) => piece == items
  }

  predicate PieceAt(list: seq<Entry>, script: Script, answers: seq<nat>, at: seq<nat>, j: int) {
    0 <= j < |list| && j + 1 < |at| && at[j] <= at[j + 1] <= |answers|
    && Contributes(script(j, list[j]).outcome, answers[at[j]..at[j + 1]])
  }

  /** Cut at these places the answers are the handlers' contributions, in order. */
  ghost predicate AnswersAt(list: seq<Entry>, script: Script, answers: seq<nat>, at: seq<nat>) {
    && |at| == |list| + 1 && at[0] == 0 && at[|list|] == |answers|
    && forall j :: 0 <= j < |list| ==> PieceAt(list, script, answers, at, j)
  }

  lemma {:induction false} AnswersAreExact(list: seq<Entry>, script: Script, k: nat) returns (at: seq<nat>)
    requires k <= |list|
    ensures AnswersAt(list[..k], script, AnswersOf(list, script, k), at)
  {
    if k == 0 {
      at := [0];
    } else {
      var before := AnswersAreExact(list, script, k - 1);
      var earlier, all := AnswersOf(list, script, k - 1), AnswersOf(list, script, k);
      at := before + [|all|];
      forall j | 0 <= j < k ensures PieceAt(list[..k], script, all, at, j) {
        if j < k - 1 {
          assert PieceAt(list[..k - 1], script, earlier, before, j);
          assert all[at[j]..at[j + 1]] == earlier[before[j]..before[j + 1]];
        } else {
          assert all[at[j]..at[j + 1]] == Spread(script(j, list[j]).outcome);
        }
      }
    }
  }

  /** The states of the bus between the calls: each handler's operations act on what the earlier
      ones left behind. */
  lemma {:induction false} AfterIsExact(b: Bus, list: seq<Entry>, script: Script, k: nat) returns (buses: seq<Bus>)
    requires k <= |list|
    ensures |buses| == k + 1 && buses[0] == b && buses[k] == After(b, list, script, k)
    ensures forall j :: 0 <= j < k ==> buses[j + 1] == Run(buses[j], script(j, list[j]).ops)
  {
    if k == 0 {
      buses := [b];
    } else {
      buses := AfterIsExact(b, list, script, k - 1);
      buses := buses + [After(b, list, script, k)];
    }
  }

  // ----- run ----------------------------------------------------------------------------

  type Payload = map<string, nat>

  datatype Patch = Broke(error: nat) | Unchanged | Merge(fields: Payload)

  datatype PatchReaction = PatchReaction(ops: seq<Op>, patch: Patch)

  type PatchScript = (nat, Entry, Payload) -> PatchReaction

  /** The left fold of the patches over `list[i..]`; a throwing handler ends it. */
  function Folded(list: seq<Entry>, script: PatchScript, i: nat, payload: Payload): Result<Payload, nat>
    requires i <= |list|
    decreases |list| - i
  {
    if i == |list| then Ok(payload)
    else match script(i, list[i], payload).patch
      case Broke(error) => Err(error)
      case Unchanged => Folded(list, script, i + 1, payload)
      case Merge(fields) => Folded(list, script, i + 1, payload + fields)
  }

  function AfterFold(b: Bus, list: seq<Entry>, script: PatchScript, i: nat, payload: Payload): Bus
    requires i <= |list|
    decreases |list| - i
  {
    if i == |list| then b
    else
      var reaction := script(i, list[i], payload);
      var b' := Run(b, reaction.ops);
      match reaction.patch
      case Broke(_) => b'
      case Unchanged => AfterFold(b', list, script, i + 1, payload)
      case Merge(fields) => AfterFold(b', list, script, i + 1, payload + fields)
  }

  /** One handler's patch: a named field takes the patch's value, every other one stays. */
  ghost predicate Patched(patch: Patch, before: Payload, after: Payload) {
    match patch
    case Broke(_) => false
    case Unchanged => after == before
    case Merge(fields) =>
      && after.Keys == before.Keys + fields.Keys
      && (forall f :: f in fields ==> after[f] == fields[f])
      && (forall f :: f in before && f !in fields ==> after[f] == before[f])
  }

  /** Handler `i + m` was shown `seen[m]`, and its patch made `seen[m + 1]` of it. */
  ghost predicate PatchedAt(list: seq<Entry>, script: PatchScript, i: nat, seen: seq<Payload>, m: int) {
    0 <= m < |seen| - 1 && i + m < |list| && Patched(script(i + m, list[i + m], seen[m]).patch, seen[m], seen[m + 1])
  }

  /** The operations that happened while handler `i + m` ran made `buses[m + 1]` of `buses[m]`. */
  ghost predicate ActedAt(list: seq<Entry>, script: PatchScript, i: nat, seen: seq<Payload>, buses: seq<Bus>, m: int) {
    0 <= m < |buses| - 1 && m < |seen| && i + m < |list|
    && buses[m + 1] == Run(buses[m], script(i + m, list[i + m], seen[m]).ops)
  }

  /** How it ends: with the last payload when all were called, or with the error of the one that was
      called last and threw. */
  ghost predicate Ends(list: seq<Entry>, script: PatchScript, last: nat, payload: Payload, result: Result<Payload, nat>) {
    match result
    case Ok(final) => last == |list| && final == payload
    case Err(error) => last < |list| && script(last, list[last], payload).patch == Broke(error)
  }

  /** What a `run` shows to its handlers: each sees the payload as patched by the ones before it, so
      a later patch overrides an earlier one. The operations of all that were called have acted, in
      order. */
  lemma {:induction false} FoldIsExact(b: Bus, list: seq<Entry>, script: PatchScript, i: nat, payload: Payload)
    returns (seen: seq<Payload>, buses: seq<Bus>)
    requires i <= |list|
    ensures seen != [] && seen[0] == payload
    ensures forall m :: 0 <= m < |seen| - 1 ==> PatchedAt(list, script, i, seen, m)
    ensures Ends(list, script, i + |seen| - 1, seen[|seen| - 1], Folded(list, script, i, payload))
    ensures |buses| == if Folded(list, script, i, payload).Ok? then |seen| else |seen| + 1
    ensures buses[0] == b && buses[|buses| - 1] == AfterFold(b, list, script, i, payload)
    ensures forall m :: 0 <= m < |buses| - 1 ==> ActedAt(list, script, i, seen, buses, m)
    decreases |list| - i
  {
    if i == |list| {
      seen, buses := [payload], [b];
    } else {
      var reaction := script(i, list[i], payload);
      var b' := Run(b, reaction.ops);
      if reaction.patch.Broke? {
        seen, buses := [payload], [b, b'];
      } else {
        var next := if reaction.patch.Merge? then payload + reaction.patch.fields else payload;
        var seen', buses' := FoldIsExact(b', list, script, i + 1, next);
        seen, buses := [payload] + seen', [b] + buses';
        forall m | 0 <= m < |seen| - 1 ensures PatchedAt(list, script, i, seen, m) {
          assert m > 0 ==> PatchedAt(list, script, i + 1, seen', m - 1);
        }
        forall m | 0 <= m < |buses| - 1 ensures ActedAt(list, script, i, seen, buses, m) {
          assert m > 0 ==> ActedAt(list, script, i + 1, seen', buses', m - 1);
        }
      }
    }
  }

  lemma {:induction false} RunOfConcatenation(b: Bus, a: seq<Op>, c: seq<Op>)
    ensures Run(b, a + c) == Run(Run(b, a), c)
    decreases |a|
  {
    if a == [] {
      assert a + c == c;
    } else {
      assert (a + c)[1..] == a[1..] + c;
      RunOfConcatenation(Apply(b, a[0]), a[1..], c);
    }
  }

  // ----- once ---------------------------------------------------------------------------

  /** No operation registers this handler; true of the private wrapper that `once` makes. */
  predicate NeverRegisters(ops: seq<Op>, handler: Handler) {
    forall op :: op in ops ==> !(op.On? && op.handler == handler)
  }

  lemma {:induction false} GoneStaysGone(b: Bus, handler: Handler, ops: seq<Op>)
    requires Valid(b) && NeverRegisters(ops, handler)
    requires forall e :: e in b.live ==> e.handler != handler
    ensures forall e :: e in Run(b, ops).live ==> e.handler != handler
    decreases |ops|
  {
    if ops != [] {
      ApplyKeepsValid(b, ops[0]);
      var b' := Apply(b, ops[0]);
      if ops[0].Off? && b' != b {
        RemoveFirstKeepsOrder(b.live, b.index[ops[0].handler]);
      }
      GoneStaysGone(b', handler, ops[1..]);
    }
  }

  /** Once a `once` wrapper has run (its first act is its own `off`), no delivery list made
      afterwards names it, whatever happens next. */
  lemma OnceIsSpent(b: Bus, pattern: string, wrapper: Handler, order: real, before: seq<Op>, after: seq<Op>, topic: string)
    requires Valid(b) && PatternOk(pattern) && wrapper !in b.index
    requires forall e :: e in b.live ==> e.handler != wrapper
    requires NeverRegisters(before, wrapper) && NeverRegisters(after, wrapper)
    ensures var s := Run(ApplyOn(b, pattern, wrapper, order), before);
      forall e :: e in Deliveries(Run(s, [Off(pattern, wrapper)] + after), topic) ==> e.handler != wrapper
  {
    var on := ApplyOn(b, pattern, wrapper, order);
    var e := Entry(wrapper, order, b.next, pattern);
    ApplyKeepsValid(b, On(pattern, wrapper, order));
    RunKeepsValid(on, before);
    var s := Run(on, before);
    SoleRegistration(on, e, before);
    var off := ApplyOff(s, pattern, wrapper);
    ApplyKeepsValid(s, Off(pattern, wrapper));
    if wrapper in s.index {
      RemovalIsExact(s, e);
      RemoveFirstKeepsOrder(s.live, e);
    }
    assert forall x :: x in off.live ==> x.handler != wrapper;
    GoneStaysGone(off, wrapper, after);
    assert ([Off(pattern, wrapper)] + after)[1..] == after;
    RunKeepsValid(off, after);
    DeliveriesAreExact(Run(off, after), topic);
  }

  lemma {:induction false} SoleRegistration(b: Bus, e: Entry, ops: seq<Op>)
    requires Valid(b) && NeverRegisters(ops, e.handler)
    requires forall x :: x in b.live && x.handler == e.handler ==> x == e && e.handler in b.index
    ensures forall x :: x in Run(b, ops).live && x.handler == e.handler ==> x == e && e.handler in Run(b, ops).index
    decreases |ops|
  {
    if ops != [] {
      var b' := Apply(b, ops[0]);
      ApplyKeepsValid(b, ops[0]);
      if ops[0].Off? && b' != b {
        var r := b.index[ops[0].handler];
        RemoveFirstKeepsOrder(b.live, r);
        RemovalIsExact(b, r);
      }
      SoleRegistration(b', e, ops[1..]);
    }
  }
}
