/** Dispatches that overlap: each has the list it matched when it began and goes through it one
    handler at a time, while others begin, go on, are stopped, and handlers come and go. An
    emit matches and calls its first handler in one step; it pauses only after a handler. */
module Overlap {
  import opened Sorting
  import opened Topics
  import opened BusSpec

  /** What `once` registered: the pattern and its private wrapper. */
  datatype Once = Once(pattern: string, wrapper: Handler)

  /** An `emit` in flight; `next` of its handlers have been called. */
  datatype Emit = Emit(list: seq<Entry>, next: nat, stopped: bool)

  /** `calls` are the emits that have called the wrapper, in order. */
  datatype World = World(bus: Bus, emits: seq<Emit>, calls: seq<nat>)

  datatype Act =
    | Begin(topic: string)  // matches, and takes the first turn at once
    | Turn(emit: nat)       // the emit goes on to its next handler
    | Halt(emit: nat)       // ctx.stop()
    | Change(op: Op)        // an `on` or `off` from anywhere

  function Matched(w: World, topic: string): World {
    w.(emits := w.emits + [Emit(Deliveries(w.bus, topic), 0, false)])
  }

  /** The emit calls its next handler, if there is one and it was not stopped. The wrapper's first
      act is its own `off`. */
  function TakeTurn(w: World, o: Once, d: nat): World {
    if d >= |w.emits| || w.emits[d].stopped || w.emits[d].next >= |w.emits[d].list| then w
    else
      var w' := w.(emits := w.emits[d := w.emits[d].(next := w.emits[d].next + 1)]);
      if w.emits[d].list[w.emits[d].next].handler != o.wrapper then w'
      else w'.(bus := ApplyOff(w.bus, o.pattern, o.wrapper), calls := w.calls + [d])
  }

  function Step(w: World, o: Once, a: Act): World {
    match a
    case Begin(topic) => if topic == "" then w else TakeTurn(Matched(w, topic), o, |w.emits|)
    case Turn(d) => TakeTurn(w, o, d)
    case Halt(d) => if d >= |w.emits| then w else w.(emits := w.emits[d := w.emits[d].(stopped := true)])
    case Change(op) => w.(bus := Apply(w.bus, op))
  }

  function Run(w: World, o: Once, acts: seq<Act>): World
    decreases |acts|
  {
    if acts == [] then w else Run(Step(w, o, acts[0]), o, acts[1..])
  }

  /** Nobody else registers the wrapper. */
  predicate Private(acts: seq<Act>, wrapper: Handler) {
    forall a :: a in acts && a.Change? && a.op.On? ==> a.op.handler != wrapper
  }

  /** The state right after `once`: the wrapper's entry is live, and no emit is in flight. */
  function Registered(b: Bus, o: Once, order: real): World {
    World(ApplyOn(b, o.pattern, o.wrapper, order), [], [])
  }

  // ----- the invariant ---------------------------------------------------------------------------------

  /** The wrapper's place in a list. */
  ghost predicate HasAt(list: seq<Entry>, i: int, wrapper: Handler) {
    0 <= i < |list| && list[i].handler == wrapper
  }

  ghost predicate EmitOk(w: World, d: int, wrapper: Handler) {
    0 <= d < |w.emits| ==>
      && w.emits[d].next <= |w.emits[d].list|
      && (forall i, j :: HasAt(w.emits[d].list, i, wrapper) && HasAt(w.emits[d].list, j, wrapper) ==> i == j)
      && (d in w.calls <==> exists i :: i < w.emits[d].next && HasAt(w.emits[d].list, i, wrapper))
  }

  /** The bus knows the wrapper by one entry at most, and by none once it was called. */
  ghost predicate SoleEntry(w: World, o: Once) {
    forall x :: x in w.bus.live && x.handler == o.wrapper ==>
      w.calls == [] && x.pattern == o.pattern && o.wrapper in w.bus.index && w.bus.index[o.wrapper] == x
  }

  ghost predicate CallsOk(w: World) {
    && (forall k :: 0 <= k < |w.calls| ==> w.calls[k] < |w.emits|)
    && (forall k, m :: 0 <= k < m < |w.calls| ==> w.calls[k] != w.calls[m])
  }

  ghost predicate Inv(w: World, o: Once) {
    && Valid(w.bus) && SoleEntry(w, o) && CallsOk(w)
    && forall d {:trigger EmitOk(w, d, o.wrapper)} :: EmitOk(w, d, o.wrapper)
  }

  lemma RegisteredIsOk(b: Bus, o: Once, order: real)
    requires Valid(b) && PatternOk(o.pattern) && forall x :: x in b.live ==> x.handler != o.wrapper
    ensures Inv(Registered(b, o, order), o)
  {
    ApplyKeepsValid(b, On(o.pattern, o.wrapper, order));
  }

  lemma MatchKeepsInv(w: World, o: Once, topic: string)
    requires Inv(w, o)
    ensures Inv(Matched(w, topic), o)
  {
    var list := Deliveries(w.bus, topic);
    var w' := Matched(w, topic);
    DeliveriesAreExact(w.bus, topic);
    forall d ensures EmitOk(w', d, o.wrapper) {
      assert EmitOk(w, d, o.wrapper);
      if d == |w.emits| {
        forall i, j | HasAt(w'.emits[d].list, i, o.wrapper) && HasAt(w'.emits[d].list, j, o.wrapper) ensures i == j {
          assert list[i] == list[j];
          assert ByOrder(list[i], list[j]) == 0;
        }
      }
    }
  }

  lemma ChangeKeepsSole(w: World, o: Once, op: Op)
    requires Inv(w, o) && !(op.On? && op.handler == o.wrapper)
    ensures SoleEntry(Step(w, o, Change(op)), o)
  {
    if op.Off? && Apply(w.bus, op) != w.bus {
      var r := w.bus.index[op.handler];
      RemoveFirstKeepsOrder(w.bus.live, r);
      RemovalIsExact(w.bus, r);
    }
  }

  lemma CallKeepsSole(w: World, o: Once)
    requires Valid(w.bus) && SoleEntry(w, o)
    ensures Valid(ApplyOff(w.bus, o.pattern, o.wrapper))
    ensures forall x :: x in ApplyOff(w.bus, o.pattern, o.wrapper).live ==> x.handler != o.wrapper
  {
    ApplyKeepsValid(w.bus, Off(o.pattern, o.wrapper));
    if o.wrapper in w.bus.index && w.bus.index[o.wrapper].pattern == o.pattern {
      var r := w.bus.index[o.wrapper];
      RemoveFirstKeepsOrder(w.bus.live, r);
      RemovalIsExact(w.bus, r);
    }
  }

  lemma TurnKeepsInv(w: World, o: Once, d: nat)
    requires Inv(w, o)
    ensures Inv(TakeTurn(w, o, d), o)
  {
    var w' := TakeTurn(w, o, d);
    if w' != w {
      var at := w.emits[d].next;
      assert EmitOk(w, d, o.wrapper);
      if HasAt(w.emits[d].list, at, o.wrapper) {
        CallKeepsSole(w, o);
        assert d !in w.calls;
      }
      forall c ensures EmitOk(w', c, o.wrapper) {
        assert EmitOk(w, c, o.wrapper);
        if c == d {
          assert HasAt(w'.emits[d].list, at, o.wrapper) <==> HasAt(w.emits[d].list, at, o.wrapper);
          assert forall i :: i < at && HasAt(w'.emits[d].list, i, o.wrapper) ==> HasAt(w.emits[d].list, i, o.wrapper);
        }
      }
    }
  }

  lemma StepKeepsInv(w: World, o: Once, a: Act)
    requires Inv(w, o) && !(a.Change? && a.op.On? && a.op.handler == o.wrapper)
    ensures Inv(Step(w, o, a), o)
  {
    match a
    case Begin(topic) =>
      if topic != "" {
        MatchKeepsInv(w, o, topic);
        TurnKeepsInv(Matched(w, topic), o, |w.emits|);
      }
    case Turn(d) => TurnKeepsInv(w, o, d);
    case Halt(d) =>
      forall c ensures EmitOk(Step(w, o, a), c, o.wrapper) {
        assert EmitOk(w, c, o.wrapper);
      }
    case Change(op) =>
      ChangeKeepsSole(w, o, op);
      ApplyKeepsValid(w.bus, op);
      forall c ensures EmitOk(Step(w, o, a), c, o.wrapper) {
        assert EmitOk(w, c, o.wrapper);
      }
  }

  lemma {:induction false} RunKeepsInv(w: World, o: Once, acts: seq<Act>)
    requires Inv(w, o) && Private(acts, o.wrapper)
    ensures Inv(Run(w, o, acts), o)
    decreases |acts|
  {
    if acts != [] {
      assert acts[0] in acts && forall a :: a in acts[1..] ==> a in acts;
      StepKeepsInv(w, o, acts[0]);
      RunKeepsInv(Step(w, o, acts[0]), o, acts[1..]);
    }
  }

  // ----- how far an emit gets --------------------------------------------------------------------------

  /** The turns that an emit is given before it is stopped. */
  function Turns(acts: seq<Act>, d: nat): nat {
    if acts == [] || acts[0] == Halt(d) then 0
    else (if acts[0] == Turn(d) then 1 else 0) + Turns(acts[1..], d)
  }

  function Least(a: nat, b: nat): nat { if a < b then a else b }

  /** An emit keeps its list and gets as far as its turns take it. */
  lemma {:induction false} Progress(w: World, o: Once, acts: seq<Act>, d: nat)
    requires d < |w.emits| && w.emits[d].next <= |w.emits[d].list|
    ensures var w' := Run(w, o, acts);
      && d < |w'.emits| && w'.emits[d].list == w.emits[d].list
      && w'.emits[d].next == if w.emits[d].stopped then w.emits[d].next
                             else Least(|w.emits[d].list|, w.emits[d].next + Turns(acts, d))
    decreases |acts|
  {
    if acts != [] {
      Progress(Step(w, o, acts[0]), o, acts[1..], d);
    }
  }

  lemma {:induction false} CallsGrow(w: World, o: Once, acts: seq<Act>)
    ensures w.calls <= Run(w, o, acts).calls
    ensures |w.emits| <= |Run(w, o, acts).emits|
    decreases |acts|
  {
    if acts != [] {
      CallsGrow(Step(w, o, acts[0]), o, acts[1..]);
    }
  }

  /** Once the wrapper was called, only emits that have begun before can still call it. */
  lemma {:induction false} NoNewCallers(w: World, o: Once, acts: seq<Act>, n: nat)
    requires Inv(w, o) && Private(acts, o.wrapper) && w.calls != [] && n <= |w.emits|
    requires forall d, i :: n <= d < |w.emits| ==> !HasAt(w.emits[d].list, i, o.wrapper)
    ensures forall d :: d in Run(w, o, acts).calls ==> d in w.calls || d < n
    decreases |acts|
  {
    if acts != [] {
      var w' := Step(w, o, acts[0]);
      assert acts[0] in acts && forall a :: a in acts[1..] ==> a in acts;
      StepKeepsInv(w, o, acts[0]);
      if acts[0].Begin? && acts[0].topic != "" {
        DeliveriesAreExact(w.bus, acts[0].topic);
      }
      if w'.calls != w.calls && acts[0].Turn? {
        assert HasAt(w.emits[acts[0].emit].list, w.emits[acts[0].emit].next, o.wrapper);
      }
      NoNewCallers(w', o, acts[1..], n);
    }
  }

  // ----- called more than once ---------------------------------------------------------------------------

  /** The wrapper is called for the first time by the act number `k`. */
  ghost predicate FirstCall(w: World, o: Once, acts: seq<Act>, k: int) {
    && 0 <= k < |acts|
    && Run(w, o, acts[..k]).calls == [] && Step(Run(w, o, acts[..k]), o, acts[k]).calls != []
  }

  /** Another emit in flight has the wrapper ahead of it, and what comes takes it there before it
      is stopped. */
  ghost predicate ReachesToo(w: World, first: Act, d: int, i: int, after: seq<Act>, wrapper: Handler) {
    && 0 <= d < |w.emits| && d != Caller(w, first) && !w.emits[d].stopped
    && HasAt(w.emits[d].list, i, wrapper) && w.emits[d].next <= i < w.emits[d].next + Turns(after, d)
  }

  ghost predicate SecondCall(w: World, o: Once, acts: seq<Act>, k: int, d: int, i: int) {
    FirstCall(w, o, acts, k) && ReachesToo(Run(w, o, acts[..k]), acts[k], d, i, acts[k + 1..], o.wrapper)
  }

  lemma {:induction false} RunOfConcatenation(w: World, o: Once, a: seq<Act>, b: seq<Act>)
    ensures Run(w, o, a + b) == Run(Run(w, o, a), o, b)
    decreases |a|
  {
    if a == [] {
      assert a + b == b;
    } else {
      assert (a + b)[1..] == a[1..] + b;
      RunOfConcatenation(Step(w, o, a[0]), o, a[1..], b);
    }
  }

  lemma {:induction false} FindFirstCall(w: World, o: Once, acts: seq<Act>) returns (k: nat)
    requires w.calls == [] && Run(w, o, acts).calls != []
    ensures FirstCall(w, o, acts, k)
    decreases |acts|
  {
    var w' := Step(w, o, acts[0]);
    if w'.calls != [] {
      k := 0;
    } else {
      var m := FindFirstCall(w', o, acts[1..]);
      k := m + 1;
      assert acts[..k][1..] == acts[1..][..m];
    }
  }

  /** The emit that an act lets call a handler. */
  function Caller(w: World, a: Act): nat {
    if a.Turn? then a.emit else |w.emits|
  }

  lemma FirstCaller(w: World, o: Once, first: Act)
    requires w.calls == [] && Step(w, o, first).calls != []
    ensures (first.Turn? || first.Begin?) && Step(w, o, first).calls == [Caller(w, first)]
    ensures Caller(w, first) < |Step(w, o, first).emits|
    ensures forall d :: 0 <= d < |w.emits| && d != Caller(w, first) ==> Step(w, o, first).emits[d] == w.emits[d]
    ensures |Step(w, o, first).emits| <= |w.emits| + 1
  {
  }

  lemma ReachedIsCalled(w: World, o: Once, first: Act, after: seq<Act>, d: nat)
    requires var w' := Step(w, o, first);
      Inv(w', o) && Inv(Run(w', o, after), o) && d < |w.emits| <= |w'.emits| && w'.emits[d] == w.emits[d]
    requires EmitOk(w, d, o.wrapper) && d !in w.calls && d != Caller(w, first)
    ensures d in Run(Step(w, o, first), o, after).calls <==> exists i :: ReachesToo(w, first, d, i, after, o.wrapper)
  {
    var w' := Step(w, o, first);
    var end := Run(w', o, after);
    Progress(w', o, after, d);
    assert EmitOk(end, d, o.wrapper);
    if d in end.calls {
      var i :| i < end.emits[d].next && HasAt(w.emits[d].list, i, o.wrapper);
      assert ReachesToo(w, first, d, i, after, o.wrapper);
    }
    forall i | ReachesToo(w, first, d, i, after, o.wrapper) ensures d in end.calls {
      assert i < end.emits[d].next && HasAt(end.emits[d].list, i, o.wrapper);
    }
  }

  /** Which emits call the wrapper from the first call on: the one that makes it, and those that
      reach it too. */
  lemma LaterCallers(w: World, o: Once, first: Act, after: seq<Act>, d: nat)
    requires Inv(w, o) && Private(after, o.wrapper) && w.calls == [] && Step(w, o, first).calls != []
    ensures d != Caller(w, first) ==>
      (d in Run(Step(w, o, first), o, after).calls <==> exists i :: ReachesToo(w, first, d, i, after, o.wrapper))
  {
    var w' := Step(w, o, first);
    FirstCaller(w, o, first);
    StepKeepsInv(w, o, first);
    if d >= |w.emits| {
      NoNewCallers(w', o, after, |w'.emits|);
    } else if d != Caller(w, first) {
      RunKeepsInv(w', o, after);
      assert EmitOk(w, d, o.wrapper);
      ReachedIsCalled(w, o, first, after, d);
    }
  }

  /** The documented promise is that the handler fires once. Over every run after `once` it is
      called more than once exactly when, at its first call, another emit in flight has it still
      ahead and is given the turns to reach it before it is stopped. */
  lemma OnceRunsTwiceExactly(b: Bus, o: Once, order: real, acts: seq<Act>)
    requires Valid(b) && PatternOk(o.pattern) && forall x :: x in b.live ==> x.handler != o.wrapper
    requires Private(acts, o.wrapper)
    ensures var w := Registered(b, o, order);
      |Run(w, o, acts).calls| > 1 <==>
        exists k, d, i :: SecondCall(w, o, acts, k, d, i)
  {
    var w := Registered(b, o, order);
    var end := Run(w, o, acts);
    RegisteredIsOk(b, o, order);
    RunKeepsInv(w, o, acts);
    if |end.calls| > 1 {
      var k := FindFirstCall(w, o, acts);
      AtFirstCall(w, o, acts, k);
      var at := Run(w, o, acts[..k]);
      var d := if end.calls[0] == Caller(at, acts[k]) then end.calls[1] else end.calls[0];
      LaterCallers(at, o, acts[k], acts[k + 1..], d);
      var i :| ReachesToo(at, acts[k], d, i, acts[k + 1..], o.wrapper);
      assert SecondCall(w, o, acts, k, d, i);
    }
    forall k, d, i | SecondCall(w, o, acts, k, d, i) ensures |end.calls| > 1 {
      AtFirstCall(w, o, acts, k);
      FirstCaller(Run(w, o, acts[..k]), o, acts[k]);
      LaterCallers(Run(w, o, acts[..k]), o, acts[k], acts[k + 1..], d);
      CallsGrow(Step(Run(w, o, acts[..k]), o, acts[k]), o, acts[k + 1..]);
      assert end.calls[0] == Caller(Run(w, o, acts[..k]), acts[k]) && d in end.calls;
    }
  }

  lemma AtFirstCall(w: World, o: Once, acts: seq<Act>, k: nat)
    requires Inv(w, o) && Private(acts, o.wrapper) && FirstCall(w, o, acts, k)
    ensures Inv(Run(w, o, acts[..k]), o) && Private(acts[k + 1..], o.wrapper)
    ensures Run(w, o, acts) == Run(Step(Run(w, o, acts[..k]), o, acts[k]), o, acts[k + 1..])
  {
    assert forall a :: a in acts[..k] || a in acts[k + 1..] ==> a in acts;
    RunKeepsInv(w, o, acts[..k]);
    assert acts == acts[..k] + ([acts[k]] + acts[k + 1..]);
    assert ([acts[k]] + acts[k + 1..])[1..] == acts[k + 1..];
    RunOfConcatenation(w, o, acts[..k], [acts[k]] + acts[k + 1..]);
  }

  // ----- a run with two calls ----------------------------------------------------------------------------

  lemma PairIsSorted(g: Entry, e: Entry, topic: string)
    requires g.Hears(topic) && e.Hears(topic) && g.order < e.order
    ensures StableSort(Hearing([g, e], topic), ByOrder) == [g, e]
  {
    assert [g, e][..1] == [g] && [g][..0] == [];
    assert Hearing([g], topic) == Hearing([g][..0], topic) + [g] == [g];
    assert Hearing([g, e], topic) == Hearing([g, e][..1], topic) + [e] == [g, e];
    assert StableSort([g], ByOrder) == InsertStable(StableSort([g][..0], ByOrder), g, ByOrder) == [g];
    assert StableSort([g, e], ByOrder) == InsertStable(StableSort([g, e][..1], ByOrder), e, ByOrder);
  }

  lemma GateGoesFirst(topic: string, wrapper: Handler, gate: Handler)
    requires PatternOk(topic) && '*' !in topic && gate != wrapper
    ensures var b := ApplyOn(ApplyOn(EMPTY, topic, gate, -1.0), topic, wrapper, 0.0);
      Deliveries(b, topic) == [Entry(gate, -1.0, 0, topic), Entry(wrapper, 0.0, 1, topic)]
  {
    var g, e := Entry(gate, -1.0, 0, topic), Entry(wrapper, 0.0, 1, topic);
    var b := ApplyOn(ApplyOn(EMPTY, topic, gate, -1.0), topic, wrapper, 0.0);
    assert b.live == [g, e];
    LiteralHearsItself(g);
    LiteralHearsItself(e);
    PairIsSorted(g, e, topic);
  }

  /** A gate of lower order runs before the wrapper. Two emits of the topic both pause behind it,
      and both still have the wrapper ahead. */
  lemma OnceMayRunTwice(topic: string, wrapper: Handler, gate: Handler)
    requires PatternOk(topic) && '*' !in topic && gate != wrapper
    ensures var o := Once(topic, wrapper);
      var b := ApplyOn(EMPTY, topic, gate, -1.0);
      Run(Registered(b, o, 0.0), o, [Begin(topic), Begin(topic), Turn(0), Turn(1)]).calls == [0, 1]
  {
    var o := Once(topic, wrapper);
    var w := Registered(ApplyOn(EMPTY, topic, gate, -1.0), o, 0.0);
    var list := [Entry(gate, -1.0, 0, topic), Entry(wrapper, 0.0, 1, topic)];
    GateGoesFirst(topic, wrapper, gate);
    assert topic != "";
    var acts := [Begin(topic), Begin(topic), Turn(0), Turn(1)];
    assert acts[1..][1..] == [Turn(0), Turn(1)] && acts[1..][1..][1..] == [Turn(1)];
    var one := Step(w, o, acts[0]);
    assert one == World(w.bus, [Emit(list, 1, false)], []);
    var two := Step(one, o, acts[1]);
    assert two == World(w.bus, [Emit(list, 1, false), Emit(list, 1, false)], []);
    var three := Step(two, o, Turn(0));
    assert three.calls == [0] && three.emits[1] == Emit(list, 1, false);
    assert Step(three, o, Turn(1)).calls == [0, 1];
    assert Run(w, o, acts) == Run(two, o, [Turn(0), Turn(1)]) == Run(three, o, [Turn(1)]);
  }

  lemma SecondIsBehind(b: Bus, o: Once, order: real, acts: seq<Act>, k: int, d: int, i: int)
    requires Valid(b) && PatternOk(o.pattern) && forall x :: x in b.live ==> x.handler != o.wrapper
    requires Private(acts, o.wrapper) && SecondCall(Registered(b, o, order), o, acts, k, d, i)
    ensures var end := Run(Registered(b, o, order), o, acts);
      0 <= d < |end.emits| && HasAt(end.emits[d].list, i, o.wrapper) && i > 0
  {
    var w := Registered(b, o, order);
    var at := Run(w, o, acts[..k]);
    RegisteredIsOk(b, o, order);
    AtFirstCall(w, o, acts, k);
    BegunHasTurned(w, o, acts[..k], d);
    RunOfConcatenation(w, o, acts[..k], acts[k..]);
    assert acts == acts[..k] + acts[k..];
    assert EmitOk(at, d, o.wrapper);
    Progress(at, o, acts[k..], d);
  }

  /** The wrapper stands at the head of every list that names it. */
  ghost predicate AlwaysFirst(w: World, wrapper: Handler) {
    forall d, i :: 0 <= d < |w.emits| && HasAt(w.emits[d].list, i, wrapper) ==> i == 0
  }

  /** There it cannot happen: an emit calls its first handler as it matches, so whoever begins
      later does not find the wrapper any more. */
  lemma OnceAtHeadRunsOnce(b: Bus, o: Once, order: real, acts: seq<Act>)
    requires Valid(b) && PatternOk(o.pattern) && forall x :: x in b.live ==> x.handler != o.wrapper
    requires Private(acts, o.wrapper) && AlwaysFirst(Run(Registered(b, o, order), o, acts), o.wrapper)
    ensures |Run(Registered(b, o, order), o, acts).calls| <= 1
  {
    OnceRunsTwiceExactly(b, o, order, acts);
    forall k, d, i ensures !SecondCall(Registered(b, o, order), o, acts, k, d, i) {
      if SecondCall(Registered(b, o, order), o, acts, k, d, i) {
        SecondIsBehind(b, o, order, acts, k, d, i);
        assert false;
      }
    }
  }

  lemma {:induction false} BegunHasTurned(w: World, o: Once, acts: seq<Act>, d: int)
    requires forall e :: 0 <= e < |w.emits| ==> w.emits[e].next > 0 || w.emits[e].list == []
    ensures var w' := Run(w, o, acts); 0 <= d < |w'.emits| ==> w'.emits[d].next > 0 || w'.emits[d].list == []
    decreases |acts|
  {
    if acts != [] {
      BegunHasTurned(Step(w, o, acts[0]), o, acts[1..], d);
    }
  }
}
