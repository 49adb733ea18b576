/** The live form of a View: recomputes start whenever a source or the query changes, they
    overlap, and a generation counter decides which one may write. One step is the code
    between two awaits. */
module LiveView {
  import opened Sequences
  import opened Wrappers
  import opened ViewPipeline

  /** A recompute in flight: what it has read from each source so far. */
  type Reads = seq<Option<seq<Item>>>

  /** `jobs` holds the recomputes in flight by generation. `applied` is the generation that
      wrote `current` last and `shown` the query it used; `missed` says that a source changed
      unobserved (after `close`) since the newest recompute started. */
  datatype View = View(
    sources: seq<seq<Item>>, query: string, generation: nat, current: seq<Item>,
    jobs: map<nat, Reads>, listeners: seq<nat>, calls: seq<nat>, closed: bool,
    applied: nat, shown: string, missed: bool)

  datatype Event =
    | Change(source: nat, items: seq<Item>)  // a source's list changes
    | SetQuery(text: string)
    | Read(gen: nat, source: nat)            // a recompute takes its snapshot of a source
    | Finish(gen: nat)                       // all its reads have resolved
    | Fail(gen: nat)                         // one of them has rejected
    | Observe(listener: nat)
    | Unobserve(listener: nat)
    | Close

  function NoReads(n: nat): Reads {
    seq(n, i => None)
  }

  predicate AllRead(taken: Reads) {
    forall i :: 0 <= i < |taken| ==> taken[i].Some?
  }

  function Values(taken: Reads): seq<seq<Item>>
    requires AllRead(taken)
  {
    seq(|taken|, i requires 0 <= i < |taken| => taken[i].value)
  }

  function Start(v: View): View {
    v.(generation := v.generation + 1, jobs := v.jobs[v.generation + 1 := NoReads(|v.sources|)], missed := false)
  }

  /** `recompute` after its taken: only the newest one writes and notifies. */
  function Settle(config: Config, v: View, gen: nat): View
    requires gen in v.jobs && AllRead(v.jobs[gen])
  {
    var done := v.(jobs := v.jobs - {gen});
    if gen != v.generation then done
    else done.(current := Batch(config, Values(v.jobs[gen]), v.query), calls := v.calls + v.listeners,
               applied := gen, shown := v.query)
  }

  function Without(s: seq<nat>, x: nat): seq<nat> {
    if s == [] then [] else (if s[0] == x then [] else [s[0]]) + Without(s[1..], x)
  }

  function Step(config: Config, v: View, e: Event): View {
    match e
    case Change(i, items) =>
      if i >= |v.sources| then v
      else
        var v' := v.(sources := v.sources[i := items]);
        if v.closed then v'.(missed := true) else Start(v')
    case SetQuery(text) => Start(v.(query := config.host.lower(config.host.trim(text))))
    case Read(gen, i) =>
      if gen in v.jobs && i < |v.jobs[gen]| && i < |v.sources| && v.jobs[gen][i].None?
      then v.(jobs := v.jobs[gen := v.jobs[gen][i := Some(v.sources[i])]])
      else v
    case Finish(gen) => if gen in v.jobs && AllRead(v.jobs[gen]) then Settle(config, v, gen) else v
    case Fail(gen) => v.(jobs := v.jobs - {gen})
    case Observe(l) => if l in v.listeners then v else v.(listeners := v.listeners + [l])
    case Unobserve(l) => v.(listeners := Without(v.listeners, l))
    case Close => if v.closed then v else v.(closed := true, listeners := [])
  }

  /** `openLiveView` up to its first await: nothing shown, the first recompute in flight. */
  function Opened(sources: seq<seq<Item>>): View {
    Start(View(sources, "", 0, [], map[], [], [], false, 0, "", false))
  }

  function Run(config: Config, v: View, events: seq<Event>): View
    decreases |events|
  {
    if events == [] then v else Run(config, Step(config, v, events[0]), events[1..])
  }

  // ----- the invariant --------------------------------------------------------------------

  ghost predicate JobOk(v: View, gen: nat) {
    gen in v.jobs ==> 1 <= gen <= v.generation && |v.jobs[gen]| == |v.sources|
  }

  /** What the newest recompute has read is still what the sources hold. */
  ghost predicate NewestIsFresh(v: View) {
    v.generation in v.jobs && |v.jobs[v.generation]| == |v.sources| ==>
      forall i :: 0 <= i < |v.sources| && v.jobs[v.generation][i].Some? ==> v.jobs[v.generation][i].value == v.sources[i]
  }

  ghost predicate Inv(config: Config, v: View) {
    && (forall gen {:trigger JobOk(v, gen)} :: JobOk(v, gen))
    && v.generation >= 1 && v.applied <= v.generation
    && (v.generation in v.jobs ==> v.applied < v.generation)
    && (!v.missed ==> NewestIsFresh(v))
    && (v.applied == v.generation && !v.missed ==> v.current == Batch(config, v.sources, v.query))
    && (v.missed ==> v.closed)
  }

  lemma StepKeepsInv(config: Config, v: View, e: Event)
    requires Inv(config, v)
    ensures Inv(config, Step(config, v, e))
  {
    var v' := Step(config, v, e);
    forall gen ensures JobOk(v', gen) {
      assert JobOk(v, gen);
    }
    if e.Finish? && v' != v && e.gen == v.generation {
      assert JobOk(v, e.gen);
      assert !v.missed ==> Values(v.jobs[e.gen]) == v.sources;
    }
  }

  lemma {:induction false} RunKeepsInv(config: Config, v: View, events: seq<Event>)
    requires Inv(config, v)
    ensures Inv(config, Run(config, v, events))
    decreases |events|
  {
    if events != [] {
      StepKeepsInv(config, v, events[0]);
      RunKeepsInv(config, Step(config, v, events[0]), events[1..]);
    }
  }

  lemma OpenedIsOk(config: Config, sources: seq<seq<Item>>)
    ensures Inv(config, Opened(sources))
  {
  }

  // ----- what every run promises ----------------------------------------------------------

  /** No recompute was dropped by a rejected read: the newest one is in flight or has written. */
  lemma {:induction false} NewestSurvives(config: Config, v: View, events: seq<Event>)
    requires v.generation in v.jobs || v.applied == v.generation
    requires forall e :: e in events ==> !e.Fail?
    ensures var w := Run(config, v, events); w.generation in w.jobs || w.applied == w.generation
    decreases |events|
  {
    if events != [] {
      assert forall e :: e in events[1..] ==> e in events;
      assert events[0] in events;
      NewestSurvives(config, Step(config, v, events[0]), events[1..]);
    }
  }

  /** In every interleaving, once nothing is in flight the View shows the batch result of the
      latest source states under the latest query - unless it was closed and a source has
      changed since. */
  lemma SettledIsBatch(config: Config, sources: seq<seq<Item>>, events: seq<Event>)
    requires forall e :: e in events ==> !e.Fail?
    ensures var w := Run(config, Opened(sources), events);
      w.jobs == map[] && !w.missed ==> w.current == Batch(config, w.sources, w.query)
  {
    OpenedIsOk(config, sources);
    RunKeepsInv(config, Opened(sources), events);
    NewestSurvives(config, Opened(sources), events);
  }

  /** With rejected reads the same holds exactly where it can be known: whenever the newest
      recompute is the one that wrote. */
  lemma NewestWriterIsBatch(config: Config, sources: seq<seq<Item>>, events: seq<Event>)
    ensures var w := Run(config, Opened(sources), events);
      w.applied == w.generation && !w.missed ==> w.current == Batch(config, w.sources, w.query)
  {
    OpenedIsOk(config, sources);
    RunKeepsInv(config, Opened(sources), events);
  }

  /** A superseded recompute writes nothing and notifies nobody; the newest one notifies
      every listener once. */
  lemma SupersededNeverWrites(config: Config, v: View, e: Event)
    ensures var w := Step(config, v, e);
      w.current != v.current || w.calls != v.calls || w.applied != v.applied ==>
        e == Finish(v.generation) && w.calls == v.calls + v.listeners && w.applied == v.generation
  {
  }

  /** Whether the last thing that happened to a listener was that it was put on. */
  predicate LastObserves(events: seq<Event>, listener: nat) {
    events != [] &&
    match events[|events| - 1]
    case Observe(l) => l == listener || LastObserves(events[..|events| - 1], listener)
    case Unobserve(l) => l != listener && LastObserves(events[..|events| - 1], listener)
    case _ => LastObserves(events[..|events| - 1], listener)
  }

  /** Before a View is closed a listener is on it, once, exactly when it was put on last and not
      taken off; closing takes all off. */
  lemma {:induction false} ListenersAreExact(config: Config, sources: seq<seq<Item>>, events: seq<Event>, listener: nat)
    requires Close !in events
    ensures var w := Run(config, Opened(sources), events);
      && !w.closed && NoDuplicates(w.listeners) && (listener in w.listeners <==> LastObserves(events, listener))
      && Step(config, w, Close).closed && Step(config, w, Close).listeners == []
  {
    var n := |events| - 1;
    if events != [] {
      assert events == events[..n] + [events[n]];
      ListenersAreExact(config, sources, events[..n], listener);
      RunAppend(config, Opened(sources), events[..n], events[n]);
      ListenerStep(config, Run(config, Opened(sources), events[..n]), events[n]);
    }
  }

  lemma ListenerStep(config: Config, v: View, e: Event)
    requires NoDuplicates(v.listeners) && e != Close
    ensures var v' := Step(config, v, e);
      && v'.closed == v.closed && NoDuplicates(v'.listeners)
      && forall l :: l in v'.listeners <==> e == Observe(l) || (l in v.listeners && e != Unobserve(l))
  {
    if e.Unobserve? {
      WithoutRemoves(v.listeners, e.listener);
    } else if e.Observe? && e.listener !in v.listeners {
      OneMoreElement(v.listeners, e.listener);
    }
  }

  lemma {:induction false} WithoutRemoves(s: seq<nat>, x: nat)
    ensures forall y :: y in Without(s, x) <==> y in s && y != x
    ensures NoDuplicates(s) ==> NoDuplicates(Without(s, x))
  {
    if s != [] {
      WithoutRemoves(s[1..], x);
      assert s == [s[0]] + s[1..];
      var rest := Without(s[1..], x);
      if s[0] != x && NoDuplicates(s) {
        assert NoDuplicates(s[1..]);
        assert forall i :: 0 <= i < |rest| ==> rest[i] in s[1..];
      }
    }
  }

  /** What is shown never goes back to an older recompute. */
  lemma {:induction false} AppliedGrows(config: Config, v: View, events: seq<Event>)
    requires Inv(config, v)
    ensures v.applied <= Run(config, v, events).applied
    ensures v.generation <= Run(config, v, events).generation
    decreases |events|
  {
    if events != [] {
      StepKeepsInv(config, v, events[0]);
      AppliedGrows(config, Step(config, v, events[0]), events[1..]);
    }
  }

  /** What starts a recompute, and what lets the newest one write. */
  predicate Starts(v: View, e: Event) {
    e.SetQuery? || (e.Change? && e.source < |v.sources| && !v.closed)
  }

  predicate Writes(v: View, e: Event) {
    e.Finish? && e.gen == v.generation && e.gen in v.jobs && AllRead(v.jobs[e.gen])
  }

  ghost predicate StartsAt(config: Config, v: View, events: seq<Event>, k: int) {
    0 <= k < |events| && Starts(Run(config, v, events[..k]), events[k])
  }

  ghost predicate WritesAt(config: Config, v: View, events: seq<Event>, k: int, g: nat) {
    0 <= k < |events| &&
    var w := Run(config, v, events[..k]);
    w.generation > g && Writes(w, events[k])
  }

  lemma {:induction false} GenerationStaysExactly(config: Config, v: View, events: seq<Event>)
    ensures v.generation <= Run(config, v, events).generation
    ensures Run(config, v, events).generation == v.generation <==> !exists k :: StartsAt(config, v, events, k)
    decreases |events|
  {
    if events != [] {
      var v' := Step(config, v, events[0]);
      GenerationStaysExactly(config, v', events[1..]);
      assert Starts(v, events[0]) <==> StartsAt(config, v, events, 0);
      forall k | 1 <= k < |events|
        ensures StartsAt(config, v, events, k) <==> StartsAt(config, v', events[1..], k - 1)
      {
        assert events[..k][1..] == events[1..][..k - 1];
      }
      forall m | StartsAt(config, v', events[1..], m) ensures StartsAt(config, v, events, m + 1) {
      }
    }
  }

  lemma {:induction false} WrittenAboveExactly(config: Config, v: View, events: seq<Event>, g: nat)
    requires Inv(config, v) && v.applied <= g
    ensures Run(config, v, events).applied > g <==> exists k :: WritesAt(config, v, events, k, g)
    decreases |events|
  {
    if events != [] {
      var v' := Step(config, v, events[0]);
      StepKeepsInv(config, v, events[0]);
      assert v.generation > g && Writes(v, events[0]) <==> WritesAt(config, v, events, 0, g);
      if v'.applied > g {
        AppliedGrows(config, v', events[1..]);
      } else {
        WrittenAboveExactly(config, v', events[1..], g);
        forall k | 1 <= k < |events|
          ensures WritesAt(config, v, events, k, g) <==> WritesAt(config, v', events[1..], k - 1, g)
        {
          assert events[..k][1..] == events[1..][..k - 1];
        }
        forall m | WritesAt(config, v', events[1..], m, g) ensures WritesAt(config, v, events, m + 1, g) {
        }
      }
    }
  }

  /** The promise that `setQuery` resolves only when `toArray` reflects the new query. As its
      recompute (generation `g`) finishes, that one or a newer one has written exactly when
      nothing has started another one in between, or one that was the newest has finished. */
  lemma SetQueryReflectsExactly(config: Config, v: View, text: string, between: seq<Event>)
    requires Inv(config, v)
    ensures var g := v.generation + 1;
      var asked := Step(config, v, SetQuery(text));
      var w := Run(config, asked, between);
      g in w.jobs && AllRead(w.jobs[g]) ==>
        (Step(config, w, Finish(g)).applied >= g
         <==> (!exists k :: StartsAt(config, asked, between, k)) || exists k :: WritesAt(config, asked, between, k, g))
  {
    var g := v.generation + 1;
    var asked := Step(config, v, SetQuery(text));
    StepKeepsInv(config, v, SetQuery(text));
    RunKeepsInv(config, asked, between);
    GenerationStaysExactly(config, asked, between);
    WrittenAboveExactly(config, asked, between, g);
    UnfinishedHasNotWritten(config, asked, g, between);
  }

  /** This state of a source has occurred in the run. */
  ghost predicate Seen(config: Config, v: View, events: seq<Event>, i: int, items: seq<Item>) {
    exists k :: SeenAfter(config, v, events, k, i, items)
  }

  ghost predicate SeenAfter(config: Config, v: View, events: seq<Event>, k: int, i: int, items: seq<Item>) {
    0 <= k <= |events| &&
    var sources := Run(config, v, events[..k]).sources;
    0 <= i < |sources| && sources[i] == items
  }

  lemma {:induction false} RunAppend(config: Config, v: View, events: seq<Event>, e: Event)
    ensures Run(config, v, events + [e]) == Step(config, Run(config, v, events), e)
    decreases |events|
  {
    if events != [] {
      assert (events + [e])[1..] == events[1..] + [e];
      RunAppend(config, Step(config, v, events[0]), events[1..], e);
    } else {
      assert (events + [e])[1..] == [];
    }
  }

  ghost predicate ReadsSeen(config: Config, v: View, events: seq<Event>, gen: nat) {
    var jobs := Run(config, v, events).jobs;
    gen in jobs ==> forall i :: 0 <= i < |jobs[gen]| && jobs[gen][i].Some? ==> Seen(config, v, events, i, jobs[gen][i].value)
  }

  lemma SeenStays(config: Config, v: View, events: seq<Event>, e: Event, i: int, items: seq<Item>)
    requires Seen(config, v, events, i, items)
    ensures Seen(config, v, events + [e], i, items)
  {
    var k :| SeenAfter(config, v, events, k, i, items);
    assert (events + [e])[..k] == events[..k];
    assert SeenAfter(config, v, events + [e], k, i, items);
  }

  lemma {:induction false} ReadsAreSeen(config: Config, v: View, events: seq<Event>, gen: nat)
    requires v.jobs == map[] || forall g :: g in v.jobs ==> forall i :: 0 <= i < |v.jobs[g]| ==> v.jobs[g][i].None?
    ensures ReadsSeen(config, v, events, gen)
    decreases |events|
  {
    if events != [] {
      var n := |events| - 1;
      var init, e := events[..n], events[n];
      assert events == init + [e];
      RunAppend(config, v, init, e);
      ReadsAreSeen(config, v, init, gen);
      var w, w' := Run(config, v, init), Run(config, v, events);
      if gen in w'.jobs {
        forall i | 0 <= i < |w'.jobs[gen]| && w'.jobs[gen][i].Some?
          ensures Seen(config, v, events, i, w'.jobs[gen][i].value)
        {
          if gen in w.jobs && i < |w.jobs[gen]| && w'.jobs[gen][i] == w.jobs[gen][i] {
            SeenStays(config, v, init, e, i, w.jobs[gen][i].value);
          } else {
            assert e == Read(gen, i) && events[..n] == init;
            assert SeenAfter(config, v, events, n, i, w'.jobs[gen][i].value);
          }
        }
      }
    }
  }

  /** What the View shows is the batch result, for the query it was written under, of a
      snapshot of states that the sources really had. */
  ghost predicate ShowsSeen(config: Config, v: View, events: seq<Event>, snapshot: seq<seq<Item>>) {
    var w := Run(config, v, events);
    && |snapshot| == |w.sources| && w.current == Batch(config, snapshot, w.shown)
    && forall i :: 0 <= i < |snapshot| ==> Seen(config, v, events, i, snapshot[i])
  }

  lemma WriteShowsSeen(config: Config, sources: seq<seq<Item>>, events: seq<Event>, e: Event)
    requires var w := Run(config, Opened(sources), events); Writes(w, e) && JobOk(w, e.gen)
    ensures var w := Run(config, Opened(sources), events);
      ShowsSeen(config, Opened(sources), events + [e], Values(w.jobs[e.gen]))
  {
    var w := Run(config, Opened(sources), events);
    RunAppend(config, Opened(sources), events, e);
    ReadsAreSeen(config, Opened(sources), events, e.gen);
    var snapshot := Values(w.jobs[e.gen]);
    forall i | 0 <= i < |snapshot| ensures Seen(config, Opened(sources), events + [e], i, snapshot[i]) {
      SeenStays(config, Opened(sources), events, e, i, snapshot[i]);
    }
  }

  lemma OthersKeepCurrent(config: Config, v: View, e: Event)
    requires !Writes(v, e)
    ensures var v' := Step(config, v, e);
      v'.current == v.current && v'.shown == v.shown && |v'.sources| == |v.sources|
  {
  }

  lemma OthersKeepShown(config: Config, v: View, events: seq<Event>, e: Event, snapshot: seq<seq<Item>>)
    requires !Writes(Run(config, v, events), e) && ShowsSeen(config, v, events, snapshot)
    ensures ShowsSeen(config, v, events + [e], snapshot)
  {
    var w, w' := Run(config, v, events), Run(config, v, events + [e]);
    assert w'.current == w.current && w'.shown == w.shown && |w'.sources| == |w.sources| by {
      RunAppend(config, v, events, e);
      OthersKeepCurrent(config, w, e);
    }
    forall i | 0 <= i < |snapshot| ensures Seen(config, v, events + [e], i, snapshot[i]) {
      assert Seen(config, v, events, i, snapshot[i]);
      SeenStays(config, v, events, e, i, snapshot[i]);
    }
  }

  /** So it is over every run, once something was written. */
  lemma {:induction false} ShownWasSeen(config: Config, sources: seq<seq<Item>>, events: seq<Event>)
    returns (snapshot: seq<seq<Item>>)
    ensures Run(config, Opened(sources), events).applied > 0 ==> ShowsSeen(config, Opened(sources), events, snapshot)
    decreases |events|
  {
    snapshot := [];
    if events != [] {
      var n := |events| - 1;
      var init, e := events[..n], events[n];
      assert events == init + [e];
      var w := Run(config, Opened(sources), init);
      RunAppend(config, Opened(sources), init, e);
      if Writes(w, e) {
        OpenedIsOk(config, sources);
        RunKeepsInv(config, Opened(sources), init);
        assert JobOk(w, e.gen);
        WriteShowsSeen(config, sources, init, e);
        snapshot := Values(w.jobs[e.gen]);
      } else {
        snapshot := ShownWasSeen(config, sources, init);
        if w.applied > 0 {
          OthersKeepShown(config, Opened(sources), init, e, snapshot);
        }
      }
    }
  }

  lemma {:induction false} RunOfConcatenation(config: Config, v: View, a: seq<Event>, b: seq<Event>)
    ensures Run(config, v, a + b) == Run(config, Run(config, v, a), b)
    decreases |a|
  {
    if a == [] {
      assert a + b == b;
    } else {
      assert (a + b)[1..] == a[1..] + b;
      RunOfConcatenation(config, Step(config, v, a[0]), a[1..], b);
    }
  }

  /** When `setQuery` reflects, what is shown is the batch result for its query on a snapshot of
      the sources, unless another query was asked since. */
  lemma ReflectedIsResult(config: Config, sources: seq<seq<Item>>, before: seq<Event>, text: string, between: seq<Event>)
    returns (snapshot: seq<seq<Item>>)
    requires forall e :: e in between ==> !e.SetQuery?
    ensures var g := Run(config, Opened(sources), before).generation + 1;
      var events := before + [SetQuery(text)] + between + [Finish(g)];
      var done := Run(config, Opened(sources), events);
      done.applied >= g ==>
        ShowsSeen(config, Opened(sources), events, snapshot) && done.shown == config.host.lower(config.host.trim(text))
  {
    AskedIsShown(config, sources, before, text, between);
    snapshot := ShownWasSeen(config, sources, before + [SetQuery(text)] + between + [Finish(Run(config, Opened(sources), before).generation + 1)]);
  }

  lemma AskedIsShown(config: Config, sources: seq<seq<Item>>, before: seq<Event>, text: string, between: seq<Event>)
    requires forall e :: e in between ==> !e.SetQuery?
    ensures var g := Run(config, Opened(sources), before).generation + 1;
      var done := Run(config, Opened(sources), before + [SetQuery(text)] + between + [Finish(g)]);
      g > 0 && (done.applied >= g ==> done.shown == config.host.lower(config.host.trim(text)))
  {
    var v := Run(config, Opened(sources), before);
    var g := v.generation + 1;
    assert v.applied < g by {
      OpenedIsOk(config, sources);
      RunKeepsInv(config, Opened(sources), before);
    }
    AskedRun(config, Opened(sources), before, text, between, Finish(g));
    NewerShowsQuery(config, Step(config, v, SetQuery(text)), g, between);
  }

  lemma AskedRun(config: Config, v: View, before: seq<Event>, text: string, between: seq<Event>, last: Event)
    ensures Run(config, v, before + [SetQuery(text)] + between + [last])
      == Step(config, Run(config, Step(config, Run(config, v, before), SetQuery(text)), between), last)
  {
    RunAppend(config, v, before + [SetQuery(text)] + between, last);
    RunOfConcatenation(config, v, before + [SetQuery(text)], between);
    RunAppend(config, v, before, SetQuery(text));
  }

  lemma {:induction false} NewerShowsQuery(config: Config, v: View, g: nat, events: seq<Event>)
    requires forall e :: e in events ==> !e.SetQuery?
    requires v.applied >= g ==> v.shown == v.query
    ensures var w := Run(config, v, events); w.query == v.query && (w.applied >= g ==> w.shown == v.query)
    decreases |events|
  {
    if events != [] {
      assert events[0] in events && forall e :: e in events[1..] ==> e in events;
      NewerShowsQuery(config, Step(config, v, events[0]), g, events[1..]);
    }
  }

  lemma {:induction false} UnfinishedHasNotWritten(config: Config, v: View, g: nat, events: seq<Event>)
    requires Inv(config, v) && g <= v.generation && v.applied != g
    ensures var w := Run(config, v, events); g in w.jobs ==> w.applied != g
    decreases |events|
  {
    if events != [] {
      var v' := Step(config, v, events[0]);
      StepKeepsInv(config, v, events[0]);
      if v'.applied == g {
        NeverAgain(config, v', g, events[1..]);
      } else {
        UnfinishedHasNotWritten(config, v', g, events[1..]);
      }
    }
  }

  lemma {:induction false} NeverAgain(config: Config, v: View, g: nat, events: seq<Event>)
    requires g !in v.jobs && g <= v.generation
    ensures g !in Run(config, v, events).jobs
    decreases |events|
  {
    if events != [] {
      NeverAgain(config, Step(config, v, events[0]), g, events[1..]);
    }
  }

  /** It fails when a source changes while the reads of `setQuery` are under way: its own
      recompute ends, and the View still shows what the old query gave. */
  lemma SetQueryMayResolveStale(config: Config, was: seq<Item>, becomes: seq<Item>, text: string)
    ensures var before := Step(config, Step(config, Opened([was]), Read(1, 0)), Finish(1));
      var asked := Step(config, Step(config, before, SetQuery(text)), Read(2, 0));
      var pending := Step(config, asked, Change(0, becomes));
      var resolved := Step(config, pending, Finish(2));
      && 2 in pending.jobs && AllRead(pending.jobs[2]) && 2 !in resolved.jobs
      && resolved.query == config.host.lower(config.host.trim(text))
      && resolved.shown == "" && resolved.current == before.current
  {
  }

  // ----- the closure that holds this state --------------------------------------------------

  class LiveView {
    const config: Config
    var current: seq<Item>
    var query: string
    var generation: nat
    var listeners: seq<nat>
    var calls: seq<nat>    // the listeners called so far
    var closed: bool
    ghost var model: View  // with the sources and the recomputes in flight

    ghost predicate Linked()
      reads this
    {
      && current == model.current && query == model.query && generation == model.generation
      && listeners == model.listeners && calls == model.calls && closed == model.closed
    }

    ghost predicate Valid()
      reads this
    {
      Linked() && Inv(config, model)
    }

    constructor (config: Config, ghost sources: seq<seq<Item>>)
      ensures Valid() && this.config == config && model == Opened(sources)
    {
      this.config := config;
      current, query, generation, listeners, calls, closed := [], "", 1, [], [], false;
      model := Opened(sources);
      new;
      OpenedIsOk(config, sources);
    }

    /** `recompute` up to its first await. */
    method BeginRecompute()
      requires Linked() && Inv(config, Start(model))
      modifies this`generation, this`model
      ensures Valid() && model == Start(old(model))
    {
      generation := generation + 1;
      model := Start(model);
    }

    /** A source's list changes: its observer starts a recompute, unless `close` took it off. */
    method SourceChanged(ghost source: nat, ghost items: seq<Item>)
      requires Valid() && source < |model.sources|
      modifies this
      ensures Valid() && model == Step(config, old(model), Change(source, items))
    {
      StepKeepsInv(config, model, Change(source, items));
      model := model.(sources := model.sources[source := items]);
      if closed {
        model := model.(missed := true);
      } else {
        BeginRecompute();
      }
    }

    method AskQuery(text: string)
      requires Valid()
      modifies this
      ensures Valid() && model == Step(config, old(model), SetQuery(text))
    {
      StepKeepsInv(config, model, SetQuery(text));
      query := config.host.lower(config.host.trim(text));
      model := model.(query := query);
      BeginRecompute();
    }

    /** `recompute` after its awaits: `thisGeneration` and `all` are what it closed over. */
    method FinishRecompute(thisGeneration: nat, all: seq<Item>)
      requires Valid() && thisGeneration in model.jobs && AllRead(model.jobs[thisGeneration])
      requires all == Flatten(Values(model.jobs[thisGeneration]))
      modifies this
      ensures Valid() && model == Step(config, old(model), Finish(thisGeneration))
    {
      StepKeepsInv(config, model, Finish(thisGeneration));
      model := Step(config, model, Finish(thisGeneration));
      if thisGeneration != generation {
        return;
      }
      var matched := Filter(config, all, query);
      current := Limit(Sort(config, matched), config.limit);
      NotifyAll();
    }

    /** `for (const cb of listeners) cb()`. */
    method NotifyAll()
      modifies this`calls
      ensures calls == old(calls) + listeners
    {
      var i := 0;
      while i < |listeners|
        invariant 0 <= i <= |listeners|
        invariant calls == old(calls) + listeners[..i]
      {
        calls := calls + [listeners[i]];
        i := i + 1;
      }
    }

    method ObserveView(listener: nat)
      requires Valid()
      modifies this
      ensures Valid() && model == Step(config, old(model), Observe(listener))
    {
      StepKeepsInv(config, model, Observe(listener));
      model := Step(config, model, Observe(listener));
      if listener !in listeners {
        listeners := listeners + [listener];
      }
    }

    method CloseView()
      requires Valid()
      modifies this
      ensures Valid() && model == Step(config, old(model), Close)
    {
      StepKeepsInv(config, model, Close);
      model := Step(config, model, Close);
      if closed {
        return;
      }
      closed := true;
      listeners := [];
    }
  }
}
