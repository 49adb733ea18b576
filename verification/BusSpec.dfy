/** The bus as its users see it: a list of live registrations, scanned in full for every
    topic. `EventBus.dfy` proves that the trie computes this. */
module BusSpec {
  import opened Sequences
  import opened Sorting
  import opened Topics

  datatype Handler = Handler(id: nat)

  datatype Entry = Entry(handler: Handler, order: real, ticket: nat, pattern: string) {
    function Segments(): seq<string> { Split(pattern, '.') }
    function TriePath(): seq<string> { Path(Segments()) }
    predicate Globstar() { EndsInGlobstar(Segments()) }
    predicate Hears(topic: string) { Matches(Segments(), Split(topic, '.')) }
  }

  /** `live` in order of registration; `index` is the reverse index by handler, which holds
      one entry per handler; `next` is the registration counter. */
  datatype Bus = Bus(live: seq<Entry>, index: map<Handler, Entry>, next: nat)

  const EMPTY := Bus([], map[], 0)

  datatype Op =
    | On(pattern: string, handler: Handler, order: real)
    | Off(pattern: string, handler: Handler)

  /** What `on` accepts: a non-empty pattern with no misplaced `**`. */
  predicate PatternOk(pattern: string) {
    pattern != "" && WellFormed(Split(pattern, '.'))
  }

  function ApplyOn(b: Bus, pattern: string, handler: Handler, order: real): Bus {
    if !PatternOk(pattern) then b
    else
      var entry := Entry(handler, order, b.next, pattern);
      Bus(b.live + [entry], b.index[handler := entry], b.next + 1)
  }

  function ApplyOff(b: Bus, pattern: string, handler: Handler): Bus {
    if handler !in b.index || b.index[handler].pattern != pattern then b else Without(b, handler)
  }

  function Without(b: Bus, handler: Handler): Bus
    requires handler in b.index
  {
    Bus(RemoveFirst(b.live, b.index[handler]), b.index - {handler}, b.next)
  }

  function Apply(b: Bus, op: Op): Bus {
    match op
    case On(pattern, handler, order) => ApplyOn(b, pattern, handler, order)
    case Off(pattern, handler) => ApplyOff(b, pattern, handler)
  }

  function Run(b: Bus, ops: seq<Op>): Bus
    decreases |ops|
  {
    if ops == [] then b else Run(Apply(b, ops[0]), ops[1..])
  }

  ghost predicate Increasing(live: seq<Entry>) {
    forall i, j :: 0 <= i < j < |live| ==> live[i].ticket < live[j].ticket
  }

  /** Registrations carry increasing counters and accepted patterns, and every record of
      the reverse index points at an entry that is live. */
  ghost predicate Valid(b: Bus) {
    && Increasing(b.live)
    && (forall e :: e in b.live ==> e.ticket < b.next && PatternOk(e.pattern))
    && (forall h :: h in b.index ==> b.index[h] in b.live && b.index[h].handler == h)
  }

  // ----- what a topic is delivered to ------------------------------------------------

  function Hearing(live: seq<Entry>, topic: string): seq<Entry> {
    if live == [] then []
    else Hearing(live[..|live| - 1], topic)
         + if live[|live| - 1].Hears(topic) then [live[|live| - 1]] else []
  }

  /** The comparator of `#match`: by `order`, then by registration. */
  function ByOrder(a: Entry, b: Entry): int {
    if a.order < b.order then -1 else if a.order > b.order then 1 else a.ticket - b.ticket
  }

  function Deliveries(b: Bus, topic: string): seq<Entry> {
    StableSort(Hearing(b.live, topic), ByOrder)
  }

  lemma {:induction false} HearingElements(live: seq<Entry>, topic: string, e: Entry)
    ensures multiset(Hearing(live, topic))[e] == if e.Hears(topic) then multiset(live)[e] else 0
  {
    if live != [] {
      var n := |live| - 1;
      HearingElements(live[..n], topic, e);
      assert live == live[..n] + [live[n]];
    }
  }

  lemma {:induction false} LiveOnce(b: Bus, e: Entry)
    requires Valid(b)
    ensures multiset(b.live)[e] == if e in b.live then 1 else 0
  {
    if e in b.live {
      var i :| 0 <= i < |b.live| && b.live[i] == e;
      assert b.live == b.live[..i] + [e] + b.live[i + 1..];
      assert e !in b.live[..i] && e !in b.live[i + 1..];
    }
  }

  lemma ByOrderIsConsistent()
    ensures Consistent(ByOrder)
  {
  }

  lemma DeliveriesElements(b: Bus, topic: string, e: Entry)
    requires Valid(b)
    ensures multiset(Deliveries(b, topic))[e] == if e in b.live && e.Hears(topic) then 1 else 0
    ensures e in Deliveries(b, topic) <==> e in b.live && e.Hears(topic)
  {
    ByOrderIsConsistent();
    StableSortOrders(Hearing(b.live, topic), ByOrder);
    HearingElements(b.live, topic, e);
    LiveOnce(b, e);
    assert e in Deliveries(b, topic) <==> e in multiset(Deliveries(b, topic));
  }

  lemma TwiceInSequence<T>(s: seq<T>, i: int, j: int)
    requires 0 <= i < j < |s| && s[i] == s[j]
    ensures multiset(s)[s[i]] >= 2
  {
    assert s == s[..j] + [s[j]] + s[j + 1..];
    assert s[i] in s[..j];
  }

  /** A delivery list holds exactly the live entries whose pattern matches under the naive
      matcher, each once, lower orders first and equal orders as they were registered. */
  lemma DeliveriesAreExact(b: Bus, topic: string)
    requires Valid(b)
    ensures forall e :: e in Deliveries(b, topic) <==> e in b.live && e.Hears(topic)
    ensures forall i, j :: 0 <= i < j < |Deliveries(b, topic)| ==>
      var x, y := Deliveries(b, topic)[i], Deliveries(b, topic)[j];
      x.order < y.order || (x.order == y.order && x.ticket < y.ticket)
  {
    var found := Deliveries(b, topic);
    forall e ensures e in found <==> e in b.live && e.Hears(topic) {
      DeliveriesElements(b, topic, e);
    }
    ByOrderIsConsistent();
    StableSortOrders(Hearing(b.live, topic), ByOrder);
    forall i, j | 0 <= i < j < |found|
      ensures found[i].order < found[j].order || (found[i].order == found[j].order && found[i].ticket < found[j].ticket)
    {
      SameTicketSameEntry(b, found[i], found[j]);
      if found[i] == found[j] {
        TwiceInSequence(found, i, j);
        DeliveriesElements(b, topic, found[i]);
      }
    }
  }

  lemma SameTicketSameEntry(b: Bus, x: Entry, y: Entry)
    requires Valid(b) && x in b.live && y in b.live
    ensures x.ticket == y.ticket ==> x == y
  {
  }

  /** Whatever order matching entries are collected in, sorting them yields the deliveries. */
  lemma CollectedInAnyOrder(b: Bus, topic: string, collected: seq<Entry>)
    requires Valid(b)
    requires forall e :: multiset(collected)[e] == if e.Hears(topic) then multiset(b.live)[e] else 0
    ensures StableSort(collected, ByOrder) == Deliveries(b, topic)
  {
    var hearing := Hearing(b.live, topic);
    assert multiset(collected) == multiset(hearing) by {
      forall e ensures multiset(collected)[e] == multiset(hearing)[e] {
        HearingElements(b.live, topic, e);
      }
    }
    ByOrderIsConsistent();
    StableSortOrders(collected, ByOrder);
    StableSortOrders(hearing, ByOrder);
    NoTies(b, topic, StableSort(collected, ByOrder));
    OrderedIsUnique(StableSort(collected, ByOrder), Deliveries(b, topic), ByOrder);
  }

  lemma NoTies(b: Bus, topic: string, s: seq<Entry>)
    requires Valid(b) && multiset(s) == multiset(Hearing(b.live, topic))
    ensures forall x, y :: x in s && y in s && Tied(x, y, ByOrder) ==> x == y
  {
    forall x, y | x in s && y in s && Tied(x, y, ByOrder) ensures x == y {
      assert x in multiset(s) && y in multiset(s);
      HearingElements(b.live, topic, x);
      HearingElements(b.live, topic, y);
      SameTicketSameEntry(b, x, y);
    }
  }

  // ----- runs ---------------------------------------------------------------------------

  lemma WithoutKeepsValid(b: Bus, handler: Handler)
    requires Valid(b) && handler in b.index
    ensures Valid(Without(b, handler))
  {
    var e := b.index[handler];
    RemoveFirstKeepsOrder(b.live, e);
    forall h | h in b.index && h != handler ensures b.index[h] in RemoveFirst(b.live, e) {
      RemoveFirstKeepsOthers(b.live, e, b.index[h]);
    }
  }

  lemma ApplyKeepsValid(b: Bus, op: Op)
    requires Valid(b)
    ensures Valid(Apply(b, op))
  {
    if op.Off? && Apply(b, op) != b {
      WithoutKeepsValid(b, op.handler);
    }
  }

  lemma {:induction false} RemoveFirstKeepsOrder(live: seq<Entry>, e: Entry)
    requires Increasing(live) && e in live
    ensures Increasing(RemoveFirst(live, e))
    ensures forall x :: x in RemoveFirst(live, e) ==> x in live
  {
    var i := RemoveFirstIsSlice(live, e);
  }

  /** Over every run of registrations and removals the reverse index stays truthful. */
  lemma {:induction false} RunKeepsValid(b: Bus, ops: seq<Op>)
    requires Valid(b)
    ensures Valid(Run(b, ops))
    decreases |ops|
  {
    if ops != [] {
      ApplyKeepsValid(b, ops[0]);
      RunKeepsValid(Apply(b, ops[0]), ops[1..]);
    }
  }

  /** `off` after `on` always restores every delivery list. The reverse index comes back too
      exactly when the handler had no record before, or the pattern was refused. */
  lemma OffUndoesOn(b: Bus, pattern: string, handler: Handler, order: real, topic: string)
    requires Valid(b)
    ensures var b' := ApplyOff(ApplyOn(b, pattern, handler, order), pattern, handler);
      && b'.live == b.live
      && Deliveries(b', topic) == Deliveries(b, topic)
      && (b'.index == b.index <==> handler !in b.index || !PatternOk(pattern))
  {
    if PatternOk(pattern) {
      var on := ApplyOn(b, pattern, handler, order);
      var entry := on.index[handler];
      var i := RemoveFirstIsSlice(on.live, entry);
      assert entry !in b.live;
      assert i == |b.live|;
      assert ApplyOff(on, pattern, handler).live == b.live;
    }
  }

  /** Whether the operation replaces or removes the record that `on(pattern, handler)` made. */
  predicate Touches(op: Op, pattern: string, handler: Handler) {
    op.handler == handler && if op.On? then PatternOk(op.pattern) else op.pattern == pattern
  }

  lemma {:induction false} RecordAge(b: Bus, handler: Handler, ops: seq<Op>)
    requires Valid(b)
    ensures var after := Run(b, ops).index;
      handler in after ==> (handler in b.index && after[handler] == b.index[handler]) || after[handler].ticket >= b.next
    decreases |ops|
  {
    if ops != [] {
      ApplyKeepsValid(b, ops[0]);
      RecordAge(Apply(b, ops[0]), handler, ops[1..]);
    }
  }

  /** The index still names the entry that `on` made exactly when, since then, the handler
      was neither registered again nor taken off under that pattern. */
  lemma {:induction false} RecordSurvivesExactly(b: Bus, e: Entry, ops: seq<Op>)
    requires Valid(b) && e.handler in b.index && b.index[e.handler] == e
    ensures var after := Run(b, ops).index;
      (e.handler in after && after[e.handler] == e)
      <==> (forall op :: op in ops ==> !Touches(op, e.pattern, e.handler))
    decreases |ops|
  {
    if ops != [] {
      var b' := Apply(b, ops[0]);
      ApplyKeepsValid(b, ops[0]);
      assert forall op :: op in ops <==> op == ops[0] || op in ops[1..];
      if Touches(ops[0], e.pattern, e.handler) {
        RecordAge(b', e.handler, ops[1..]);
      } else {
        RecordSurvivesExactly(b', e, ops[1..]);
      }
    }
  }

  /** The function that `on` returns is said to remove that registration. It takes exactly
      that entry off, and nothing else, precisely when the handler was not registered again
      and not taken off under the same pattern in between; otherwise it leaves the entry as
      it is (and may take off a later one). */
  lemma UnsubscribeExactly(b: Bus, pattern: string, handler: Handler, order: real, ops: seq<Op>)
    requires Valid(b) && PatternOk(pattern)
    ensures var s := Run(ApplyOn(b, pattern, handler, order), ops);
      var e := Entry(handler, order, b.next, pattern);
      var s' := ApplyOff(s, pattern, handler);
      (e in s.live && e !in s'.live && multiset(s'.live) == multiset(s.live) - multiset{e})
      <==> (forall op :: op in ops ==> !Touches(op, pattern, handler))
  {
    var on := ApplyOn(b, pattern, handler, order);
    var e := Entry(handler, order, b.next, pattern);
    ApplyKeepsValid(b, On(pattern, handler, order));
    RunKeepsValid(on, ops);
    RecordSurvivesExactly(on, e, ops);
    var s := Run(on, ops);
    if handler in s.index && s.index[handler].pattern == pattern {
      RemovalIsExact(s, s.index[handler]);
      if s.index[handler] != e && e in s.live {
        RemoveFirstKeepsOthers(s.live, s.index[handler], e);
      }
    }
  }

  lemma RemovalIsExact(b: Bus, e: Entry)
    requires Valid(b) && e in b.live
    ensures e !in RemoveFirst(b.live, e)
    ensures multiset(RemoveFirst(b.live, e)) == multiset(b.live) - multiset{e}
  {
    var i := RemoveFirstIsSlice(b.live, e);
    assert b.live == b.live[..i] + [e] + b.live[i + 1..];
    assert e !in b.live[i + 1..] by {
      assert forall k :: i < k < |b.live| ==> b.live[k].ticket > e.ticket;
    }
    assert RemoveFirst(b.live, e) == b.live[..i] + b.live[i + 1..];
  }

  /** The unsubscribe function of a first registration takes off the second one, when the
      same handler was registered twice, and the first can never be taken off again. */
  lemma UnsubscribeOfDoubleRegistration(pattern: string, handler: Handler, later: seq<Op>)
    requires PatternOk(pattern)
    ensures var first := Entry(handler, 0.0, 0, pattern);
      var s := Run(EMPTY, [On(pattern, handler, 0.0), On(pattern, handler, 0.0), Off(pattern, handler)]);
      s.live == [first] && first in Run(s, later).live
  {
    var first := Entry(handler, 0.0, 0, pattern);
    var one := ApplyOn(EMPTY, pattern, handler, 0.0);
    var two := ApplyOn(one, pattern, handler, 0.0);
    var three := ApplyOff(two, pattern, handler);
    var ops := [On(pattern, handler, 0.0), On(pattern, handler, 0.0), Off(pattern, handler)];
    assert ops[1..] == [On(pattern, handler, 0.0), Off(pattern, handler)];
    assert ops[1..][1..] == [Off(pattern, handler)];
    assert Run(EMPTY, ops) == Run(two, [Off(pattern, handler)]) == three;
    assert two.live == [first, Entry(handler, 0.0, 1, pattern)];
    assert two.live[1..] == [two.live[1]];
    assert RemoveFirst(two.live, two.live[1]) == [first] + RemoveFirst([two.live[1]], two.live[1]);
    assert three.live == [first];
    assert ops[1..][1..][1..] == [];
    RunKeepsValid(EMPTY, ops);
    OrphanStays(three, first, later);
  }

  /** An entry the reverse index no longer names stays live for ever. */
  lemma {:induction false} OrphanStays(b: Bus, e: Entry, ops: seq<Op>)
    requires Valid(b) && e in b.live && !(e.handler in b.index && b.index[e.handler] == e)
    ensures e in Run(b, ops).live
    decreases |ops|
  {
    if ops != [] {
      var b' := Apply(b, ops[0]);
      ApplyKeepsValid(b, ops[0]);
      if ops[0].Off? && b' != b {
        RemoveFirstKeepsOthers(b.live, b.index[ops[0].handler], e);
      }
      OrphanStays(b', e, ops[1..]);
    }
  }

  lemma LiteralHearsItself(e: Entry)
    requires '*' !in e.pattern
    ensures e.Hears(e.pattern)
  {
    SplitKeepsOut(e.pattern, '.', '*');
    MatchesItself(Split(e.pattern, '.'));
  }
}
