/** The `collection` source of a View: item subscriptions are opened as reads meet their
    names and kept until the name leaves the registry or the source is released. */
module CollectionSource {
  import opened Sequences

  /** `subs` is `itemSubs`; `pending` are the `useNode` calls still awaited, by handle;
      `live` are the item handles acquired and not released, `lost` those of them that no
      variable names any more; `registry` says that the registry's own handle is held. */
  datatype Source = Source(
    subs: map<string, nat>, pending: map<nat, string>, live: set<nat>, lost: set<nat>, next: nat, registry: bool)

  datatype Event =
    | Drop(keep: set<string>)  // releaseRemoved
    | Begin(path: string)      // ensureItemOpen, up to its first await
    | Land(handle: nat)        // ... and after it
    | Release

  const OPENED := Source(map[], map[], {}, {}, 0, true)

  function Step(s: Source, e: Event): Source {
    match e
    case Drop(keep) =>
      var subs := map p | p in s.subs && p in keep :: s.subs[p];
      s.(subs := subs, live := s.live - (set p | p in s.subs && p !in keep :: s.subs[p]))
    case Begin(path) =>
      if path in s.subs then s
      else s.(pending := s.pending[s.next := path], live := s.live + {s.next}, next := s.next + 1)
    case Land(h) =>
      if h !in s.pending then s
      else
        var path := s.pending[h];
        s.(subs := s.subs[path := h], pending := s.pending - {h},
           lost := if path in s.subs then s.lost + {s.subs[path]} else s.lost)
    case Release => s.(subs := map[], live := s.live - s.subs.Values, registry := false)
  }

  function Run(s: Source, events: seq<Event>): Source
    decreases |events|
  {
    if events == [] then s else Run(Step(s, events[0]), events[1..])
  }

  ghost predicate Injective(subs: map<string, nat>) {
    forall p, q :: p in subs && q in subs && p != q ==> subs[p] != subs[q]
  }

  /** Every live handle is held by exactly one of: an open item, an open in flight, nobody. */
  ghost predicate Inv(s: Source) {
    && Injective(s.subs)
    && (forall p :: p in s.subs ==> s.subs[p] in s.live && s.subs[p] !in s.pending && s.subs[p] !in s.lost)
    && (forall h :: h in s.pending ==> h in s.live && h !in s.lost)
    && (forall h :: h in s.live ==> h < s.next && (h in s.subs.Values || h in s.pending || h in s.lost))
    && s.lost <= s.live
  }

  lemma StepKeepsInv(s: Source, e: Event)
    requires Inv(s)
    ensures Inv(Step(s, e))
  {
    var s' := Step(s, e);
    forall h | h in s'.live ensures h < s'.next && (h in s'.subs.Values || h in s'.pending || h in s'.lost) {
      if h in s.live && h in s.subs.Values {
        var p :| p in s.subs && s.subs[p] == h;
        if e.Land? && e.handle in s.pending && s.pending[e.handle] == p {
        } else if p in s'.subs {
          assert s'.subs[p] == h;
        }
      }
      if e.Land? && e.handle in s.pending {
        assert s'.subs[s.pending[e.handle]] == e.handle;
      }
    }
  }

  /** Conservation, over every interleaving of reads, opens, drops and the release. */
  lemma {:induction false} RunKeepsInv(s: Source, events: seq<Event>)
    requires Inv(s)
    ensures Inv(Run(s, events))
    decreases |events|
  {
    if events != [] {
      StepKeepsInv(s, events[0]);
      RunKeepsInv(Step(s, events[0]), events[1..]);
    }
  }

  /** `release()` gives every handle back exactly when no open is in flight and none has
      been lost; otherwise it is these that stay acquired. */
  lemma ReleaseBalancesExactly(events: seq<Event>)
    ensures var s := Run(OPENED, events);
      var s' := Step(s, Release);
      && s'.live == s.pending.Keys + s.lost && !s'.registry
      && (s'.live == {} <==> s.pending == map[] && s.lost == {})
  {
    RunKeepsInv(OPENED, events);
    var s := Run(OPENED, events);
    assert s.live - s.subs.Values == s.pending.Keys + s.lost;
    assert s.pending.Keys == {} ==> s.pending == map[];
  }

  // ----- overlapping reads ------------------------------------------------------------------

  /** No open in flight is for a path that is open or that another one in flight is for. */
  ghost predicate NoOverlap(s: Source) {
    && (forall h :: h in s.pending ==> s.pending[h] !in s.subs)
    && (forall h, k :: h in s.pending && k in s.pending && h != k ==> s.pending[h] != s.pending[k])
  }

  predicate InFlight(s: Source, path: string) {
    exists h :: h in s.pending && s.pending[h] == path
  }

  /** Opening a path keeps the opens apart exactly when no open of that path is in flight. */
  lemma BeginOverlapsExactly(s: Source, path: string)
    requires Inv(s) && NoOverlap(s)
    ensures NoOverlap(Step(s, Begin(path))) <==> !InFlight(s, path)
  {
    var s' := Step(s, Begin(path));
    if InFlight(s, path) {
      var h :| h in s.pending && s.pending[h] == path;
      assert path !in s.subs && s.next !in s.pending;
      assert s'.pending[h] == s'.pending[s.next];
    }
  }

  lemma OthersKeepApart(s: Source, e: Event)
    requires Inv(s) && NoOverlap(s) && !e.Begin?
    ensures NoOverlap(Step(s, e)) && Step(s, e).lost == s.lost
  {
  }

  /** Two overlapping opens of one path: whichever lands first, its handle is lost, and
      releasing the source does not give it back. */
  lemma OverlapLosesAHandle(s: Source, path: string, h: nat)
    requires Inv(s) && NoOverlap(s) && h in s.pending && s.pending[h] == path
    ensures var both := Step(s, Begin(path));
      && h in Step(Step(Step(both, Land(h)), Land(s.next)), Release).lost
      && s.next in Step(Step(Step(both, Land(s.next)), Land(h)), Release).lost
      && h in Step(Step(Step(both, Land(h)), Land(s.next)), Release).live
  {
  }

  /** A run in which an open of a path begins only while none of it is in flight. */
  predicate Apart(s: Source, events: seq<Event>)
    decreases |events|
  {
    events == [] || ((events[0].Begin? ==> !InFlight(s, events[0].path)) && Apart(Step(s, events[0]), events[1..]))
  }

  lemma {:induction false} ApartLosesNothing(s: Source, events: seq<Event>)
    requires Inv(s) && NoOverlap(s) && Apart(s, events)
    ensures NoOverlap(Run(s, events)) && Run(s, events).lost == s.lost
    decreases |events|
  {
    if events != [] {
      StepKeepsInv(s, events[0]);
      if events[0].Begin? {
        BeginOverlapsExactly(s, events[0].path);
      } else {
        OthersKeepApart(s, events[0]);
      }
      ApartLosesNothing(Step(s, events[0]), events[1..]);
    }
  }

  /** Over every run that keeps the opens of a path apart the handles balance: what `release`
      leaves acquired are the opens still in flight. */
  lemma ApartBalances(events: seq<Event>)
    requires Apart(OPENED, events)
    ensures var s := Run(OPENED, events);
      Step(s, Release).live == s.pending.Keys && (Step(s, Release).live == {} <==> s.pending == map[])
  {
    ApartLosesNothing(OPENED, events);
    ReleaseBalancesExactly(events);
  }

  /** The landing of an open overwrites an item of that path which is open already. */
  predicate Overwrites(s: Source, e: Event) {
    e.Land? && e.handle in s.pending && s.pending[e.handle] in s.subs
  }

  predicate OverwritesAt(s: Source, events: seq<Event>, k: int) {
    0 <= k < |events| && Overwrites(Run(s, events[..k]), events[k])
  }

  /** Over every run whatsoever a handle is lost exactly when some landing overwrites. */
  lemma {:induction false} LostExactly(s: Source, events: seq<Event>)
    requires Inv(s)
    ensures s.lost <= Run(s, events).lost
    ensures Run(s, events).lost != s.lost <==> exists k :: OverwritesAt(s, events, k)
    decreases |events|
  {
    if events != [] {
      var s' := Step(s, events[0]);
      StepKeepsInv(s, events[0]);
      LostExactly(s', events[1..]);
      assert Overwrites(s, events[0]) <==> OverwritesAt(s, events, 0);
      assert s'.lost != s.lost <==> Overwrites(s, events[0]);
      forall k | k >= 1 ensures OverwritesAt(s, events, k) <==> OverwritesAt(s', events[1..], k - 1) {
        if k < |events| {
          assert events[..k][1..] == events[1..][..k - 1];
        }
      }
      forall m | OverwritesAt(s', events[1..], m) ensures OverwritesAt(s, events, m + 1) {
      }
    }
  }

  predicate KeepsItems(events: seq<Event>) {
    forall e :: e in events ==> !e.Drop? && !e.Release?
  }

  lemma {:induction false} LandingLoses(s: Source, path: string, h: nat, events: seq<Event>)
    requires Inv(s) && KeepsItems(events) && path in s.subs
    requires h in s.pending && s.pending[h] == path && Land(h) in events
    ensures s.subs[path] in Run(s, events).lost
    decreases |events|
  {
    var s' := Step(s, events[0]);
    assert events[0] in events && forall e :: e in events[1..] ==> e in events;
    StepKeepsInv(s, events[0]);
    LostExactly(s', events[1..]);
    if s.subs[path] !in s'.lost {
      LandingLoses(s', path, h, events[1..]);
    }
  }

  lemma {:induction false} BothLandingsLose(s: Source, path: string, h: nat, k: nat, events: seq<Event>)
    requires Inv(s) && KeepsItems(events) && h != k
    requires h in s.pending && s.pending[h] == path && Land(h) in events
    requires k in s.pending && s.pending[k] == path && Land(k) in events
    ensures Run(s, events).lost != {}
    decreases |events|
  {
    var s' := Step(s, events[0]);
    assert events[0] in events && forall e :: e in events[1..] ==> e in events;
    StepKeepsInv(s, events[0]);
    if events[0] == Land(h) {
      LandingLoses(s', path, k, events[1..]);
    } else if events[0] == Land(k) {
      LandingLoses(s', path, h, events[1..]);
    } else {
      BothLandingsLose(s', path, h, k, events[1..]);
    }
  }

  /** A second open of a path that begins while another is in flight loses a handle for good, in
      every run that lets both land before an item is dropped or the source released. */
  lemma OverlapLeaks(before: seq<Event>, path: string, h: nat, after: seq<Event>)
    requires var s := Run(OPENED, before);
      && h in s.pending && s.pending[h] == path && path !in s.subs
      && KeepsItems(after) && Land(h) in after && Land(s.next) in after
    ensures Run(Step(Run(OPENED, before), Begin(path)), after).lost != {}
  {
    var s := Run(OPENED, before);
    RunKeepsInv(OPENED, before);
    StepKeepsInv(s, Begin(path));
    assert h != s.next;
    BothLandingsLose(Step(s, Begin(path)), path, h, s.next, after);
  }

  // ----- one read at a time -----------------------------------------------------------------

  /** The registry whose names a read lists: `registerContentName` appends a new name,
      `unregisterContentName` removes the first entry with the name. */
  datatype NameOp = RegisterName(name: string) | UnregisterName(name: string)

  function ApplyName(names: seq<string>, op: NameOp): seq<string> {
    match op
    case RegisterName(name) => if name in names then names else names + [name]
    case UnregisterName(name) => RemoveFirst(names, name)
  }

  function RunNames(ops: seq<NameOp>): seq<string> {
    if ops == [] then [] else ApplyName(RunNames(ops[..|ops| - 1]), ops[|ops| - 1])
  }

  predicate LastRegisters(ops: seq<NameOp>, name: string) {
    ops != [] &&
    if ops[|ops| - 1].name == name then ops[|ops| - 1].RegisterName? else LastRegisters(ops[..|ops| - 1], name)
  }

  /** Over every run a registry lists each name at most once, and exactly the names that were
      registered last. */
  lemma {:induction false} RegistryNamesAreExact(ops: seq<NameOp>, name: string)
    ensures NoDuplicates(RunNames(ops))
    ensures name in RunNames(ops) <==> LastRegisters(ops, name)
  {
    if ops != [] {
      var init := ops[..|ops| - 1];
      RegistryNamesAreExact(init, name);
      RemoveFirstRemoves(RunNames(init), ops[|ops| - 1].name);
    }
  }

  lemma {:induction false} InjectiveSize(subs: map<string, nat>)
    requires Injective(subs)
    ensures |subs.Values| == |subs|
    decreases |subs|
  {
    if subs != map[] {
      var p :| p in subs;
      var rest := subs - {p};
      assert rest.Keys == subs.Keys - {p};
      InjectiveSize(rest);
      assert subs.Values == rest.Values + {subs[p]} by {
        forall v | v in subs.Values ensures v in rest.Values + {subs[p]} {
          var q :| q in subs && subs[q] == v;
          assert q != p ==> rest[q] == v;
        }
      }
      assert subs[p] !in rest.Values;
    }
  }

  lemma NextNameIsNew(names: seq<string>, i: nat)
    requires i < |names| && NoDuplicates(names)
    ensures names[i] !in Elements(names[..i])
    ensures Elements(names[..i + 1]) == Elements(names[..i]) + {names[i]}
  {
    assert names[..i + 1] == names[..i] + [names[i]];
  }

  lemma HeldOncePerName(s: Source, names: seq<string>)
    requires Inv(s) && s.pending == map[] && s.lost == {} && s.subs.Keys == Elements(names) && NoDuplicates(names)
    ensures s.live == s.subs.Values && |s.live| == |names|
  {
    forall p | p in s.subs ensures s.subs[p] in s.live {
    }
    assert s.live == s.subs.Values;
    InjectiveSize(s.subs);
    NoDuplicatesSize(names);
    assert |s.subs| == |s.subs.Keys|;
  }

  // Facts about one read, between its drops and its last landing.

  ghost predicate Reading(s: Source, paths: set<string>) {
    Inv(s) && NoOverlap(s) && s.lost == {} && s.registry && s.subs.Keys + s.pending.Values == paths
  }

  lemma BeginReads(s: Source, paths: set<string>, path: string)
    requires Reading(s, paths) && path !in s.pending.Values
    ensures Reading(Step(s, Begin(path)), paths + {path})
    ensures Step(s, Begin(path)).pending.Values <= s.pending.Values + {path}
    ensures Step(s, Begin(path)).subs == s.subs
  {
    var s' := Step(s, Begin(path));
    StepKeepsInv(s, Begin(path));
    BeginOverlapsExactly(s, path);
    if path !in s.subs {
      assert s.next !in s.pending;
      assert s'.pending[s.next] == path;
      forall p | p in s.pending.Values ensures p in s'.pending.Values {
        var h :| h in s.pending && s.pending[h] == p;
        assert s'.pending[h] == p;
      }
    }
  }

  lemma LandReads(s: Source, paths: set<string>, h: nat)
    requires Reading(s, paths) && h in s.pending
    ensures Reading(Step(s, Land(h)), paths)
  {
    var s' := Step(s, Land(h));
    StepKeepsInv(s, Land(h));
    OthersKeepApart(s, Land(h));
    forall p | p in paths ensures p in s'.subs.Keys + s'.pending.Values {
      if p !in s.subs {
        var k :| k in s.pending && s.pending[k] == p;
        assert k != h ==> s'.pending[k] == p;
      }
    }
  }

  class Collection {
    var itemSubs: map<string, nat>
    var awaited: map<nat, string>  // the `useNode` calls in flight
    var handles: nat               // how many handles `useNode` has given out
    ghost var model: Source

    ghost predicate Valid()
      reads this
    {
      itemSubs == model.subs && awaited == model.pending && handles == model.next && Inv(model)
    }

    /** Between reads: nothing in flight, nothing lost. */
    ghost predicate Quiet()
      reads this
    {
      Valid() && awaited == map[] && model.lost == {}
    }

    constructor ()
      ensures Quiet() && model == OPENED
    {
      itemSubs, awaited, handles, model := map[], map[], 0, OPENED;
    }

    /** `ensureItemOpen` up to its await. */
    method BeginOpen(path: string)
      requires Valid()
      modifies this
      ensures Valid() && model == Step(old(model), Begin(path))
    {
      StepKeepsInv(model, Begin(path));
      model := Step(model, Begin(path));
      if path in itemSubs {
        return;
      }
      awaited := awaited[handles := path];
      handles := handles + 1;
    }

    /** `ensureItemOpen` after its await. */
    method LandOpen(handle: nat)
      requires Valid() && handle in awaited
      modifies this
      ensures Valid() && model == Step(old(model), Land(handle))
    {
      StepKeepsInv(model, Land(handle));
      model := Step(model, Land(handle));
      itemSubs := itemSubs[awaited[handle] := handle];
      awaited := awaited - {handle};
    }

    /** `releaseRemoved`: releases and forgets the items that are no longer listed. */
    method ReleaseRemoved(current: set<string>)
      requires Valid()
      modifies this`itemSubs, this`model
      ensures Valid() && model == Step(old(model), Drop(current))
    {
      StepKeepsInv(model, Drop(current));
      model := Step(model, Drop(current));
      var todo := itemSubs.Keys;
      while todo != {}
        invariant todo <= itemSubs.Keys <= old(itemSubs).Keys
        invariant forall p :: p in old(itemSubs) ==> (p in itemSubs <==> p in current || p in todo)
        invariant forall p :: p in itemSubs ==> itemSubs[p] == old(itemSubs)[p]
        invariant model == Step(old(model), Drop(current))
        decreases |todo|
      {
        var path :| path in todo;
        todo := todo - {path};
        if path !in current {
          itemSubs := itemSubs - {path};
        }
      }
      assert itemSubs == model.subs;
    }

    /** One whole read with no other running: the opens all begin, then land in any order.
        Afterwards the open items are exactly the listed names, one live handle for each. */
    method ReadItems(names: seq<string>)
      requires Quiet() && model.registry && NoDuplicates(names)
      modifies this
      ensures Quiet() && model.registry
      ensures itemSubs.Keys == Elements(names)
      ensures model.live == itemSubs.Values && |model.live| == |names|
    {
      ReleaseRemoved(Elements(names));
      assert model.pending.Values == {};
      assert itemSubs.Keys + Elements(names) == Elements(names);
      BeginAll(names);
      LandAll(Elements(names));
      HeldOncePerName(model, names);
    }

    method BeginAll(names: seq<string>)
      requires Valid() && Reading(model, itemSubs.Keys) && model.pending.Values == {} && NoDuplicates(names)
      modifies this
      ensures Valid() && Reading(model, old(itemSubs).Keys + Elements(names))
    {
      ghost var kept := itemSubs.Keys;
      ghost var paths := kept;
      var i := 0;
      while i < |names|
        invariant 0 <= i <= |names|
        invariant Valid() && Reading(model, paths)
        invariant paths == kept + Elements(names[..i])
        invariant model.pending.Values <= Elements(names[..i])
      {
        NextNameIsNew(names, i);
        BeginReads(model, paths, names[i]);
        BeginOpen(names[i]);
        paths := paths + {names[i]};
        i := i + 1;
      }
      assert names[..i] == names;
    }

    method LandAll(ghost paths: set<string>)
      requires Valid() && Reading(model, paths)
      modifies this
      ensures Quiet() && model.registry && itemSubs.Keys == paths
    {
      while awaited != map[]
        invariant Valid() && Reading(model, paths)
        decreases |awaited|
      {
        var handle :| handle in awaited;
        LandReads(model, paths, handle);
        LandOpen(handle);
      }
      assert model.pending.Values == {};
    }

    /** `release`: afterwards no handle is held, the registry's own included. */
    method ReleaseAll()
      requires Quiet()
      modifies this
      ensures Quiet() && model == Step(old(model), Release)
      ensures model.live == {} && !model.registry && itemSubs == map[]
    {
      StepKeepsInv(model, Release);
      model := Step(model, Release);
      itemSubs := map[];
    }
  }
}
