/** Creating an identity once: callers for a key share the promise that is in flight. One
    step is the code between two awaits. */
module IdentityStore {
  import opened Wrappers

  /** What a storage holds for a key: a keypair, or text that does not parse. */
  datatype Stored = Pair(id: nat) | Garbled

  datatype Phase =
    | Generating                        // awaiting the new keypair
    | Done(result: Result<nat, ()>)     // loadOrCreateIdentityOnce has settled
    | Settled(result: Result<nat, ()>)  // its finally has run: callers get the result

  datatype Promise = Promise(storage: nat, key: string, phase: Phase)

  /** `made` lists the storage and key of every keypair that was generated and stored. */
  datatype State = State(
    stored: map<(nat, string), Stored>, inFlight: map<string, nat>, promises: seq<Promise>, made: seq<(nat, string)>)

  datatype Event =
    | Call(storage: nat, key: string)
    | Generate(promise: nat, id: nat)  // the keypair arrives and is stored
    | Fail(promise: nat)               // generating or storing it throws
    | Cleanup(promise: nat)

  /** The promise a call returns: the one in flight for its key, or a new one. */
  function Joined(s: State, key: string): nat {
    if key in s.inFlight then s.inFlight[key] else |s.promises|
  }

  function FirstPhase(s: State, storage: nat, key: string): Phase {
    if (storage, key) !in s.stored then Generating
    else match s.stored[(storage, key)]
      case Pair(id) => Done(Ok(id))
      case Garbled => Done(Err(()))
  }

  function SetPhase(s: State, p: nat, phase: Phase): State
    requires p < |s.promises|
  {
    s.(promises := s.promises[p := s.promises[p].(phase := phase)])
  }

  function Step(s: State, e: Event): State {
    match e
    case Call(storage, key) =>
      if key in s.inFlight then s
      else s.(inFlight := s.inFlight[key := |s.promises|],
              promises := s.promises + [Promise(storage, key, FirstPhase(s, storage, key))])
    case Generate(p, id) =>
      if p < |s.promises| && s.promises[p].phase.Generating? then
        var slot := (s.promises[p].storage, s.promises[p].key);
        SetPhase(s.(stored := s.stored[slot := Pair(id)], made := s.made + [slot]), p, Done(Ok(id)))
      else s
    case Fail(p) =>
      if p < |s.promises| && s.promises[p].phase.Generating? then SetPhase(s, p, Done(Err(()))) else s
    case Cleanup(p) =>
      if p < |s.promises| && s.promises[p].phase.Done? then
        var key := s.promises[p].key;
        var s' := if key in s.inFlight && s.inFlight[key] == p then s.(inFlight := s.inFlight - {key}) else s;
        SetPhase(s', p, Settled(s.promises[p].phase.result))
      else s
  }

  function Run(s: State, events: seq<Event>): State
    decreases |events|
  {
    if events == [] then s else Run(Step(s, events[0]), events[1..])
  }

  /** A page load: whatever is stored, nothing in flight. */
  function Fresh(stored: map<(nat, string), Stored>): State {
    State(stored, map[], [], [])
  }

  // ----- the invariant -----------------------------------------------------------------------------

  /** An unsettled promise is the one in flight for its key; while it generates its slot is
      empty; a successful one agrees with its slot. */
  ghost predicate PromiseOk(s: State, p: nat) {
    p < |s.promises| ==>
      var promise := s.promises[p];
      var slot := (promise.storage, promise.key);
      && (!promise.phase.Settled? ==> promise.key in s.inFlight && s.inFlight[promise.key] == p)
      && (promise.phase.Generating? ==> slot !in s.stored)
      && (!promise.phase.Generating? && promise.phase.result.Ok? ==>
            slot in s.stored && s.stored[slot] == Pair(promise.phase.result.value))
  }

  ghost predicate Inv(s: State) {
    && (forall p {:trigger PromiseOk(s, p)} :: PromiseOk(s, p))
    && (forall k :: k in s.inFlight ==> s.inFlight[k] < |s.promises| && s.promises[s.inFlight[k]].key == k)
    && (forall slot :: slot in s.made ==> slot in s.stored)
    && (forall i, j :: 0 <= i < j < |s.made| ==> s.made[i] != s.made[j])
  }

  lemma StepKeepsInv(s: State, e: Event)
    requires Inv(s)
    ensures Inv(Step(s, e))
    ensures forall slot :: slot in s.stored ==> slot in Step(s, e).stored && Step(s, e).stored[slot] == s.stored[slot]
  {
    var s' := Step(s, e);
    if !e.Call? {
      assert PromiseOk(s, e.promise);
    }
    forall p ensures PromiseOk(s', p) {
      assert PromiseOk(s, p);
    }
  }

  lemma {:induction false} RunKeepsInv(s: State, events: seq<Event>)
    requires Inv(s)
    ensures Inv(Run(s, events))
    decreases |events|
  {
    if events != [] {
      StepKeepsInv(s, events[0]);
      RunKeepsInv(Step(s, events[0]), events[1..]);
    }
  }

  // ----- what every run promises -------------------------------------------------------------------

  /** In every interleaving at most one keypair is generated and stored per storage and key: one for
      each that something is stored for now and was not before. */
  lemma OneKeypair(stored: map<(nat, string), Stored>, events: seq<Event>)
    ensures var s := Run(Fresh(stored), events);
      && (forall i, j :: 0 <= i < j < |s.made| ==> s.made[i] != s.made[j])
      && MadeSince(s, stored)
  {
    RunKeepsInv(Fresh(stored), events);
    MadeIsNew(Fresh(stored), stored, events);
  }

  /** What was made is what is stored now and was not before. */
  ghost predicate MadeSince(s: State, stored: map<(nat, string), Stored>) {
    forall slot :: slot in s.made <==> slot in s.stored && slot !in stored
  }

  lemma StepMakes(s: State, stored: map<(nat, string), Stored>, e: Event)
    requires Inv(s) && MadeSince(s, stored) && forall slot :: slot in stored ==> slot in s.stored
    ensures MadeSince(Step(s, e), stored)
  {
    if e.Generate? {
      assert PromiseOk(s, e.promise);
    }
  }

  lemma {:induction false} MadeIsNew(s: State, stored: map<(nat, string), Stored>, events: seq<Event>)
    requires Inv(s) && MadeSince(s, stored) && forall slot :: slot in stored ==> slot in s.stored
    ensures MadeSince(Run(s, events), stored)
    decreases |events|
  {
    if events != [] {
      StepKeepsInv(s, events[0]);
      StepMakes(s, stored, events[0]);
      MadeIsNew(Step(s, events[0]), stored, events[1..]);
    }
  }

  /** Event `k` generates and stores a keypair for this storage and key. */
  predicate GeneratesAt(stored: map<(nat, string), Stored>, events: seq<Event>, k: int, slot: (nat, string)) {
    && 0 <= k < |events| && events[k].Generate?
    && var s, p := Run(Fresh(stored), events[..k]), events[k].promise;
       p < |s.promises| && s.promises[p].phase.Generating? && (s.promises[p].storage, s.promises[p].key) == slot
  }

  lemma {:induction false} StoredStays(s: State, events: seq<Event>, slot: (nat, string))
    requires Inv(s) && slot in s.stored
    ensures slot in Run(s, events).stored && Run(s, events).stored[slot] == s.stored[slot]
    decreases |events|
  {
    if events != [] {
      StepKeepsInv(s, events[0]);
      StoredStays(Step(s, events[0]), events[1..], slot);
    }
  }

  lemma {:induction false} RunOfConcatenation(s: State, a: seq<Event>, b: seq<Event>)
    ensures Run(s, a + b) == Run(Run(s, a), b)
    decreases |a|
  {
    if a == [] {
      assert a + b == b;
    } else {
      assert (a + b)[1..] == a[1..] + b;
      RunOfConcatenation(Step(s, a[0]), a[1..], b);
    }
  }

  /** Read off the events: in no run are two keypairs generated for one storage and key, nor one
      where something was stored before; and the one that is generated stays. */
  lemma GeneratedOnce(stored: map<(nat, string), Stored>, events: seq<Event>, j: int, slot: (nat, string))
    requires GeneratesAt(stored, events, j, slot)
    ensures slot !in stored
    ensures forall k :: k > j ==> !GeneratesAt(stored, events, k, slot)
    ensures var s := Run(Fresh(stored), events); slot in s.stored && s.stored[slot] == Pair(events[j].id)
  {
    var before := Run(Fresh(stored), events[..j]);
    var after := Step(before, events[j]);
    RunKeepsInv(Fresh(stored), events[..j]);
    assert PromiseOk(before, events[j].promise);
    StepKeepsInv(before, events[j]);
    if slot in stored {
      StoredStays(Fresh(stored), events[..j], slot);
      assert false;
    }
    forall k | k > j && k <= |events|
      ensures slot in Run(Fresh(stored), events[..k]).stored
      ensures Run(Fresh(stored), events[..k]).stored[slot] == Pair(events[j].id)
    {
      assert events[..k] == events[..j] + events[j..k] && events[j..k][1..] == events[j + 1..k];
      RunOfConcatenation(Fresh(stored), events[..j], events[j..k]);
      StoredStays(after, events[j + 1..k], slot);
    }
    forall k | k > j ensures !GeneratesAt(stored, events, k, slot) {
      if k < |events| {
        RunKeepsInv(Fresh(stored), events[..k]);
        if events[k].Generate? {
          assert PromiseOk(Run(Fresh(stored), events[..k]), events[k].promise);
        }
      }
    }
    assert events[..|events|] == events;
  }

  /** A caller that gets an identity gets the one that the storage of its promise holds; all
      callers of one storage and key therefore get the same, for ever. */
  lemma CallersAgree(stored: map<(nat, string), Stored>, events: seq<Event>, p: nat)
    ensures var s := Run(Fresh(stored), events);
      p < |s.promises| && s.promises[p].phase.Settled? && s.promises[p].phase.result.Ok? ==>
        var slot := (s.promises[p].storage, s.promises[p].key);
        slot in s.stored && s.stored[slot] == Pair(s.promises[p].phase.result.value)
  {
    RunKeepsInv(Fresh(stored), events);
    assert PromiseOk(Run(Fresh(stored), events), p);
  }

  /** The map in flight knows keys, not storages: a call shares a promise that is about its
      own storage exactly when no other storage has one in flight for the key. */
  lemma OwnStorageExactly(stored: map<(nat, string), Stored>, events: seq<Event>, storage: nat, key: string)
    ensures var s := Run(Fresh(stored), events);
      var s' := Step(s, Call(storage, key));
      var p := Joined(s, key);
      && p < |s'.promises| && s'.promises[p].key == key
      && (s'.promises[p].storage == storage
          <==> !(key in s.inFlight && s.promises[s.inFlight[key]].storage != storage))
  {
    RunKeepsInv(Fresh(stored), events);
  }

  /** Otherwise it returns the other storage's identity, and its own storage stays empty. */
  lemma OtherStorageAnswers(key: string, id: nat)
    ensures var s := Step(Step(Fresh(map[]), Call(0, key)), Call(1, key));
      var s' := Step(Step(s, Generate(0, id)), Cleanup(0));
      && Joined(Step(Fresh(map[]), Call(0, key)), key) == 0
      && s'.promises == [Promise(0, key, Settled(Ok(id)))] && (1, key) !in s'.stored
  {
  }

  /** After a failed attempt has settled the next call tries again: nothing of it is left in
      flight, and with an empty slot a new keypair is generated. */
  lemma FailureAllowsRetry(stored: map<(nat, string), Stored>, events: seq<Event>, p: nat, storage: nat)
    ensures var s := Run(Fresh(stored), events);
      p < |s.promises| && s.promises[p].phase == Done(Err(())) ==>
        var s' := Step(s, Cleanup(p));
        var key := s.promises[p].key;
        && key !in s'.inFlight
        && ((storage, key) !in s.stored ==>
              Step(s', Call(storage, key)).promises[|s.promises|] == Promise(storage, key, Generating))
  {
    RunKeepsInv(Fresh(stored), events);
    assert PromiseOk(Run(Fresh(stored), events), p);
  }

  // ----- the module that holds this state -----------------------------------------------------------

  class Identities {
    var storages: map<(nat, string), Stored>
    var inFlight: map<string, nat>
    ghost var model: State

    ghost predicate Valid()
      reads this
    {
      storages == model.stored && inFlight == model.inFlight && Inv(model)
    }

    constructor (stored: map<(nat, string), Stored>)
      ensures Valid() && model == Fresh(stored)
    {
      storages, inFlight, model := stored, map[], Fresh(stored);
    }

    /** `loadOrCreateIdentity`: returns the promise, here by its number; `next` is the one a
        new promise would get. */
    method LoadOrCreate(storage: nat, key: string, next: nat) returns (promise: nat)
      requires Valid() && next == |model.promises|
      modifies this
      ensures Valid() && model == Step(old(model), Call(storage, key)) && promise == Joined(old(model), key)
    {
      StepKeepsInv(model, Call(storage, key));
      model := Step(model, Call(storage, key));
      if key in inFlight {
        return inFlight[key];
      }
      inFlight := inFlight[key := next];
      promise := next;
    }

    /** The end of `loadOrCreateIdentityOnce`, when the keypair is there. */
    method StoreGenerated(promise: nat, storage: nat, key: string, id: nat)
      requires Valid() && promise < |model.promises| && model.promises[promise] == Promise(storage, key, Generating)
      modifies this
      ensures Valid() && model == Step(old(model), Generate(promise, id))
    {
      StepKeepsInv(model, Generate(promise, id));
      model := Step(model, Generate(promise, id));
      storages := storages[(storage, key) := Pair(id)];
    }

    /** The `finally` callback. */
    method RunFinally(promise: nat, key: string)
      requires Valid() && promise < |model.promises|
      requires model.promises[promise].phase.Done? && model.promises[promise].key == key
      modifies this
      ensures Valid() && model == Step(old(model), Cleanup(promise))
    {
      StepKeepsInv(model, Cleanup(promise));
      model := Step(model, Cleanup(promise));
      if key in inFlight && inFlight[key] == promise {
        inFlight := inFlight - {key};
      }
    }
  }
}
