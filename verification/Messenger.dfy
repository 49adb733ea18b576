/** Finding or starting a private chat: both peers derive the same group name, look for a
    group under either key, and create one under their own only if there is none. */
module Messenger {
  import opened Paths
  import opened Codecs
  import opened Texts

  // ----- the common name --------------------------------------------------------------------------------

  /** What `directChatGroupName` hashes, after its constant start: the two keys in base64, in
      string order, with a colon between them. */
  function NamePreimage(mine: seq<Byte>, theirs: seq<Byte>): string {
    var a, b := Encode(mine), Encode(theirs);
    if LexLess(b, a) then b + ":" + a else a + ":" + b
  }

  lemma {:induction false} FirstColon(s: string, t: string)
    requires ':' !in s
    ensures IndexOf(s + ":" + t, ':') == |s|
  {
    var all := s + ":" + t;
    if s != "" {
      assert all[1..] == s[1..] + ":" + t && all[0] == s[0];
      FirstColon(s[1..], t);
    }
  }

  lemma ColonSplits(s: string, t: string, s': string, t': string)
    requires ':' !in s && ':' !in s' && s + ":" + t == s' + ":" + t'
    ensures s == s' && t == t'
  {
    FirstColon(s, t);
    FirstColon(s', t');
    var all := s + ":" + t;
    assert all[..|s|] == s && all[|s| + 1..] == t;
    assert (s' + ":" + t')[..|s'|] == s' && (s' + ":" + t')[|s'| + 1..] == t';
  }

  lemma NoColon(bytes: seq<Byte>)
    ensures ':' !in Encode(bytes)
  {
    StandardIsLawful();
    DataIsDigits(STANDARD, bytes);
    var data := Data(STANDARD, bytes);
    forall i | 0 <= i < |data| ensures data[i] != ':' {
      assert DigitValue(data[i]).Some? && DigitValue(':').None?;
    }
  }

  /** Both sides hash the same text, and two pairs of keys share it exactly when they are the
      same pair. */
  lemma NameIsPair(a: seq<Byte>, b: seq<Byte>, c: seq<Byte>, d: seq<Byte>)
    ensures NamePreimage(a, b) == NamePreimage(b, a)
    ensures NamePreimage(a, b) == NamePreimage(c, d) <==> (a == c && b == d) || (a == d && b == c)
  {
    PreimageIsSymmetric(a, b);
    PreimageIsSymmetric(c, d);
    if NamePreimage(a, b) == NamePreimage(c, d) {
      var (p, q) := InOrder(a, b);
      var (r, s) := InOrder(c, d);
      NoColon(p);
      NoColon(r);
      ColonSplits(Encode(p), Encode(q), Encode(r), Encode(s));
      Base64IsInjective(p, r);
      Base64IsInjective(q, s);
    }
  }

  /** It is the two encoded keys, the one that sorts first in front. */
  lemma NameIsSorted(a: seq<Byte>, b: seq<Byte>) returns (first: string, second: string)
    ensures NamePreimage(a, b) == first + ":" + second && !LexLess(second, first)
    ensures (first == Encode(a) && second == Encode(b)) || (first == Encode(b) && second == Encode(a))
  {
    LexAsymmetric(Encode(a), Encode(b));
    if LexLess(Encode(b), Encode(a)) {
      first, second := Encode(b), Encode(a);
    } else {
      first, second := Encode(a), Encode(b);
    }
  }

  function InOrder(a: seq<Byte>, b: seq<Byte>): (r: (seq<Byte>, seq<Byte>))
    ensures NamePreimage(a, b) == Encode(r.0) + ":" + Encode(r.1)
  {
    if LexLess(Encode(b), Encode(a)) then (b, a) else (a, b)
  }

  lemma PreimageIsSymmetric(a: seq<Byte>, b: seq<Byte>)
    ensures NamePreimage(a, b) == NamePreimage(b, a)
  {
    LexTotal(Encode(a), Encode(b));
    LexAsymmetric(Encode(a), Encode(b));
  }

  // ----- the rendezvous ---------------------------------------------------------------------------------

  datatype Peer = A | B {
    function Other(): Peer { if this == A then B else A }
  }

  /** A call of `getOrCreateDirectChat` in progress: it looks under its own key, then under the
      peer's, then creates. */
  datatype Call = LookOwn | LookPeer | Create | Returned(owner: Peer, existed: bool)

  /** `created` are the groups made so far, each by its owner and the call that made it; `calls`
      are the calls, each with its caller. */
  datatype State = State(created: seq<(Peer, nat)>, calls: seq<(Peer, Call)>)

  datatype Event = Start(peer: Peer) | Advance(call: nat)

  /** The peers under whose keys a lookup finds the group. */
  function Owners(s: State): set<Peer> {
    set c | c in s.created :: c.0
  }

  function Next(groups: set<Peer>, peer: Peer, call: Call): Call {
    match call
    case LookOwn => if peer in groups then Returned(peer, true) else LookPeer
    case LookPeer => if peer.Other() in groups then Returned(peer.Other(), true) else Create
    case Create => Returned(peer, false)
    case Returned(_, _) => call
  }

  function Step(s: State, e: Event): State {
    match e
    case Start(peer) => s.(calls := s.calls + [(peer, LookOwn)])
    case Advance(i) =>
      if i >= |s.calls| then s
      else
        var (peer, call) := s.calls[i];
        State(if call.Create? then s.created + [(peer, i)] else s.created,
              s.calls[i := (peer, Next(Owners(s), peer, call))])
  }

  function Run(s: State, events: seq<Event>): State
    decreases |events|
  {
    if events == [] then s else Run(Step(s, events[0]), events[1..])
  }

  const NOTHING := State([], [])

  /** What a whole call returns when nothing else moves meanwhile. */
  function WholeCall(groups: set<Peer>, peer: Peer): (Peer, bool) {
    if peer in groups then (peer, true) else if peer.Other() in groups then (peer.Other(), true) else (peer, false)
  }

  /** `getOrCreateDirectChat` with nothing else running: the loop over both keys, own first. */
  method GetOrCreateDirectChat(groups: set<Peer>, me: Peer) returns (owner: Peer, existed: bool, after: set<Peer>)
    ensures (owner, existed) == WholeCall(groups, me)
    ensures after == groups + {owner} && (existed <==> after == groups)
  {
    var candidates := [me, me.Other()];
    for i := 0 to 2
      invariant forall k :: 0 <= k < i ==> candidates[k] !in groups
    {
      if candidates[i] in groups {
        assert i == 1 ==> candidates[0] !in groups;
        assert groups + {candidates[i]} == groups;
        return candidates[i], true, groups;
      }
    }
    assert candidates[0] !in groups && candidates[1] !in groups;
    owner, existed, after := me, false, groups + {me};
    assert me !in groups && me in after;
  }

  // ----- what every run keeps -----------------------------------------------------------------------------

  /** This call of `p` has created the group. */
  predicate Creator(s: State, p: Peer, i: nat) {
    i < |s.calls| && s.calls[i] == (p, Returned(p, false))
  }

  /** The groups are exactly those of the calls that returned a new one, each made once; and
      whoever returned was told of a group that exists. */
  ghost predicate Sound(s: State) {
    && (forall c :: c in s.created <==> Creator(s, c.0, c.1))
    && (forall k, m :: 0 <= k < m < |s.created| ==> s.created[k] != s.created[m])
    && (forall i :: 0 <= i < |s.calls| && s.calls[i].1.Returned? ==> s.calls[i].1.owner in Owners(s))
  }

  lemma OwnersGrow(s: State, e: Event)
    ensures Owners(s) <= Owners(Step(s, e))
    ensures e.Advance? && e.call < |s.calls| && s.calls[e.call].1.Create? ==> s.calls[e.call].0 in Owners(Step(s, e))
  {
    forall p | p in Owners(s) ensures p in Owners(Step(s, e)) {
      var c :| c in s.created && c.0 == p;
      assert c in Step(s, e).created;
    }
    if e.Advance? && e.call < |s.calls| && s.calls[e.call].1.Create? {
      assert (s.calls[e.call].0, e.call) in Step(s, e).created;
    }
  }

  lemma StepKeepsSound(s: State, e: Event)
    requires Sound(s)
    ensures Sound(Step(s, e))
  {
    var s' := Step(s, e);
    OwnersGrow(s, e);
    if e.Advance? && e.call < |s.calls| {
      var (peer, call) := s.calls[e.call];
      forall c: (Peer, nat) ensures c in s'.created <==> Creator(s', c.0, c.1) {
        assert c in s.created <==> Creator(s, c.0, c.1);
      }
      if call.Create? {
        assert (peer, e.call) !in s.created;
      }
    } else {
      forall c: (Peer, nat) ensures c in s'.created <==> Creator(s', c.0, c.1) {
        assert c in s.created <==> Creator(s, c.0, c.1);
      }
    }
  }

  lemma {:induction false} RunKeepsSound(s: State, events: seq<Event>)
    requires Sound(s)
    ensures Sound(Run(s, events)) && Owners(s) <= Owners(Run(s, events))
    decreases |events|
  {
    if events != [] {
      StepKeepsSound(s, events[0]);
      OwnersGrow(s, events[0]);
      RunKeepsSound(Step(s, events[0]), events[1..]);
    }
  }

  lemma {:induction false} CreatorStays(s: State, p: Peer, i: nat, events: seq<Event>)
    requires Creator(s, p, i)
    ensures Creator(Run(s, events), p, i)
    decreases |events|
  {
    if events != [] {
      CreatorStays(Step(s, events[0]), p, i, events[1..]);
    }
  }

  lemma {:induction false} RunOfConcatenation(s: State, a: seq<Event>, b: seq<Event>)
    ensures Run(s, a + b) == Run(Run(s, a), b)
    decreases |a|
  {
    if a == [] {
      assert a + b == b;
    } else {
      assert (a + b)[1..] == a[1..] + b;
      RunOfConcatenation(Step(s, a[0]), a[1..], b);
    }
  }

  // ----- one call at a time -------------------------------------------------------------------------------

  predicate Open(call: Call) {
    !call.Returned?
  }

  /** A run in which a call starts only when all earlier ones have returned, so that each
      creation is visible before the next lookup. */
  predicate OneAtATime(s: State, events: seq<Event>)
    decreases |events|
  {
    events == [] ||
    ((events[0].Start? ==> forall i :: 0 <= i < |s.calls| ==> !Open(s.calls[i].1)) && OneAtATime(Step(s, events[0]), events[1..]))
  }

  /** At most the last call is open; one that has not found a group is right that there is
      none; everyone who has returned was told the only group. */
  ghost predicate Calm(s: State) {
    && (forall i :: 0 <= i < |s.calls| - 1 ==> !Open(s.calls[i].1))
    && |s.created| <= 1
    && (forall i :: 0 <= i < |s.calls| && s.calls[i].1.Returned? ==> s.created != [] && s.created[0].0 == s.calls[i].1.owner)
    && (forall i :: 0 <= i < |s.calls| && s.calls[i].1.LookPeer? ==> s.calls[i].0 !in Owners(s))
    && (forall i :: 0 <= i < |s.calls| && s.calls[i].1.Create? ==> s.created == [])
  }

  lemma OwnersOfOne(s: State)
    requires |s.created| <= 1
    ensures forall p :: p in Owners(s) <==> s.created != [] && s.created[0].0 == p
  {
    if s.created != [] {
      assert s.created[0] in s.created;
    }
  }

  lemma StepKeepsCalm(s: State, e: Event)
    requires Calm(s) && OneAtATime(s, [e])
    ensures Calm(Step(s, e))
  {
    OwnersOfOne(s);
    if e.Advance? && e.call < |s.calls| {
      var (peer, call) := s.calls[e.call];
      assert peer == A || peer == B;
    }
  }

  lemma {:induction false} RunKeepsCalm(s: State, events: seq<Event>)
    requires Calm(s) && OneAtATime(s, events)
    ensures Calm(Run(s, events))
    decreases |events|
  {
    if events != [] {
      assert [events[0]][1..] == [];
      StepKeepsCalm(s, events[0]);
      RunKeepsCalm(Step(s, events[0]), events[1..]);
    }
  }

  /** When every creation is visible before the next lookup, at most one group is ever created
      for the pair, and all calls of both peers return its owner. */
  lemma OneGroup(events: seq<Event>, i: nat)
    requires OneAtATime(NOTHING, events)
    ensures var s := Run(NOTHING, events);
      && |s.created| <= 1
      && (i < |s.calls| && s.calls[i].1.Returned? ==> s.created != [] && s.calls[i].1.owner == s.created[0].0)
  {
    RunKeepsCalm(NOTHING, events);
  }

  // ----- each peer one call at a time -----------------------------------------------------------------------

  /** A run in which no two calls of one peer overlap, while those of different peers may. */
  predicate PeersTakeTurns(s: State, events: seq<Event>)
    decreases |events|
  {
    events == [] ||
    ((events[0].Start? ==> forall i :: 0 <= i < |s.calls| && s.calls[i].0 == events[0].peer ==> !Open(s.calls[i].1))
     && PeersTakeTurns(Step(s, events[0]), events[1..]))
  }

  /** A peer has one open call at most, which is past its own lookup only while the peer owns no
      group. */
  ghost predicate Orderly(s: State) {
    && (forall i, j :: 0 <= i < j < |s.calls| && s.calls[i].0 == s.calls[j].0 ==> !Open(s.calls[i].1))
    && (forall i :: 0 <= i < |s.calls| && (s.calls[i].1.LookPeer? || s.calls[i].1.Create?) ==> s.calls[i].0 !in Owners(s))
    && (forall k, m :: 0 <= k < m < |s.created| ==> s.created[k].0 != s.created[m].0)
  }

  lemma StepKeepsOrderly(s: State, e: Event)
    requires Orderly(s) && PeersTakeTurns(s, [e])
    ensures Orderly(Step(s, e))
  {
    var s' := Step(s, e);
    if e.Advance? && e.call < |s.calls| && s.calls[e.call].1.Create? {
      var p := s.calls[e.call].0;
      forall q | q in Owners(s') && q != p ensures q in Owners(s) {
        var c :| c in s'.created && c.0 == q;
        assert c in s.created;
      }
      forall k | 0 <= k < |s.created| ensures s.created[k].0 != p {
        assert s.created[k] in s.created;
      }
    }
  }

  lemma {:induction false} RunKeepsOrderly(s: State, events: seq<Event>)
    requires Orderly(s) && PeersTakeTurns(s, events)
    ensures Orderly(Run(s, events))
    decreases |events|
  {
    if events != [] {
      assert [events[0]][1..] == [];
      StepKeepsOrderly(s, events[0]);
      RunKeepsOrderly(Step(s, events[0]), events[1..]);
    }
  }

  /** When no two calls of one peer overlap, each peer creates at most one group, so at most two
      are created in all, however the peers' calls overlap. */
  lemma AtMostTwoGroups(events: seq<Event>)
    requires PeersTakeTurns(NOTHING, events)
    ensures var s := Run(NOTHING, events);
      && (forall k, m :: 0 <= k < m < |s.created| ==> s.created[k].0 != s.created[m].0)
      && |s.created| <= 2
  {
    RunKeepsOrderly(NOTHING, events);
    SomePeerRepeats(Run(NOTHING, events).created);
  }

  lemma SomePeerRepeats(created: seq<(Peer, nat)>)
    ensures |created| > 2 ==> exists k, m :: 0 <= k < m < |created| && created[k].0 == created[m].0
  {
    if |created| > 2 && created[0].0 != created[1].0 {
      assert created[0].0 == created[2].0 || created[1].0 == created[2].0;
    }
  }

  // ----- a peer that creates twice --------------------------------------------------------------------------

  /** The peer's key is looked up for call `j` by event `m`, finds nothing, and the call goes on. */
  ghost predicate LooksFreeAt(s: State, j: nat, events: seq<Event>, m: int)
    requires j < |s.calls|
  {
    && 0 <= m < |events| && events[m] == Advance(j) && Advance(j) !in events[..m]
    && s.calls[j].0.Other() !in Owners(Run(s, events[..m]))
    && Advance(j) in events[m + 1..]
  }

  /** These events take a call that is past its own lookup to its creation. */
  ghost predicate GoesOn(s: State, j: nat, events: seq<Event>) {
    j < |s.calls| &&
    match s.calls[j].1
    case LookPeer => exists m :: LooksFreeAt(s, j, events, m)
    case Create => Advance(j) in events
    case _ => false
  }

  predicate PastOwnLookup(s: State, j: nat) {
    j < |s.calls| && (s.calls[j].1.LookPeer? || s.calls[j].1.Create?)
  }

  lemma {:induction false} GoesOnToCreate(s: State, j: nat, events: seq<Event>)
    requires PastOwnLookup(s, j)
    ensures Creator(Run(s, events), s.calls[j].0, j) <==> GoesOn(s, j, events)
    decreases |events|
  {
    if events != [] {
      var s' := Step(s, events[0]);
      var p := s.calls[j].0;
      if events[0] == Advance(j) {
        AdvanceGoesOn(s, j, events);
      } else {
        GoesOnToCreate(s', j, events[1..]);
        assert Advance(j) in events <==> Advance(j) in events[1..];
        forall m | 1 <= m < |events|
          ensures LooksFreeAt(s, j, events, m) <==> LooksFreeAt(s', j, events[1..], m - 1)
        {
          assert events[..m][1..] == events[1..][..m - 1];
          assert Advance(j) in events[..m] <==> Advance(j) in events[1..][..m - 1];
          assert events[1..][m - 1 + 1..] == events[m + 1..];
        }
        forall m | LooksFreeAt(s', j, events[1..], m) ensures LooksFreeAt(s, j, events, m + 1) {
        }
      }
    }
  }

  lemma AdvanceGoesOn(s: State, j: nat, events: seq<Event>)
    requires PastOwnLookup(s, j) && events != [] && events[0] == Advance(j)
    ensures Creator(Run(s, events), s.calls[j].0, j) <==> GoesOn(s, j, events)
  {
    var s' := Step(s, events[0]);
    var p := s.calls[j].0;
    if s.calls[j].1.Create? {
      CreatorStays(s', p, j, events[1..]);
    } else {
      assert forall m :: LooksFreeAt(s, j, events, m) ==> m == 0;
      assert events[..0] == [];
      if p.Other() in Owners(s) {
        FoundStays(s', j, events[1..]);
      } else {
        CreateGoesOn(s', j, events[1..]);
        assert Advance(j) in events[1..] <==> LooksFreeAt(s, j, events, 0);
      }
    }
  }

  lemma {:induction false} FoundStays(s: State, j: nat, events: seq<Event>)
    requires j < |s.calls| && s.calls[j].1.Returned?
    ensures j < |Run(s, events).calls| && Run(s, events).calls[j] == s.calls[j]
    decreases |events|
  {
    if events != [] {
      FoundStays(Step(s, events[0]), j, events[1..]);
    }
  }

  lemma {:induction false} CreateGoesOn(s: State, j: nat, events: seq<Event>)
    requires j < |s.calls| && s.calls[j].1.Create?
    ensures Creator(Run(s, events), s.calls[j].0, j) <==> Advance(j) in events
    decreases |events|
  {
    if events != [] {
      var s' := Step(s, events[0]);
      if events[0] == Advance(j) {
        CreatorStays(s', s.calls[j].0, j, events[1..]);
      } else {
        CreateGoesOn(s', j, events[1..]);
      }
    }
  }

  /** A call of `p` that looks under its own key after `p` has a group never creates one. */
  lemma {:induction false} LateOwnLookup(s: State, p: Peer, j: nat, events: seq<Event>)
    requires p in Owners(s)
    requires j < |s.calls| && s.calls[j].0 == p ==> s.calls[j].1.LookOwn? || (s.calls[j].1.Returned? && s.calls[j].1.existed)
    ensures !Creator(Run(s, events), p, j)
    decreases |events|
  {
    if events != [] {
      OwnersGrow(s, events[0]);
      LateOwnLookup(Step(s, events[0]), p, j, events[1..]);
    }
  }

  /** Nor does one that looks under the peer's key after the peer has one. */
  lemma {:induction false} LatePeerLookup(s: State, p: Peer, j: nat, events: seq<Event>)
    requires p.Other() in Owners(s)
    requires j < |s.calls| && s.calls[j].0 == p ==>
      s.calls[j].1.LookOwn? || s.calls[j].1.LookPeer? || (s.calls[j].1.Returned? && s.calls[j].1.existed)
    ensures !Creator(Run(s, events), p, j)
    decreases |events|
  {
    if events != [] {
      OwnersGrow(s, events[0]);
      LatePeerLookup(Step(s, events[0]), p, j, events[1..]);
    }
  }

  /** Of two calls that both create, one is first: it creates by event `k`, before which neither
      has. */
  lemma {:induction false} FirstCreation(s: State, p: Peer, i: nat, q: Peer, j: nat, events: seq<Event>)
    returns (k: nat, iFirst: bool)
    requires !Creator(s, p, i) && !Creator(s, q, j)
    requires Creator(Run(s, events), p, i) && Creator(Run(s, events), q, j)
    ensures k < |events|
    ensures var t := Run(s, events[..k]);
      && !Creator(t, p, i) && !Creator(t, q, j)
      && (if iFirst then i < |t.calls| && t.calls[i] == (p, Create) && events[k] == Advance(i)
          else j < |t.calls| && t.calls[j] == (q, Create) && events[k] == Advance(j))
    ensures Run(s, events) == Run(Run(s, events[..k]), events[k..])
    decreases |events|
  {
    var s' := Step(s, events[0]);
    assert events[..0] == [] && events[0..] == events;
    if Creator(s', p, i) {
      k, iFirst := 0, true;
    } else if Creator(s', q, j) {
      k, iFirst := 0, false;
    } else {
      var m, first := FirstCreation(s', p, i, q, j, events[1..]);
      k, iFirst := m + 1, first;
      assert events[..k][1..] == events[1..][..m] && events[k..] == events[1..][m..];
    }
  }

  /** At this moment call `i` of `p` is about to create, call `j` has looked under its own key
      already, and both go on. */
  ghost predicate OwnCallsCross(events: seq<Event>, p: Peer, k: int, i: nat, j: nat) {
    0 <= k <= |events| &&
    var t := Run(NOTHING, events[..k]);
    && i != j && i < |t.calls| && t.calls[i] == (p, Create)
    && PastOwnLookup(t, j) && t.calls[j].0 == p
    && GoesOn(t, i, events[k..]) && GoesOn(t, j, events[k..])
  }

  predicate CreatesTwice(s: State, p: Peer) {
    exists k, m :: 0 <= k < m < |s.created| && s.created[k].0 == p && s.created[m].0 == p
  }

  lemma CrossingCreates(events: seq<Event>, p: Peer, k: int, i: nat, j: nat)
    requires OwnCallsCross(events, p, k, i, j)
    ensures CreatesTwice(Run(NOTHING, events), p)
  {
    var t, s := Run(NOTHING, events[..k]), Run(NOTHING, events);
    assert events == events[..k] + events[k..];
    RunOfConcatenation(NOTHING, events[..k], events[k..]);
    GoesOnToCreate(t, i, events[k..]);
    GoesOnToCreate(t, j, events[k..]);
    RunKeepsSound(NOTHING, events);
    assert (p, i) in s.created && (p, j) in s.created;
    var x :| 0 <= x < |s.created| && s.created[x] == (p, i);
    var y :| 0 <= y < |s.created| && s.created[y] == (p, j);
    assert x < y || y < x;
  }

  lemma TwoCreationsCross(events: seq<Event>, p: Peer, i: nat, j: nat) returns (k: nat, iFirst: bool)
    requires i != j && Creator(Run(NOTHING, events), p, i) && Creator(Run(NOTHING, events), p, j)
    ensures if iFirst then OwnCallsCross(events, p, k, i, j) else OwnCallsCross(events, p, k, j, i)
  {
    k, iFirst := FirstCreation(NOTHING, p, i, p, j, events);
    var t := Run(NOTHING, events[..k]);
    var first, second := if iFirst then i else j, if iFirst then j else i;
    var t' := Step(t, events[k]);
    OwnersGrow(t, events[k]);
    assert events[k..][1..] == events[k + 1..];
    assert Run(t, events[k..]) == Run(t', events[k + 1..]);
    RunKeepsSound(NOTHING, events[..k]);
    if !(PastOwnLookup(t, second) && t.calls[second].0 == p) {
      CallerStays(t, p, second, events[k..]);
      LateOwnLookup(t', p, second, events[k + 1..]);
    }
    GoesOnToCreate(t, first, events[k..]);
    GoesOnToCreate(t, second, events[k..]);
  }

  lemma {:induction false} CallerStays(s: State, p: Peer, i: nat, events: seq<Event>)
    requires Creator(Run(s, events), p, i)
    ensures i < |s.calls| ==> s.calls[i].0 == p
    ensures i < |s.calls| && s.calls[i].1.Returned? ==> Creator(s, p, i)
    decreases |events|
  {
    if events != [] {
      CallerStays(Step(s, events[0]), p, i, events[1..]);
    }
  }

  /** A peer creates a second group exactly when two of its own calls cross: when one is about to
      create, the other has looked under its own key, and neither finds one of the peer's. */
  lemma CreatesTwiceExactly(events: seq<Event>, p: Peer)
    ensures CreatesTwice(Run(NOTHING, events), p) <==> exists k, i, j :: OwnCallsCross(events, p, k, i, j)
  {
    var s := Run(NOTHING, events);
    if CreatesTwice(s, p) {
      var x, y :| 0 <= x < y < |s.created| && s.created[x].0 == p && s.created[y].0 == p;
      RunKeepsSound(NOTHING, events);
      assert s.created[x] in s.created && s.created[y] in s.created && s.created[x] != s.created[y];
      var k, iFirst := TwoCreationsCross(events, p, s.created[x].1, s.created[y].1);
    }
    forall k, i, j | OwnCallsCross(events, p, k, i, j) ensures CreatesTwice(s, p) {
      CrossingCreates(events, p, k, i, j);
    }
  }

  // ----- groups of both peers -----------------------------------------------------------------------------

  /** At this moment a call of each peer has passed both lookups and goes on to create. */
  ghost predicate PeersCross(events: seq<Event>, k: int, i: nat, j: nat) {
    0 <= k <= |events| &&
    var t := Run(NOTHING, events[..k]);
    && i < |t.calls| && t.calls[i] == (A, Create) && Advance(i) in events[k..]
    && j < |t.calls| && t.calls[j] == (B, Create) && Advance(j) in events[k..]
  }

  lemma BothCreatorsCross(events: seq<Event>, i: nat, j: nat) returns (k: nat)
    requires Creator(Run(NOTHING, events), A, i) && Creator(Run(NOTHING, events), B, j)
    ensures PeersCross(events, k, i, j)
  {
    var iFirst;
    k, iFirst := FirstCreation(NOTHING, A, i, B, j, events);
    var t := Run(NOTHING, events[..k]);
    var p, second := if iFirst then B else A, if iFirst then j else i;
    var t' := Step(t, events[k]);
    OwnersGrow(t, events[k]);
    assert events[k..][1..] == events[k + 1..];
    assert Run(t, events[k..]) == Run(t', events[k + 1..]);
    CallerStays(t, p, second, events[k..]);
    if !(second < |t.calls| && t.calls[second].1.Create?) {
      LatePeerLookup(t', p, second, events[k + 1..]);
    }
    CreateGoesOn(t, i, events[k..]);
    CreateGoesOn(t, j, events[k..]);
  }

  lemma OwnerHasCreator(s: State, p: Peer) returns (i: nat)
    requires Sound(s) && p in Owners(s)
    ensures Creator(s, p, i)
  {
    var c :| c in s.created && c.0 == p;
    i := c.1;
  }

  /** Over every run both peers come to own a group exactly when two calls of theirs cross: each
      has looked under the other's key before the other's creation. */
  lemma BothOwnExactly(events: seq<Event>)
    ensures var owners := Owners(Run(NOTHING, events));
      A in owners && B in owners <==> exists k, i, j :: PeersCross(events, k, i, j)
  {
    var s := Run(NOTHING, events);
    RunKeepsSound(NOTHING, events);
    if A in Owners(s) && B in Owners(s) {
      var i := OwnerHasCreator(s, A);
      var j := OwnerHasCreator(s, B);
      var k := BothCreatorsCross(events, i, j);
    }
    forall k, i: nat, j: nat | PeersCross(events, k, i, j) ensures A in Owners(s) && B in Owners(s) {
      assert events == events[..k] + events[k..];
      RunOfConcatenation(NOTHING, events[..k], events[k..]);
      CreateGoesOn(Run(NOTHING, events[..k]), i, events[k..]);
      CreateGoesOn(Run(NOTHING, events[..k]), j, events[k..]);
      assert (A, i) in s.created && (B, j) in s.created;
    }
  }

  /** A whole call that nothing else interrupts. */
  function Whole(s: State, p: Peer): seq<Event> {
    [Start(p)] + [Advance(|s.calls|)] + [Advance(|s.calls|)] + [Advance(|s.calls|)]
  }

  function LastCall(s: State): Call {
    if s.calls == [] then LookOwn else s.calls[|s.calls| - 1].1
  }

  lemma WholeReturns(s: State, p: Peer)
    ensures var s' := Run(s, Whole(s, p));
      && |s'.calls| == |s.calls| + 1
      && s'.calls[|s.calls|] == (p, Returned(WholeCall(Owners(s), p).0, WholeCall(Owners(s), p).1))
      && (WholeCall(Owners(s), p).1 ==> s'.created == s.created)
  {
    var n := |s.calls|;
    var events := Whole(s, p);
    assert events[1..] == [Advance(n)] + [Advance(n)] + [Advance(n)];
    assert events[1..][1..] == [Advance(n)] + [Advance(n)];
    assert events[1..][1..][1..] == [Advance(n)];
    assert events[1..][1..][1..][1..] == [];
    var s1 := Step(s, Start(p));
    var s2 := Step(s1, Advance(n));
    var s3 := Step(s2, Advance(n));
    assert Owners(s1) == Owners(s) && Owners(s2) == Owners(s) && Owners(s3) == Owners(s);
    assert Run(s, events) == Run(s1, events[1..]) == Run(s2, events[1..][1..]);
    assert Run(s2, events[1..][1..]) == Run(s3, [Advance(n)]) == Step(s3, Advance(n));
  }

  /** In every state that a run reaches with a group there, later calls find one, and the peers are
      told the same owner exactly when no calls of theirs have crossed; otherwise each is told its
      own for ever. */
  lemma PeersAgreeExactly(events: seq<Event>)
    requires Run(NOTHING, events).created != []
    ensures var s := Run(NOTHING, events);
      var a, b := LastCall(Run(s, Whole(s, A))), LastCall(Run(s, Whole(s, B)));
      && a.Returned? && a.existed && b.Returned? && b.existed
      && (A in Owners(s) ==> a.owner == A) && (B in Owners(s) ==> b.owner == B)
      && (a.owner == b.owner <==> !exists k, i, j :: PeersCross(events, k, i, j))
  {
    var s := Run(NOTHING, events);
    WholeReturns(s, A);
    WholeReturns(s, B);
    BothOwnExactly(events);
    assert s.created[0] in s.created && s.created[0].0 in Owners(s);
    WholeCallsAgree(Owners(s));
  }

  lemma WholeCallsAgree(groups: set<Peer>)
    requires exists p :: p in groups
    ensures WholeCall(groups, A).1 && WholeCall(groups, B).1
    ensures WholeCall(groups, A).0 == WholeCall(groups, B).0 <==> !(A in groups && B in groups)
  {
    var some :| some in groups;
    assert some == A || some == B;
  }

  // ----- runs that show it ----------------------------------------------------------------------------------

  /** Two calls that overlap do create both: each looked before the other's group was there. */
  lemma OverlapMayCreateTwo()
    ensures var s0 := Step(Step(NOTHING, Start(A)), Start(B));
      var s1 := Step(Step(s0, Advance(0)), Advance(1));
      var s2 := Step(Step(s1, Advance(0)), Advance(1));
      var s3 := Step(Step(s2, Advance(0)), Advance(1));
      s3.created == [(A, 0), (B, 1)] && s3.calls == [(A, Returned(A, false)), (B, Returned(B, false))]
  {
  }

  /** Two calls of one peer create twice, even when the second looks under the peer's key only
      after the first creation: its own key it looked under before. */
  lemma OwnOverlapCreatesTwice(p: Peer)
    ensures var s0 := Step(Step(NOTHING, Start(p)), Start(p));
      var s1 := Step(Step(s0, Advance(0)), Advance(1));
      var s2 := Step(Step(s1, Advance(0)), Advance(0));
      var s3 := Step(Step(s2, Advance(1)), Advance(1));
      && s2.created == [(p, 0)] && s2.calls[1] == (p, LookPeer)
      && s3.created == [(p, 0), (p, 1)] && s3.calls == [(p, Returned(p, false)), (p, Returned(p, false))]
  {
    var s0 := Step(Step(NOTHING, Start(p)), Start(p));
    var s1 := Step(Step(s0, Advance(0)), Advance(1));
    var s2 := Step(Step(s1, Advance(0)), Advance(0));
    assert Owners(s1) == {} && Owners(Step(s1, Advance(0))) == {};
    assert forall q :: q in Owners(s2) ==> q == p;
  }
}
