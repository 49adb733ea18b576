/** The trie behind the bus: patterns are inserted segment by segment, a topic is walked
    once. Every public method refines its counterpart in `BusSpec`. */
module EventBus {
  import opened Sequences
  import opened Sorting
  import opened Topics
  import opened BusSpec
  import opened Dispatch
  import opened Wrappers

  predicate Belongs(e: Entry, path: seq<string>, globstar: bool) {
    e.TriePath() == path && e.Globstar() == globstar
  }

  /** Live entries with this trie path, split by whether the pattern ended in `**`. */
  function At(live: seq<Entry>, path: seq<string>, globstar: bool): seq<Entry> {
    if live == [] then []
    else
      var rest := At(live[1..], path, globstar);
      if Belongs(live[0], path, globstar) then [live[0]] + rest else rest
  }

  /** What the walk gathers from the node at `path` with the topic segments `rest` to go.
      A literal child is never stored under "*", so that branch is taken once. */
  function Gathered(live: seq<Entry>, path: seq<string>, rest: seq<string>): seq<Entry>
    decreases |rest|
  {
    At(live, path, true) +
    if rest == [] then At(live, path, false)
    else
      (if rest[0] == STAR then [] else Gathered(live, path + [rest[0]], rest[1..]))
      + Gathered(live, path + [STAR], rest[1..])
  }

  predicate Reached(e: Entry, path: seq<string>, rest: seq<string>) {
    path <= e.TriePath() && PathMatches(e.TriePath()[|path|..], e.Globstar(), rest)
  }

  /** What the two branches below a node contribute. */
  lemma Branches(live: seq<Entry>, path: seq<string>, segments: seq<string>, i: nat)
    returns (literal: seq<Entry>, star: seq<Entry>)
    requires i < |segments|
    ensures literal == if segments[i] == STAR then [] else Gathered(live, path + [segments[i]], segments[i + 1..])
    ensures star == Gathered(live, path + [STAR], segments[i + 1..])
    ensures Gathered(live, path, segments[i..]) == At(live, path, true) + (literal + star)
  {
    assert segments[i..][1..] == segments[i + 1..];
    literal := if segments[i] == STAR then [] else Gathered(live, path + [segments[i]], segments[i + 1..]);
    star := Gathered(live, path + [STAR], segments[i + 1..]);
  }

  lemma GatheredAtEnd(live: seq<Entry>, path: seq<string>, segments: seq<string>)
    ensures Gathered(live, path, segments[|segments|..]) == At(live, path, true) + At(live, path, false)
  {
  }

  lemma {:induction false} AtElements(live: seq<Entry>, path: seq<string>, globstar: bool, e: Entry)
    ensures multiset(At(live, path, globstar))[e]
      == if Belongs(e, path, globstar) then multiset(live)[e] else 0
  {
    if live != [] {
      AtElements(live[1..], path, globstar, e);
      assert live == [live[0]] + live[1..];
    }
  }

  /** The walk meets every entry whose path matches what is left of the topic exactly as
      often as it is live, and no other entry. */
  lemma {:induction false} GatheredElements(live: seq<Entry>, path: seq<string>, rest: seq<string>, e: Entry)
    ensures multiset(Gathered(live, path, rest))[e] == if Reached(e, path, rest) then multiset(live)[e] else 0
    decreases |rest|
  {
    AtElements(live, path, true, e);
    AtElements(live, path, false, e);
    ReachedUnfolds(e, path, rest);
    if rest != [] {
      GatheredElements(live, path + [rest[0]], rest[1..], e);
      GatheredElements(live, path + [STAR], rest[1..], e);
    }
  }

  lemma ReachedUnfolds(e: Entry, path: seq<string>, rest: seq<string>)
    ensures rest == [] ==> (Reached(e, path, rest) <==> e.TriePath() == path)
    ensures rest != [] ==>
      var literal := rest[0] != STAR && Reached(e, path + [rest[0]], rest[1..]);
      var star := Reached(e, path + [STAR], rest[1..]);
      && (Reached(e, path, rest) <==> (e.TriePath() == path && e.Globstar()) || literal || star)
      && !(literal && star)
      && (e.TriePath() == path ==> !literal && !star)
  {
    var full := e.TriePath();
    if path <= full && path != full {
      var tail := full[|path|..];
      assert full[..|path|] == path;
      assert full[|path| + 1..] == tail[1..];
      assert full[..|path| + 1] == path + [tail[0]];
      if rest != [] {
        assert path + [rest[0]] <= full <==> tail[0] == rest[0];
        assert path + [STAR] <= full <==> tail[0] == STAR;
      }
    } else if rest != [] {
      assert path <= path + [rest[0]] && path <= path + [STAR];
    }
  }

  /** So the walk from the root gathers what the naive matcher accepts. */
  lemma WalkIsNaiveMatch(b: Bus, topic: string)
    requires Valid(b)
    ensures StableSort(Gathered(b.live, [], Split(topic, '.')), ByOrder) == Deliveries(b, topic)
  {
    var gathered := Gathered(b.live, [], Split(topic, '.'));
    forall e: Entry ensures multiset(gathered)[e] == if e.Hears(topic) then multiset(b.live)[e] else 0 {
      GatheredElements(b.live, [], Split(topic, '.'), e);
      assert e.TriePath()[0..] == e.TriePath();
      if e in b.live {
        PathMatchesIsMatches(e.Segments(), Split(topic, '.'));
      }
    }
    CollectedInAnyOrder(b, topic, gathered);
  }

  lemma {:induction false} AtIsEmpty(live: seq<Entry>, path: seq<string>, globstar: bool)
    requires forall e :: e in live ==> e.TriePath() != path
    ensures At(live, path, globstar) == []
  {
    if live != [] {
      AtIsEmpty(live[1..], path, globstar);
    }
  }

  lemma {:induction false} GatheredIsEmpty(live: seq<Entry>, path: seq<string>, rest: seq<string>)
    requires forall e :: e in live ==> !(path <= e.TriePath())
    ensures Gathered(live, path, rest) == []
    decreases |rest|
  {
    AtIsEmpty(live, path, true);
    AtIsEmpty(live, path, false);
    if rest != [] {
      forall e, s | e in live ensures !(path + [s] <= e.TriePath()) {
        assert path <= path + [s];
      }
      GatheredIsEmpty(live, path + [rest[0]], rest[1..]);
      GatheredIsEmpty(live, path + [STAR], rest[1..]);
    }
  }

  lemma {:induction false} AtAfterRemoval(live: seq<Entry>, e: Entry, path: seq<string>, globstar: bool)
    requires e in live
    ensures At(RemoveFirst(live, e), path, globstar)
      == if Belongs(e, path, globstar) then RemoveFirst(At(live, path, globstar), e)
         else At(live, path, globstar)
  {
    var rest := At(live[1..], path, globstar);
    RemoveFirstOfCons(live[0], live[1..], e);
    assert live == [live[0]] + live[1..];
    RemoveFirstOfCons(live[0], rest, e);
    if live[0] != e {
      AtAfterRemoval(live[1..], e, path, globstar);
      AtOfCons(live[0], RemoveFirst(live[1..], e), path, globstar);
    }
  }

  lemma AtOfCons(x: Entry, live: seq<Entry>, path: seq<string>, globstar: bool)
    ensures At([x] + live, path, globstar)
      == if Belongs(x, path, globstar) then [x] + At(live, path, globstar) else At(live, path, globstar)
  {
    assert ([x] + live)[1..] == live;
  }

  lemma {:induction false} AtOfAppend(live: seq<Entry>, e: Entry, path: seq<string>, globstar: bool)
    ensures At(live + [e], path, globstar)
      == At(live, path, globstar) + if Belongs(e, path, globstar) then [e] else []
  {
    if live != [] {
      assert (live + [e])[1..] == live[1..] + [e];
      AtOfAppend(live[1..], e, path, globstar);
    }
  }

  // ----- the mutable trie ------------------------------------------------------------

  class Node {
    var literal: map<string, Node>
    var star: Node?
    var globstarHandlers: seq<Entry>
    var handlers: seq<Entry>

    constructor ()
      ensures literal == map[] && star == null && globstarHandlers == [] && handlers == []
    {
      literal, star, globstarHandlers, handlers := map[], null, [], [];
    }

    function Next(segment: string): Node?
      reads this`literal, this`star
    {
      if segment == STAR then star else if segment in literal then literal[segment] else null
    }

    /** The child for `segment`, made on first use. */
    method Child(segment: string) returns (child: Node)
      modifies this`literal, this`star
      ensures Next(segment) == child
      ensures forall s :: s != segment ==> Next(s) == old(Next(s))
      ensures if old(Next(segment)) != null then child == old(Next(segment))
              else fresh(child) && child.handlers == [] && child.globstarHandlers == [] && forall s :: child.Next(s) == null
    {
      if segment == STAR {
        if star == null {
          star := new Node();
        }
        return star;
      }
      if segment !in literal {
        var node := new Node();
        literal := literal[segment := node];
      }
      child := literal[segment];
    }
  }

  type ValidBus = b: Bus | Valid(b) witness EMPTY

  datatype Record = Record(pattern: string, node: Node, entry: Entry, isGlobstar: bool)

  class EventBus {
    var root: Node
    var byHandler: map<Handler, Record>
    var counter: nat
    ghost var nodes: map<seq<string>, Node>  // every trie node under its path
    ghost var model: ValidBus                // the bus as its users see it

    ghost predicate LinkOk(p: seq<string>, s: string)
      reads this`nodes, nodes.Values
    {
      p in nodes ==> nodes[p].Next(s) == if p + [s] in nodes then nodes[p + [s]] else null
    }

    ghost predicate ListOk(p: seq<string>)
      reads this`nodes, this`model, nodes.Values
    {
      p in nodes ==>
        nodes[p].handlers == At(model.live, p, false) && nodes[p].globstarHandlers == At(model.live, p, true)
    }

    ghost predicate Planted(p: seq<string>)
      reads this`nodes
    {
      p in nodes && (p != [] ==> p[..|p| - 1] in nodes)
    }

    ghost predicate Indexed(h: Handler)
      reads this`nodes, this`model, this`byHandler
    {
      h in byHandler ==>
        && h in model.index
        && Planted(model.index[h].TriePath())
        && byHandler[h] == RecordOf(model.index[h])
    }

    ghost function RecordOf(e: Entry): Record
      requires e.TriePath() in nodes
      reads this`nodes
    {
      Record(e.pattern, nodes[e.TriePath()], e, e.Globstar())
    }

    /** The nodes form a tree, linked as their paths say. */
    ghost predicate TrieOk()
      reads this`nodes, this`root, nodes.Values
    {
      && [] in nodes && nodes[[]] == root
      && (forall p, q {:trigger nodes[p], nodes[q]} :: p in nodes && q in nodes && p != q ==> nodes[p] != nodes[q])
      && (forall p {:trigger Planted(p)} :: p in nodes ==> Planted(p))
      && (forall p, s {:trigger LinkOk(p, s)} :: LinkOk(p, s))
    }

    /** Each node lists the live entries of its path, in order of registration. */
    ghost predicate ListsOk()
      reads this`nodes, this`model, nodes.Values
    {
      && (forall p {:trigger ListOk(p)} :: ListOk(p))
      && (forall e {:trigger Planted(e.TriePath())} :: e in model.live ==> Planted(e.TriePath()))
    }

    ghost predicate IndexOk()
      reads this`nodes, this`model, this`byHandler
    {
      && byHandler.Keys == model.index.Keys
      && (forall h {:trigger Indexed(h)} :: Indexed(h))
    }

    ghost predicate Ok()
      reads this, nodes.Values
    {
      TrieOk() && ListsOk() && IndexOk() && counter == model.next
    }

    constructor ()
      ensures Ok() && model == EMPTY && fresh(nodes.Values)
    {
      var node := new Node();
      root, byHandler, counter := node, map[], 0;
      nodes, model := map[[] := node], EMPTY;
    }

    lemma NothingAt(p: seq<string>)
      requires ListsOk() && p !in nodes
      ensures At(model.live, p, true) == [] && At(model.live, p, false) == []
    {
      forall e | e in model.live ensures e.TriePath() != p {
        assert Planted(e.TriePath());
      }
      AtIsEmpty(model.live, p, true);
      AtIsEmpty(model.live, p, false);
    }

    /** One step down the trie for a pattern; the subscriptions do not change. */
    method Descend(node: Node, ghost path: seq<string>, segment: string) returns (child: Node)
      requires Ok() && path in nodes && nodes[path] == node
      modifies this`nodes, node`literal, node`star
      ensures Ok() && path + [segment] in nodes && nodes[path + [segment]] == child
      ensures fresh(nodes.Values - old(nodes.Values))
    {
      ghost var target := path + [segment];
      assert LinkOk(path, segment);
      if target !in nodes {
        NothingAt(target);
      }
      child := node.Child(segment);
      if target !in nodes {
        nodes := nodes[target := child];
      }
      forall p, s {:trigger LinkOk(p, s)} | p in old(nodes)
        ensures nodes[p].Next(s) == if p == path && s == segment then child else old(nodes[p].Next(s))
      {
        if p != path {
          assert old(nodes)[p] != old(nodes)[path];
        }
      }
      LinksGrow(path, segment, child);
      forall p ensures ListOk(p) {
        assert old(ListOk(p));
      }
      forall e | e in model.live ensures Planted(e.TriePath()) {
        assert old(Planted(e.TriePath()));
      }
      forall h ensures Indexed(h) {
        assert old(Indexed(h));
      }
    }

    twostate lemma LinksGrow(new path: seq<string>, new segment: string, new child: Node)
      requires old(TrieOk()) && path in old(nodes) && root == old(root)
      requires var target := path + [segment];
        nodes == (if target in old(nodes) then old(nodes) else old(nodes)[target := child])
      requires path + [segment] in old(nodes) ==> child == old(nodes)[path + [segment]]
      requires path + [segment] !in old(nodes) ==> child !in old(nodes.Values) && forall s :: child.Next(s) == null
      requires forall p, s {:trigger LinkOk(p, s)} :: p in old(nodes) ==>
        nodes[p].Next(s) == if p == path && s == segment then child else old(nodes[p].Next(s))
      ensures TrieOk()
    {
      var target := path + [segment];
      assert target[..|target| - 1] == path;
      forall p, s ensures LinkOk(p, s) {
        assert old(LinkOk(p, s));
        assert (p + [s])[..|p + [s]| - 1] == p;
        if p == target && target !in old(nodes) {
          assert p + [s] in old(nodes) ==> old(Planted(p + [s]));
        } else if p + [s] == target {
          assert (p + [s])[|p|] == target[|path|];
        }
      }
      forall p | p in nodes ensures Planted(p) {
        assert p in old(nodes) ==> old(Planted(p));
      }
    }

    /** `on`: refuses the empty pattern and a misplaced `**`. In the second case trie nodes
        may already have been made, and still no subscription has changed. */
    method On(pattern: string, handler: Handler, order: real) returns (accepted: bool)
      requires Ok()
      modifies this, nodes.Values
      ensures Ok() && fresh(nodes.Values - old(nodes.Values))
      ensures accepted == PatternOk(pattern)
      ensures model == ApplyOn(old(model), pattern, handler, order)
    {
      if pattern == "" {
        return false;
      }
      var segments := Split(pattern, '.');
      var node := root;
      var isGlobstar := false;
      var i := 0;
      while i < |segments|
        invariant 0 <= i <= |segments|
        invariant Ok() && model == old(model)
        invariant fresh(nodes.Values - old(nodes.Values))
        invariant segments[..i] in nodes && nodes[segments[..i]] == node
        invariant forall k :: 0 <= k < i ==> segments[k] != GLOBSTAR
        invariant !isGlobstar
      {
        if segments[i] == GLOBSTAR {
          if i != |segments| - 1 {
            return false;
          }
          isGlobstar := true;
          break;
        }
        node := Descend(node, segments[..i], segments[i]);
        assert segments[..i + 1] == segments[..i] + [segments[i]];
        i := i + 1;
      }
      assert PatternOk(pattern);
      assert segments[..i] == Path(segments) && isGlobstar == EndsInGlobstar(segments);
      var entry := Entry(handler, order, counter, pattern);
      Attach(node, entry, isGlobstar);
      accepted := true;
    }

    /** The links of the trie were left alone. */
    twostate predicate SameTrie()
      reads this`nodes, this`root, nodes.Values
    {
      && nodes == old(nodes) && root == old(root)
      && forall p :: p in nodes ==> nodes[p].literal == old(nodes[p].literal) && nodes[p].star == old(nodes[p].star)
    }

    twostate lemma TrieStays()
      requires old(TrieOk()) && SameTrie()
      ensures TrieOk()
    {
      forall p | p in nodes ensures Planted(p) {
        assert old(Planted(p));
      }
      forall p, s ensures LinkOk(p, s) {
        assert old(LinkOk(p, s));
      }
    }

    twostate predicate Pushed(new p: seq<string>, new entry: Entry, new toGlobstar: bool, new toHandlers: bool)
      requires p in nodes && p in old(nodes) && nodes[p] == old(nodes[p])
      reads this`nodes, nodes.Values
    {
      && nodes[p].globstarHandlers == old(nodes[p].globstarHandlers) + (if toGlobstar then [entry] else [])
      && nodes[p].handlers == old(nodes[p].handlers) + (if toHandlers then [entry] else [])
    }

    twostate predicate Spliced(new p: seq<string>, new entry: Entry, new fromGlobstar: bool, new fromHandlers: bool)
      requires p in nodes && p in old(nodes) && nodes[p] == old(nodes[p])
      reads this`nodes, nodes.Values
    {
      && nodes[p].globstarHandlers
         == (if fromGlobstar then RemoveFirst(old(nodes[p].globstarHandlers), entry) else old(nodes[p].globstarHandlers))
      && nodes[p].handlers
         == (if fromHandlers then RemoveFirst(old(nodes[p].handlers), entry) else old(nodes[p].handlers))
    }

    twostate lemma ListsGrow(new path: seq<string>, new globstar: bool, new entry: Entry)
      requires old(TrieOk() && ListsOk()) && SameTrie() && path in nodes
      requires path == entry.TriePath() && globstar == entry.Globstar() && model.live == old(model.live) + [entry]
      requires forall p :: p in nodes ==> Pushed(p, entry, p == path && globstar, p == path && !globstar)
      ensures ListsOk()
    {
      forall p ensures ListOk(p) {
        assert old(ListOk(p));
        AtOfAppend(old(model.live), entry, p, true);
        AtOfAppend(old(model.live), entry, p, false);
      }
      forall e | e in model.live ensures Planted(e.TriePath()) {
        assert e in old(model.live) ==> old(Planted(e.TriePath()));
        assert old(Planted(path));
      }
    }

    twostate lemma IndexGrows(new node: Node, new entry: Entry, new isGlobstar: bool)
      requires old(IndexOk()) && nodes == old(nodes) && Planted(entry.TriePath())
      requires node == nodes[entry.TriePath()] && isGlobstar == entry.Globstar()
      requires model.index == old(model.index)[entry.handler := entry]
      requires byHandler == old(byHandler)[entry.handler := Record(entry.pattern, node, entry, isGlobstar)]
      ensures IndexOk()
    {
      forall h ensures Indexed(h) {
        assert old(Indexed(h));
      }
    }

    twostate lemma IndexShrinks(new handler: Handler)
      requires old(IndexOk()) && nodes == old(nodes)
      requires model.index == old(model.index) - {handler} && byHandler == old(byHandler) - {handler}
      ensures IndexOk()
    {
      forall h ensures Indexed(h) {
        assert old(Indexed(h));
      }
    }

    twostate lemma ListsShrink(new path: seq<string>, new globstar: bool, new entry: Entry)
      requires old(TrieOk() && ListsOk()) && SameTrie() && path in nodes && entry in old(model.live)
      requires path == entry.TriePath() && globstar == entry.Globstar() && model.live == RemoveFirst(old(model.live), entry)
      requires forall p :: p in nodes ==> Spliced(p, entry, p == path && globstar, p == path && !globstar)
      ensures ListsOk()
    {
      forall p ensures ListOk(p) {
        assert old(ListOk(p));
        AtAfterRemoval(old(model.live), entry, p, true);
        AtAfterRemoval(old(model.live), entry, p, false);
      }
      forall e | e in model.live ensures Planted(e.TriePath()) {
        RemoveFirstAddsNothing(old(model.live), entry, e);
        assert old(Planted(e.TriePath()));
      }
    }

    /** The last three statements of `on`: push the entry and record it by handler. */
    method Attach(node: Node, entry: Entry, isGlobstar: bool)
      requires Ok() && entry.ticket == counter && PatternOk(entry.pattern)
      requires entry.TriePath() in nodes && nodes[entry.TriePath()] == node && isGlobstar == entry.Globstar()
      modifies this`counter, this`byHandler, this`model, node`handlers, node`globstarHandlers
      ensures Ok() && model == ApplyOn(old(model), entry.pattern, entry.handler, entry.order)
    {
      ghost var path := entry.TriePath();
      assert Planted(path);
      counter := counter + 1;
      PushEntry(node, path, entry, isGlobstar);
      byHandler := byHandler[entry.handler := Record(entry.pattern, node, entry, isGlobstar)];
      ApplyKeepsValid(model, Op.On(entry.pattern, entry.handler, entry.order));
      model := ApplyOn(model, entry.pattern, entry.handler, entry.order);
      TrieStays();
      ListsGrow(path, isGlobstar, entry);
      IndexGrows(node, entry, isGlobstar);
    }

    /** `off`: a pattern or handler that does not match changes nothing. */
    method Off(pattern: string, handler: Handler)
      requires Ok()
      modifies this, nodes.Values
      ensures Ok() && nodes == old(nodes)
      ensures model == ApplyOff(old(model), pattern, handler)
    {
      assert Indexed(handler);
      if handler !in byHandler || byHandler[handler].pattern != pattern {
        return;
      }
      var found := byHandler[handler];
      Forget(found.node, handler, found.entry, found.isGlobstar);
    }

    /** The removal in `off`, once the record has been found. */
    method Forget(node: Node, handler: Handler, entry: Entry, isGlobstar: bool)
      requires Ok() && handler in model.index && model.index[handler] == entry
      requires entry.TriePath() in nodes && nodes[entry.TriePath()] == node && isGlobstar == entry.Globstar()
      modifies this`byHandler, this`model, node`handlers, node`globstarHandlers
      ensures Ok()
      ensures model == Without(old(model), handler)
    {
      ghost var path := entry.TriePath();
      WithoutKeepsValid(model, handler);
      Detach(node, path, entry, isGlobstar);
      byHandler := byHandler - {handler};
      model := Without(model, handler);
      ForgetKeepsOk(path, handler, entry, isGlobstar);
    }

    twostate lemma ForgetKeepsOk(new path: seq<string>, new handler: Handler, new entry: Entry, new isGlobstar: bool)
      requires old(Ok()) && handler in old(model).index && old(model).index[handler] == entry
      requires path in nodes && path == entry.TriePath() && isGlobstar == entry.Globstar()
      requires model == Without(old(model), handler) && byHandler == old(byHandler) - {handler} && counter == old(counter)
      requires SameTrie()
      requires forall p :: p in nodes ==> Spliced(p, entry, p == path && isGlobstar, p == path && !isGlobstar)
      ensures Ok()
    {
      TrieStays();
      ListsShrink(path, isGlobstar, entry);
      IndexShrinks(handler);
    }

    /** The `push` of `on`. */
    method PushEntry(node: Node, ghost path: seq<string>, entry: Entry, isGlobstar: bool)
      requires TrieOk() && path in nodes && nodes[path] == node
      modifies node`handlers, node`globstarHandlers
      ensures SameTrie()
      ensures forall p :: p in nodes ==> Pushed(p, entry, p == path && isGlobstar, p == path && !isGlobstar)
    {
      if isGlobstar {
        node.globstarHandlers := node.globstarHandlers + [entry];
      } else {
        node.handlers := node.handlers + [entry];
      }
    }

    /** The `indexOf` and `splice` of `off`. */
    method Detach(node: Node, ghost path: seq<string>, entry: Entry, isGlobstar: bool)
      requires TrieOk() && path in nodes && nodes[path] == node
      modifies node`handlers, node`globstarHandlers
      ensures SameTrie()
      ensures forall p :: p in nodes ==> Spliced(p, entry, p == path && isGlobstar, p == path && !isGlobstar)
    {
      if isGlobstar {
        node.globstarHandlers := RemoveFirst(node.globstarHandlers, entry);
      } else {
        node.handlers := RemoveFirst(node.handlers, entry);
      }
    }

    /** `collectMatches`: what the walk from `node` pushes, in the order it pushes it. */
    method CollectMatches(node: Node, ghost path: seq<string>, segments: seq<string>, i: nat)
      returns (out: seq<Entry>)
      requires TrieOk() && ListsOk() && path in nodes && nodes[path] == node && i <= |segments|
      ensures out == Gathered(model.live, path, segments[i..])
      decreases |segments| - i, 1
    {
      assert ListOk(path);
      if i == |segments| {
        GatheredAtEnd(model.live, path, segments);
        return node.globstarHandlers + node.handlers;
      }
      ghost var _, _ := Branches(model.live, path, segments, i);
      var literal := [];
      if segments[i] != STAR {
        literal := CollectBelow(node, path, segments[i], segments, i);
      }
      var star := CollectBelow(node, path, STAR, segments, i);
      out := node.globstarHandlers + (literal + star);
    }

    /** One branch of the walk: the child of `node` for `segment`, if there is one. */
    method CollectBelow(node: Node, ghost path: seq<string>, segment: string, segments: seq<string>, i: nat)
      returns (out: seq<Entry>)
      requires TrieOk() && ListsOk() && path in nodes && nodes[path] == node && i < |segments|
      ensures out == Gathered(model.live, path + [segment], segments[i + 1..])
      decreases |segments| - i, 0
    {
      assert LinkOk(path, segment);
      var child := node.Next(segment);
      if child != null {
        out := CollectMatches(child, path + [segment], segments, i + 1);
      } else {
        NothingBelow(path, segment, segments[i + 1..]);
        out := [];
      }
    }

    lemma NothingBelow(path: seq<string>, segment: string, rest: seq<string>)
      requires TrieOk() && ListsOk()
      ensures path + [segment] !in nodes ==> Gathered(model.live, path + [segment], rest) == []
    {
      if path + [segment] !in nodes {
        forall e | e in model.live ensures !(path + [segment] <= e.TriePath()) {
          assert Planted(e.TriePath());
          if path + [segment] <= e.TriePath() {
            PrefixIsNode(e.TriePath(), path + [segment]);
          }
        }
        GatheredIsEmpty(model.live, path + [segment], rest);
      }
    }

    lemma {:induction false} PrefixIsNode(p: seq<string>, q: seq<string>)
      requires TrieOk() && p in nodes && q <= p
      ensures q in nodes
      decreases |p|
    {
      if p != q {
        assert Planted(p);
        PrefixIsNode(p[..|p| - 1], q);
      }
    }

    /** `#match`: the trie delivers to exactly whom the naive scan would, in its order. */
    method Match(topic: string) returns (out: Option<seq<Entry>>)
      requires Ok()
      ensures out == if topic == "" then None else Some(Deliveries(model, topic))
      ensures out.Some? ==>
        && (forall e :: e in out.value <==> e in model.live && e.Hears(topic))
        && (forall i, j :: 0 <= i < j < |out.value| ==>
              out.value[i].order < out.value[j].order
              || (out.value[i].order == out.value[j].order && out.value[i].ticket < out.value[j].ticket))
    {
      if topic == "" {
        return None;
      }
      ghost var b := model;
      var segments := Split(topic, '.');
      ghost var gathered := Gathered(b.live, [], segments);
      WalkIsNaiveMatch(b, topic);
      var matched := CollectMatches(root, [], segments, 0);
      assert segments[0..] == segments;
      assert matched == gathered;
      DeliveriesAreExact(b, topic);
      out := Some(StableSort(matched, ByOrder));
    }

    method ListenerCount(topic: string) returns (count: Option<nat>)
      requires Ok()
      ensures count == if topic == "" then None else Some(|Deliveries(model, topic)|)
    {
      var matched := Match(topic);
      count := if matched.None? then None else Some(|matched.value|);
    }

    /** What handlers do to the bus while a dispatch waits for them. */
    method Perform(ops: seq<Op>)
      requires Ok()
      modifies this, nodes.Values
      ensures Ok() && fresh(nodes.Values - old(nodes.Values))
      ensures model == Run(old(model), ops)
    {
      var i := 0;
      while i < |ops|
        invariant 0 <= i <= |ops|
        invariant Ok() && fresh(nodes.Values - old(nodes.Values))
        invariant model == Run(old(model), ops[..i])
        decreases |ops| - i
      {
        assert ops[..i + 1] == ops[..i] + [ops[i]];
        RunOfConcatenation(old(model), ops[..i], [ops[i]]);
        assert Run(model, [ops[i]]) == Apply(model, ops[i]);
        match ops[i] {
          case On(pattern, handler, order) => var _ := On(pattern, handler, order);
          case Off(pattern, handler) => Off(pattern, handler);
        }
        i := i + 1;
      }
      assert ops[..i] == ops;
    }

    /** `emit`: calls the handlers of the list matched at the start, up to the first one that
        stops it, with one failure for each that throws; what they register or take off in
        the meantime reaches the bus and not this dispatch. */
    method Emit(topic: string, script: Script, earlier: seq<Failure>)
      returns (called: seq<Entry>, failures: seq<Failure>, stopped: bool, rejected: bool)
      requires Ok()
      modifies this, nodes.Values
      ensures Ok() && fresh(nodes.Values - old(nodes.Values))
      ensures rejected == (topic == "")
      ensures rejected ==> called == [] && failures == earlier && !stopped && model == old(model)
      ensures !rejected ==>
        && Emitted(Deliveries(old(model), topic), topic, script, earlier, called, failures, stopped)
        && model == After(old(model), Deliveries(old(model), topic), script, |called|)
      ensures !rejected ==>
        && |earlier| <= |failures| && failures[..|earlier|] == earlier
        && RecordsThrows(called, topic, script, failures[|earlier|..])
    {
      var matched := Match(topic);
      if matched.None? {
        return [], earlier, false, true;
      }
      called, failures, stopped := Serve(matched.value, topic, script, earlier);
      ghost var at := FailuresAreExact(topic, matched.value, script, |called|);
      assert failures[|earlier|..] == FailuresOf(topic, matched.value, script, |called|);
      assert called == matched.value[..|called|];
      rejected := false;
    }

    /** The loop of `emit` over the list it matched. */
    method Serve(list: seq<Entry>, topic: string, script: Script, earlier: seq<Failure>)
      returns (called: seq<Entry>, failures: seq<Failure>, stopped: bool)
      requires Ok()
      modifies this, nodes.Values
      ensures Ok() && fresh(nodes.Values - old(nodes.Values))
      ensures Emitted(list, topic, script, earlier, called, failures, stopped)
      ensures model == After(old(model), list, script, |called|)
    {
      failures, stopped := earlier, false;
      var i := 0;
      while i < |list| && !stopped
        invariant 0 <= i <= |list|
        invariant Ok() && fresh(nodes.Values - old(nodes.Values))
        invariant failures == earlier + FailuresOf(topic, list, script, i)
        invariant stopped == (i > 0 && script(i - 1, list[i - 1]).stops)
        invariant Served(list, script, 0) == if stopped then i else Served(list, script, i)
        invariant model == After(old(model), list, script, i)
        decreases |list| - i
      {
        var reaction := script(i, list[i]);
        Perform(reaction.ops);
        stopped := reaction.stops;
        if reaction.outcome.Threw? {
          failures := failures + [Failure(topic, reaction.outcome.error)];
        }
        i := i + 1;
      }
      called := list[..i];
    }

    /** `collect`: every handler is asked; a throwing one contributes nothing. */
    method Collect(topic: string, script: Script) returns (out: Option<seq<nat>>)
      requires Ok()
      modifies this, nodes.Values
      ensures Ok() && fresh(nodes.Values - old(nodes.Values))
      ensures topic == "" ==> out == None && model == old(model)
      ensures topic != "" ==>
        var list := Deliveries(old(model), topic);
        && out == Some(AnswersOf(list, script, |list|))
        && model == After(old(model), list, script, |list|)
        && exists at :: AnswersAt(list, script, out.value, at)
    {
      var matched := Match(topic);
      if matched.None? {
        return None;
      }
      var items := Asked(matched.value, script);
      ghost var at := AnswersAreExact(matched.value, script, |matched.value|);
      assert matched.value[..|matched.value|] == matched.value;
      out := Some(items);
    }

    /** The loop of `collect` over the list it matched. */
    method Asked(list: seq<Entry>, script: Script) returns (items: seq<nat>)
      requires Ok()
      modifies this, nodes.Values
      ensures Ok() && fresh(nodes.Values - old(nodes.Values))
      ensures items == AnswersOf(list, script, |list|)
      ensures model == After(old(model), list, script, |list|)
    {
      items := [];
      var i := 0;
      while i < |list|
        invariant 0 <= i <= |list|
        invariant Ok() && fresh(nodes.Values - old(nodes.Values))
        invariant items == AnswersOf(list, script, i)
        invariant model == After(old(model), list, script, i)
      {
        var reaction := script(i, list[i]);
        Perform(reaction.ops);
        items := items + Spread(reaction.outcome);
        i := i + 1;
      }
    }

    /** `run`: the left fold of the patches; a throwing handler rejects the whole call. */
    method RunPatches(topic: string, payload: Payload, script: PatchScript) returns (out: Option<Result<Payload, nat>>)
      requires Ok()
      modifies this, nodes.Values
      ensures Ok() && fresh(nodes.Values - old(nodes.Values))
      ensures topic == "" ==> out == None && model == old(model)
      ensures topic != "" ==>
        var list := Deliveries(old(model), topic);
        && out == Some(Folded(list, script, 0, payload))
        && model == AfterFold(old(model), list, script, 0, payload)
    {
      var matched := Match(topic);
      if matched.None? {
        return None;
      }
      var result := Merged(matched.value, payload, script);
      out := Some(result);
    }

    /** The loop of `run` over the list it matched. */
    method Merged(list: seq<Entry>, payload: Payload, script: PatchScript) returns (out: Result<Payload, nat>)
      requires Ok()
      modifies this, nodes.Values
      ensures Ok() && fresh(nodes.Values - old(nodes.Values))
      ensures out == Folded(list, script, 0, payload)
      ensures model == AfterFold(old(model), list, script, 0, payload)
    {
      var current := payload;
      var i := 0;
      while i < |list|
        invariant 0 <= i <= |list|
        invariant Ok() && fresh(nodes.Values - old(nodes.Values))
        invariant Folded(list, script, 0, payload) == Folded(list, script, i, current)
        invariant AfterFold(old(model), list, script, 0, payload) == AfterFold(model, list, script, i, current)
      {
        var reaction := script(i, list[i], current);
        Perform(reaction.ops);
        match reaction.patch {
          case Broke(error) => return Result.Err(error);
          case Unchanged =>
          case Merge(fields) => current := current + fields;
        }
        i := i + 1;
      }
      out := Result.Ok(current);
    }
  }

  /** A fresh bus after any sequence of registrations and removals: the trie delivers a topic
      to exactly the live entries whose pattern matches it, lower orders first and equal orders as
      they were registered. */
  method DeliverAfter(ops: seq<Op>, topic: string) returns (out: Option<seq<Entry>>)
    ensures out.None? <==> topic == ""
    ensures out.Some? ==>
      && (forall e :: e in out.value <==> e in Run(EMPTY, ops).live && e.Hears(topic))
      && (forall i, j :: 0 <= i < j < |out.value| ==>
            out.value[i].order < out.value[j].order
            || (out.value[i].order == out.value[j].order && out.value[i].ticket < out.value[j].ticket))
  {
    var bus := new EventBus();
    bus.Perform(ops);
    out := bus.Match(topic);
    RunKeepsValid(EMPTY, ops);
    DeliveriesAreExact(Run(EMPTY, ops), topic);
  }
}
