/** The relay's live view of the platform registry: a rebuild watches every global app it
    meets, each new watch rebuilds in turn, and the last rebuild knows everything. */
module LiveAppResolver {
  import opened Sequences
  import opened Wrappers
  import opened PlatformRegistry
  import opened RelayResolver

  const ADMIN: string := "admin"
  const MAIN: string := "main"

  /** The deployment's part of the configuration, and the decoding of an owner's key. */
  datatype Deployment = Deployment(
    collectionKinds: seq<Kind>, groupKinds: seq<Kind>, hashes: Hashes, key: string -> Anchor)

  /** What the route registry of each global app holds: routes, with null entries. */
  type Routes = string -> seq<Option<string>>

  // ----- reading the log --------------------------------------------------------------------------

  predicate IsGlobal(e: Option<Entry>) {
    e.Some? && e.value.realm == Some(Global)
  }

  /** The prefixes of the global entries, in log order, as often as they occur. */
  function GlobalPrefixes(log: Log): seq<string> {
    if log == [] then []
    else GlobalPrefixes(log[..|log| - 1]) + if IsGlobal(log[|log| - 1]) then [log[|log| - 1].value.prefix] else []
  }

  /** The last non-empty list that a global entry of the prefix declares. */
  function LastDeclared(log: Log, prefix: string, field: ListField): seq<string> {
    if log == [] then []
    else
      var last := log[|log| - 1];
      if IsGlobal(last) && last.value.prefix == prefix && ListOf(last.value, field) != [] then ListOf(last.value, field)
      else LastDeclared(log[..|log| - 1], prefix, field)
  }

  function Owners(log: Log, key: string -> Anchor): seq<Anchor> {
    if log == [] then []
    else
      var last := log[|log| - 1];
      Owners(log[..|log| - 1], key) + if last.Some? && last.value.owner.Some? then [key(last.value.owner.value)] else []
  }

  function SharedNames(log: Log): seq<string> {
    if log == [] then []
    else
      var last := log[|log| - 1];
      SharedNames(log[..|log| - 1]) + if last.Some? then ListOf(last.value, SharedLists) else []
  }

  /** Every snapshot of a route registry taken so far, without its null entries. */
  function Published(routes: seq<Option<string>>): seq<string> {
    if routes == [] then []
    else Published(routes[..|routes| - 1]) + if routes[|routes| - 1].Some? then [routes[|routes| - 1].value] else []
  }

  function RoutesOf(synced: map<string, seq<Option<string>>>, prefix: string): seq<string> {
    if prefix in synced then Published(synced[prefix]) else []
  }

  function AppOf(log: Log, synced: map<string, seq<Option<string>>>, prefix: string): GlobalApp {
    GlobalApp(prefix,
              Unique((if prefix == ADMIN then [MAIN] else []) + LastDeclared(log, prefix, TemplateNames)),
              RoutesOf(synced, prefix),
              LastDeclared(log, prefix, StyleNames),
              LastDeclared(log, prefix, ViewNames))
  }

  /** What a rebuild hands to the classifier. */
  function ConfigOf(d: Deployment, log: Log, watched: seq<string>, synced: map<string, seq<Option<string>>>): Config {
    RelayResolver.Config(Owners(log, d.key), d.collectionKinds,
                         seq(|watched|, i requires 0 <= i < |watched| => AppOf(log, synced, watched[i])),
                         Unique(SharedNames(log)), d.groupKinds)
  }

  // ----- watching ---------------------------------------------------------------------------------

  function NewOnes(prefixes: seq<string>, watched: seq<string>): seq<string> {
    if prefixes == [] then []
    else (if prefixes[0] in watched then [] else [prefixes[0]]) + NewOnes(prefixes[1..], watched)
  }

  /** `watchedPrefixes.add` for each. */
  function AddAll(watched: seq<string>, more: seq<string>): seq<string> {
    Unique(watched + more)
  }

  ghost function Unwatched(log: Log, watched: seq<string>): set<string> {
    set p | p in GlobalPrefixes(log) && p !in watched
  }

  function SyncAll(synced: map<string, seq<Option<string>>>, prefixes: seq<string>, routes: Routes): map<string, seq<Option<string>>> {
    if prefixes == [] then synced else SyncAll(synced, prefixes[..|prefixes| - 1], routes)[prefixes[|prefixes| - 1] := routes(prefixes[|prefixes| - 1])]
  }

  // ----- the declared names, by one pass over the log ---------------------------------------------

  /** `names.get(prefix) ?? []`. */
  function Got(names: map<string, seq<string>>, prefix: string): seq<string> {
    if prefix in names then names[prefix] else []
  }

  ghost predicate Holds(names: map<string, seq<string>>, log: Log, field: ListField) {
    forall p :: Got(names, p) == LastDeclared(log, p, field)
  }

  /** `if (app.names?.length) names.set(app.prefix, app.names)`. */
  function WithNames(names: map<string, seq<string>>, app: Entry, field: ListField): map<string, seq<string>> {
    if ListOf(app, field) != [] then names[app.prefix := ListOf(app, field)] else names
  }

  lemma OneMoreEntry(names: map<string, seq<string>>, log: Log, i: nat, field: ListField)
    requires i < |log| && Holds(names, log[..i], field)
    ensures Holds(if IsGlobal(log[i]) then WithNames(names, log[i].value, field) else names, log[..i + 1], field)
  {
    var names' := if IsGlobal(log[i]) then WithNames(names, log[i].value, field) else names;
    forall p ensures Got(names', p) == LastDeclared(log[..i + 1], p, field) {
      assert log[..i + 1][..i] == log[..i];
      assert Got(names, p) == LastDeclared(log[..i], p, field);
    }
  }

  /** The loop of a rebuild that fills one map for each kind of name; the last entry that
      declares any wins. */
  method DeclaredNames(log: Log)
    returns (views: map<string, seq<string>>, templates: map<string, seq<string>>, styles: map<string, seq<string>>)
    ensures Holds(views, log, ViewNames) && Holds(templates, log, TemplateNames) && Holds(styles, log, StyleNames)
  {
    views, templates, styles := map[], map[], map[];
    var i := 0;
    while i < |log|
      invariant 0 <= i <= |log|
      invariant Holds(views, log[..i], ViewNames) && Holds(templates, log[..i], TemplateNames)
      invariant Holds(styles, log[..i], StyleNames)
    {
      OneMoreEntry(views, log, i, ViewNames);
      OneMoreEntry(templates, log, i, TemplateNames);
      OneMoreEntry(styles, log, i, StyleNames);
      if IsGlobal(log[i]) {
        var app := log[i].value;
        views := WithNames(views, app, ViewNames);
        templates := WithNames(templates, app, TemplateNames);
        styles := WithNames(styles, app, StyleNames);
      }
      i := i + 1;
    }
    assert log[..i] == log;
  }

  lemma {:induction false} NewOnesElements(prefixes: seq<string>, watched: seq<string>)
    ensures forall p :: p in NewOnes(prefixes, watched) <==> p in prefixes && p !in watched
    ensures forall p :: p !in watched ==> multiset(NewOnes(prefixes, watched))[p] == multiset(prefixes)[p]
  {
    if prefixes != [] {
      NewOnesElements(prefixes[1..], watched);
      assert prefixes == [prefixes[0]] + prefixes[1..];
    }
  }

  lemma {:induction false} SyncAllElements(synced: map<string, seq<Option<string>>>, prefixes: seq<string>, routes: Routes)
    ensures forall p :: p in prefixes ==> p in SyncAll(synced, prefixes, routes) && SyncAll(synced, prefixes, routes)[p] == routes(p)
    ensures forall p :: p !in prefixes ==> (p in SyncAll(synced, prefixes, routes) <==> p in synced)
    ensures forall p :: p !in prefixes && p in synced ==> SyncAll(synced, prefixes, routes)[p] == synced[p]
  {
    if prefixes != [] {
      SyncAllElements(synced, prefixes[..|prefixes| - 1], routes);
      assert prefixes == prefixes[..|prefixes| - 1] + [prefixes[|prefixes| - 1]];
    }
  }

  lemma OneMoreSynced(synced: map<string, seq<Option<string>>>, prefixes: seq<string>, i: nat, routes: Routes)
    requires i < |prefixes| && forall p :: p in prefixes ==> p !in synced
    ensures SyncAll(synced, prefixes[..i + 1], routes) == SyncAll(synced, prefixes[..i], routes)[prefixes[i] := routes(prefixes[i])]
    ensures var before := SyncAll(synced, prefixes[..i], routes);
      forall p :: p in before ==> before[p] == SyncAll(synced, prefixes[..i + 1], routes)[p]
    ensures prefixes[..i + 1] == prefixes[..i] + [prefixes[i]]
  {
    assert prefixes[..i + 1][..i] == prefixes[..i];
    SyncAllElements(synced, prefixes[..i], routes);
  }

  lemma AddedPrefixes(watched: seq<string>, more: seq<string>)
    requires NoDuplicates(watched)
    ensures NoDuplicates(AddAll(watched, more)) && watched <= AddAll(watched, more)
    ensures forall p :: p in AddAll(watched, more) <==> p in watched || p in more
  {
    UniqueElements(watched + more);
    UniqueKeepsStart(watched, more);
  }

  lemma NothingNew(log: Log, watched: seq<string>)
    requires Unwatched(log, watched) == {} && NoDuplicates(watched)
    ensures NewOnes(GlobalPrefixes(log), watched) == [] && AddAll(watched, []) == watched
  {
    var added := NewOnes(GlobalPrefixes(log), watched);
    assert added == [] || added[0] in added;
    NewOnesElements(GlobalPrefixes(log), watched);
    assert forall p :: p in added ==> p in Unwatched(log, watched);
    assert watched + [] == watched;
    UniqueOfDuplicateFree(watched);
  }

  /** With fewer routes synced there are no more empty names than with all of them. */
  lemma EmptyNamesGrow(d: Deployment, log: Log, watched: seq<string>,
                       synced: map<string, seq<Option<string>>>, more: map<string, seq<Option<string>>>)
    requires forall p :: p in synced ==> p in more && more[p] == synced[p]
    requires HasEmptyName(ConfigOf(d, log, watched, synced))
    ensures HasEmptyName(ConfigOf(d, log, watched, more))
  {
    var c, c' := ConfigOf(d, log, watched, synced), ConfigOf(d, log, watched, more);
    var g, b :| g in c.globalApps && b in GLOBAL_KINDS && "" in NamesOf(g, b);
    var i :| 0 <= i < |c.globalApps| && c.globalApps[i] == g;
    NamesGrow(log, watched[i], b, synced, more);
    assert c'.globalApps[i] == AppOf(log, more, watched[i]) && c'.globalApps[i] in c'.globalApps;
  }

  lemma NamesGrow(log: Log, prefix: string, b: BuiltIn,
                  synced: map<string, seq<Option<string>>>, more: map<string, seq<Option<string>>>)
    requires prefix in synced ==> prefix in more && more[prefix] == synced[prefix]
    requires b in GLOBAL_KINDS && "" in NamesOf(AppOf(log, synced, prefix), b)
    ensures "" in NamesOf(AppOf(log, more, prefix), b)
  {
    var g, g' := AppOf(log, synced, prefix), AppOf(log, more, prefix);
    assert g' == g.(pageRoutes := g'.pageRoutes);
  }

  /** `watchedPrefixes` is said to keep a registry from being observed twice. A rebuild
      observes the registry of a prefix once for each global entry of a prefix that was not
      watched before: more than once exactly when the log lists a new one more than once. */
  lemma ObservedPerOccurrence(log: Log, watched: seq<string>, prefix: string)
    ensures var times := multiset(NewOnes(GlobalPrefixes(log), watched))[prefix];
      && times == (if prefix in watched then 0 else multiset(GlobalPrefixes(log))[prefix])
      && (times > 1 <==> prefix !in watched && multiset(GlobalPrefixes(log))[prefix] > 1)
  {
    NewOnesElements(GlobalPrefixes(log), watched);
    if prefix in watched {
      assert prefix !in NewOnes(GlobalPrefixes(log), watched);
    }
  }

  lemma {:induction false} GlobalPrefixesElements(log: Log, p: string)
    ensures p in GlobalPrefixes(log) <==> exists e :: Some(e) in log && e.realm == Some(Global) && e.prefix == p
  {
    if log != [] {
      var init, last := log[..|log| - 1], log[|log| - 1];
      assert log == init + [last];
      GlobalPrefixesElements(init, p);
      if IsGlobal(last) && last.value.prefix == p {
        assert Some(last.value) in log;
      }
    }
  }

  lemma {:induction false} SharedNamesElements(log: Log, n: string)
    ensures n in SharedNames(log) <==> exists e :: Some(e) in log && n in ListOf(e, SharedLists)
  {
    if log != [] {
      var init, last := log[..|log| - 1], log[|log| - 1];
      assert log == init + [last];
      SharedNamesElements(init, n);
      if last.Some? && n in ListOf(last.value, SharedLists) {
        assert Some(last.value) in log;
      }
    }
  }

  lemma {:induction false} PublishedElements(routes: seq<Option<string>>, r: string)
    ensures r in Published(routes) <==> Some(r) in routes
  {
    if routes != [] {
      PublishedElements(routes[..|routes| - 1], r);
      assert routes == routes[..|routes| - 1] + [routes[|routes| - 1]];
    }
  }

  /** The entry at `i` is a global one of the prefix and declares such names. */
  predicate Declares(log: Log, i: int, prefix: string, field: ListField) {
    && 0 <= i < |log| && IsGlobal(log[i]) && log[i].value.prefix == prefix
    && ListOf(log[i].value, field) != []
  }

  /** ... and none behind it does. */
  ghost predicate DeclaresLast(log: Log, i: int, prefix: string, field: ListField) {
    Declares(log, i, prefix, field) && forall j :: j > i ==> !Declares(log, j, prefix, field)
  }

  /** The names in force are those of the last entry that declares any. */
  lemma {:induction false} LastDeclaredIsLast(log: Log, prefix: string, field: ListField)
    ensures forall i :: DeclaresLast(log, i, prefix, field) ==> LastDeclared(log, prefix, field) == ListOf(log[i].value, field)
    ensures LastDeclared(log, prefix, field) != [] <==> exists i :: DeclaresLast(log, i, prefix, field)
    ensures LastDeclared(log, prefix, field) != [] <==> exists i :: Declares(log, i, prefix, field)
  {
    if log != [] {
      var n := |log| - 1;
      var init := log[..n];
      LastDeclaredIsLast(init, prefix, field);
      assert forall i :: i != n ==> (Declares(log, i, prefix, field) <==> Declares(init, i, prefix, field));
      if Declares(log, n, prefix, field) {
        assert DeclaresLast(log, n, prefix, field);
      } else {
        assert forall i :: DeclaresLast(log, i, prefix, field) <==> DeclaresLast(init, i, prefix, field);
      }
    }
  }

  /** The last list of such names that the prefix's global entries declare has this one. */
  ghost predicate InForce(log: Log, prefix: string, field: ListField, name: string) {
    exists i :: DeclaresLast(log, i, prefix, field) && name in ListOf(log[i].value, field)
  }

  lemma InForceIsDeclared(log: Log, prefix: string, field: ListField, name: string)
    ensures InForce(log, prefix, field, name) <==> name in LastDeclared(log, prefix, field)
    ensures InForce(log, prefix, field, name) ==> HasGlobal(log, prefix)
  {
    LastDeclaredIsLast(log, prefix, field);
    if i :| DeclaresLast(log, i, prefix, field) {
      assert Some(log[i].value) in log;
    }
  }

  ghost predicate HasGlobal(log: Log, p: string) {
    exists e :: Some(e) in log && e.realm == Some(Global) && e.prefix == p
  }

  /** What a finished rebuild lists for a global app: every published route, and its last
      non-empty declared template, style and view names (the built-in template as well). */
  lemma ListedNames(log: Log, synced: map<string, seq<Option<string>>>, p: string, name: string)
    requires p in synced
    ensures var g := AppOf(log, synced, p);
      && (name in NamesOf(g, AdminPage) <==> Some(name) in synced[p])
      && (name in NamesOf(g, AdminTemplate) <==> InForce(log, p, TemplateNames, name) || (p == ADMIN && name == MAIN))
      && (name in NamesOf(g, AdminStyle) <==> InForce(log, p, StyleNames, name))
      && (name in NamesOf(g, AdminView) <==> InForce(log, p, ViewNames, name))
  {
    InForceIsDeclared(log, p, TemplateNames, name);
    InForceIsDeclared(log, p, StyleNames, name);
    InForceIsDeclared(log, p, ViewNames, name);
    PublishedElements(synced[p], name);
    UniqueElements((if p == ADMIN then [MAIN] else []) + LastDeclared(log, p, TemplateNames));
  }

  lemma ConfiguredApps(d: Deployment, log: Log, watched: seq<string>, synced: map<string, seq<Option<string>>>, g: GlobalApp)
    ensures g in ConfigOf(d, log, watched, synced).globalApps <==> g.prefix in watched && g == AppOf(log, synced, g.prefix)
  {
    var c := ConfigOf(d, log, watched, synced);
    if g.prefix in watched && g == AppOf(log, synced, g.prefix) {
      var i :| 0 <= i < |watched| && watched[i] == g.prefix;
      assert c.globalApps[i] == g;
    }
  }

  /** The configuration declares, of each global Kind, exactly what its watched apps list. */
  lemma GlobalsAreExact(d: Deployment, log: Log, watched: seq<string>, synced: map<string, seq<Option<string>>>, b: BuiltIn, id: NodeId)
    ensures AppsDeclare(ConfigOf(d, log, watched, synced).globalApps, d.hashes, b, id)
      <==> exists p :: p in watched && AppDeclares(AppOf(log, synced, p), d.hashes, b, id)
  {
    var apps := ConfigOf(d, log, watched, synced).globalApps;
    if AppsDeclare(apps, d.hashes, b, id) {
      var g :| g in apps && AppDeclares(g, d.hashes, b, id);
      ConfiguredApps(d, log, watched, synced, g);
    }
    forall p | p in watched ensures AppDeclares(AppOf(log, synced, p), d.hashes, b, id) ==> AppsDeclare(apps, d.hashes, b, id) {
      ConfiguredApps(d, log, watched, synced, AppOf(log, synced, p));
    }
  }

  lemma GlobalKindsOnly(c: Config, h: Hashes, b: BuiltIn, id: NodeId)
    requires b in GLOBAL_KINDS && forall k :: k in c.collectionKinds ==> k.Custom?
    ensures DeclaredAs(c, h, Fixed(b), id) <==> AppsDeclare(c.globalApps, h, b, id)
  {
  }

  /** ... and exactly the shared lists that some entry of the log has ever declared. */
  lemma SharedListsAreExact(d: Deployment, log: Log, watched: seq<string>, synced: map<string, seq<Option<string>>>, id: NodeId)
    requires forall k :: k in d.collectionKinds ==> k.Custom?
    ensures DeclaredAs(ConfigOf(d, log, watched, synced), d.hashes, Fixed(SharedList), id) <==> DeclaredList(d, log, id)
  {
    forall n ensures n in Unique(SharedNames(log)) <==> exists e :: Some(e) in log && n in ListOf(e, SharedLists) {
      SharedNamesElements(log, n);
      UniqueElements(SharedNames(log));
    }
  }

  /** The Node of a shared list that some entry has declared. */
  ghost predicate DeclaredList(d: Deployment, log: Log, id: NodeId) {
    exists e, n :: Some(e) in log && n in ListOf(e, SharedLists) && id == OwnerNode(d.hashes.sharedList(n), Fixed(SharedList))
  }

  /** The Node of a route that a registered global app has published. */
  ghost predicate PublishedPage(d: Deployment, log: Log, routes: Routes, id: NodeId) {
    exists e, r :: Some(e) in log && e.realm == Some(Global) && Some(r) in routes(e.prefix)
      && id == ContentNode(d.hashes.globalApp(e.prefix), Fixed(AdminPage), r)
  }

  /** The Node of a name that is in force for some prefix. */
  ghost predicate NameInForce(d: Deployment, log: Log, b: BuiltIn, field: ListField, id: NodeId) {
    id.ContentNode? && exists p :: InForce(log, p, field, id.path) && id == ContentNode(d.hashes.globalApp(p), Fixed(b), id.path)
  }

  /** What the log and the route registries declare under a global Kind. */
  ghost predicate DeclaredGlobal(d: Deployment, log: Log, routes: Routes, b: BuiltIn, id: NodeId) {
    match b
    case AdminPage => PublishedPage(d, log, routes, id)
    case AdminTemplate =>
      || NameInForce(d, log, b, TemplateNames, id)
      || (HasGlobal(log, "admin") && id == ContentNode(d.hashes.globalApp("admin"), Fixed(b), "main"))
    case AdminStyle => NameInForce(d, log, b, StyleNames, id)
    case AdminView => NameInForce(d, log, b, ViewNames, id)
    case _ => exists p :: HasGlobal(log, p) && id == OwnerNode(d.hashes.globalApp(p), Fixed(b))
  }

  /** The configuration that the first rebuild ends with. */
  function FirstConfig(d: Deployment, log: Log, routes: Routes): Config {
    var added := NewOnes(GlobalPrefixes(log), []);
    ConfigOf(d, log, AddAll([], added), SyncAll(map[], added, routes))
  }

  /** The app that the first rebuild configures for a prefix. */
  function FirstApp(log: Log, routes: Routes, p: string): GlobalApp {
    AppOf(log, SyncAll(map[], NewOnes(GlobalPrefixes(log), []), routes), p)
  }

  /** Some registered global app lists the Node under this Kind. */
  ghost predicate FirstDeclares(d: Deployment, log: Log, routes: Routes, b: BuiltIn, id: NodeId) {
    exists p :: HasGlobal(log, p) && AppDeclares(FirstApp(log, routes, p), d.hashes, b, id)
  }

  lemma FirstDeclared(d: Deployment, log: Log, routes: Routes, b: BuiltIn, id: NodeId)
    requires b in GLOBAL_KINDS && forall k :: k in d.collectionKinds ==> k.Custom?
    ensures DeclaredAs(FirstConfig(d, log, routes), d.hashes, Fixed(b), id) <==> FirstDeclares(d, log, routes, b, id)
  {
    var added := NewOnes(GlobalPrefixes(log), []);
    var watched, synced := AddAll([], added), SyncAll(map[], added, routes);
    FirstSync(log, routes);
    GlobalKindsOnly(ConfigOf(d, log, watched, synced), d.hashes, b, id);
    GlobalsAreExact(d, log, watched, synced, b, id);
    forall p ensures p in watched <==> HasGlobal(log, p) {
      GlobalPrefixesElements(log, p);
    }
  }

  lemma AppLists(log: Log, routes: Routes, p: string, name: string)
    requires HasGlobal(log, p)
    ensures var g := FirstApp(log, routes, p);
      && (name in NamesOf(g, AdminPage) <==> Some(name) in routes(p))
      && (name in NamesOf(g, AdminTemplate) <==> InForce(log, p, TemplateNames, name) || (p == ADMIN && name == MAIN))
      && (name in NamesOf(g, AdminStyle) <==> InForce(log, p, StyleNames, name))
      && (name in NamesOf(g, AdminView) <==> InForce(log, p, ViewNames, name))
  {
    FirstSync(log, routes);
    GlobalPrefixesElements(log, p);
    ListedNames(log, SyncAll(map[], NewOnes(GlobalPrefixes(log), []), routes), p, name);
  }

  lemma FirstPages(d: Deployment, log: Log, routes: Routes, id: NodeId)
    ensures FirstDeclares(d, log, routes, AdminPage, id) <==> PublishedPage(d, log, routes, id)
  {
    if id.ContentNode? {
      forall p | HasGlobal(log, p)
        ensures id.path in NamesOf(FirstApp(log, routes, p), AdminPage) <==> Some(id.path) in routes(p)
      {
        AppLists(log, routes, p, id.path);
      }
    }
  }

  /** After the first rebuild the declared admin pages are exactly the published routes. */
  lemma PagesAreExact(d: Deployment, log: Log, routes: Routes, id: NodeId)
    requires forall k :: k in d.collectionKinds ==> k.Custom?
    ensures DeclaredAs(FirstConfig(d, log, routes), d.hashes, Fixed(AdminPage), id) <==> PublishedPage(d, log, routes, id)
  {
    FirstDeclared(d, log, routes, AdminPage, id);
    FirstPages(d, log, routes, id);
  }

  lemma FirstNames(d: Deployment, log: Log, routes: Routes, b: BuiltIn, id: NodeId)
    requires b.AdminTemplate? || b.AdminStyle? || b.AdminView?
    ensures FirstDeclares(d, log, routes, b, id) <==> DeclaredGlobal(d, log, routes, b, id)
  {
    if id.ContentNode? {
      forall p, field ensures InForce(log, p, field, id.path) ==> HasGlobal(log, p) {
        InForceIsDeclared(log, p, field, id.path);
      }
      forall p | HasGlobal(log, p)
        ensures id.path in NamesOf(FirstApp(log, routes, p), b) <==>
          match b
          case AdminTemplate => InForce(log, p, TemplateNames, id.path) || (p == ADMIN && id.path == MAIN)
          case AdminStyle => InForce(log, p, StyleNames, id.path)
          case _ => InForce(log, p, ViewNames, id.path)
      {
        AppLists(log, routes, p, id.path);
      }
    }
  }

  lemma FirstNodes(d: Deployment, log: Log, routes: Routes, b: BuiltIn, id: NodeId)
    requires b.AdminAppManifest? || b.AdminRouteRegistry?
    ensures FirstDeclares(d, log, routes, b, id) <==> DeclaredGlobal(d, log, routes, b, id)
  {
  }

  /** After the first rebuild every global Kind declares exactly what the log and the route
      registries say. */
  lemma FirstKindsAreExact(d: Deployment, log: Log, routes: Routes, b: BuiltIn, id: NodeId)
    requires b in GLOBAL_KINDS
    ensures FirstDeclares(d, log, routes, b, id) <==> DeclaredGlobal(d, log, routes, b, id)
  {
    match b
    case AdminPage => FirstPages(d, log, routes, id);
    case AdminTemplate => FirstNames(d, log, routes, b, id);
    case AdminStyle => FirstNames(d, log, routes, b, id);
    case AdminView => FirstNames(d, log, routes, b, id);
    case _ => FirstNodes(d, log, routes, b, id);
  }

  lemma FirstSync(log: Log, routes: Routes)
    ensures var added := NewOnes(GlobalPrefixes(log), []);
      && (forall p :: p in AddAll([], added) <==> p in GlobalPrefixes(log))
      && (forall p :: p in GlobalPrefixes(log) ==> p in SyncAll(map[], added, routes) && SyncAll(map[], added, routes)[p] == routes(p))
  {
    var added := NewOnes(GlobalPrefixes(log), []);
    NewOnesElements(GlobalPrefixes(log), []);
    AddedPrefixes([], added);
    SyncAllElements(map[], added, routes);
  }

  /** The names a rebuild uses are not always those of the prefix's last entry, as with
      `resolveApps`: they are exactly when that entry is a global one that declares some, or no
      global entry of the prefix has ever declared any. */
  lemma LastDeclaredIsCurrentExactly(log: Log, prefix: string, field: ListField)
    ensures var current := Current(log, prefix);
      var listed := if IsGlobal(current) then ListOf(current.value, field) else [];
      LastDeclared(log, prefix, field) == listed
      <==> listed != [] || !exists i :: Declares(log, i, prefix, field)
  {
    LastDeclaredIsLast(log, prefix, field);
    CurrentDeclares(log, prefix, field);
  }

  lemma {:induction false} CurrentDeclares(log: Log, prefix: string, field: ListField)
    ensures var current := Current(log, prefix);
      IsGlobal(current) && ListOf(current.value, field) != [] ==>
        LastDeclared(log, prefix, field) == ListOf(current.value, field)
  {
    if log != [] {
      CurrentDeclares(log[..|log| - 1], prefix, field);
    }
  }

  /** Names cannot be set back to none: registering the app again without them, or retracting
      it, leaves the relay with the old ones, although the platform lists none. */
  lemma NamesStayInForce(op: Op, names: seq<string>)
    requires op.Register? && op.realm == Global && op.lists == map[ViewNames := names] && names != []
    ensures var again := Run([], [op, op.(lists := map[])]);
      && ListOf(Current(again, op.prefix).value, ViewNames) == []
      && LastDeclared(again, op.prefix, ViewNames) == names
    ensures var retracted := Run([], [op, Unregister(op.prefix)]);
      && !Listed(retracted, op.prefix)
      && LastDeclared(retracted, op.prefix, ViewNames) == names
  {
    forall next: Op | next in [op.(lists := map[]), Unregister(op.prefix)]
      ensures Run([], [op, next]) == [Some(NewEntry(op)), Some(Pushed(Some(NewEntry(op)), next).value)]
    {
      assert [op, next][..1] == [op] && [op][..0] == [];
      assert Run([], [op]) == Apply([], op) == [Some(NewEntry(op))];
      assert Run([], [op, next]) == Apply([Some(NewEntry(op))], next);
    }
    OnlyDeclarerIsFirst(NewEntry(op), NewEntry(op.(lists := map[])), op.prefix);
    OnlyDeclarerIsFirst(NewEntry(op), Pushed(Some(NewEntry(op)), Unregister(op.prefix)).value, op.prefix);
  }

  lemma OnlyDeclarerIsFirst(first: Entry, second: Entry, prefix: string)
    requires first.prefix == prefix && second.prefix == prefix && IsGlobal(Some(first)) && ListOf(first, ViewNames) != []
    requires !IsGlobal(Some(second)) || ListOf(second, ViewNames) == []
    ensures LastDeclared([Some(first), Some(second)], prefix, ViewNames) == ListOf(first, ViewNames)
    ensures Current([Some(first), Some(second)], prefix) == Some(second)
  {
    var log := [Some(first), Some(second)];
    assert Declares(log, 0, prefix, ViewNames) && !Declares(log, 1, prefix, ViewNames);
    assert DeclaresLast(log, 0, prefix, ViewNames);
    LastDeclaredIsLast(log, prefix, ViewNames);
  }

  // ----- the resolver -------------------------------------------------------------------------------

  class Resolver {
    const deployment: Deployment
    const routes: Routes           // the route registries, steady during a rebuild
    var log: Log                   // the platform registry's field
    var watched: seq<string>       // watchedPrefixes, in order of insertion
    var synced: map<string, seq<Option<string>>>  // globalPageRoutesByPrefix
    var current: Option<Index>
    ghost var config: Config       // what `current` was built from
    ghost var subscriptions: seq<string>  // the observers put on route registries

    constructor (deployment: Deployment, routes: Routes, log: Log)
      ensures this.deployment == deployment && this.routes == routes && this.log == log
      ensures watched == [] && synced == map[] && current == None && subscriptions == []
    {
      this.deployment, this.routes, this.log := deployment, routes, log;
      watched, synced, current := [], map[], None;
      config := RelayResolver.Config([], [], [], [], []);
      subscriptions := [];
    }

    ghost function FullConfig(): Config
      reads this
    {
      ConfigOf(deployment, log, watched, synced)
    }

    ghost predicate Ready()
      reads this
    {
      && (forall k :: k in deployment.collectionKinds ==> k.Custom?)
      && NoDuplicates(watched)
      && (forall p :: p in synced ==> p in watched)
    }

    /** What watching the new global prefixes of the log leaves behind. */
    ghost predicate Watched(watched0: seq<string>, synced0: map<string, seq<Option<string>>>, subscriptions0: seq<string>)
      reads this
    {
      var added := NewOnes(GlobalPrefixes(log), watched0);
      && watched == AddAll(watched0, added)
      && synced == SyncAll(synced0, added, routes)
      && subscriptions == subscriptions0 + added
    }

    /** `rebuild`, run to completion: it ends, it watches every global prefix of the log, it
        has synced the routes of the new ones, and it fails exactly when something declared
        has an empty name. Otherwise the index is built from all that is known. */
    method Rebuild() returns (ok: bool)
      requires Ready()
      modifies this
      decreases |Unwatched(log, watched)|, 1
      ensures Ready() && log == old(log)
      ensures Watched(old(watched), old(synced), old(subscriptions))
      ensures ok <==> !HasEmptyName(FullConfig())
      ensures ok ==> config == FullConfig() && current.Some? && Indexes(config, deployment.hashes, current.value)
    {
      var watching := EnsureGlobalWatches();
      if !watching {
        return false;
      }
      var c := Configured();
      var built := Build(c, deployment.hashes);
      if built.None? {
        return false;
      }
      current := built;
      config := c;
      ok := true;
    }

    /** What a rebuild puts together for the classifier once all is watched. */
    method Configured() returns (c: Config)
      ensures c == FullConfig()
    {
      var views, templates, styles := DeclaredNames(log);
      var prefixes, snapshots := watched, synced;
      var globalApps := seq(|prefixes|, i requires 0 <= i < |prefixes| =>
        GlobalApp(prefixes[i], Unique((if prefixes[i] == ADMIN then [MAIN] else []) + Got(templates, prefixes[i])),
                  RoutesOf(snapshots, prefixes[i]), Got(styles, prefixes[i]), Got(views, prefixes[i])));
      forall i | 0 <= i < |watched| ensures globalApps[i] == AppOf(log, synced, watched[i]) {
        assert Got(views, watched[i]) == LastDeclared(log, watched[i], ViewNames);
        assert Got(templates, watched[i]) == LastDeclared(log, watched[i], TemplateNames);
        assert Got(styles, watched[i]) == LastDeclared(log, watched[i], StyleNames);
      }
      c := RelayResolver.Config(Owners(log, deployment.key), deployment.collectionKinds, globalApps,
                                Unique(SharedNames(log)), deployment.groupKinds);
      assert globalApps == FullConfig().globalApps;
    }

    /** `ensureGlobalWatches`: notes the new global prefixes, then watches each occurrence. */
    method EnsureGlobalWatches() returns (ok: bool)
      requires Ready()
      modifies this
      decreases |Unwatched(log, watched)|, 0
      ensures Ready() && log == old(log)
      ensures Watched(old(watched), old(synced), old(subscriptions))
      ensures !ok ==> HasEmptyName(FullConfig())
    {
      var newOnes := NewOnes(GlobalPrefixes(log), watched);
      NewOnesElements(GlobalPrefixes(log), watched);
      AddedPrefixes(watched, newOnes);
      if newOnes == [] {
        assert watched <= AddAll(watched, []);
        UniqueOfDuplicateFree(watched);
        assert watched + [] == watched;
        return true;
      }
      assert newOnes[0] in newOnes && newOnes[0] in Unwatched(log, watched);
      watched := AddAll(watched, newOnes);
      assert Unwatched(log, watched) == {};
      ok := WatchEach(newOnes);
    }

    /** The `Promise.all` over the new watches: they run one after the other here, and one
        failure fails them all. */
    method WatchEach(prefixes: seq<string>) returns (ok: bool)
      requires Ready() && Unwatched(log, watched) == {}
      requires forall p :: p in prefixes ==> p in watched && p !in synced
      modifies this
      decreases |Unwatched(log, watched)|, 4
      ensures Ready() && log == old(log) && watched == old(watched)
      ensures synced == SyncAll(old(synced), prefixes, routes) && subscriptions == old(subscriptions) + prefixes
      ensures !ok ==> HasEmptyName(FullConfig())
    {
      ok := true;
      var i := 0;
      while i < |prefixes|
        invariant 0 <= i <= |prefixes|
        invariant Ready() && log == old(log) && watched == old(watched)
        invariant synced == SyncAll(old(synced), prefixes[..i], routes)
        invariant subscriptions == old(subscriptions) + prefixes[..i]
        invariant !ok ==> HasEmptyName(FullConfig())
      {
        ghost var before := synced;
        var one := WatchGlobalRouteRegistry(prefixes[i]);
        OneMoreSynced(old(synced), prefixes, i, routes);
        if !ok {
          EmptyNamesGrow(deployment, log, watched, before, synced);
        }
        ok := ok && one;
        i := i + 1;
      }
      assert prefixes[..i] == prefixes;
    }

    /** `watchGlobalRouteRegistry`: observe the registry, then take the first snapshot. */
    method WatchGlobalRouteRegistry(prefix: string) returns (ok: bool)
      requires Ready() && Unwatched(log, watched) == {} && prefix in watched
      modifies this
      decreases |Unwatched(log, watched)|, 3
      ensures Ready() && log == old(log) && watched == old(watched)
      ensures synced == old(synced)[prefix := routes(prefix)] && subscriptions == old(subscriptions) + [prefix]
      ensures !ok ==> HasEmptyName(FullConfig())
    {
      subscriptions := subscriptions + [prefix];
      ok := SyncRoutes(prefix);
    }

    /** `syncRoutes`: the observer of one route registry. */
    method SyncRoutes(prefix: string) returns (ok: bool)
      requires Ready() && Unwatched(log, watched) == {} && prefix in watched
      modifies this
      decreases |Unwatched(log, watched)|, 2
      ensures Ready() && log == old(log) && watched == old(watched) && subscriptions == old(subscriptions)
      ensures synced == old(synced)[prefix := routes(prefix)]
      ensures ok <==> !HasEmptyName(FullConfig())
      ensures ok ==> config == FullConfig() && current.Some? && Indexes(config, deployment.hashes, current.value)
    {
      synced := synced[prefix := routes(prefix)];
      NothingNew(log, watched);
      ok := Rebuild();
    }
  }

  // ----- end to end -----------------------------------------------------------------------------------

  lemma {:induction false} OwnersElements(log: Log, key: string -> Anchor, a: Anchor)
    ensures a in Owners(log, key) <==> exists e, o :: Some(e) in log && e.owner == Some(o) && a == key(o)
  {
    if log != [] {
      var init, last := log[..|log| - 1], log[|log| - 1];
      assert log == init + [last];
      OwnersElements(init, key, a);
      if last.Some? && last.value.owner.Some? && a == key(last.value.owner.value) {
        assert Some(last.value) in log;
      }
    }
  }

  /** It is the singleton of this Kind of an owner of some entry, whatever the entry's realm. */
  ghost predicate OwnedInLog(d: Deployment, log: Log, k: Kind, id: NodeId) {
    exists e, o :: Some(e) in log && e.owner == Some(o) && id == OwnerNode(d.key(o), k)
  }

  /** What the deployment, the log and the route registries declare under a Kind. */
  ghost predicate DeclaredIn(d: Deployment, log: Log, routes: Routes, k: Kind, id: NodeId) {
    match k
    case Page => false
    case Custom(_) => k in d.collectionKinds && OwnedInLog(d, log, k, id)
    case Fixed(b) =>
      match b
      case AppManifest => OwnedInLog(d, log, k, id)
      case RouteRegistry => OwnedInLog(d, log, k, id)
      case TemplateRegistry => OwnedInLog(d, log, k, id)
      case StyleRegistry => OwnedInLog(d, log, k, id)
      case User => false
      case PlatformApps => id == OwnerNode(d.hashes.platform, k)
      case SharedList => DeclaredList(d, log, id)
      case _ => DeclaredGlobal(d, log, routes, b, id)
  }

  /** What a signer claims for itself: the singletons that every owner has. */
  ghost predicate ClaimedSingleton(d: Deployment, k: Kind, id: NodeId, claimed: Option<Anchor>) {
    && claimed.Some? && id == OwnerNode(claimed.value, k)
    && (k in d.collectionKinds
        || k == Fixed(AppManifest) || k == Fixed(RouteRegistry) || k == Fixed(TemplateRegistry)
        || k == Fixed(StyleRegistry) || k == Fixed(User))
  }

  ghost predicate InReferencedGroup(d: Deployment, k: Kind, id: NodeId, ref: Option<GroupRef>) {
    ref.Some? && k in d.groupKinds && id == ContentNode(ref.value.owner, k, ref.value.name)
  }

  ghost predicate Belongs(d: Deployment, log: Log, routes: Routes, k: Kind, id: NodeId, claimed: Option<Anchor>, ref: Option<GroupRef>) {
    DeclaredIn(d, log, routes, k, id) || ClaimedSingleton(d, k, id, claimed) || InReferencedGroup(d, k, id, ref)
  }

  lemma OwnedAreExact(d: Deployment, log: Log, routes: Routes, k: Kind, id: NodeId)
    ensures id.OwnerNode? && id.owner in FirstConfig(d, log, routes).owners && id.kind == k <==> OwnedInLog(d, log, k, id)
  {
    if id.OwnerNode? {
      OwnersElements(log, d.key, id.owner);
    }
  }

  /** After the first rebuild the configuration declares exactly what deployment, log and route
      registries say, for every Kind. */
  lemma FirstDeclaresExactly(d: Deployment, log: Log, routes: Routes, k: Kind, id: NodeId)
    requires k != Page && forall x :: x in d.collectionKinds ==> x.Custom?
    ensures DeclaredAs(FirstConfig(d, log, routes), d.hashes, k, id) <==> DeclaredIn(d, log, routes, k, id)
  {
    KindsAreListed();
    if k.Fixed? && k.kind in GLOBAL_KINDS {
      FirstDeclared(d, log, routes, k.kind, id);
      FirstKindsAreExact(d, log, routes, k.kind, id);
    } else if k == Fixed(SharedList) {
      var added := NewOnes(GlobalPrefixes(log), []);
      SharedListsAreExact(d, log, AddAll([], added), SyncAll(map[], added, routes), id);
    } else {
      OwnedAreExact(d, log, routes, k, id);
    }
  }

  /** An empty name or route that would have to become a Node. */
  ghost predicate EmptyNameDeclared(log: Log, routes: Routes, p: string) {
    HasGlobal(log, p)
    && (Some("") in routes(p) || InForce(log, p, TemplateNames, "") || InForce(log, p, StyleNames, "") || InForce(log, p, ViewNames, ""))
  }

  lemma FirstEmptyNames(d: Deployment, log: Log, routes: Routes)
    ensures HasEmptyName(FirstConfig(d, log, routes)) <==> exists p :: EmptyNameDeclared(log, routes, p)
  {
    var added := NewOnes(GlobalPrefixes(log), []);
    var watched, synced := AddAll([], added), SyncAll(map[], added, routes);
    var c := FirstConfig(d, log, routes);
    FirstSync(log, routes);
    forall p ensures p in watched <==> HasGlobal(log, p) {
      GlobalPrefixesElements(log, p);
    }
    if HasEmptyName(c) {
      var g, b :| g in c.globalApps && b in GLOBAL_KINDS && "" in NamesOf(g, b);
      ConfiguredApps(d, log, watched, synced, g);
      AppLists(log, routes, g.prefix, "");
      assert EmptyNameDeclared(log, routes, g.prefix);
    }
    forall p | EmptyNameDeclared(log, routes, p) ensures HasEmptyName(c) {
      AppLists(log, routes, p, "");
      ConfiguredApps(d, log, watched, synced, FirstApp(log, routes, p));
      var g := FirstApp(log, routes, p);
      assert g in c.globalApps;
      assert "" in NamesOf(g, AdminPage) || "" in NamesOf(g, AdminTemplate) || "" in NamesOf(g, AdminStyle) || "" in NamesOf(g, AdminView);
      KindsAreListed();
    }
  }

  lemma FirstIndexClassifies(d: Deployment, log: Log, routes: Routes, x: Index, id: NodeId,
                             claimed: Option<Anchor>, ref: Option<GroupRef>, k: Kind)
    requires k != Page && forall x :: x in d.collectionKinds ==> x.Custom?
    requires Indexes(FirstConfig(d, log, routes), d.hashes, x)
    ensures var kind := Classify(x, id, claimed, ref);
      && (kind == None <==> ref.Some? && ref.value.name == "" && d.groupKinds != [])
      && (kind.Some? ==> (kind == Some(k) <==> Belongs(d, log, routes, k, id, claimed, ref)))
  {
    var c := FirstConfig(d, log, routes);
    KindsAreListed();
    FirstDeclaresExactly(d, log, routes, k, id);
    assert OfClaimedOwner(c, k, id, claimed) <==> ClaimedSingleton(d, k, id, claimed);
    assert OfGroup(c, k, id, ref) <==> InReferencedGroup(d, k, id, ref);
    ClassifierIsExact(c, d.hashes, x, id, claimed, ref, k);
  }

  /** A relay that has started on a platform registry: a Node is of a Kind exactly when the
      deployment, the log or the route registries declare it under that Kind, or it is such a
      singleton of the claimed owner, or it belongs to the referenced group; all else are pages.
      It starts exactly when nothing declared has an empty name, and only a reference to a group
      without a name makes the classifier throw. */
  method StartAndClassify(d: Deployment, log: Log, routes: Routes, id: NodeId, claimed: Option<Anchor>, ref: Option<GroupRef>)
    returns (started: bool, kind: Option<Kind>)
    requires forall k :: k in d.collectionKinds ==> k.Custom?
    ensures started <==> !exists p :: EmptyNameDeclared(log, routes, p)
    ensures started ==> (kind == None <==> ref.Some? && ref.value.name == "" && d.groupKinds != [])
    ensures started && kind.Some? ==>
      forall k :: k != Page ==> (kind == Some(k) <==> Belongs(d, log, routes, k, id, claimed, ref))
  {
    var resolver := new Resolver(d, routes, log);
    started := resolver.Rebuild();
    assert resolver.FullConfig() == FirstConfig(d, log, routes);
    FirstEmptyNames(d, log, routes);
    if !started {
      return false, None;
    }
    assert resolver.config == FirstConfig(d, log, routes);
    var x := resolver.current.value;
    kind := Classify(x, id, claimed, ref);
    FirstIndexClassifies(d, log, routes, x, id, claimed, ref, Fixed(User));
    forall k | k != Page && kind.Some? ensures kind == Some(k) <==> Belongs(d, log, routes, k, id, claimed, ref) {
      FirstIndexClassifies(d, log, routes, x, id, claimed, ref, k);
    }
  }
}
