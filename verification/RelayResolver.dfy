/** How a relay tells the Kind of a Node from its id: an index of ids built from what the
    deployment declares, with fallbacks for claimed owners and groups. */
module RelayResolver {
  import opened Wrappers

  datatype BuiltIn =
    | AppManifest | RouteRegistry | TemplateRegistry | StyleRegistry | PlatformApps | SharedList | User
    | AdminAppManifest | AdminRouteRegistry | AdminTemplate | AdminPage | AdminStyle | AdminView

  /** Kinds are told apart by name; `Page` is the fallback, `Custom` a collection's registry
      or a group Kind. */
  datatype Kind = Page | Fixed(kind: BuiltIn) | Custom(name: string)

  /** Raw key bytes, a hash of a prefix or name, or the platform's constant. */
  type Anchor = seq<nat>

  /** Derived ids: hashes of exactly these components, taken to be injective. */
  datatype NodeId =
    | OwnerNode(owner: Anchor, kind: Kind)
    | ContentNode(owner: Anchor, kind: Kind, path: string)
    | OtherNode(text: string)

  datatype GlobalApp = GlobalApp(
    prefix: string, templateNames: seq<string>, pageRoutes: seq<string>, styleNames: seq<string>, viewNames: seq<string>)

  datatype Config = Config(
    owners: seq<Anchor>, collectionKinds: seq<Kind>, globalApps: seq<GlobalApp>, sharedLists: seq<string>, groupKinds: seq<Kind>)

  /** The hashes behind the anchors. */
  datatype Hashes = Hashes(globalApp: string -> Anchor, sharedList: string -> Anchor, platform: Anchor)

  datatype GroupRef = GroupRef(owner: Anchor, name: string)

  // ----- what is declared -----------------------------------------------------------------------

  const OWNER_KINDS: seq<BuiltIn> := [AppManifest, RouteRegistry, TemplateRegistry, StyleRegistry]

  const GLOBAL_KINDS: seq<BuiltIn> := [AdminAppManifest, AdminRouteRegistry, AdminTemplate, AdminPage, AdminStyle, AdminView]

  lemma KindsAreListed()
    ensures forall b :: b in OWNER_KINDS <==> b.AppManifest? || b.RouteRegistry? || b.TemplateRegistry? || b.StyleRegistry?
    ensures forall b :: b in GLOBAL_KINDS <==>
      b.AdminAppManifest? || b.AdminRouteRegistry? || b.AdminTemplate? || b.AdminPage? || b.AdminStyle? || b.AdminView?
  {
  }

  function NamesOf(g: GlobalApp, b: BuiltIn): seq<string> {
    match b
    case AdminTemplate => g.templateNames
    case AdminPage => g.pageRoutes
    case AdminStyle => g.styleNames
    case AdminView => g.viewNames
    case _ => []
  }

  /** A global app declares this Node under this Kind. */
  ghost predicate AppDeclares(g: GlobalApp, h: Hashes, b: BuiltIn, id: NodeId) {
    if b == AdminAppManifest || b == AdminRouteRegistry then id == OwnerNode(h.globalApp(g.prefix), Fixed(b))
    else id.ContentNode? && id.owner == h.globalApp(g.prefix) && id.kind == Fixed(b) && id.path in NamesOf(g, b)
  }

  ghost predicate AppsDeclare(apps: seq<GlobalApp>, h: Hashes, b: BuiltIn, id: NodeId) {
    exists g :: g in apps && AppDeclares(g, h, b, id)
  }

  /** The deployment declares this Node under this Kind. */
  ghost predicate DeclaredAs(c: Config, h: Hashes, k: Kind, id: NodeId) {
    || (id.OwnerNode? && id.owner in c.owners && id.kind == k
        && ((k.Fixed? && k.kind in OWNER_KINDS) || k in c.collectionKinds))
    || (k.Fixed? && k.kind in GLOBAL_KINDS && AppsDeclare(c.globalApps, h, k.kind, id))
    || (k == Fixed(PlatformApps) && id == OwnerNode(h.platform, k))
    || (k == Fixed(SharedList) && exists n :: n in c.sharedLists && id == OwnerNode(h.sharedList(n), k))
  }

  /** It is a per-owner singleton of the claimed owner, listed or not. */
  ghost predicate OfClaimedOwner(c: Config, k: Kind, id: NodeId, claimed: Option<Anchor>) {
    && claimed.Some? && id == OwnerNode(claimed.value, k)
    && ((k.Fixed? && (k.kind in OWNER_KINDS || k.kind == User)) || k in c.collectionKinds)
  }

  ghost predicate OfGroup(c: Config, k: Kind, id: NodeId, ref: Option<GroupRef>) {
    ref.Some? && k in c.groupKinds && id == ContentNode(ref.value.owner, k, ref.value.name)
  }

  /** A content id cannot be derived from an empty path: the derivation throws. */
  ghost predicate HasEmptyName(c: Config) {
    exists g, b :: g in c.globalApps && b in GLOBAL_KINDS && "" in NamesOf(g, b)
  }

  // ----- the index --------------------------------------------------------------------------------

  /** One `if (ids.has(nodeId)) return kind` of the classifier. */
  datatype Check = Check(kind: Kind, ids: set<NodeId>)

  datatype Index = Index(
    groupKinds: seq<Kind>, collectionKinds: seq<Kind>, checks: seq<Check>, collectionById: map<NodeId, Kind>,
    lastChecks: seq<Check>)

  ghost predicate Checked(checks: seq<Check>, k: Kind, id: NodeId) {
    exists check :: check in checks && check.kind == k && id in check.ids
  }

  /** Each set holds the Nodes declared under its Kind, and every declared Node is in a set
      or in the map of collections. */
  ghost predicate Indexes(c: Config, h: Hashes, x: Index) {
    && x.groupKinds == c.groupKinds && x.collectionKinds == c.collectionKinds
    && (forall k :: k in c.collectionKinds ==> k.Custom?)
    && (forall check: Check, id :: check in x.checks + x.lastChecks && id in check.ids ==> DeclaredAs(c, h, check.kind, id))
    && (forall k: Kind, id :: k.Fixed? && DeclaredAs(c, h, k, id) ==> Checked(x.checks + x.lastChecks, k, id))
    && (forall id :: id in x.collectionById <==> id.OwnerNode? && id.owner in c.owners && id.kind in c.collectionKinds)
    && (forall id :: id in x.collectionById ==> x.collectionById[id] == id.kind)
  }

  method ContentIds(owner: Anchor, kind: Kind, names: seq<string>) returns (ids: Option<set<NodeId>>)
    ensures ids.None? <==> "" in names
    ensures ids.Some? ==> forall id :: id in ids.value <==>
      id.ContentNode? && id.owner == owner && id.kind == kind && id.path in names
  {
    var s: set<NodeId> := {};
    for i := 0 to |names|
      invariant "" !in names[..i]
      invariant forall id :: id in s <==> id.ContentNode? && id.owner == owner && id.kind == kind && id.path in names[..i]
    {
      if names[i] == "" {
        return None;
      }
      s := s + {ContentNode(owner, kind, names[i])};
    }
    return Some(s);
  }

  /** The ids of one global app, by Kind. */
  method AppIds(g: GlobalApp, h: Hashes) returns (ids: Option<map<BuiltIn, set<NodeId>>>)
    ensures ids.None? <==> exists b :: b in GLOBAL_KINDS && "" in NamesOf(g, b)
    ensures ids.Some? ==> ids.value.Keys == set b | b in GLOBAL_KINDS
    ensures ids.Some? ==> forall b, id :: b in GLOBAL_KINDS ==> (id in ids.value[b] <==> AppDeclares(g, h, b, id))
  {
    var anchor := h.globalApp(g.prefix);
    var templates := ContentIds(anchor, Fixed(AdminTemplate), g.templateNames);
    var pages := ContentIds(anchor, Fixed(AdminPage), g.pageRoutes);
    var styles := ContentIds(anchor, Fixed(AdminStyle), g.styleNames);
    var views := ContentIds(anchor, Fixed(AdminView), g.viewNames);
    assert NamesOf(g, AdminTemplate) == g.templateNames && NamesOf(g, AdminPage) == g.pageRoutes;
    assert NamesOf(g, AdminStyle) == g.styleNames && NamesOf(g, AdminView) == g.viewNames;
    assert {AdminTemplate, AdminPage, AdminStyle, AdminView} <= set b | b in GLOBAL_KINDS;
    if templates.None? || pages.None? || styles.None? || views.None? {
      return None;
    }
    return Some(map[
      AdminAppManifest := {OwnerNode(anchor, Fixed(AdminAppManifest))},
      AdminRouteRegistry := {OwnerNode(anchor, Fixed(AdminRouteRegistry))},
      AdminTemplate := templates.value, AdminPage := pages.value, AdminStyle := styles.value, AdminView := views.value]);
  }

  method GlobalIds(apps: seq<GlobalApp>, h: Hashes) returns (ids: Option<map<BuiltIn, set<NodeId>>>)
    ensures ids.None? <==> exists g, b :: g in apps && b in GLOBAL_KINDS && "" in NamesOf(g, b)
    ensures ids.Some? ==> ids.value.Keys == set b | b in GLOBAL_KINDS
    ensures ids.Some? ==>
      forall b, id :: b in GLOBAL_KINDS ==> (id in ids.value[b] <==> AppsDeclare(apps, h, b, id))
  {
    var acc: map<BuiltIn, set<NodeId>> := map b | b in GLOBAL_KINDS :: {};
    for i := 0 to |apps|
      invariant forall g, b :: g in apps[..i] && b in GLOBAL_KINDS ==> "" !in NamesOf(g, b)
      invariant acc.Keys == set b | b in GLOBAL_KINDS
      invariant forall b, id :: b in GLOBAL_KINDS ==> (id in acc[b] <==> AppsDeclare(apps[..i], h, b, id))
    {
      var one := AppIds(apps[i], h);
      if one.None? {
        assert apps[i] in apps;
        return None;
      }
      assert apps[..i + 1] == apps[..i] + [apps[i]];
      acc := map b | b in GLOBAL_KINDS :: acc[b] + one.value[b];
    }
    assert apps[..|apps|] == apps;
    return Some(acc);
  }

  method CollectionIds(c: Config) returns (byId: map<NodeId, Kind>)
    ensures forall id :: id in byId <==> id.OwnerNode? && id.owner in c.owners && id.kind in c.collectionKinds
    ensures forall id :: id in byId ==> byId[id] == id.kind
  {
    byId := map[];
    for i := 0 to |c.collectionKinds|
      invariant forall id :: id in byId <==> id.OwnerNode? && id.owner in c.owners && id.kind in c.collectionKinds[..i]
      invariant forall id :: id in byId ==> byId[id] == id.kind
    {
      var kind := c.collectionKinds[i];
      for j := 0 to |c.owners|
        invariant forall id :: id in byId <==>
          id.OwnerNode? && ((id.owner in c.owners && id.kind in c.collectionKinds[..i]) || (id.owner in c.owners[..j] && id.kind == kind))
        invariant forall id :: id in byId ==> byId[id] == id.kind
      {
        byId := byId[OwnerNode(c.owners[j], kind) := kind];
      }
    }
  }

  function OwnerIds(c: Config, b: BuiltIn): set<NodeId> {
    set o | o in c.owners :: OwnerNode(o, Fixed(b))
  }

  function GlobalChecks(ids: map<BuiltIn, set<NodeId>>, kinds: seq<BuiltIn>): seq<Check>
    requires forall b :: b in kinds ==> b in ids
  {
    seq(|kinds|, i requires 0 <= i < |kinds| => Check(Fixed(kinds[i]), ids[kinds[i]]))
  }

  function OwnerChecks(c: Config, kinds: seq<BuiltIn>): seq<Check> {
    seq(|kinds|, i requires 0 <= i < |kinds| => Check(Fixed(kinds[i]), OwnerIds(c, kinds[i])))
  }

  function FixedChecks(c: Config, h: Hashes): seq<Check> {
    [Check(Fixed(PlatformApps), {OwnerNode(h.platform, Fixed(PlatformApps))}),
     Check(Fixed(SharedList), set n | n in c.sharedLists :: OwnerNode(h.sharedList(n), Fixed(SharedList)))]
  }

  ghost predicate GlobalSets(c: Config, h: Hashes, ids: map<BuiltIn, set<NodeId>>) {
    && ids.Keys == (set b | b in GLOBAL_KINDS)
    && forall b, id :: b in GLOBAL_KINDS ==> (id in ids[b] <==> AppsDeclare(c.globalApps, h, b, id))
  }

  lemma ChecksAreSound(c: Config, h: Hashes, ids: map<BuiltIn, set<NodeId>>, check: Check, id: NodeId)
    requires GlobalSets(c, h, ids) && id in check.ids
    requires check in GlobalChecks(ids, GLOBAL_KINDS) + OwnerChecks(c, OWNER_KINDS) + FixedChecks(c, h)
    ensures DeclaredAs(c, h, check.kind, id)
  {
  }

  lemma ChecksAreComplete(c: Config, h: Hashes, ids: map<BuiltIn, set<NodeId>>, k: Kind, id: NodeId)
    requires GlobalSets(c, h, ids) && k.Fixed? && DeclaredAs(c, h, k, id)
    requires forall x :: x in c.collectionKinds ==> x.Custom?
    ensures Checked(GlobalChecks(ids, GLOBAL_KINDS) + OwnerChecks(c, OWNER_KINDS) + FixedChecks(c, h), k, id)
  {
    var globals, owned, fixed := GlobalChecks(ids, GLOBAL_KINDS), OwnerChecks(c, OWNER_KINDS), FixedChecks(c, h);
    if k.kind in GLOBAL_KINDS {
      var i :| 0 <= i < |GLOBAL_KINDS| && GLOBAL_KINDS[i] == k.kind;
      assert globals[i] in globals + owned + fixed;
    } else if k.kind in OWNER_KINDS {
      var i :| 0 <= i < |OWNER_KINDS| && OWNER_KINDS[i] == k.kind;
      assert owned[i] in globals + owned + fixed;
    } else {
      assert fixed[0] in globals + owned + fixed && fixed[1] in globals + owned + fixed;
    }
  }

  /** `createAppResolveKindSchema`: it rejects exactly when a content name is empty. */
  method Build(c: Config, h: Hashes) returns (index: Option<Index>)
    requires forall k :: k in c.collectionKinds ==> k.Custom?
    ensures index.None? <==> HasEmptyName(c)
    ensures index.Some? ==> Indexes(c, h, index.value)
  {
    var global := GlobalIds(c.globalApps, h);
    if global.None? {
      return None;
    }
    var collections := CollectionIds(c);
    var checks := GlobalChecks(global.value, GLOBAL_KINDS) + OwnerChecks(c, OWNER_KINDS);
    forall check: Check, id | check in checks + FixedChecks(c, h) && id in check.ids ensures DeclaredAs(c, h, check.kind, id) {
      ChecksAreSound(c, h, global.value, check, id);
    }
    forall k: Kind, id | k.Fixed? && DeclaredAs(c, h, k, id) ensures Checked(checks + FixedChecks(c, h), k, id) {
      ChecksAreComplete(c, h, global.value, k, id);
    }
    return Some(Index(c.groupKinds, c.collectionKinds, checks, collections, FixedChecks(c, h)));
  }

  // ----- the classifier -----------------------------------------------------------------------------

  /** The first kind whose id, derived for the group, is this one; deriving throws for the
      empty name. */
  function InGroup(kinds: seq<Kind>, id: NodeId, ref: GroupRef): Option<Option<Kind>> {
    if kinds == [] then Some(None)
    else if ref.name == "" then None
    else if ContentNode(ref.owner, kinds[0], ref.name) == id then Some(Some(kinds[0]))
    else InGroup(kinds[1..], id, ref)
  }

  function OfOwner(kinds: seq<Kind>, id: NodeId, owner: Anchor): Option<Kind> {
    if kinds == [] then None
    else if OwnerNode(owner, kinds[0]) == id then Some(kinds[0])
    else OfOwner(kinds[1..], id, owner)
  }

  function FirstCheck(checks: seq<Check>, id: NodeId): Option<Kind> {
    if checks == [] then None
    else if id in checks[0].ids then Some(checks[0].kind)
    else FirstCheck(checks[1..], id)
  }

  const SINGLETONS: seq<Kind> :=
    [Fixed(AppManifest), Fixed(RouteRegistry), Fixed(TemplateRegistry), Fixed(StyleRegistry), Fixed(User)]

  /** The classifier; `None` where the group derivation throws. */
  function Classify(x: Index, id: NodeId, claimed: Option<Anchor>, ref: Option<GroupRef>): Option<Kind> {
    var group := if ref.Some? then InGroup(x.groupKinds, id, ref.value) else Some(None);
    if group.None? then None
    else if group.value.Some? then group.value
    else if FirstCheck(x.checks, id).Some? then FirstCheck(x.checks, id)
    else if id in x.collectionById then Some(x.collectionById[id])
    else if FirstCheck(x.lastChecks, id).Some? then FirstCheck(x.lastChecks, id)
    else if claimed.Some? && OfOwner(SINGLETONS + x.collectionKinds, id, claimed.value).Some?
    then OfOwner(SINGLETONS + x.collectionKinds, id, claimed.value)
    else Some(Page)
  }

  lemma {:induction false} InGroupIsExact(kinds: seq<Kind>, id: NodeId, ref: GroupRef)
    ensures var hit := id.ContentNode? && id.kind in kinds && id.owner == ref.owner && id.path == ref.name;
      ref.name != "" ==> InGroup(kinds, id, ref) == Some(if hit then Some(id.kind) else None)
    ensures ref.name == "" ==> InGroup(kinds, id, ref) == if kinds == [] then Some(None) else None
  {
    if kinds != [] {
      InGroupIsExact(kinds[1..], id, ref);
    }
  }

  lemma {:induction false} OfOwnerIsExact(kinds: seq<Kind>, id: NodeId, owner: Anchor)
    ensures OfOwner(kinds, id, owner)
      == if id.OwnerNode? && id.owner == owner && id.kind in kinds then Some(id.kind) else None
  {
    if kinds != [] {
      OfOwnerIsExact(kinds[1..], id, owner);
    }
  }

  lemma {:induction false} FirstCheckIsExact(checks: seq<Check>, id: NodeId, k: Kind)
    requires forall check :: check in checks && id in check.ids ==> check.kind == k
    ensures FirstCheck(checks, id) == if exists check :: check in checks && id in check.ids then Some(k) else None
  {
    if checks != [] {
      FirstCheckIsExact(checks[1..], id, k);
      assert checks == [checks[0]] + checks[1..];
    }
  }

  lemma DeclaredKindIsOwn(c: Config, h: Hashes, k: Kind, id: NodeId)
    requires DeclaredAs(c, h, k, id)
    ensures !id.OtherNode? && id.kind == k
  {
  }

  /** The classifier returns Kind `k` for a Node exactly when the deployment declares it under
      `k`, or it is the claimed owner's singleton of Kind `k`, or the group reference derives
      it with `k` - in whatever order the index is checked. It returns `pageKind` when none
      of these holds, and throws exactly for an empty group name. */
  lemma ClassifierIsExact(c: Config, h: Hashes, x: Index, id: NodeId, claimed: Option<Anchor>, ref: Option<GroupRef>, k: Kind)
    requires Indexes(c, h, x) && k != Page
    ensures var result := Classify(x, id, claimed, ref);
      && (result == None <==> ref.Some? && ref.value.name == "" && c.groupKinds != [])
      && (result.Some? && result == Some(k) ==>
            DeclaredAs(c, h, k, id) || OfClaimedOwner(c, k, id, claimed) || OfGroup(c, k, id, ref))
      && (result.Some? && (DeclaredAs(c, h, k, id) || OfClaimedOwner(c, k, id, claimed) || OfGroup(c, k, id, ref)) ==>
            result == Some(k))
  {
    if ref.Some? {
      InGroupIsExact(x.groupKinds, id, ref.value);
    }
    var own := if id.OtherNode? then k else id.kind;
    forall check: Check | check in x.checks + x.lastChecks && id in check.ids ensures check.kind == own {
      DeclaredKindIsOwn(c, h, check.kind, id);
    }
    FirstCheckIsExact(x.checks, id, own);
    FirstCheckIsExact(x.lastChecks, id, own);
    if claimed.Some? {
      OfOwnerIsExact(SINGLETONS + x.collectionKinds, id, claimed.value);
    }
  }
}
