/** The registry of apps: an append-only log whose last entry per prefix is current, the
    setters that carry an entry over, and the readers that reduce the log. */
module PlatformRegistry {
  import opened Sequences
  import opened Paths
  import opened Wrappers
  import Codecs

  datatype Realm = Main | Global

  datatype Mode = OffMode | GlobalMode | MultiUser

  /** One log entry. An absent field is undefined in the source's object. */
  datatype Entry = Entry(
    prefix: string, owner: Option<string>, name: Option<string>, realm: Option<Realm>, mode: Option<Mode>,
    lists: map<ListField, seq<string>>, personalBundle: Option<string>, appType: Option<string>,
    bundleVersion: Option<int>, config: Option<map<string, string>>, removed: bool)

  /** The name lists that have an `add...` setter. */
  datatype ListField = SharedLists | ViewNames | TemplateNames | StyleNames

  /** The field list; null entries are skipped by every reader. */
  type Log = seq<Option<Entry>>

  datatype Op =
    | Register(prefix: string, owner: Option<string>, name: string, realm: Realm, mode: Option<Mode>,
               lists: map<ListField, seq<string>>, personalBundle: Option<string>, appType: Option<string>,
               bundleVersion: Option<int>)
    | SetMode(prefix: string, newMode: Mode)
    | SetBundleVersion(prefix: string, version: int)
    | AddNames(prefix: string, field: ListField, names: seq<string>)
    | SetConfig(prefix: string, values: map<string, string>)
    | Unregister(prefix: string)

  datatype Error = NotRegistered | NotGlobal

  /** The entry that `[...apps].reverse().find` finds. */
  function Current(log: Log, prefix: string): Option<Entry> {
    if log == [] then None
    else
      var last := log[|log| - 1];
      if last.Some? && last.value.prefix == prefix then last else Current(log[..|log| - 1], prefix)
  }

  function RealmOf(e: Entry): Realm { e.realm.GetOr(Main) }

  function ListOf(e: Entry, field: ListField): seq<string> {
    if field in e.lists then e.lists[field] else []
  }

  /** `[...new Set(names)]`. */
  function Unique(names: seq<string>): seq<string> {
    if names == [] then []
    else
      var init, last := Unique(names[..|names| - 1]), names[|names| - 1];
      if last in init then init else init + [last]
  }

  /** What `registerApp` pushes: empty lists are left out, and most fields belong to global
      apps only. */
  function NewEntry(op: Op): Entry
    requires op.Register?
  {
    var isGlobal := op.realm == Global;
    Entry(op.prefix, op.owner, Some(op.name), Some(op.realm), if isGlobal then op.mode else None,
          map f | f in op.lists && op.lists[f] != [] && (isGlobal || f == SharedLists) :: op.lists[f],
          if isGlobal then op.personalBundle else None, if isGlobal then op.appType else None,
          if isGlobal then op.bundleVersion else None, None, false)
  }

  /** The entry an operation pushes, given the current one of its prefix. */
  function Pushed(current: Option<Entry>, op: Op): Result<Entry, Error> {
    match op
    case Register(_, _, _, _, _, _, _, _, _) => Ok(NewEntry(op))
    case Unregister(prefix) => Ok(Entry(prefix, None, None, None, None, map[], None, None, None, None, true))
    case _ =>
      if current.None? then Err(NotRegistered)
      else
        var e := current.value;
        match op
        case SetMode(_, mode) => if RealmOf(e) != Global then Err(NotGlobal) else Ok(e.(mode := Some(mode)))
        case SetBundleVersion(_, version) => Ok(e.(bundleVersion := Some(version)))
        case AddNames(_, field, names) => Ok(e.(lists := e.lists[field := Unique(ListOf(e, field) + names)]))
        case SetConfig(_, config) => Ok(e.(config := Some(e.config.GetOr(map[]) + config)))
        case _ => Ok(e)
  }

  function Apply(log: Log, op: Op): Log {
    match Pushed(Current(log, op.prefix), op)
    case Ok(e) => log + [Some(e)]
    case Err(_) => log
  }

  function Run(log: Log, ops: seq<Op>): Log {
    if ops == [] then log else Apply(Run(log, ops[..|ops| - 1]), ops[|ops| - 1])
  }

  predicate Listed(log: Log, prefix: string) {
    Current(log, prefix).Some? && !Current(log, prefix).value.removed
  }

  // ----- what an operation changes -------------------------------------------------------------

  /** A log whose current entry for a prefix has that prefix. */
  lemma {:induction false} CurrentHasPrefix(log: Log, prefix: string)
    ensures Current(log, prefix).Some? ==> Current(log, prefix).value.prefix == prefix && Current(log, prefix) in log
  {
    if log != [] {
      CurrentHasPrefix(log[..|log| - 1], prefix);
    }
  }

  /** Every operation concerns its own prefix only, and the pushed entry becomes current. A
      throwing operation leaves the log as it was. */
  lemma OnlyOwnPrefix(log: Log, op: Op, prefix: string)
    ensures prefix != op.prefix ==> Current(Apply(log, op), prefix) == Current(log, prefix)
    ensures Pushed(Current(log, op.prefix), op).Ok? ==>
      Current(Apply(log, op), op.prefix) == Some(Pushed(Current(log, op.prefix), op).value)
    ensures Pushed(Current(log, op.prefix), op).Err? ==> Apply(log, op) == log
  {
    CurrentHasPrefix(log, op.prefix);
    match Pushed(Current(log, op.prefix), op)
    case Ok(e) => assert (log + [Some(e)])[..|log|] == log;
    case Err(_) =>
  }

  predicate EntryAt(log: Log, i: int, prefix: string) {
    0 <= i < |log| && log[i].Some? && log[i].value.prefix == prefix
  }

  /** The current entry is the prefix's last one in the log. */
  lemma {:induction false} CurrentIsLast(log: Log, prefix: string)
    ensures Current(log, prefix).Some? <==> exists i :: EntryAt(log, i, prefix)
    ensures forall i :: EntryAt(log, i, prefix) && (forall j :: j > i ==> !EntryAt(log, j, prefix)) ==>
      Current(log, prefix) == log[i]
  {
    if log != [] {
      var n := |log| - 1;
      CurrentIsLast(log[..n], prefix);
      assert forall i :: i != n ==> (EntryAt(log, i, prefix) <==> EntryAt(log[..n], i, prefix));
      if EntryAt(log, n, prefix) {
        assert forall i :: EntryAt(log, i, prefix) && i != n ==> i < n;
      } else {
        assert forall i :: EntryAt(log, i, prefix) <==> EntryAt(log[..n], i, prefix);
      }
    }
  }

  /** What is registered is what was asked for: the owner's key, the name and the realm for every
      app, the mode and what belongs to a personal instance for global ones, and of the name lists
      those that the realm has. Nothing of an earlier entry is carried over. */
  lemma RegisterIsExact(log: Log, op: Op)
    requires op.Register?
    ensures var now := Current(Apply(log, op), op.prefix);
      && now.Some? && now.value.prefix == op.prefix
      && now.value.owner == op.owner && now.value.name == Some(op.name) && now.value.realm == Some(op.realm)
      && now.value.config == None && !now.value.removed
      && (op.realm == Global ==>
            now.value.mode == op.mode && now.value.personalBundle == op.personalBundle
            && now.value.appType == op.appType && now.value.bundleVersion == op.bundleVersion)
      && (op.realm == Main ==>
            now.value.mode == None && now.value.personalBundle == None
            && now.value.appType == None && now.value.bundleVersion == None)
      && (forall f :: ListOf(now.value, f) == if f in op.lists && (op.realm == Global || f == SharedLists) then op.lists[f] else [])
    ensures |Apply(log, op)| == |log| + 1
  {
    OnlyOwnPrefix(log, op, op.prefix);
  }

  /** A retraction leaves the prefix alone, without anything it had. */
  lemma UnregisterIsExact(log: Log, op: Op)
    requires op.Unregister?
    ensures var now := Current(Apply(log, op), op.prefix);
      && now.Some? && now.value.prefix == op.prefix && now.value.removed
      && now.value.owner == None && now.value.name == None && now.value.realm == None && now.value.mode == None
      && now.value.personalBundle == None && now.value.appType == None && now.value.bundleVersion == None
      && now.value.config == None && forall f :: ListOf(now.value, f) == []
    ensures |Apply(log, op)| == |log| + 1
  {
    OnlyOwnPrefix(log, op, op.prefix);
  }

  /** A setter carries every other field over. */
  lemma SetterChangesOneField(log: Log, op: Op)
    requires !op.Register? && !op.Unregister? && Pushed(Current(log, op.prefix), op).Ok?
    ensures var was := Current(log, op.prefix).value;
      var now := Current(Apply(log, op), op.prefix);
      now.Some? &&
      match op
      case SetMode(_, mode) => now.value == was.(mode := Some(mode)) && RealmOf(was) == Global
      case SetBundleVersion(_, version) => now.value == was.(bundleVersion := Some(version))
      case AddNames(_, field, names) =>
        && now.value == was.(lists := now.value.lists)
        && (forall f :: f != field ==> ListOf(now.value, f) == ListOf(was, f))
        && (forall n :: n in ListOf(now.value, field) <==> n in ListOf(was, field) || n in names)
        && NoDuplicates(ListOf(now.value, field))
      case SetConfig(_, config) =>
        && now.value == was.(config := now.value.config) && now.value.config.Some?
        && (forall k :: k in config ==> k in now.value.config.value && now.value.config.value[k] == config[k])
        && (forall k :: k in was.config.GetOr(map[]) && k !in config ==>
              k in now.value.config.value && now.value.config.value[k] == was.config.GetOr(map[])[k])
        && now.value.config.value.Keys == was.config.GetOr(map[]).Keys + config.Keys
      case _ => true
  {
    OnlyOwnPrefix(log, op, op.prefix);
    if op.AddNames? {
      UniqueElements(ListOf(Current(log, op.prefix).value, op.field) + op.names);
    }
  }

  lemma {:induction false} UniqueElements(names: seq<string>)
    ensures NoDuplicates(Unique(names))
    ensures forall n :: n in Unique(names) <==> n in names
  {
    if names != [] {
      UniqueElements(names[..|names| - 1]);
      assert names == names[..|names| - 1] + [names[|names| - 1]];
    }
  }

  /** `Unique` keeps a duplicate-free start and appends what is new. */
  lemma {:induction false} UniqueKeepsStart(start: seq<string>, more: seq<string>)
    requires NoDuplicates(start)
    ensures start <= Unique(start + more)
    ensures (forall n :: n in more ==> n in start) ==> Unique(start + more) == start
  {
    if more == [] {
      assert start + more == start;
      UniqueOfDuplicateFree(start);
    } else {
      var n := |more| - 1;
      assert (start + more)[..|start + more| - 1] == start + more[..n];
      assert forall x :: x in more[..n] ==> x in more;
      UniqueKeepsStart(start, more[..n]);
    }
  }

  lemma {:induction false} UniqueOfDuplicateFree(names: seq<string>)
    requires NoDuplicates(names)
    ensures Unique(names) == names
  {
    if names != [] {
      UniqueOfDuplicateFree(names[..|names| - 1]);
    }
  }

  /** Adding the same names a second time changes nothing in the reduced view, and names that
      were there stay, in their order, when the list had no duplicates. */
  lemma AddIsIdempotent(log: Log, prefix: string, field: ListField, names: seq<string>)
    requires Current(log, prefix).Some?
    ensures var op := AddNames(prefix, field, names);
      Current(Apply(Apply(log, op), op), prefix) == Current(Apply(log, op), prefix)
    ensures var was := ListOf(Current(log, prefix).value, field);
      NoDuplicates(was) ==>
        was <= ListOf(Current(Apply(log, AddNames(prefix, field, names)), prefix).value, field)
  {
    var op := AddNames(prefix, field, names);
    var e := Current(log, prefix).value;
    OnlyOwnPrefix(log, op, prefix);
    OnlyOwnPrefix(Apply(log, op), op, prefix);
    var once := Unique(ListOf(e, field) + names);
    UniqueElements(ListOf(e, field) + names);
    UniqueKeepsStart(once, names);
    if NoDuplicates(ListOf(e, field)) {
      UniqueKeepsStart(ListOf(e, field), names);
    }
    var e' := e.(lists := e.lists[field := once]);
    assert e'.lists[field := once] == e'.lists;
  }

  // ----- runs ------------------------------------------------------------------------------------

  /** Whether the latest `registerApp` or `unregisterApp` for the prefix was a `registerApp`. */
  predicate LastIsRegister(ops: seq<Op>, prefix: string) {
    ops != [] &&
    var last := ops[|ops| - 1];
    if last.prefix == prefix && (last.Register? || last.Unregister?) then last.Register?
    else LastIsRegister(ops[..|ops| - 1], prefix)
  }

  /** Over every run of operations a prefix is listed exactly when its latest registration
      operation registered it; so no setter ever brings a retracted prefix back. */
  lemma {:induction false} ListedExactly(ops: seq<Op>, prefix: string)
    ensures Listed(Run([], ops), prefix) <==> LastIsRegister(ops, prefix)
  {
    if ops != [] {
      var init, op := ops[..|ops| - 1], ops[|ops| - 1];
      ListedExactly(init, prefix);
      OnlyOwnPrefix(Run([], init), op, prefix);
    }
  }

  /** When a setter is refused. Its message says that the prefix is not registered; it is
      raised exactly when no entry for the prefix was ever pushed, so a retracted prefix is
      accepted - except by `setAppMode`, which its missing realm refuses. */
  lemma SetterRefusedExactly(log: Log, op: Op)
    requires !op.Register? && !op.Unregister?
    ensures Pushed(Current(log, op.prefix), op) == Err(NotRegistered)
      <==> !exists e :: Some(e) in log && e.prefix == op.prefix
    ensures Pushed(Current(log, op.prefix), op) == Err(NotGlobal)
      <==> op.SetMode? && Current(log, op.prefix).Some? && RealmOf(Current(log, op.prefix).value) != Global
  {
    CurrentHasPrefix(log, op.prefix);
    CurrentExists(log, op.prefix);
  }

  lemma {:induction false} CurrentExists(log: Log, prefix: string)
    ensures Current(log, prefix).None? <==> !exists e :: Some(e) in log && e.prefix == prefix
  {
    if log != [] {
      var init, last := log[..|log| - 1], log[|log| - 1];
      assert log == init + [last];
      CurrentExists(init, prefix);
      if last.Some? && last.value.prefix == prefix {
        assert last in log;
      }
    }
  }

  // ----- resolveApps -------------------------------------------------------------------------------

  /** An app as `resolveApps` presents it. */
  datatype App = App(entry: Entry, realm: Realm, mode: Option<Mode>)

  function Present(e: Entry): App {
    App(e, RealmOf(e), if RealmOf(e) == Global then Some(e.mode.GetOr(GlobalMode)) else None)
  }

  /** The prefixes of a log in order of first appearance: the key order of `byPrefix`. */
  function Prefixes(log: Log): seq<string> {
    if log == [] then []
    else
      var init, last := Prefixes(log[..|log| - 1]), log[|log| - 1];
      if last.None? || last.value.prefix in init then init else init + [last.value.prefix]
  }

  function Apps(log: Log, prefixes: seq<string>): seq<App> {
    if prefixes == [] then []
    else
      Apps(log, prefixes[..|prefixes| - 1]) +
      var prefix := prefixes[|prefixes| - 1];
      if Listed(log, prefix) then [Present(Current(log, prefix).value)] else []
  }

  /** `resolveApps`: fills a map in log order, then lists what is not retracted. */
  method ResolveApps(log: Log) returns (apps: seq<App>)
    ensures apps == Apps(log, Prefixes(log))
  {
    var keys: seq<string> := [];
    var byPrefix: map<string, Entry> := map[];
    var i := 0;
    while i < |log|
      invariant 0 <= i <= |log|
      invariant keys == Prefixes(log[..i])
      invariant forall p :: p in byPrefix <==> p in keys
      invariant forall p :: p in byPrefix ==> Current(log[..i], p) == Some(byPrefix[p])
      invariant forall p :: p !in byPrefix ==> Current(log[..i], p) == None
    {
      assert log[..i + 1][..i] == log[..i];
      if log[i].Some? {
        var a := log[i].value;
        if a.prefix !in byPrefix {
          keys := keys + [a.prefix];
        }
        byPrefix := byPrefix[a.prefix := a];
      }
      i := i + 1;
    }
    assert log[..i] == log;
    apps := [];
    i := 0;
    while i < |keys|
      invariant 0 <= i <= |keys|
      invariant apps == Apps(log, keys[..i])
    {
      assert keys[..i + 1][..i] == keys[..i];
      var a := byPrefix[keys[i]];
      if !a.removed {
        apps := apps + [Present(a)];
      }
      i := i + 1;
    }
    assert keys[..i] == keys;
  }

  lemma {:induction false} PrefixesAreExact(log: Log)
    ensures NoDuplicates(Prefixes(log))
    ensures forall p :: p in Prefixes(log) <==> Current(log, p).Some?
  {
    if log != [] {
      PrefixesAreExact(log[..|log| - 1]);
    }
  }

  lemma {:induction false} AppsAreExact(log: Log, prefixes: seq<string>)
    requires NoDuplicates(prefixes)
    ensures forall a :: a in Apps(log, prefixes) <==>
      exists p :: p in prefixes && Listed(log, p) && a == Present(Current(log, p).value)
    ensures forall i, j :: 0 <= i < j < |Apps(log, prefixes)| ==>
      Apps(log, prefixes)[i].entry.prefix != Apps(log, prefixes)[j].entry.prefix
  {
    if prefixes != [] {
      var init, last := prefixes[..|prefixes| - 1], prefixes[|prefixes| - 1];
      assert prefixes == init + [last];
      AppsAreExact(log, init);
      CurrentHasPrefix(log, last);
      forall a | a in Apps(log, init) ensures a.entry.prefix in init {
        var p :| p in init && Listed(log, p) && a == Present(Current(log, p).value);
        CurrentHasPrefix(log, p);
      }
    }
  }

  /** How an entry is presented: with realm main unless it says otherwise, and, for a global app
      only, with mode global unless it says otherwise. */
  predicate Presented(a: App, e: Entry) {
    && a.entry == e
    && (match e.realm case None => a.realm == Main case Some(r) => a.realm == r)
    && (if e.realm == Some(Global) then
          match e.mode case None => a.mode == Some(GlobalMode) case Some(m) => a.mode == Some(m)
        else a.mode == None)
  }

  /** `p` is in the log before `q` first is. */
  ghost predicate AppearsBefore(log: Log, p: string, q: string) {
    exists k :: EntryAt(log, k, p) && forall m :: m <= k ==> !EntryAt(log, m, q)
  }

  lemma {:induction false} PrefixesInOrder(log: Log)
    ensures forall i, j :: 0 <= i < j < |Prefixes(log)| ==> AppearsBefore(log, Prefixes(log)[i], Prefixes(log)[j])
  {
    if log != [] {
      var n := |log| - 1;
      var init := log[..n];
      PrefixesInOrder(init);
      PrefixesAreExact(init);
      assert forall k, p :: k != n ==> (EntryAt(log, k, p) <==> EntryAt(init, k, p));
      var before, now := Prefixes(init), Prefixes(log);
      forall i, j | 0 <= i < j < |now| ensures AppearsBefore(log, now[i], now[j]) {
        if j < |before| {
          assert AppearsBefore(init, before[i], before[j]);
          var k :| EntryAt(init, k, before[i]) && forall m :: m <= k ==> !EntryAt(init, m, before[j]);
          assert EntryAt(log, k, now[i]) && forall m :: m <= k ==> !EntryAt(log, m, now[j]);
        } else {
          assert before[i] in before;
          CurrentIsLast(init, now[i]);
          CurrentIsLast(init, now[j]);
          var k :| EntryAt(init, k, now[i]);
          assert EntryAt(log, k, now[i]) && forall m :: m <= k ==> !EntryAt(log, m, now[j]);
        }
      }
    }
  }

  /** The prefixes of the listed apps, in the order of the apps. */
  function ListedOf(log: Log, prefixes: seq<string>): seq<string> {
    if prefixes == [] then []
    else
      ListedOf(log, prefixes[..|prefixes| - 1])
      + if Listed(log, prefixes[|prefixes| - 1]) then [prefixes[|prefixes| - 1]] else []
  }

  lemma {:induction false} AppsOfListed(log: Log, prefixes: seq<string>)
    ensures |Apps(log, prefixes)| == |ListedOf(log, prefixes)|
    ensures forall i :: 0 <= i < |Apps(log, prefixes)| ==> Apps(log, prefixes)[i].entry.prefix == ListedOf(log, prefixes)[i]
  {
    if prefixes != [] {
      AppsOfListed(log, prefixes[..|prefixes| - 1]);
      CurrentHasPrefix(log, prefixes[|prefixes| - 1]);
    }
  }

  lemma {:induction false} ListedKeepOrder(log: Log, prefixes: seq<string>)
    requires forall i, j :: 0 <= i < j < |prefixes| ==> AppearsBefore(log, prefixes[i], prefixes[j])
    ensures forall p :: p in ListedOf(log, prefixes) ==> p in prefixes
    ensures forall i, j :: 0 <= i < j < |ListedOf(log, prefixes)| ==>
      AppearsBefore(log, ListedOf(log, prefixes)[i], ListedOf(log, prefixes)[j])
  {
    if prefixes != [] {
      var n := |prefixes| - 1;
      ListedKeepOrder(log, prefixes[..n]);
      var before := ListedOf(log, prefixes[..n]);
      forall i | 0 <= i < |before| ensures AppearsBefore(log, before[i], prefixes[n]) {
        assert before[i] in before && before[i] in prefixes[..n];
        var k :| 0 <= k < n && prefixes[..n][k] == before[i];
        assert prefixes[k] == before[i];
      }
      assert prefixes == prefixes[..n] + [prefixes[n]];
    }
  }

  /** `resolveApps` lists one app per listed prefix, made from that prefix's last entry, in the
      order in which the prefixes first appear. */
  lemma ResolvedAppsAreExact(log: Log)
    ensures var apps := Apps(log, Prefixes(log));
      && (forall i, j :: 0 <= i < j < |apps| ==> apps[i].entry.prefix != apps[j].entry.prefix)
      && (forall a :: a in apps ==> Listed(log, a.entry.prefix) && Presented(a, Current(log, a.entry.prefix).value))
      && (forall p :: Listed(log, p) ==> exists a :: a in apps && Presented(a, Current(log, p).value))
      && (forall i, j :: 0 <= i < j < |apps| ==> AppearsBefore(log, apps[i].entry.prefix, apps[j].entry.prefix))
  {
    PrefixesAreExact(log);
    PrefixesInOrder(log);
    AppsAreExact(log, Prefixes(log));
    ListedKeepOrder(log, Prefixes(log));
    AppsOfListed(log, Prefixes(log));
    forall p | Current(log, p).Some? ensures Current(log, p).value.prefix == p {
      CurrentHasPrefix(log, p);
    }
    forall p | Listed(log, p) ensures Present(Current(log, p).value) in Apps(log, Prefixes(log)) {
    }
  }

  // ----- resolveForPath ----------------------------------------------------------------------------

  datatype Target = Target(prefix: string, subPath: string, app: Option<App>, key: Option<seq<nat>>)

  /** `decode` is the base64url decoding of an owner key, `None` when it throws. */
  function ResolveForPath(log: Log, path: string, decode: string -> Option<seq<nat>>): Option<Target> {
    var (prefix, subPath) := SplitPath(path);
    if Listed(log, prefix) then
      var app := Present(Current(log, prefix).value);
      if app.realm == Global && app.mode == Some(OffMode) then None else Some(Target(prefix, subPath, Some(app), None))
    else if decode(prefix).Some? && |decode(prefix).value| == 32 then Some(Target(prefix, subPath, None, decode(prefix)))
    else None
  }

  /** Where a path leads: to the listed app of its first segment, as presented, unless that is a
      global app that is off; without a listed app to the owner whose key the segment is; and the
      rest of the path goes along. */
  lemma ResolvesExactly(log: Log, path: string, decode: string -> Option<seq<nat>>)
    ensures var (prefix, subPath) := SplitPath(path);
      var target := ResolveForPath(log, path, decode);
      if Listed(log, prefix) then
        var e := Current(log, prefix).value;
        if e.realm == Some(Global) && e.mode == Some(OffMode) then target == None
        else target.Some? && target.value.prefix == prefix && target.value.subPath == subPath
             && target.value.key == None && target.value.app.Some? && Presented(target.value.app.value, e)
      else if decode(prefix).Some? && |decode(prefix).value| == 32 then
        target.Some? && target.value.prefix == prefix && target.value.subPath == subPath
        && target.value.key == decode(prefix) && target.value.app == None
      else target == None
  {
  }

  /** An app that is switched off is meant to look as if it had never been registered. It
      does exactly when its prefix is not itself a well-formed owner key. */
  lemma OffLooksAbsentExactly(log: Log, path: string, decode: string -> Option<seq<nat>>)
    requires var prefix := SplitPath(path).0;
      && Listed(log, prefix) && RealmOf(Current(log, prefix).value) == Global
      && Current(log, prefix).value.mode == Some(OffMode)
    ensures var prefix := SplitPath(path).0;
      ResolveForPath(log, path, decode) == ResolveForPath([], path, decode)
      <==> !(decode(prefix).Some? && |decode(prefix).value| == 32)
  {
  }

  /** An owner key as the prefix of a path. */
  function OwnerKey(prefix: string): Option<seq<nat>> {
    Codecs.FromUrl(prefix)
  }

  /** A log and a path for which it does not: under the 43 characters of an owner key an app that
      is off resolves to nothing, while without an entry the path resolves to that owner. */
  lemma OffKeyLooksDifferent(key: seq<Codecs.Byte>, op: Op, subPath: string)
    requires |key| == 32 && "/" <= subPath
    requires op.Register? && op.prefix == Codecs.ToUrl(key) && op.realm == Global && op.mode == Some(OffMode)
    ensures var log := Run([], [op]);
      && |op.prefix| == 43 && Listed(log, op.prefix)
      && ResolveForPath(log, "/" + op.prefix + subPath, OwnerKey) == None
      && ResolveForPath([], "/" + op.prefix + subPath, OwnerKey) == Some(Target(op.prefix, subPath, None, Some(key)))
  {
    assert |op.prefix| == 43 by {
      Codecs.UrlLength(key);
    }
    assert SplitPath("/" + op.prefix + subPath) == (op.prefix, subPath) by {
      Codecs.UrlIsMappedData(key);
      SplitOfNamespace(op.prefix, subPath);
    }
    assert OwnerKey(op.prefix) == Some(key) by {
      Codecs.UrlRoundTrip(key);
    }
    OnlyEntry(op);
  }

  lemma OnlyEntry(op: Op)
    requires op.Register?
    ensures Current(Run([], [op]), op.prefix) == Some(NewEntry(op))
  {
    assert [op][..0] == [];
    assert Run([], [op]) == Apply([], op) == [Some(NewEntry(op))];
  }

  /** A retracted app always looks as if it had never been registered. */
  lemma RetractedLooksAbsent(log: Log, path: string, decode: string -> Option<seq<nat>>)
    ensures var log' := Apply(log, Unregister(SplitPath(path).0));
      ResolveForPath(log', path, decode) == ResolveForPath([], path, decode)
  {
    OnlyOwnPrefix(log, Unregister(SplitPath(path).0), SplitPath(path).0);
  }

  // ----- the field list that all of them write -------------------------------------------------------

  class Registry {
    var apps: Log

    constructor ()
      ensures apps == []
    {
      apps := [];
    }

    /** Each operation reads the list, and pushes at most one entry. */
    method Perform(op: Op) returns (result: Result<(), Error>)
      modifies this
      ensures apps == Apply(old(apps), op)
      ensures result.Ok? <==> |apps| == |old(apps)| + 1
      ensures result.Err? ==> apps == old(apps)
    {
      var current := FindCurrent(op.prefix);
      var pushed := Pushed(current, op);
      if pushed.Err? {
        return Err(pushed.error);
      }
      apps := apps + [Some(pushed.value)];
      result := Ok(());
    }

    /** `[...apps].reverse().find`: the search from the end. */
    method FindCurrent(prefix: string) returns (current: Option<Entry>)
      ensures current == Current(apps, prefix)
    {
      var i := |apps|;
      assert apps[..i] == apps;
      while i > 0
        invariant 0 <= i <= |apps|
        invariant Current(apps, prefix) == Current(apps[..i], prefix)
      {
        assert apps[..i][..i - 1] == apps[..i - 1];
        i := i - 1;
        if apps[i].Some? && apps[i].value.prefix == prefix {
          return apps[i];
        }
      }
      current := None;
      assert apps[..0] == [];
    }
  }
}
