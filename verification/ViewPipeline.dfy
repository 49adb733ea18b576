/** The batch form of a View: concatenate the sources, filter by the query, sort, limit. */
module ViewPipeline {
  import opened Wrappers
  import opened Sequences
  import opened Sorting
  import opened Texts

  /** A field of a normalized item; `Missing` is null or undefined. */
  datatype Value = Missing | Num(n: real) | Str(s: string)

  datatype Item = Item(fields: map<string, Value>, raw: nat) {
    function Get(field: string): Value {
      if field in fields then fields[field] else Missing
    }
  }

  /** Conversions of the host language that the pipeline uses as they are. */
  datatype Host = Host(trim: string -> string, lower: string -> string, show: real -> string, number: string -> Option<real>)

  datatype Config = Config(sortBy: string, ascending: bool, limit: Option<int>, searchFields: seq<string>, host: Host)

  // ----- sorting --------------------------------------------------------------------------

  /** A missing key stands for the empty string. */
  function Key(item: Item, sortBy: string): Value {
    if item.Get(sortBy).Missing? then Str("") else item.Get(sortBy)
  }

  /** The host's `<`: strings by code unit, everything else as numbers; a text that is no
      number compares false with every number. */
  predicate Less(a: Value, b: Value, host: Host) {
    match (a, b)
    case (Str(s), Str(t)) => LexLess(s, t)
    case (Num(x), Num(y)) => x < y
    case (Num(x), Str(t)) => host.number(t).Some? && x < host.number(t).value
    case (Str(s), Num(y)) => host.number(s).Some? && host.number(s).value < y
    case _ => false
  }

  function Signed(ascending: bool, less: bool, greater: bool): int {
    var dir := if ascending then 1 else -1;
    if less then -dir else if greater then dir else 0
  }

  function Compare(config: Config, a: Item, b: Item): int {
    var av, bv := Key(a, config.sortBy), Key(b, config.sortBy);
    Signed(config.ascending, Less(av, bv, config.host), Less(bv, av, config.host))
  }

  function CompareBy(config: Config): (Item, Item) -> int {
    (a: Item, b: Item) => Compare(config, a, b)
  }

  // ----- the pipeline ---------------------------------------------------------------------

  function Flatten(sources: seq<seq<Item>>): seq<Item> {
    if sources == [] then [] else Flatten(sources[..|sources| - 1]) + sources[|sources| - 1]
  }

  predicate Contains(text: string, part: string) {
    part <= text || (text != [] && Contains(text[1..], part))
  }

  function Text(v: Value, host: Host): string {
    match v
    case Missing => ""
    case Num(n) => host.show(n)
    case Str(s) => s
  }

  predicate MatchesQuery(config: Config, item: Item, query: string) {
    exists f :: f in config.searchFields && Contains(config.host.lower(Text(item.Get(f), config.host)), query)
  }

  function Filter(config: Config, items: seq<Item>, query: string): seq<Item> {
    if query == "" || items == [] then items
    else
      var init, last := items[..|items| - 1], items[|items| - 1];
      Filter(config, init, query) + if MatchesQuery(config, last, query) then [last] else []
  }

  function Sort(config: Config, items: seq<Item>): seq<Item> {
    if config.sortBy == "" then items else StableSort(items, CompareBy(config))
  }

  /** `slice(0, limit)`, or everything without a limit; a negative limit counts from the end. */
  function Limit(items: seq<Item>, limit: Option<int>): seq<Item> {
    match limit
    case None => items
    case Some(n) =>
      if n >= |items| then items else if n >= 0 then items[..n] else if |items| + n >= 0 then items[..|items| + n] else []
  }

  function Batch(config: Config, sources: seq<seq<Item>>, query: string): seq<Item> {
    Limit(Sort(config, Filter(config, Flatten(sources), query)), config.limit)
  }

  // ----- what the ranking means -------------------------------------------------------------

  /** Sort keys of one type; items without the key may be among them. */
  ghost predicate NumericKeys(config: Config, items: seq<Item>) {
    forall item :: item in items ==> !item.Get(config.sortBy).Str?
  }

  ghost predicate TextKeys(config: Config, items: seq<Item>) {
    forall item :: item in items ==> !item.Get(config.sortBy).Num?
  }

  function NumericKey(item: Item, sortBy: string): real {
    if item.Get(sortBy).Num? then item.Get(sortBy).n else 0.0
  }

  function TextKey(item: Item, sortBy: string): string {
    if item.Get(sortBy).Str? then item.Get(sortBy).s else ""
  }

  function CompareNumbers(config: Config, a: Item, b: Item): int {
    var x, y := NumericKey(a, config.sortBy), NumericKey(b, config.sortBy);
    Signed(config.ascending, x < y, y < x)
  }

  function CompareTexts(config: Config, a: Item, b: Item): int {
    var x, y := TextKey(a, config.sortBy), TextKey(b, config.sortBy);
    Signed(config.ascending, LexLess(x, y), LexLess(y, x))
  }

  function ByNumber(config: Config): (Item, Item) -> int {
    (a: Item, b: Item) => CompareNumbers(config, a, b)
  }

  function ByText(config: Config): (Item, Item) -> int {
    (a: Item, b: Item) => CompareTexts(config, a, b)
  }

  lemma TextsCompare(config: Config, a: Item, b: Item, c: Item)
    ensures CompareTexts(config, a, b) <= 0 || CompareTexts(config, b, a) <= 0
    ensures CompareTexts(config, a, b) < 0 ==> CompareTexts(config, b, a) > 0
    ensures CompareTexts(config, a, b) <= 0 && CompareTexts(config, b, c) <= 0 ==> CompareTexts(config, a, c) <= 0
  {
    var x, y, z := TextKey(a, config.sortBy), TextKey(b, config.sortBy), TextKey(c, config.sortBy);
    LexAsymmetric(x, y);
    LexAsymmetric(y, z);
    LexAsymmetric(x, z);
    LexTransitive(x, y, z);
    LexTransitive(z, y, x);
  }

  lemma ByTextIsConsistent(config: Config)
    ensures Consistent(ByText(config))
  {
    var cmp := ByText(config);
    forall a, b ensures (cmp(a, b) <= 0 || cmp(b, a) <= 0) && (cmp(a, b) < 0 ==> cmp(b, a) > 0) {
      TextsCompare(config, a, b, b);
    }
    forall a, b, c | cmp(a, b) <= 0 && cmp(b, c) <= 0 ensures cmp(a, c) <= 0 {
      TextsCompare(config, a, b, c);
    }
  }

  lemma NumbersCompare(config: Config, a: Item, b: Item, c: Item)
    ensures CompareNumbers(config, a, b) <= 0 || CompareNumbers(config, b, a) <= 0
    ensures CompareNumbers(config, a, b) < 0 ==> CompareNumbers(config, b, a) > 0
    ensures CompareNumbers(config, a, b) <= 0 && CompareNumbers(config, b, c) <= 0 ==> CompareNumbers(config, a, c) <= 0
  {
  }

  lemma ByNumberIsConsistent(config: Config)
    ensures Consistent(ByNumber(config))
  {
    var cmp := ByNumber(config);
    forall a, b ensures (cmp(a, b) <= 0 || cmp(b, a) <= 0) && (cmp(a, b) < 0 ==> cmp(b, a) > 0) {
      NumbersCompare(config, a, b, b);
    }
    forall a, b, c | cmp(a, b) <= 0 && cmp(b, c) <= 0 ensures cmp(a, c) <= 0 {
      NumbersCompare(config, a, b, c);
    }
  }

  /** Two comparators that agree on the elements sort them alike. */
  lemma {:induction false} SameSort<T>(s: seq<T>, cmp: (T, T) -> int, cmp': (T, T) -> int)
    requires forall a, b :: a in s && b in s ==> cmp(a, b) == cmp'(a, b)
    ensures StableSort(s, cmp) == StableSort(s, cmp')
    ensures forall x :: x in StableSort(s, cmp) ==> x in s
  {
    if s != [] {
      var n := |s| - 1;
      SameSort(s[..n], cmp, cmp');
      SameInsert(StableSort(s[..n], cmp), s[n], cmp, cmp');
    }
  }

  lemma {:induction false} SameInsert<T>(s: seq<T>, x: T, cmp: (T, T) -> int, cmp': (T, T) -> int)
    requires forall a :: a in s ==> cmp(a, x) == cmp'(a, x)
    ensures InsertStable(s, x, cmp) == InsertStable(s, x, cmp')
    ensures forall y :: y in InsertStable(s, x, cmp) ==> y in s || y == x
  {
    if s != [] && cmp(s[|s| - 1], x) > 0 {
      SameInsert(s[..|s| - 1], x, cmp, cmp');
    }
  }

  /** On keys of one type the View's comparator is one that is consistent everywhere. */
  lemma RankingIsFaithful(config: Config, items: seq<Item>, numeric: bool)
    requires config.host.number("") == Some(0.0)
    requires if numeric then NumericKeys(config, items) else TextKeys(config, items)
    ensures var rank := if numeric then ByNumber(config) else ByText(config);
      Consistent(rank) && forall a, b :: a in items && b in items ==> CompareBy(config)(a, b) == rank(a, b)
  {
    ByTextIsConsistent(config);
    ByNumberIsConsistent(config);
    var rank := if numeric then ByNumber(config) else ByText(config);
    forall a, b | a in items && b in items ensures CompareBy(config)(a, b) == rank(a, b) {
      if numeric {
        NumericKeysCompare(config, a, b);
        assert ByNumber(config)(a, b) == CompareNumbers(config, a, b);
      } else {
        assert ByText(config)(a, b) == CompareTexts(config, a, b);
      }
      assert CompareBy(config)(a, b) == Compare(config, a, b);
    }
  }

  lemma NumericKeysCompare(config: Config, a: Item, b: Item)
    requires config.host.number("") == Some(0.0)
    requires !a.Get(config.sortBy).Str? && !b.Get(config.sortBy).Str?
    ensures Compare(config, a, b) == CompareNumbers(config, a, b)
  {
    assert !LexLess("", "");
  }

  // ----- which items, and in what order ---------------------------------------------------------

  /** The sources one after the other: `at` says where each begins. */
  lemma {:induction false} FlattenIsExact(sources: seq<seq<Item>>) returns (at: seq<nat>)
    ensures |at| == |sources| + 1 && at[0] == 0 && at[|sources|] == |Flatten(sources)|
    ensures forall i :: 0 <= i < |sources| ==> SourceAt(sources, Flatten(sources), at, i)
  {
    if sources == [] {
      at := [0];
    } else {
      var n := |sources| - 1;
      var before := FlattenIsExact(sources[..n]);
      var earlier, all := Flatten(sources[..n]), Flatten(sources);
      at := before + [|all|];
      forall i | 0 <= i < |sources| ensures SourceAt(sources, all, at, i) {
        if i < n {
          assert SourceAt(sources[..n], earlier, before, i);
          assert all[at[i]..at[i + 1]] == earlier[before[i]..before[i + 1]];
        }
      }
    }
  }

  predicate SourceAt(sources: seq<seq<Item>>, all: seq<Item>, at: seq<nat>, i: int) {
    0 <= i < |sources| && i + 1 < |at| && at[i] <= at[i + 1] <= |all| && all[at[i]..at[i + 1]] == sources[i]
  }

  /** The query occurs, in lower case, in one of the searched fields; an empty one matches all. */
  ghost predicate Found(config: Config, item: Item, query: string) {
    query == "" || exists f :: f in config.searchFields && FoundIn(config, item, query, f)
  }

  ghost predicate FoundIn(config: Config, item: Item, query: string, f: string) {
    match item.Get(f)
    case Missing => Occurs(config.host.lower(""), query)
    case Num(n) => Occurs(config.host.lower(config.host.show(n)), query)
    case Str(s) => Occurs(config.host.lower(s), query)
  }

  ghost predicate Occurs(text: string, part: string) {
    exists k :: OccursAt(text, part, k)
  }

  predicate OccursAt(text: string, part: string, k: int) {
    0 <= k && k + |part| <= |text| && text[k..k + |part|] == part
  }

  lemma SliceOfTail(text: string, k: nat, n: nat)
    requires 1 <= k && k + n <= |text|
    ensures text[1..][k - 1..k - 1 + n] == text[k..k + n]
  {
  }

  lemma {:induction false} ContainsIsOccurs(text: string, part: string)
    ensures Contains(text, part) <==> Occurs(text, part)
  {
    if part <= text {
      assert text[0..0 + |part|] == part;
      assert OccursAt(text, part, 0);
    } else if text != [] {
      ContainsIsOccurs(text[1..], part);
      forall k | k > 0 ensures OccursAt(text, part, k) <==> OccursAt(text[1..], part, k - 1) {
        if k + |part| <= |text| {
          SliceOfTail(text, k, |part|);
        }
      }
      forall k | OccursAt(text[1..], part, k) ensures OccursAt(text, part, k + 1) {
      }
    }
  }

  lemma MatchesIsFound(config: Config, item: Item, query: string)
    requires query != ""
    ensures MatchesQuery(config, item, query) <==> Found(config, item, query)
  {
    forall f ensures Contains(config.host.lower(Text(item.Get(f), config.host)), query) <==> FoundIn(config, item, query, f) {
      ContainsIsOccurs(config.host.lower(Text(item.Get(f), config.host)), query);
    }
  }

  /** `at` names the items of `items` that are in `r`, in their order there: those that are found. */
  ghost predicate Selects(config: Config, items: seq<Item>, query: string, r: seq<Item>, at: seq<nat>) {
    && |at| == |r|
    && (forall m, n :: 0 <= m < n < |at| ==> at[m] < at[n])
    && (forall m :: 0 <= m < |at| ==> at[m] < |items| && r[m] == items[at[m]])
    && (forall k :: 0 <= k < |items| ==> (k in at <==> Found(config, items[k], query)))
  }

  lemma {:induction false} FilterIsExact(config: Config, items: seq<Item>, query: string) returns (at: seq<nat>)
    ensures Selects(config, items, query, Filter(config, items, query), at)
  {
    if query == "" {
      at := seq(|items|, k => k);
      assert forall k :: 0 <= k < |items| ==> at[k] == k;
    } else if items == [] {
      at := [];
    } else {
      var n := |items| - 1;
      at := FilterIsExact(config, items[..n], query);
      MatchesIsFound(config, items[n], query);
      SelectsOneMore(config, items[..n], items[n], query, Filter(config, items[..n], query), at);
      assert items == items[..n] + [items[n]];
      if MatchesQuery(config, items[n], query) {
        at := at + [n];
      }
    }
  }

  lemma SelectsOneMore(config: Config, items: seq<Item>, item: Item, query: string, r: seq<Item>, at: seq<nat>)
    requires Selects(config, items, query, r, at)
    ensures if Found(config, item, query) then Selects(config, items + [item], query, r + [item], at + [|items|])
            else Selects(config, items + [item], query, r, at)
  {
    var more := at + [|items|];
    assert more[|at|] == |items|;
    assert forall k :: k in at ==> k in more;
  }

  /** One item may stand before another: its key is not beyond the other's in the direction asked
      for, and with equal keys it comes earlier in the sources. */
  ghost predicate MayPrecede(config: Config, numeric: bool, a: Item, b: Item, aFrom: nat, bFrom: nat) {
    if numeric then
      var x, y := NumericKey(a, config.sortBy), NumericKey(b, config.sortBy);
      (if config.ascending then x <= y else x >= y) && (x == y ==> aFrom < bFrom)
    else
      var x, y := TextKey(a, config.sortBy), TextKey(b, config.sortBy);
      (if config.ascending then !LexLess(y, x) else !LexLess(x, y)) && (x == y ==> aFrom < bFrom)
  }

  ghost predicate OrderedByKey(config: Config, numeric: bool, list: seq<Item>, from: seq<nat>) {
    |from| == |list| && forall i, j :: 0 <= i < j < |list| ==> MayPrecede(config, numeric, list[i], list[j], from[i], from[j])
  }

  /** `from` names the place of each item of `list` among `all`. */
  ghost predicate TakenFrom(all: seq<Item>, list: seq<Item>, from: seq<nat>) {
    && |from| == |list| && NoDuplicates(from)
    && forall i :: 0 <= i < |list| ==> from[i] < |all| && list[i] == all[from[i]]
  }

  /** What the query finds is all there is in the list. */
  ghost predicate HoldsAllFound(config: Config, all: seq<Item>, query: string, from: seq<nat>) {
    forall k :: 0 <= k < |all| ==> (k in from <==> Found(config, all[k], query))
  }

  /** What a View shows, with sort keys of one type. Its list continued by what the limit drops
      holds every item of the sources that the query finds, once, by its place in the sources;
      ascending keys come in rising and descending ones in falling order, throughout and so also
      across the limit; and equal keys keep the order of the sources. */
  lemma ViewIsTopOfRanking(config: Config, sources: seq<seq<Item>>, query: string, numeric: bool)
    returns (dropped: seq<Item>, from: seq<nat>)
    requires config.sortBy != "" && config.host.number("") == Some(0.0)
    requires var matched := Filter(config, Flatten(sources), query);
      if numeric then NumericKeys(config, matched) else TextKeys(config, matched)
    ensures var all, list := Flatten(sources), Batch(config, sources, query) + dropped;
      && TakenFrom(all, list, from)
      && HoldsAllFound(config, all, query, from)
      && OrderedByKey(config, numeric, list, from)
    ensures LimitKept(config.limit, |from|, |Batch(config, sources, query)|)
  {
    var all := Flatten(sources);
    var matched := Filter(config, all, query);
    var kept := Batch(config, sources, query);
    var sorted;
    sorted, from := RankedByKey(config, all, query, numeric);
    assert kept == Limit(sorted, config.limit);
    LimitIsExact(sorted, config.limit);
    dropped := sorted[|kept|..];
    assert sorted == kept + dropped;
  }

  /** The ranking before the limit. */
  lemma RankedByKey(config: Config, all: seq<Item>, query: string, numeric: bool) returns (sorted: seq<Item>, from: seq<nat>)
    requires config.host.number("") == Some(0.0)
    requires var matched := Filter(config, all, query);
      if numeric then NumericKeys(config, matched) else TextKeys(config, matched)
    ensures sorted == StableSort(Filter(config, all, query), CompareBy(config))
    ensures TakenFrom(all, sorted, from) && HoldsAllFound(config, all, query, from) && OrderedByKey(config, numeric, sorted, from)
  {
    var matched := Filter(config, all, query);
    var at := FilterIsExact(config, all, query);
    var within;
    sorted, within := SortedByKey(config, matched, numeric);
    from := Compose(all, matched, at, sorted, within);
    SamePlaces(config, numeric, sorted, within, from);
  }

  lemma SamePlaces(config: Config, numeric: bool, list: seq<Item>, within: seq<nat>, from: seq<nat>)
    requires OrderedByKey(config, numeric, list, within) && |from| == |within|
    requires forall i, j :: 0 <= i < |from| && 0 <= j < |from| ==> (from[i] < from[j] <==> within[i] < within[j])
    ensures OrderedByKey(config, numeric, list, from)
  {
    forall i, j | 0 <= i < j < |list| ensures MayPrecede(config, numeric, list[i], list[j], from[i], from[j]) {
      assert MayPrecede(config, numeric, list[i], list[j], within[i], within[j]);
    }
  }

  /** Places within a selection are places in what was selected from. */
  lemma Compose(all: seq<Item>, matched: seq<Item>, at: seq<nat>, sorted: seq<Item>, within: seq<nat>)
    returns (from: seq<nat>)
    requires |at| == |matched| && forall m, n :: 0 <= m < n < |at| ==> at[m] < at[n]
    requires forall m :: 0 <= m < |at| ==> at[m] < |all| && matched[m] == all[at[m]]
    requires Arranges(matched, within, sorted)
    ensures TakenFrom(all, sorted, from) && forall k :: k in from <==> k in at
    ensures forall i, j :: 0 <= i < |from| && 0 <= j < |from| ==> (from[i] < from[j] <==> within[i] < within[j])
  {
    forall i | 0 <= i < |within| ensures within[i] < |at| {
      assert Holds(matched, within, sorted, i);
    }
    from := seq(|within|, i requires 0 <= i < |within| => at[within[i]]);
    forall i | 0 <= i < |sorted| ensures from[i] < |all| && sorted[i] == all[from[i]] {
      assert Holds(matched, within, sorted, i);
    }
    forall k | k in at ensures k in from {
      var m :| 0 <= m < |at| && at[m] == k;
      OntoPlaces(within, m);
      var i :| 0 <= i < |within| && within[i] == m;
      assert from[i] == k;
    }
    forall i, j | 0 <= i < j < |from| ensures from[i] != from[j] {
      assert within[i] != within[j];
    }
  }

  /** How many items a limit keeps: a negative one counts from the end. */
  predicate LimitKept(limit: Option<int>, found: nat, kept: nat) {
    match limit
    case None => kept == found
    case Some(n) =>
      if n >= 0 then kept <= n && kept <= found && (kept == n || kept == found)
      else kept == if found >= -n then found + n else 0
  }

  /** Without a sort key the items stay in the order of the sources. */
  lemma UnsortedView(config: Config, sources: seq<seq<Item>>, query: string) returns (dropped: seq<Item>, at: seq<nat>)
    requires config.sortBy == ""
    ensures Selects(config, Flatten(sources), query, Batch(config, sources, query) + dropped, at)
    ensures LimitKept(config.limit, |at|, |Batch(config, sources, query)|)
  {
    var matched := Filter(config, Flatten(sources), query);
    var kept := Batch(config, sources, query);
    dropped := matched[|Limit(matched, config.limit)|..];
    assert kept + dropped == matched && LimitKept(config.limit, |matched|, |kept|) by {
      LimitIsExact(matched, config.limit);
    }
    at := FilterIsExact(config, Flatten(sources), query);
  }

  lemma LimitIsExact(items: seq<Item>, limit: Option<int>)
    ensures Limit(items, limit) <= items && LimitKept(limit, |items|, |Limit(items, limit)|)
  {
  }

  /** The stable sort by the View's comparator, read as a sort by key. */
  lemma SortedByKey(config: Config, items: seq<Item>, numeric: bool) returns (sorted: seq<Item>, from: seq<nat>)
    requires config.host.number("") == Some(0.0)
    requires if numeric then NumericKeys(config, items) else TextKeys(config, items)
    ensures sorted == StableSort(items, CompareBy(config)) && Arranges(items, from, sorted)
    ensures OrderedByKey(config, numeric, sorted, from)
  {
    var rank := if numeric then ByNumber(config) else ByText(config);
    RankingIsFaithful(config, items, numeric);
    SameSort(items, CompareBy(config), rank);
    sorted := StableSort(items, rank);
    from := StableSortArranges(items, rank);
    forall i, j | 0 <= i < j < |sorted| ensures MayPrecede(config, numeric, sorted[i], sorted[j], from[i], from[j]) {
      assert Ranks(sorted[i], sorted[j], from[i], from[j], rank);
      RanksByKey(config, numeric, sorted[i], sorted[j], from[i], from[j]);
    }
  }

  lemma RanksByKey(config: Config, numeric: bool, a: Item, b: Item, aFrom: nat, bFrom: nat)
    requires Ranks(a, b, aFrom, bFrom, if numeric then ByNumber(config) else ByText(config))
    ensures MayPrecede(config, numeric, a, b, aFrom, bFrom)
  {
    if !numeric {
      LexTotal(TextKey(a, config.sortBy), TextKey(b, config.sortBy));
      LexAsymmetric(TextKey(a, config.sortBy), TextKey(b, config.sortBy));
    }
  }

  /** Keys of different types have no ranking: a number ties with every text that is no
      number, although those texts do not tie with each other. */
  lemma MixedKeysHaveNoRanking(config: Config)
    requires config.host.number("a") == None && config.host.number("b") == None
    ensures !Consistent(CompareBy(config))
  {
    var a := Item(map[config.sortBy := Str("a")], 0);
    var b := Item(map[config.sortBy := Str("b")], 0);
    var n := Item(map[config.sortBy := Num(5.0)], 0);
    var cmp := CompareBy(config);
    assert LexLess("a", "b") && !LexLess("b", "a") by {
      assert "a"[0] < "b"[0];
    }
    assert cmp(a, n) == Compare(config, a, n) == 0;
    assert cmp(n, b) == Compare(config, n, b) == 0;
    assert cmp(b, n) == Compare(config, b, n) == 0;
    assert cmp(n, a) == Compare(config, n, a) == 0;
    assert cmp(a, b) == Compare(config, a, b) != 0;
    assert cmp(b, a) == Compare(config, b, a) != 0;
  }
}
