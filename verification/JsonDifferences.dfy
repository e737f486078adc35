/** Without rules, the mismatches of two documents are their differences, each reported once, in document order. */
module JsonDifferences {
  import opened Wrappers
  import opened Json
  import opened StringOrder
  import opened Paths
  import opened Rules
  import opened Contexts
  import opened JsonVerdicts

  // ---- Differences of two documents

  datatype Step = AtKey(key: string) | AtIndex(index: nat)

  // Where two documents differ, and how; of a list, each missing item is a difference of its own.
  datatype Difference = Difference(position: seq<Step>, tag: Tag, item: nat)

  // The two values at a position, if it can be reached through keys and indices that both documents have.
  function Pair(e: Value, a: Value, position: seq<Step>): Option<(Value, Value)> {
    if position == [] then Some((e, a))
    else match position[0]
      case AtKey(key) =>
        if e.Object? && a.Object? && key in e.entries && key in a.entries
        then Pair(e.entries[key], a.entries[key], position[1..]) else None
      case AtIndex(i) =>
        if e.Array? && a.Array? && i < |e.items| && i < |a.items|
        then Pair(e.items[i], a.items[i], position[1..]) else None
  }

  predicate KeysFit(config: DiffConfig, expected: set<string>, actual: set<string>) {
    if config == NoUnexpectedKeys then expected == actual else expected <= actual
  }

  // Maps differ by their keys, lists by their lengths and missing items, and scalars by their values.
  predicate Differs(config: DiffConfig, e: Value, a: Value, tag: Tag, item: nat) {
    && (tag != MissingItem ==> item == 0)
    && if e.Object? && a.Object? then
         if config == NoUnexpectedKeys && e.entries == map[] && a.entries != map[] then tag == UnexpectedEntries
         else tag == KeysMismatch && !KeysFit(config, e.entries.Keys, a.entries.Keys)
       else if e.Array? && a.Array? then
         if e.items == [] && a.items != [] then tag == UnexpectedItems
         else (tag == LengthMismatch && |e.items| != |a.items|) || (tag == MissingItem && |a.items| <= item < |e.items|)
       else if e.Object? || e.Array? then tag == TypeMismatch
       else tag == ValueMismatch && e != a
  }

  predicate IsDifference(config: DiffConfig, e: Value, a: Value, d: Difference) {
    var pair := Pair(e, a, d.position);
    pair.Some? && Differs(config, pair.value.0, pair.value.1, d.tag, d.item)
  }

  // The order of the document: a map's own difference comes before its entries, a list's own ones after its items.
  predicate Precedes(x: Difference, y: Difference)
    decreases |x.position|
  {
    if x.position == [] && y.position == [] then
      x.tag == MissingItem && (y.tag == LengthMismatch || (y.tag == MissingItem && x.item < y.item))
    else if x.position == [] then x.tag == KeysMismatch
    else if y.position == [] then y.tag == MissingItem || y.tag == LengthMismatch
    else if x.position[0] == y.position[0] then Precedes(Above(x), Above(y))
    else match (x.position[0], y.position[0])
      case (AtKey(k), AtKey(l)) => Below(k, l)
      case (AtIndex(i), AtIndex(j)) => i < j
      case _ => false
  }

  // The difference as seen one step further down.
  function Above(d: Difference): Difference
    requires d.position != []
  {
    d.(position := d.position[1..])
  }

  function Part(step: Step): string {
    match step
    case AtKey(key) => key
    case AtIndex(i) => ShowNat(i)
  }

  // The path of a position below a path.
  function PathTo(path: Path, position: seq<Step>): Path
    decreases |position|
  {
    if position == [] then path else PathTo(path + [TokenOf(Part(position[0]))], position[1..])
  }

  function MismatchFor(path: Path, d: Difference): Mismatch {
    Mismatch(PathTo(path, d.position), d.tag)
  }

  // ---- Reporting a set of differences

  // The mismatches are those of the listed differences, in their order.
  ghost predicate AreFor(ms: seq<Mismatch>, path: Path, ds: seq<Difference>) {
    |ms| == |ds| && forall i :: 0 <= i < |ds| ==> ms[i] == MismatchFor(path, ds[i])
  }

  // The list has all of the set in order, and nothing twice.
  ghost predicate Enumerates(ds: seq<Difference>, s: iset<Difference>) {
    && (forall d :: d in ds <==> d in s)
    && (forall i, j :: 0 <= i < j < |ds| ==> ds[i] != ds[j] && Precedes(ds[i], ds[j]))
  }

  ghost predicate AllPrecede(s: iset<Difference>, t: iset<Difference>) {
    forall x, y | x in s && y in t :: Precedes(x, y)
  }

  // There is one mismatch for each difference of the set, in order, and no other.
  ghost predicate OneForEach(ms: seq<Mismatch>, path: Path, s: iset<Difference>) {
    exists ds :: AreFor(ms, path, ds) && Enumerates(ds, s)
  }

  lemma NoneForNone(path: Path)
    ensures OneForEach([], path, iset{})
  {
    assert AreFor([], path, []) && Enumerates([], iset{});
  }

  lemma OneForOne(path: Path, tag: Tag, item: nat)
    ensures OneForEach([Mismatch(path, tag)], path, iset{Difference([], tag, item)})
  {
    var ds := [Difference([], tag, item)];
    assert AreFor([Mismatch(path, tag)], path, ds) && Enumerates(ds, iset{Difference([], tag, item)});
  }

  lemma EnumeratesBoth(ds: seq<Difference>, es: seq<Difference>, s: iset<Difference>, t: iset<Difference>)
    requires Enumerates(ds, s) && Enumerates(es, t) && s !! t && AllPrecede(s, t)
    ensures Enumerates(ds + es, s + t)
  {
    var all := ds + es;
    forall i, j | 0 <= i < j < |all| ensures all[i] != all[j] && Precedes(all[i], all[j]) {
      if i < |ds| <= j {
        assert all[i] in ds && all[j] in es;
      }
    }
  }

  lemma AreForBoth(ms: seq<Mismatch>, ns: seq<Mismatch>, path: Path, ds: seq<Difference>, es: seq<Difference>)
    requires AreFor(ms, path, ds) && AreFor(ns, path, es)
    ensures AreFor(ms + ns, path, ds + es)
  {
  }

  lemma BothForEach(ms: seq<Mismatch>, ns: seq<Mismatch>, path: Path, s: iset<Difference>, t: iset<Difference>)
    requires OneForEach(ms, path, s) && OneForEach(ns, path, t) && s !! t && AllPrecede(s, t)
    ensures OneForEach(ms + ns, path, s + t)
  {
    var ds :| AreFor(ms, path, ds) && Enumerates(ds, s);
    var es :| AreFor(ns, path, es) && Enumerates(es, t);
    EnumeratesBoth(ds, es, s, t);
    AreForBoth(ms, ns, path, ds, es);
  }

  function Deeper(step: Step, d: Difference): Difference {
    d.(position := [step] + d.position)
  }

  predicate IsBelow(step: Step, d: Difference) {
    d.position != [] && d.position[0] == step
  }

  // The differences one step further down.
  ghost function AllBelow(step: Step, s: iset<Difference>): iset<Difference> {
    iset d: Difference | IsBelow(step, d) && Above(d) in s
  }

  lemma BelowAndAbove(step: Step, d: Difference)
    ensures IsBelow(step, Deeper(step, d)) && Above(Deeper(step, d)) == d
    ensures IsBelow(step, d) ==> Deeper(step, Above(d)) == d
  {
    if IsBelow(step, d) {
      assert [d.position[0]] + d.position[1..] == d.position;
    }
  }

  lemma EnumeratesBelow(step: Step, ds: seq<Difference>, below: seq<Difference>, s: iset<Difference>)
    requires Enumerates(ds, s) && |below| == |ds| && forall i :: 0 <= i < |ds| ==> below[i] == Deeper(step, ds[i])
    ensures Enumerates(below, AllBelow(step, s))
  {
    forall d | d in below ensures d in AllBelow(step, s) {
      var i :| 0 <= i < |below| && below[i] == d;
      BelowAndAbove(step, ds[i]);
      assert ds[i] in ds;
    }
    forall d | d in AllBelow(step, s) ensures d in below {
      assert Above(d) in ds;
      var i :| 0 <= i < |ds| && ds[i] == Above(d);
      BelowAndAbove(step, d);
      assert below[i] in below;
    }
    forall i, j | 0 <= i < j < |below| ensures below[i] != below[j] && Precedes(below[i], below[j]) {
      BelowAndAbove(step, ds[i]);
      BelowAndAbove(step, ds[j]);
    }
  }

  lemma OneForEachBelow(ms: seq<Mismatch>, path: Path, step: Step, s: iset<Difference>)
    requires OneForEach(ms, JoinPath(path, Part(step)), s)
    ensures OneForEach(ms, path, AllBelow(step, s))
  {
    var ds :| AreFor(ms, JoinPath(path, Part(step)), ds) && Enumerates(ds, s);
    var below := seq(|ds|, i requires 0 <= i < |ds| => Deeper(step, ds[i]));
    EnumeratesBelow(step, ds, below, s);
    forall i | 0 <= i < |below| ensures ms[i] == MismatchFor(path, below[i]) {
      BelowAndAbove(step, ds[i]);
    }
    assert AreFor(ms, path, below);
  }

  // ---- The comparator

  ghost function Differences(config: DiffConfig, e: Value, a: Value): iset<Difference> {
    iset d: Difference | IsDifference(config, e, a, d)
  }

  // The mismatches of a verdict.
  function Found(v: Verdict): seq<Mismatch> {
    if v.Ok? then [] else v.mismatches
  }

  lemma FoundInBoth(a: Verdict, b: Verdict)
    ensures Found(MergeResult(a, b)) == Found(a) + Found(b)
  {
  }

  lemma MergeForEach(v: Verdict, w: Verdict, path: Path, s: iset<Difference>, t: iset<Difference>)
    requires OneForEach(Found(v), path, s) && OneForEach(Found(w), path, t) && s !! t && AllPrecede(s, t)
    ensures OneForEach(Found(MergeResult(v, w)), path, s + t)
  {
    FoundInBoth(v, w);
    BothForEach(Found(v), Found(w), path, s, t);
  }

  // The differences at the two values themselves.
  ghost function Here(config: DiffConfig, e: Value, a: Value): iset<Difference> {
    iset d: Difference | d.position == [] && IsDifference(config, e, a, d)
  }

  predicate AtKeys(d: Difference, keys: seq<string>, i: nat)
    requires i <= |keys|
  {
    d.position != [] && d.position[0].AtKey? && d.position[0].key in keys[..i]
  }

  // Those at or below the first `i` keys.
  ghost function AtEntries(keys: seq<string>, i: nat, config: DiffConfig, e: Value, a: Value): iset<Difference>
    requires i <= |keys|
  {
    iset d: Difference | AtKeys(d, keys, i) && IsDifference(config, e, a, d)
  }

  lemma NextKey(keys: seq<string>, i: nat, d: Difference)
    requires i < |keys|
    ensures AtKeys(d, keys, i + 1) <==> AtKeys(d, keys, i) || IsBelow(AtKey(keys[i]), d)
  {
    assert keys[..i + 1] == keys[..i] + [keys[i]];
  }

  lemma NextEntry(keys: seq<string>, i: nat, config: DiffConfig, e: Value, a: Value)
    requires i < |keys| && e.Object? && a.Object? && keys[i] in e.entries && Distinct(keys)
    ensures keys[i] !in a.entries ==> AtEntries(keys, i + 1, config, e, a) == AtEntries(keys, i, config, e, a)
    ensures keys[i] in a.entries ==>
      var below := AllBelow(AtKey(keys[i]), Differences(config, e.entries[keys[i]], a.entries[keys[i]]));
      AtEntries(keys, i + 1, config, e, a) == AtEntries(keys, i, config, e, a) + below && AtEntries(keys, i, config, e, a) !! below
  {
    forall d ensures AtKeys(d, keys, i + 1) <==> AtKeys(d, keys, i) || IsBelow(AtKey(keys[i]), d) {
      NextKey(keys, i, d);
    }
    assert keys[i] !in keys[..i];
  }

  lemma MoreBelow(v: Verdict, w: Verdict, path: Path, step: Step, s: iset<Difference>, t: iset<Difference>)
    requires OneForEach(Found(v), path, s) && OneForEach(Found(w), JoinPath(path, Part(step)), t) && s !! AllBelow(step, t) && AllPrecede(s, AllBelow(step, t))
    ensures OneForEach(Found(MergeResult(v, w)), path, s + AllBelow(step, t))
  {
    OneForEachBelow(Found(w), path, step, t);
    MergeForEach(v, w, path, s, AllBelow(step, t));
  }

  predicate InOrder(keys: seq<string>) {
    Distinct(keys) && Ascending(keys)
  }

  // A map's own difference, if there is one.
  ghost predicate OfKeys(s: iset<Difference>) {
    forall d <- s :: d.position == [] && d.tag == KeysMismatch
  }

  lemma NextEntryWith(s: iset<Difference>, keys: seq<string>, i: nat, config: DiffConfig, e: Value, a: Value)
    requires i < |keys| && e.Object? && a.Object? && keys[i] in e.entries && keys[i] in a.entries && InOrder(keys)
    requires OfKeys(s)
    ensures var below := AllBelow(AtKey(keys[i]), Differences(config, e.entries[keys[i]], a.entries[keys[i]]));
      && s + AtEntries(keys, i, config, e, a) + below == s + AtEntries(keys, i + 1, config, e, a)
      && s + AtEntries(keys, i, config, e, a) !! below && AllPrecede(s + AtEntries(keys, i, config, e, a), below)
  {
    var below := AllBelow(AtKey(keys[i]), Differences(config, e.entries[keys[i]], a.entries[keys[i]]));
    NextEntry(keys, i, config, e, a);
    forall x, y | x in s + AtEntries(keys, i, config, e, a) && y in below ensures Precedes(x, y) {
      if x !in s {
        var j :| 0 <= j < i && keys[j] == x.position[0].key;
        assert Below(keys[j], keys[i]);
        BelowIrreflexive(keys[i]);
      }
    }
  }

  // What the comparator has to do for two values.
  ghost predicate ReportsEach(path: Path, e: Value, a: Value, c: Context) {
    OneForEach(Found(JsonVerdict(path, e, a, c)), path, Differences(c.config, e, a))
  }

  ghost predicate EntriesReportEach(start: Verdict, s: iset<Difference>, keys: seq<string>, i: nat, path: Path, e: Value, a: Value, c: Context)
    requires e.Object? && a.Object? && i <= |keys| && forall k <- keys :: k in e.entries
  {
    OneForEach(Found(EntriesVerdict(start, keys, i, path, e, a, c)), path, s + AtEntries(keys, i, c.config, e, a))
  }

  lemma EntryStep(start: Verdict, s: iset<Difference>, keys: seq<string>, i: nat, path: Path, e: Value, a: Value, c: Context)
    requires e.Object? && a.Object? && i < |keys| && (forall k <- keys :: k in e.entries) && InOrder(keys)
    requires OfKeys(s)
    requires keys[i] in e.entries && EntriesReportEach(start, s, keys, i, path, e, a, c)
    requires keys[i] in a.entries ==> ReportsEach(JoinPath(path, keys[i]), e.entries[keys[i]], a.entries[keys[i]], c.Under(keys[i]))
    ensures EntriesReportEach(start, s, keys, i + 1, path, e, a, c)
  {
    var key := keys[i];
    if key in a.entries {
      NextEntryWith(s, keys, i, c.config, e, a);
      MoreBelow(EntriesVerdict(start, keys, i, path, e, a, c),
        JsonVerdict(JoinPath(path, key), e.entries[key], a.entries[key], c.Under(key)),
        path, AtKey(key), s + AtEntries(keys, i, c.config, e, a), Differences(c.config, e.entries[key], a.entries[key]));
    } else {
      NextEntry(keys, i, c.config, e, a);
    }
  }

  lemma NoEntryYet(start: Verdict, s: iset<Difference>, keys: seq<string>, path: Path, e: Value, a: Value, c: Context)
    requires e.Object? && a.Object? && (forall k <- keys :: k in e.entries) && OneForEach(Found(start), path, s)
    ensures EntriesReportEach(start, s, keys, 0, path, e, a, c)
  {
    assert s + AtEntries(keys, 0, c.config, e, a) == s;
  }

  lemma {:induction false} EntriesForEach(start: Verdict, s: iset<Difference>, keys: seq<string>, i: nat, path: Path, e: Value, a: Value, c: Context)
    requires e.Object? && a.Object? && i <= |keys| && (forall k <- keys :: k in e.entries) && InOrder(keys)
    requires NothingBelow(c, path) && OfKeys(s) && EntriesReportEach(start, s, keys, 0, path, e, a, c)
    ensures EntriesReportEach(start, s, keys, i, path, e, a, c)
    decreases e, 1, i
  {
    if i > 0 {
      EntriesForEach(start, s, keys, i - 1, path, e, a, c);
      OneMoreEntry(start, s, keys, i - 1, path, e, a, c);
    }
  }

  lemma {:induction false} OneMoreEntry(start: Verdict, s: iset<Difference>, keys: seq<string>, i: nat, path: Path, e: Value, a: Value, c: Context)
    requires e.Object? && a.Object? && i < |keys| && (forall k <- keys :: k in e.entries) && InOrder(keys)
    requires NothingBelow(c, path) && OfKeys(s) && EntriesReportEach(start, s, keys, i, path, e, a, c)
    ensures EntriesReportEach(start, s, keys, i + 1, path, e, a, c)
    decreases e, 0
  {
    var key := keys[i];
    assert key in keys;
    if key in a.entries {
      NothingFurtherBelow(c, path, key);
      EachDifferenceOnce(JoinPath(path, key), e.entries[key], a.entries[key], c.Under(key));
    }
    EntryStep(start, s, keys, i, path, e, a, c);
  }

  lemma KeysForEach(path: Path, e: Value, a: Value, c: Context)
    requires e.Object? && a.Object? && NothingBelow(c, path)
    requires !(c.config == NoUnexpectedKeys && e.entries == map[] && a.entries != map[])
    ensures OneForEach(Found(KeysVerdict(c, path, e.entries.Keys, a.entries.Keys)), path, Here(c.config, e, a))
  {
    var v := KeysVerdict(c, path, e.entries.Keys, a.entries.Keys);
    assert MatchersForExactPath(c.matchers, path) == [] && !c.KeysAreMatched(path);
    if KeysFit(c.config, e.entries.Keys, a.entries.Keys) {
      NoneForNone(path);
      assert Found(v) == [] && Here(c.config, e, a) == iset{};
    } else {
      OneForOne(path, KeysMismatch, 0);
      assert Found(v) == [Mismatch(path, KeysMismatch)];
      assert Here(c.config, e, a) == iset{Difference([], KeysMismatch, 0)};
    }
  }

  lemma DifferencesOfMaps(keys: seq<string>, config: DiffConfig, e: Value, a: Value)
    requires e.Object? && a.Object? && forall k :: k in keys <==> k in e.entries.Keys
    ensures Differences(config, e, a) == Here(config, e, a) + AtEntries(keys, |keys|, config, e, a)
  {
    assert keys[..|keys|] == keys;
  }

  // Two values that are not both maps or both lists differ here or not at all.
  lemma OneForHere(path: Path, e: Value, a: Value, c: Context, tag: Tag)
    requires forall d :: IsDifference(c.config, e, a, d) <==> d == Difference([], tag, 0)
    requires Found(JsonVerdict(path, e, a, c)) == [Mismatch(path, tag)]
    ensures ReportsEach(path, e, a, c)
  {
    OneForOne(path, tag, 0);
    assert Differences(c.config, e, a) == iset{Difference([], tag, 0)};
  }

  lemma {:induction false} MapsForEach(path: Path, e: Value, a: Value, c: Context)
    requires e.Object? && a.Object? && NothingBelow(c, path)
    ensures ReportsEach(path, e, a, c)
    decreases e, 2
  {
    if c.config == NoUnexpectedKeys && e.entries == map[] && a.entries != map[] {
      OneForHere(path, e, a, c, UnexpectedEntries);
    } else {
      var keys, start := SortedKeys(e.entries.Keys), KeysVerdict(c, path, e.entries.Keys, a.entries.Keys);
      KeysForEach(path, e, a, c);
      SortedKeysAscending(e.entries.Keys);
      NoEntryYet(start, Here(c.config, e, a), keys, path, e, a, c);
      EntriesForEach(start, Here(c.config, e, a), keys, |keys|, path, e, a, c);
      DifferencesOfMaps(keys, c.config, e, a);
      assert JsonVerdict(path, e, a, c) == EntriesVerdict(start, keys, |keys|, path, e, a, c);
    }
  }

  // ---- Lists

  predicate AtItem(d: Difference, i: nat) {
    if d.position == [] then d.tag == MissingItem && d.item < i else d.position[0].AtIndex? && d.position[0].index < i
  }

  // The differences in the first `i` items, and the missing ones of them.
  ghost function AtItems(i: nat, config: DiffConfig, e: Value, a: Value): iset<Difference> {
    iset d: Difference | AtItem(d, i) && IsDifference(config, e, a, d)
  }

  lemma NextMissing(i: nat, config: DiffConfig, e: Value, a: Value)
    requires e.Array? && a.Array? && |a.items| <= i < |e.items|
    ensures var missing := iset{Difference([], MissingItem, i)};
      && AtItems(i + 1, config, e, a) == AtItems(i, config, e, a) + missing
      && AtItems(i, config, e, a) !! missing && AllPrecede(AtItems(i, config, e, a), missing)
  {
  }

  lemma NextItem(i: nat, config: DiffConfig, e: Value, a: Value)
    requires e.Array? && a.Array? && i < |e.items| && i < |a.items|
    ensures var below := AllBelow(AtIndex(i), Differences(config, e.items[i], a.items[i]));
      && AtItems(i + 1, config, e, a) == AtItems(i, config, e, a) + below
      && AtItems(i, config, e, a) !! below && AllPrecede(AtItems(i, config, e, a), below)
  {
  }

  ghost predicate ItemsReportEach(i: nat, path: Path, e: Value, a: Value, c: Context)
    requires e.Array? && a.Array? && i <= |e.items|
  {
    OneForEach(Found(ItemsVerdict(i, path, e, a, c)), path, AtItems(i, c.config, e, a))
  }

  lemma ItemStep(i: nat, path: Path, e: Value, a: Value, c: Context)
    requires e.Array? && a.Array? && i < |e.items| && !c.MatcherIsDefined(JoinPath(path, ShowNat(i)))
    requires ItemsReportEach(i, path, e, a, c)
    requires i < |a.items| ==> ReportsEach(JoinPath(path, ShowNat(i)), e.items[i], a.items[i], c)
    ensures ItemsReportEach(i + 1, path, e, a, c)
  {
    var so, p := ItemsVerdict(i, path, e, a, c), JoinPath(path, ShowNat(i));
    if i < |a.items| {
      NextItem(i, c.config, e, a);
      var v, s := JsonVerdict(p, e.items[i], a.items[i], c), Differences(c.config, e.items[i], a.items[i]);
      OneForEachBelow(Found(v), path, AtIndex(i), s);
      MergeForEach(so, v, path, AtItems(i, c.config, e, a), AllBelow(AtIndex(i), s));
    } else {
      NextMissing(i, c.config, e, a);
      OneForOne(path, MissingItem, i);
      MergeForEach(so, Fail(path, MissingItem), path, AtItems(i, c.config, e, a), iset{Difference([], MissingItem, i)});
    }
  }

  lemma {:induction false} ItemsForEach(i: nat, path: Path, e: Value, a: Value, c: Context)
    requires e.Array? && a.Array? && i <= |e.items| && NothingBelow(c, path)
    ensures ItemsReportEach(i, path, e, a, c)
    decreases e, 1, i
  {
    if i > 0 {
      ItemsForEach(i - 1, path, e, a, c);
      NothingFurtherBelow(c, path, ShowNat(i - 1));
      if i - 1 < |a.items| {
        EachDifferenceOnce(JoinPath(path, ShowNat(i - 1)), e.items[i - 1], a.items[i - 1], c);
      }
      ItemStep(i - 1, path, e, a, c);
    } else {
      NoneForNone(path);
      assert AtItems(0, c.config, e, a) == iset{};
    }
  }

  lemma DifferencesOfLists(config: DiffConfig, e: Value, a: Value)
    requires e.Array? && a.Array? && !(e.items == [] && a.items != [])
    ensures Differences(config, e, a) ==
      AtItems(|e.items|, config, e, a) + (if |e.items| == |a.items| then iset{} else iset{Difference([], LengthMismatch, 0)})
  {
  }

  lemma LengthForEach(v: Verdict, path: Path, s: iset<Difference>)
    requires OneForEach(Found(v), path, s) && forall d <- s :: d.position != [] || d.tag == MissingItem
    ensures OneForEach(Found(MergeResult(v, Fail(path, LengthMismatch))), path, s + iset{Difference([], LengthMismatch, 0)})
  {
    OneForOne(path, LengthMismatch, 0);
    MergeForEach(v, Fail(path, LengthMismatch), path, s, iset{Difference([], LengthMismatch, 0)});
  }

  lemma UnexpectedForEach(path: Path, e: Value, a: Value, c: Context)
    requires e.Array? && a.Array? && e.items == [] && a.items != [] && !c.MatcherIsDefined(path)
    ensures ReportsEach(path, e, a, c)
  {
    OneForHere(path, e, a, c, UnexpectedItems);
  }

  lemma {:induction false} ListsForEach(path: Path, e: Value, a: Value, c: Context)
    requires e.Array? && a.Array? && NothingBelow(c, path)
    ensures ReportsEach(path, e, a, c)
    decreases e, 2
  {
    assert !MatcherIsDefined(c.matchers, path);
    if e.items == [] && a.items != [] {
      UnexpectedForEach(path, e, a, c);
    } else {
      var content := ItemsVerdict(|e.items|, path, e, a, c);
      ItemsForEach(|e.items|, path, e, a, c);
      DifferencesOfLists(c.config, e, a);
      if |e.items| != |a.items| {
        LengthForEach(content, path, AtItems(|e.items|, c.config, e, a));
        assert JsonVerdict(path, e, a, c) == MergeResult(content, Fail(path, LengthMismatch));
      } else {
        assert JsonVerdict(path, e, a, c) == content;
        assert AtItems(|e.items|, c.config, e, a) + iset{} == AtItems(|e.items|, c.config, e, a);
      }
    }
  }

  // Values that are not both maps or both lists.
  lemma OthersForEach(path: Path, e: Value, a: Value, c: Context)
    requires !c.MatcherIsDefined(path) && !(e.Object? && a.Object?) && !(e.Array? && a.Array?)
    ensures ReportsEach(path, e, a, c)
  {
    if e.Object? || e.Array? {
      OneForHere(path, e, a, c, TypeMismatch);
    } else if e != a {
      OneForHere(path, e, a, c, ValueMismatch);
    } else {
      NoneForNone(path);
      assert Differences(c.config, e, a) == iset{};
    }
  }

  /** Without rules at or below a path, the comparator reports every difference of the documents, each one once, at its
    * path, and in document order. */
  lemma {:induction false} EachDifferenceOnce(path: Path, e: Value, a: Value, c: Context)
    requires NothingBelow(c, path)
    ensures ReportsEach(path, e, a, c)
    decreases e, 3
  {
    if e.Object? && a.Object? {
      MapsForEach(path, e, a, c);
    } else if e.Array? && a.Array? {
      ListsForEach(path, e, a, c);
    } else {
      assert !MatcherIsDefined(c.matchers, path);
      OthersForEach(path, e, a, c);
    }
  }
}
