/** What resolving a path finds: the positions of the document that match it, in document order. */
module ResolvePathLaws {
  import opened Wrappers
  import opened Json
  import opened StringOrder
  import opened Text
  import opened Sequences
  import opened Paths
  import opened Arena
  import opened PathGraph
  import opened ResolvePath

  // ---- Positions in a document

  datatype Step = Key(name: string) | Item(index: nat)

  type Position = seq<Step>

  function Child(v: Value, step: Step): Option<Value> {
    match step
    case Key(name) => if v.Object? && name in v.entries then Some(v.entries[name]) else None
    case Item(i) => if v.Array? && i < |v.items| then Some(v.items[i]) else None
  }

  function At(v: Value, p: Position): Option<Value>
    decreases |p|
  {
    if p == [] then Some(v) else
      var child := Child(v, p[0]);
      if child.Some? then At(child.value, p[1..]) else None
  }

  predicate TokenMatches(token: PathToken, step: Step) {
    match token
    case Root => false
    case Field(name) => step == Key(name)
    case Index(i) => step == Item(i)
    case Star => step.Key?
    case StarIndex => step.Item?
  }

  predicate Fits(tokens: seq<PathToken>, v: Value, p: Position) {
    && |p| == |tokens|
    && (forall i :: 0 <= i < |p| ==> TokenMatches(tokens[i], p[i]))
    && At(v, p).Some?
  }

  function Label(step: Step): string {
    match step
    case Key(name) => name
    case Item(i) => ShowNat(i)
  }

  function Labels(p: Position): (labels: seq<string>)
    ensures |labels| == |p|
  {
    if p == [] then [] else Labels(p[..|p| - 1]) + [Label(p[|p| - 1])]
  }

  predicate StepBefore(a: Step, b: Step) {
    match a
    case Key(x) => b.Key? && Below(x, b.name)
    case Item(i) => b.Item? && i < b.index
  }

  // Document order of two positions neither of which is inside the other.
  ghost predicate Precedes(p: Position, q: Position) {
    exists i :: 0 <= i < |p| && i < |q| && p[..i] == q[..i] && StepBefore(p[i], q[i])
  }

  lemma PrecedesIrreflexive(p: Position)
    ensures !Precedes(p, p)
  {
    forall i | 0 <= i < |p| ensures !StepBefore(p[i], p[i]) {
      if p[i].Key? {
        BelowIrreflexive(p[i].name);
      }
    }
  }

  // ---- The positions an expression without `Root` tokens finds

  function Positions(before: Position, tokens: seq<PathToken>, v: Value): seq<Position>
    decreases |tokens|, 0
  {
    if tokens == [] then [before] else
      match tokens[0]
      case Root => []
      case Field(name) => PositionsAt(before, Key(name), tokens, v)
      case Index(i) => PositionsAt(before, Item(i), tokens, v)
      case Star => if v.Object? then KeyPositions(before, SortedKeys(v.entries.Keys), tokens, v) else []
      case StarIndex => if v.Array? then ItemPositions(before, 0, tokens, v) else []
  }

  function PositionsAt(before: Position, step: Step, tokens: seq<PathToken>, v: Value): seq<Position>
    requires tokens != []
    decreases |tokens| - 1, 1
  {
    var child := Child(v, step);
    if child.Some? then Positions(before + [step], tokens[1..], child.value) else []
  }

  function KeyPositions(before: Position, keys: seq<string>, tokens: seq<PathToken>, v: Value): seq<Position>
    requires tokens != []
    decreases |tokens| - 1, 2, |keys|
  {
    if keys == [] then [] else
      PositionsAt(before, Key(keys[0]), tokens, v) + KeyPositions(before, keys[1..], tokens, v)
  }

  function ItemPositions(before: Position, i: nat, tokens: seq<PathToken>, v: Value): seq<Position>
    requires tokens != [] && v.Array? && i <= |v.items|
    decreases |tokens| - 1, 2, |v.items| - i
  {
    if i == |v.items| then [] else
      PositionsAt(before, Item(i), tokens, v) + ItemPositions(before, i + 1, tokens, v)
  }

  // ---- They are exactly the positions that fit

  ghost predicate Continues(before: Position, tokens: seq<PathToken>, v: Value, p: Position) {
    before <= p && Fits(tokens, v, p[|before|..])
  }

  // Fitting is fitting the first token and fitting below.
  lemma FitsStep(before: Position, tokens: seq<PathToken>, v: Value, p: Position)
    requires tokens != []
    ensures Continues(before, tokens, v, p) <==>
      && before <= p && |before| < |p| && TokenMatches(tokens[0], p[|before|]) && Child(v, p[|before|]).Some?
      && Continues(before + [p[|before|]], tokens[1..], Child(v, p[|before|]).value, p)
  {
    if before <= p && |before| < |p| {
      var q := p[|before|..];
      var step := q[0];
      assert q[1..] == p[|before| + 1..];
      assert before + [step] <= p;
      forall i | 0 <= i < |q| - 1 ensures q[1..][i] == q[i + 1] {
      }
      if TokenMatches(tokens[0], step) && Child(v, step).Some? && Fits(tokens[1..], Child(v, step).value, q[1..]) {
        forall i | 0 <= i < |q| ensures TokenMatches(tokens[i], q[i]) {
          if i > 0 {
            assert TokenMatches(tokens[1..][i - 1], q[1..][i - 1]);
          }
        }
      }
    }
  }

  lemma {:induction false} PositionsFit(before: Position, tokens: seq<PathToken>, v: Value, p: Position)
    ensures p in Positions(before, tokens, v) <==> Continues(before, tokens, v, p)
    decreases |tokens|, 0
  {
    if tokens == [] {
      assert p == before <==> before <= p && |p[|before|..]| == 0;
    } else {
      FitsStep(before, tokens, v, p);
      match tokens[0] {
        case Root =>
        case Field(name) => StepPositionsFit(before, Key(name), tokens, v, p);
        case Index(i) => StepPositionsFit(before, Item(i), tokens, v, p);
        case Star =>
          if v.Object? {
            KeyPositionsFit(before, SortedKeys(v.entries.Keys), tokens, v, p);
          }
        case StarIndex =>
          if v.Array? {
            ItemPositionsFit(before, 0, tokens, v, p);
          }
      }
    }
  }

  // The position goes on with this step.
  ghost predicate Through(before: Position, step: Step, tokens: seq<PathToken>, v: Value, p: Position)
    requires tokens != []
  {
    && before <= p && |before| < |p| && p[|before|] == step && Child(v, step).Some?
    && Continues(before + [step], tokens[1..], Child(v, step).value, p)
  }

  lemma {:induction false} StepPositionsFit(before: Position, step: Step, tokens: seq<PathToken>, v: Value, p: Position)
    requires tokens != []
    ensures p in PositionsAt(before, step, tokens, v) <==> Through(before, step, tokens, v, p)
    decreases |tokens| - 1, 1
  {
    if Child(v, step).Some? {
      PositionsFit(before + [step], tokens[1..], Child(v, step).value, p);
      if before + [step] <= p {
        assert (before + [step])[|before|] == p[|before|];
      }
    }
  }

  lemma {:induction false} KeyPositionsFit(before: Position, keys: seq<string>, tokens: seq<PathToken>, v: Value, p: Position)
    requires tokens != []
    ensures p in KeyPositions(before, keys, tokens, v) <==> exists k :: k in keys && Through(before, Key(k), tokens, v, p)
    decreases |tokens| - 1, 2, |keys|
  {
    if keys != [] {
      StepPositionsFit(before, Key(keys[0]), tokens, v, p);
      KeyPositionsFit(before, keys[1..], tokens, v, p);
    }
  }

  lemma {:induction false} ItemPositionsFit(before: Position, i: nat, tokens: seq<PathToken>, v: Value, p: Position)
    requires tokens != [] && v.Array? && i <= |v.items|
    ensures p in ItemPositions(before, i, tokens, v) <==>
      exists j :: i <= j < |v.items| && Through(before, Item(j), tokens, v, p)
    decreases |tokens| - 1, 2, |v.items| - i
  {
    if i < |v.items| {
      StepPositionsFit(before, Item(i), tokens, v, p);
      ItemPositionsFit(before, i + 1, tokens, v, p);
    }
  }

  // ---- They come in document order, so once each

  ghost predicate Ordered(ps: seq<Position>) {
    forall i, j :: 0 <= i < j < |ps| ==> Precedes(ps[i], ps[j])
  }

  ghost predicate AllPrecede(ps: seq<Position>, qs: seq<Position>) {
    forall p, q :: p in ps && q in qs ==> Precedes(p, q)
  }

  lemma OrderedConcat(ps: seq<Position>, qs: seq<Position>)
    requires Ordered(ps) && Ordered(qs) && AllPrecede(ps, qs)
    ensures Ordered(ps + qs)
  {
    forall i, j | 0 <= i < j < |ps + qs| ensures Precedes((ps + qs)[i], (ps + qs)[j]) {
      if i < |ps| <= j {
        assert ps[i] in ps && qs[j - |ps|] in qs;
      }
    }
  }

  lemma {:induction false} PositionsOrdered(before: Position, tokens: seq<PathToken>, v: Value)
    ensures Ordered(Positions(before, tokens, v))
    decreases |tokens|, 0
  {
    if tokens != [] {
      match tokens[0] {
        case Root =>
        case Field(name) => StepPositionsOrdered(before, Key(name), tokens, v);
        case Index(i) => StepPositionsOrdered(before, Item(i), tokens, v);
        case Star =>
          if v.Object? {
            SortedKeysAscending(v.entries.Keys);
            KeyPositionsOrdered(before, SortedKeys(v.entries.Keys), tokens, v);
          }
        case StarIndex =>
          if v.Array? {
            ItemPositionsOrdered(before, 0, tokens, v);
          }
      }
    }
  }

  lemma {:induction false} StepPositionsOrdered(before: Position, step: Step, tokens: seq<PathToken>, v: Value)
    requires tokens != []
    ensures Ordered(PositionsAt(before, step, tokens, v))
    decreases |tokens| - 1, 1
  {
    if Child(v, step).Some? {
      PositionsOrdered(before + [step], tokens[1..], Child(v, step).value);
    }
  }

  // Positions that part at a smaller step come first.
  lemma PartHere(before: Position, a: Step, b: Step, tokens: seq<PathToken>, v: Value, p: Position, q: Position)
    requires tokens != [] && StepBefore(a, b)
    requires Through(before, a, tokens, v, p) && Through(before, b, tokens, v, q)
    ensures Precedes(p, q)
  {
    assert p[..|before|] == before == q[..|before|];
  }

  lemma {:induction false} KeyPositionsOrdered(before: Position, keys: seq<string>, tokens: seq<PathToken>, v: Value)
    requires tokens != [] && Ascending(keys)
    ensures Ordered(KeyPositions(before, keys, tokens, v))
    decreases |tokens| - 1, 2, |keys|
  {
    if keys != [] {
      var first, rest := PositionsAt(before, Key(keys[0]), tokens, v), KeyPositions(before, keys[1..], tokens, v);
      StepPositionsOrdered(before, Key(keys[0]), tokens, v);
      KeyPositionsOrdered(before, keys[1..], tokens, v);
      forall p, q | p in first && q in rest ensures Precedes(p, q) {
        StepPositionsFit(before, Key(keys[0]), tokens, v, p);
        KeyPositionsFit(before, keys[1..], tokens, v, q);
        var k :| k in keys[1..] && Through(before, Key(k), tokens, v, q);
        var j :| 0 <= j < |keys[1..]| && keys[1..][j] == k;
        assert keys[j + 1] == k;
        PartHere(before, Key(keys[0]), Key(k), tokens, v, p, q);
      }
      OrderedConcat(first, rest);
    }
  }

  lemma {:induction false} ItemPositionsOrdered(before: Position, i: nat, tokens: seq<PathToken>, v: Value)
    requires tokens != [] && v.Array? && i <= |v.items|
    ensures Ordered(ItemPositions(before, i, tokens, v))
    decreases |tokens| - 1, 2, |v.items| - i
  {
    if i < |v.items| {
      var first, rest := PositionsAt(before, Item(i), tokens, v), ItemPositions(before, i + 1, tokens, v);
      StepPositionsOrdered(before, Item(i), tokens, v);
      ItemPositionsOrdered(before, i + 1, tokens, v);
      forall p, q | p in first && q in rest ensures Precedes(p, q) {
        StepPositionsFit(before, Item(i), tokens, v, p);
        ItemPositionsFit(before, i + 1, tokens, v, q);
        var j :| i + 1 <= j < |v.items| && Through(before, Item(j), tokens, v, q);
        PartHere(before, Item(i), Item(j), tokens, v, p, q);
      }
      OrderedConcat(first, rest);
    }
  }

  // ---- The depth filter recovers exactly them from the tree

  // The expression without its root tokens, which the walk ignores.
  function Unrooted(tokens: seq<PathToken>): (r: seq<PathToken>)
    ensures |r| <= |tokens|
  {
    if tokens == [] then [] else
      (if tokens[0].Root? then [] else [tokens[0]]) + Unrooted(tokens[1..])
  }

  lemma {:induction false} RootsIgnored(tokens: seq<PathToken>, v: Value)
    ensures Graph(tokens, v) == Graph(Unrooted(tokens), v)
    decreases |tokens|, 0
  {
    if tokens != [] {
      var rest := tokens[1..];
      if tokens[0].Root? {
        assert Unrooted(tokens) == Unrooted(rest);
      } else {
        assert Unrooted(tokens)[1..] == Unrooted(rest);
      }
      match tokens[0] {
        case Root => RootsIgnored(rest, v);
        case Field(name) =>
          if v.Object? && name in v.entries {
            RootsIgnored(rest, v.entries[name]);
          }
        case Index(i) =>
          if v.Array? && i < |v.items| {
            RootsIgnored(rest, v.items[i]);
          } else {
            RootsIgnored(rest, v);
          }
        case Star =>
          if v.Object? {
            RootsIgnoredInFields(rest, SortedKeys(v.entries.Keys), v.entries);
          }
        case StarIndex =>
          if v.Array? {
            RootsIgnoredInItems(rest, 0, v.items);
          }
      }
    }
  }

  lemma {:induction false} RootsIgnoredInFields(tokens: seq<PathToken>, keys: seq<string>, entries: map<string, Value>)
    requires forall k :: k in keys ==> k in entries
    ensures FieldGraphs(tokens, keys, entries) == FieldGraphs(Unrooted(tokens), keys, entries)
    decreases |tokens|, 1, |keys|
  {
    if keys != [] {
      RootsIgnored(tokens, entries[keys[0]]);
      RootsIgnoredInFields(tokens, keys[1..], entries);
    }
  }

  lemma {:induction false} RootsIgnoredInItems(tokens: seq<PathToken>, i: nat, items: seq<Value>)
    requires i <= |items|
    ensures ItemGraphs(tokens, i, items) == ItemGraphs(Unrooted(tokens), i, items)
    decreases |tokens|, 1, |items| - i
  {
    if i < |items| {
      RootsIgnored(tokens, items[i]);
      RootsIgnoredInItems(tokens, i + 1, items);
    }
  }

  // No node is deeper than the tokens that lead to it, so a skipped index is never made up for.
  lemma {:induction false} TooDeep(so: seq<string>, tokens: seq<PathToken>, v: Value, prefix: seq<string>, n: nat)
    requires |prefix| + |tokens| < n
    ensures Collected(so, Graph(tokens, v), prefix, n) == so
    decreases |tokens|, 0
  {
    if tokens != [] {
      var rest := tokens[1..];
      match tokens[0] {
        case Root => TooDeep(so, rest, v, prefix, n);
        case Field(name) =>
          if v.Object? && name in v.entries {
            TooDeep(so, rest, v.entries[name], prefix + [name], n);
          }
        case Index(i) =>
          if v.Array? && i < |v.items| {
            TooDeep(so, rest, v.items[i], prefix + [ShowNat(i)], n);
          } else {
            TooDeep(so, rest, v, prefix, n);
          }
        case Star =>
          if v.Object? {
            TooDeepInFields(so, rest, SortedKeys(v.entries.Keys), v.entries, prefix, n);
          }
        case StarIndex =>
          if v.Array? {
            TooDeepInItems(so, rest, 0, v.items, prefix, n);
          }
      }
    }
  }

  lemma {:induction false} TooDeepInFields(so: seq<string>, tokens: seq<PathToken>, keys: seq<string>, entries: map<string, Value>, prefix: seq<string>, n: nat)
    requires forall k :: k in keys ==> k in entries
    requires |prefix| + 1 + |tokens| < n
    ensures Collected(so, FieldGraphs(tokens, keys, entries), prefix, n) == so
    decreases |tokens|, 1, |keys|
  {
    if keys != [] {
      TooDeep(so, tokens, entries[keys[0]], prefix + [keys[0]], n);
      TooDeepInFields(so, tokens, keys[1..], entries, prefix, n);
    }
  }

  lemma {:induction false} TooDeepInItems(so: seq<string>, tokens: seq<PathToken>, i: nat, items: seq<Value>, prefix: seq<string>, n: nat)
    requires i <= |items| && |prefix| + 1 + |tokens| < n
    ensures Collected(so, ItemGraphs(tokens, i, items), prefix, n) == so
    decreases |tokens|, 1, |items| - i
  {
    if i < |items| {
      TooDeep(so, tokens, items[i], prefix + [ShowNat(i)], n);
      TooDeepInItems(so, tokens, i + 1, items, prefix, n);
    }
  }

  function TextOf(p: Position): string {
    Join([""] + Labels(p), "/")
  }

  // A position with a fragment that is empty at its end is not reported, nor is the document itself.
  predicate IsReported(p: Position) {
    p != [] && Label(p[|p| - 1]) != ""
  }

  // The paths found so far, with the texts of the reported positions.
  function TextsAfter(so: seq<string>, ps: seq<Position>): seq<string> {
    if ps == [] then so else TextAfter(TextsAfter(so, ps[..|ps| - 1]), ps[|ps| - 1])
  }

  function TextAfter(so: seq<string>, p: Position): seq<string> {
    if IsReported(p) then so + [TextOf(p)] else so
  }

  // The texts of the reported positions.
  function Texts(ps: seq<Position>): seq<string> {
    TextsAfter([], ps)
  }

  lemma OneText(so: seq<string>, p: Position)
    ensures TextsAfter(so, [p]) == TextAfter(so, p)
  {
    assert [p][..0] == [] && TextsAfter(so, []) == so;
  }

  lemma {:induction false} TextsConcat(so: seq<string>, ps: seq<Position>, qs: seq<Position>)
    ensures TextsAfter(so, ps + qs) == TextsAfter(TextsAfter(so, ps), qs)
  {
    if qs == [] {
      assert ps + qs == ps;
    } else {
      var init, last := qs[..|qs| - 1], qs[|qs| - 1];
      TextsConcat(so, ps, init);
      assert (ps + qs)[..|ps + qs| - 1] == ps + init && (ps + qs)[|ps + qs| - 1] == last;
    }
  }

  predicate RootFree(tokens: seq<PathToken>) {
    forall i | 0 <= i < |tokens| :: !tokens[i].Root?
  }

  // The paths collected from the forest are the texts of the positions.
  ghost predicate Reports(f: Forest, before: Position, n: nat, ps: seq<Position>) {
    forall so :: Collected(so, f, [""] + Labels(before), n) == TextsAfter(so, ps)
  }

  lemma ReportsNothing(before: Position, n: nat)
    ensures Reports(Empty, before, n, [])
  {
  }

  lemma {:induction false} GraphReports(before: Position, tokens: seq<PathToken>, v: Value)
    requires RootFree(tokens) && tokens != []
    ensures Reports(Graph(tokens, v), before, 1 + |before| + |tokens|, Positions(before, tokens, v))
    decreases |tokens|, 0
  {
    ReportsNothing(before, 1 + |before| + |tokens|);
    match tokens[0] {
      case Field(name) =>
        if v.Object? && name in v.entries {
          StepReports(before, Key(name), tokens, v, Empty, []);
          EmptyUnit(PositionsAt(before, Key(name), tokens, v));
        } else {
          assert PositionsAt(before, Key(name), tokens, v) == [];
        }
      case Index(i) =>
        if v.Array? && i < |v.items| {
          StepReports(before, Item(i), tokens, v, Empty, []);
          EmptyUnit(PositionsAt(before, Item(i), tokens, v));
        } else {
          assert PositionsAt(before, Item(i), tokens, v) == [];
          var prefix, n := [""] + Labels(before), 1 + |before| + |tokens|;
          forall so ensures Collected(so, Graph(tokens, v), prefix, n) == TextsAfter(so, []) {
            TooDeep(so, tokens[1..], v, prefix, n);
          }
        }
      case Star =>
        if v.Object? {
          FieldsReport(before, SortedKeys(v.entries.Keys), tokens, v);
        }
      case StarIndex =>
        if v.Array? {
          ItemsReport(before, 0, tokens, v);
        }
    }
  }

  lemma MoreLabels(before: Position, step: Step)
    ensures Labels(before + [step]) == Labels(before) + [Label(step)]
    ensures [""] + Labels(before + [step]) == [""] + Labels(before) + [Label(step)]
  {
    assert (before + [step])[..|before|] == before;
  }

  // A tree reports the positions through its step.
  lemma {:induction false} StepTexts(so: seq<string>, before: Position, step: Step, tokens: seq<PathToken>, v: Value)
    requires RootFree(tokens) && tokens != [] && Child(v, step).Some?
    ensures var prefix, children, n := [""] + Labels(before), Graph(tokens[1..], Child(v, step).value), 1 + |before| + |tokens|;
      Collected(RootCollected(so, Label(step), children.Empty?, prefix, n), children, prefix + [Label(step)], n)
      == TextsAfter(so, PositionsAt(before, step, tokens, v))
    decreases |tokens| - 1, 1
  {
    var next := before + [step];
    MoreLabels(before, step);
    if tokens[1..] == [] {
      OneText(so, next);
    } else {
      GraphReports(next, tokens[1..], Child(v, step).value);
    }
  }

  lemma {:induction false} StepReports(before: Position, step: Step, tokens: seq<PathToken>, v: Value, siblings: Forest, ps: seq<Position>)
    requires RootFree(tokens) && tokens != [] && Child(v, step).Some?
    requires Reports(siblings, before, 1 + |before| + |tokens|, ps)
    ensures Reports(Tree(Label(step), Graph(tokens[1..], Child(v, step).value), siblings), before, 1 + |before| + |tokens|,
      PositionsAt(before, step, tokens, v) + ps)
    decreases |tokens| - 1, 2
  {
    var tree := Tree(Label(step), Graph(tokens[1..], Child(v, step).value), siblings);
    forall so
      ensures Collected(so, tree, [""] + Labels(before), 1 + |before| + |tokens|) == TextsAfter(so, PositionsAt(before, step, tokens, v) + ps)
    {
      StepTexts(so, before, step, tokens, v);
      TextsConcat(so, PositionsAt(before, step, tokens, v), ps);
    }
  }

  lemma {:induction false} FieldsReport(before: Position, keys: seq<string>, tokens: seq<PathToken>, v: Value)
    requires RootFree(tokens) && tokens != [] && v.Object?
    requires forall k :: k in keys ==> k in v.entries
    ensures Reports(FieldGraphs(tokens[1..], keys, v.entries), before, 1 + |before| + |tokens|, KeyPositions(before, keys, tokens, v))
    decreases |tokens| - 1, 3, |keys|
  {
    if keys != [] {
      FieldsReport(before, keys[1..], tokens, v);
      StepReports(before, Key(keys[0]), tokens, v, FieldGraphs(tokens[1..], keys[1..], v.entries), KeyPositions(before, keys[1..], tokens, v));
    }
  }

  lemma {:induction false} ItemsReport(before: Position, i: nat, tokens: seq<PathToken>, v: Value)
    requires RootFree(tokens) && tokens != [] && v.Array? && i <= |v.items|
    ensures Reports(ItemGraphs(tokens[1..], i, v.items), before, 1 + |before| + |tokens|, ItemPositions(before, i, tokens, v))
    decreases |tokens| - 1, 3, |v.items| - i
  {
    if i < |v.items| {
      ItemsReport(before, i + 1, tokens, v);
      StepReports(before, Item(i), tokens, v, ItemGraphs(tokens[1..], i + 1, v.items), ItemPositions(before, i + 1, tokens, v));
    }
  }

  lemma {:induction false} UnrootedIsRootFree(tokens: seq<PathToken>)
    ensures RootFree(Unrooted(tokens))
    ensures RootFree(tokens) ==> Unrooted(tokens) == tokens
  {
    if tokens != [] {
      UnrootedIsRootFree(tokens[1..]);
    }
  }

  // ---- What `resolve_path` returns

  lemma ResolvedTexts(value: Value, expression: Path)
    requires |Unrooted(expression)| + 1 == |expression|
    ensures Resolved(value, expression) == Texts(Positions([], Unrooted(expression), value))
  {
    RootsIgnored(expression, value);
    UnrootedIsRootFree(expression);
    if Unrooted(expression) == [] {
      OneText([], []);
    } else {
      GraphReports([], Unrooted(expression), value);
    }
    assert [""] + Labels([]) == [""];
  }

  /** With one root token, the result is the texts of the positions that fit the rest of the
    * expression: all of them and no others, in document order and so once each, except those that
    * end in an empty key. */
  lemma ResolvesExactly(value: Value, expression: Path)
    requires |Unrooted(expression)| + 1 == |expression|
    ensures var ps := Positions([], Unrooted(expression), value);
      && Resolved(value, expression) == Texts(ps)
      && (forall p :: p in ps <==> Fits(Unrooted(expression), value, p))
      && Ordered(ps)
  {
    ResolvedTexts(value, expression);
    forall p ensures p in Positions([], Unrooted(expression), value) <==> Fits(Unrooted(expression), value, p) {
      PositionsFit([], Unrooted(expression), value, p);
      assert p[0..] == p;
    }
    PositionsOrdered([], Unrooted(expression), value);
  }

  /** A second root token leaves nothing deep enough. */
  lemma MoreRootsResolveNothing(value: Value, expression: Path)
    requires |Unrooted(expression)| + 1 < |expression|
    ensures Resolved(value, expression) == []
  {
    RootsIgnored(expression, value);
    TooDeep([], Unrooted(expression), value, [""], |expression|);
  }

  lemma NothingInNull(p: Position)
    requires p != []
    ensures At(Null, p).None?
  {
    assert Child(Null, p[0]).None?;
  }

  /** Without a root token the result is unsound: it stops one token short. */
  lemma RootlessStopsShort()
    ensures var value, expression := Object(map["a" := Null]), [Field("a"), Field("b")];
      && Resolved(value, expression) == ["/a"]
      && forall p :: !Fits(expression, value, p)
  {
    var value, expression := Object(map["a" := Null]), [Field("a"), Field("b")];
    assert expression[1..] == [Field("b")];
    assert Graph(expression, value) == Single("a", Empty);
    assert Join([""] + ["a"], "/") == "/a";
    forall p ensures !Fits(expression, value, p) {
      if |p| == 2 && p[0] == Key("a") {
        assert At(value, p) == At(Null, p[1..]);
        NothingInNull(p[1..]);
      } else if |p| == 2 {
        assert expression[0] == Field("a") && !TokenMatches(expression[0], p[0]);
      }
    }
  }
}
