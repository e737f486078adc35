/** Expressions without a root token, which can be put together from tokens but are never parsed: the depth
  * filter then looks one level too high. */
module RootlessPaths {
  import opened Wrappers
  import opened Json
  import opened StringOrder
  import opened Sequences
  import opened Paths
  import opened Arena
  import opened PathGraph
  import opened ResolvePath
  import opened ResolvePathLaws
  import opened ResolvedTexts

  // A token finds nothing in a value.
  predicate Stops(token: PathToken, v: Value) {
    match token
    case Root => true
    case Field(name) => Child(v, Key(name)).None?
    case Index(i) => Child(v, Item(i)).None?
    case Star => !v.Object? || v.entries == map[]
    case StarIndex => !v.Array? || v.items == []
  }

  // The positions below `before` at which a walk ends one label short: its last token found nothing there,
  // or an index on the way was skipped.
  function ShortPositions(before: Position, tokens: seq<PathToken>, v: Value): seq<Position>
    requires tokens != []
    decreases |tokens|, 0
  {
    match tokens[0]
    case Root => []
    case Field(name) => ShortAt(before, Key(name), tokens, v)
    case Index(i) =>
      if v.Array? && i >= |v.items| then
        if |tokens| == 1 then [] else Positions(before, tokens[1..], v)
      else ShortAt(before, Item(i), tokens, v)
    case Star => if v.Object? then ShortKeys(before, SortedKeys(v.entries.Keys), tokens, v) else []
    case StarIndex => if v.Array? then ShortItems(before, 0, tokens, v) else []
  }

  function ShortAt(before: Position, step: Step, tokens: seq<PathToken>, v: Value): seq<Position>
    requires tokens != []
    decreases |tokens| - 1, 1
  {
    var child, rest := Child(v, step), tokens[1..];
    if child.None? || rest == [] then []
    else if |rest| == 1 && Stops(rest[0], child.value) then [before + [step]]
    else ShortPositions(before + [step], rest, child.value)
  }

  function ShortKeys(before: Position, keys: seq<string>, tokens: seq<PathToken>, v: Value): seq<Position>
    requires tokens != []
    decreases |tokens| - 1, 2, |keys|
  {
    if keys == [] then [] else ShortAt(before, Key(keys[0]), tokens, v) + ShortKeys(before, keys[1..], tokens, v)
  }

  function ShortItems(before: Position, i: nat, tokens: seq<PathToken>, v: Value): seq<Position>
    requires tokens != [] && v.Array? && i <= |v.items|
    decreases |tokens| - 1, 2, |v.items| - i
  {
    if i == |v.items| then [] else ShortAt(before, Item(i), tokens, v) + ShortItems(before, i + 1, tokens, v)
  }

  lemma StopsExactly(tokens: seq<PathToken>, v: Value)
    requires RootFree(tokens) && |tokens| == 1
    ensures Graph(tokens, v) == Empty <==> Stops(tokens[0], v)
  {
    assert tokens[1..] == [] && Graph([], v) == Empty;
    if tokens[0].Star? && v.Object? {
      KeysExactly(v.entries);
    }
  }

  lemma KeysExactly(entries: map<string, Value>)
    ensures SortedKeys(entries.Keys) == [] <==> entries == map[]
  {
    if entries != map[] {
      var k :| k in entries;
      assert k in SortedKeys(entries.Keys);
    }
  }

  lemma {:induction false} GraphReportsShort(before: Position, tokens: seq<PathToken>, v: Value)
    requires RootFree(tokens) && tokens != []
    ensures Reports(Graph(tokens, v), before, |before| + |tokens|, ShortPositions(before, tokens, v))
    decreases |tokens|, 0
  {
    var n := |before| + |tokens|;
    ReportsNothing(before, n);
    match tokens[0] {
      case Field(name) =>
        if v.Object? && name in v.entries {
          StepReportsShort(before, Key(name), tokens, v, Empty, []);
          EmptyUnit(ShortAt(before, Key(name), tokens, v));
        } else {
          assert ShortAt(before, Key(name), tokens, v) == [];
        }
      case Index(i) =>
        if v.Array? && i < |v.items| {
          StepReportsShort(before, Item(i), tokens, v, Empty, []);
          EmptyUnit(ShortAt(before, Item(i), tokens, v));
        } else if v.Array? && |tokens| > 1 {
          GraphReports(before, tokens[1..], v);
        } else {
          assert ShortPositions(before, tokens, v) == [];
          assert |tokens| == 1 ==> tokens[1..] == [] && Graph([], v) == Empty;
        }
      case Star =>
        if v.Object? {
          FieldsReportShort(before, SortedKeys(v.entries.Keys), tokens, v);
        }
      case StarIndex =>
        if v.Array? {
          ItemsReportShort(before, 0, tokens, v);
        }
    }
  }

  // A tree reports what is short through its step.
  lemma {:induction false} StepTextsShort(so: seq<string>, before: Position, step: Step, tokens: seq<PathToken>, v: Value)
    requires RootFree(tokens) && tokens != [] && Child(v, step).Some?
    ensures var prefix, children, n := [""] + Labels(before), Graph(tokens[1..], Child(v, step).value), |before| + |tokens|;
      Collected(RootCollected(so, Label(step), children.Empty?, prefix, n), children, prefix + [Label(step)], n)
      == TextsAfter(so, ShortAt(before, step, tokens, v))
    decreases |tokens| - 1, 1
  {
    var next, rest, child := before + [step], tokens[1..], Child(v, step).value;
    MoreLabels(before, step);
    if |rest| == 1 {
      StopsExactly(rest, child);
    }
    if rest == [] {
    } else if |rest| == 1 && Stops(rest[0], child) {
      OneText(so, next);
    } else {
      GraphReportsShort(next, rest, child);
    }
  }

  lemma {:induction false} StepReportsShort(before: Position, step: Step, tokens: seq<PathToken>, v: Value, siblings: Forest, ps: seq<Position>)
    requires RootFree(tokens) && tokens != [] && Child(v, step).Some?
    requires Reports(siblings, before, |before| + |tokens|, ps)
    ensures Reports(Tree(Label(step), Graph(tokens[1..], Child(v, step).value), siblings), before, |before| + |tokens|,
      ShortAt(before, step, tokens, v) + ps)
    decreases |tokens| - 1, 2
  {
    var tree := Tree(Label(step), Graph(tokens[1..], Child(v, step).value), siblings);
    forall so
      ensures Collected(so, tree, [""] + Labels(before), |before| + |tokens|) == TextsAfter(so, ShortAt(before, step, tokens, v) + ps)
    {
      StepTextsShort(so, before, step, tokens, v);
      TextsConcat(so, ShortAt(before, step, tokens, v), ps);
    }
  }

  lemma {:induction false} FieldsReportShort(before: Position, keys: seq<string>, tokens: seq<PathToken>, v: Value)
    requires RootFree(tokens) && tokens != [] && v.Object?
    requires forall k :: k in keys ==> k in v.entries
    ensures Reports(FieldGraphs(tokens[1..], keys, v.entries), before, |before| + |tokens|, ShortKeys(before, keys, tokens, v))
    decreases |tokens| - 1, 3, |keys|
  {
    if keys != [] {
      FieldsReportShort(before, keys[1..], tokens, v);
      StepReportsShort(before, Key(keys[0]), tokens, v, FieldGraphs(tokens[1..], keys[1..], v.entries), ShortKeys(before, keys[1..], tokens, v));
    }
  }

  lemma {:induction false} ItemsReportShort(before: Position, i: nat, tokens: seq<PathToken>, v: Value)
    requires RootFree(tokens) && tokens != [] && v.Array? && i <= |v.items|
    ensures Reports(ItemGraphs(tokens[1..], i, v.items), before, |before| + |tokens|, ShortItems(before, i, tokens, v))
    decreases |tokens| - 1, 3, |v.items| - i
  {
    if i < |v.items| {
      ItemsReportShort(before, i + 1, tokens, v);
      StepReportsShort(before, Item(i), tokens, v, ItemGraphs(tokens[1..], i + 1, v.items), ShortItems(before, i + 1, tokens, v));
    }
  }

  /** Without a root token the result is the texts of the positions one label short. */
  lemma RootlessResolves(value: Value, expression: Path)
    requires RootFree(expression) && expression != []
    ensures Resolved(value, expression) == Texts(ShortPositions([], expression, value))
  {
    GraphReportsShort([], expression, value);
    assert [""] + Labels([]) == [""];
  }

  // ---- With how many root tokens the result is right

  // For every document the result is that of the positions which fit.
  ghost predicate IsRight(expression: Path) {
    forall value :: Resolved(value, expression) == Texts(Positions([], Unrooted(expression), value))
  }

  // There are documents in which a position that fits is reported.
  predicate CanReport(tokens: seq<PathToken>) {
    tokens != [] && tokens[|tokens| - 1] != Field("")
  }

  // A document in which the tokens find one position.
  function Witness(tokens: seq<PathToken>): Value {
    if tokens == [] then Null else
      var rest := Witness(tokens[1..]);
      match tokens[0]
      case Root => Null
      case Field(name) => Object(map[name := rest])
      case Index(i) => Array(seq(i + 1, _ => rest))
      case Star => Object(map["a" := rest])
      case StarIndex => Array([rest])
  }

  function WitnessStep(token: PathToken): Step {
    match token
    case Root => Key("")
    case Field(name) => Key(name)
    case Index(i) => Item(i)
    case Star => Key("a")
    case StarIndex => Item(0)
  }

  function WitnessPosition(tokens: seq<PathToken>): Position {
    seq(|tokens|, i requires 0 <= i < |tokens| => WitnessStep(tokens[i]))
  }

  lemma WitnessChild(tokens: seq<PathToken>)
    requires RootFree(tokens) && tokens != []
    ensures Child(Witness(tokens), WitnessStep(tokens[0])) == Some(Witness(tokens[1..]))
    ensures TokenMatches(tokens[0], WitnessStep(tokens[0]))
  {
  }

  lemma {:induction false} WitnessFits(tokens: seq<PathToken>)
    requires RootFree(tokens)
    ensures Fits(tokens, Witness(tokens), WitnessPosition(tokens))
  {
    if tokens != [] {
      var p := WitnessPosition(tokens);
      WitnessChild(tokens);
      WitnessFits(tokens[1..]);
      assert p[1..] == WitnessPosition(tokens[1..]);
      assert p == [] + p && p[0..] == p;
      FitsStep([], tokens, Witness(tokens), p);
      assert p[1..] == p[|[p[0]]|..];
      assert Continues([p[0]], tokens[1..], Witness(tokens[1..]), p);
    }
  }

  lemma {:induction false} LabelIsThere(n: nat)
    ensures ShowNat(n) != ""
  {
    if n >= 10 {
      LabelIsThere(n / 10);
    }
  }

  // The forest of the witness is a single chain, whatever tokens follow.
  lemma WitnessGraph(tokens: seq<PathToken>, more: seq<PathToken>)
    requires RootFree(tokens) && tokens != []
    ensures Graph(tokens + more, Witness(tokens))
      == Single(Label(WitnessStep(tokens[0])), Graph(tokens[1..] + more, Witness(tokens[1..])))
  {
    var v, rest := Witness(tokens), tokens[1..] + more;
    assert (tokens + more)[1..] == rest && (tokens + more)[0] == tokens[0];
    match tokens[0] {
      case Field(name) =>
      case Index(i) =>
      case Star =>
        var keys := SortedKeys(v.entries.Keys);
        OneKey(keys, "a");
        assert v.entries["a"] == Witness(tokens[1..]) && FieldGraphs(rest, keys[1..], v.entries) == Empty;
      case StarIndex =>
        assert ItemGraphs(rest, 1, v.items) == Empty;
    }
  }

  lemma OneKey(keys: seq<string>, key: string)
    requires Distinct(keys) && forall k :: k in keys <==> k == key
    ensures keys == [key]
  {
    assert key in keys;
    assert keys[0] in keys && keys[|keys| - 1] in keys;
  }

  // In the witness no walk ends one label short.
  lemma {:induction false} WitnessIsNotShort(so: seq<string>, tokens: seq<PathToken>, prefix: seq<string>)
    requires RootFree(tokens) && tokens != []
    ensures Collected(so, Graph(tokens, Witness(tokens)), prefix, |prefix| + |tokens| - 1) == so
    decreases |tokens|
  {
    var rest, data := tokens[1..], Label(WitnessStep(tokens[0]));
    WitnessGraph(tokens, []);
    assert tokens + [] == tokens && rest + [] == rest;
    if rest == [] {
      assert Graph(rest, Witness(rest)) == Empty;
    } else {
      WitnessGraph(rest, []);
      WitnessIsNotShort(so, rest, prefix + [data]);
    }
  }

  // With one more token than the witness has levels, its only walk ends one label short.
  lemma {:induction false} WitnessIsShort(so: seq<string>, tokens: seq<PathToken>, prefix: seq<string>)
    requires RootFree(tokens) && CanReport(tokens)
    ensures |Collected(so, Graph(tokens + [Field("")], Witness(tokens)), prefix, |prefix| + |tokens|)| > |so|
    decreases |tokens|
  {
    var rest, data := tokens[1..], Label(WitnessStep(tokens[0]));
    WitnessGraph(tokens, [Field("")]);
    if rest == [] {
      assert rest + [Field("")] == [Field("")];
      ReportableLabel(tokens[0]);
    } else {
      WitnessGraph(rest, [Field("")]);
      WitnessIsShort(so, rest, prefix + [data]);
    }
  }

  lemma ReportableLabel(token: PathToken)
    requires !token.Root? && token != Field("")
    ensures Label(WitnessStep(token)) != ""
  {
    if token.Index? {
      LabelIsThere(token.index);
    } else {
      LabelIsThere(0);
    }
  }

  lemma WitnessIsReported(tokens: seq<PathToken>)
    requires RootFree(tokens) && CanReport(tokens)
    ensures Texts(Positions([], tokens, Witness(tokens))) != []
  {
    var p := WitnessPosition(tokens);
    WitnessFits(tokens);
    PositionsFit([], tokens, Witness(tokens), p);
    assert p[0..] == p;
    ReportableLabel(tokens[|tokens| - 1]);
    assert IsReported(p);
    InTexts(Positions([], tokens, Witness(tokens)), TextOf(p));
  }

  // Where nothing can be reported, nothing should be.
  lemma NothingToReport(tokens: seq<PathToken>, value: Value)
    requires RootFree(tokens) && !CanReport(tokens)
    ensures Texts(Positions([], tokens, value)) == []
  {
    forall p | p in Positions([], tokens, value) ensures !IsReported(p) {
      PositionsFit([], tokens, value, p);
      assert p[0..] == p;
      if tokens != [] {
        assert TokenMatches(tokens[|tokens| - 1], p[|tokens| - 1]);
      }
    }
    NoTexts(Positions([], tokens, value));
  }

  lemma NoTexts(ps: seq<Position>)
    requires forall p :: p in ps ==> !IsReported(p)
    ensures Texts(ps) == []
  {
    if |Texts(ps)| > 0 {
      InTexts(ps, Texts(ps)[0]);
    }
  }

  // A position one label short ends where the last token but one matches, or past a skipped index
  // where the last one does.
  ghost predicate EndsShort(before: Position, tokens: seq<PathToken>, p: Position) {
    && |tokens| > 1
    && |p| == |before| + |tokens| - 1
    && (TokenMatches(tokens[|tokens| - 2], p[|p| - 1]) || TokenMatches(tokens[|tokens| - 1], p[|p| - 1]))
  }

  lemma {:induction false} ShortPositionsEnd(before: Position, tokens: seq<PathToken>, v: Value, p: Position)
    requires RootFree(tokens) && tokens != [] && p in ShortPositions(before, tokens, v)
    ensures EndsShort(before, tokens, p)
    decreases |tokens|, 0
  {
    match tokens[0] {
      case Field(name) => ShortAtEnds(before, Key(name), tokens, v, p);
      case Index(i) =>
        if v.Array? && i >= |v.items| {
          SkippedEnds(before, tokens, v, p);
        } else {
          ShortAtEnds(before, Item(i), tokens, v, p);
        }
      case Star => ShortKeysEnd(before, SortedKeys(v.entries.Keys), tokens, v, p);
      case StarIndex => ShortItemsEnd(before, 0, tokens, v, p);
    }
  }

  lemma SkippedEnds(before: Position, tokens: seq<PathToken>, v: Value, p: Position)
    requires RootFree(tokens) && |tokens| > 1 && p in Positions(before, tokens[1..], v)
    ensures EndsShort(before, tokens, p)
  {
    var rest := tokens[1..];
    PositionsFit(before, rest, v, p);
    assert TokenMatches(rest[|rest| - 1], p[|before|..][|rest| - 1]);
  }

  lemma {:induction false} ShortAtEnds(before: Position, step: Step, tokens: seq<PathToken>, v: Value, p: Position)
    requires RootFree(tokens) && tokens != [] && p in ShortAt(before, step, tokens, v)
    requires TokenMatches(tokens[0], step)
    ensures EndsShort(before, tokens, p)
    decreases |tokens| - 1, 1
  {
    var child, rest := Child(v, step), tokens[1..];
    if |rest| == 1 && Stops(rest[0], child.value) {
      assert p == before + [step];
    } else {
      ShortPositionsEnd(before + [step], rest, child.value, p);
    }
  }

  lemma {:induction false} ShortKeysEnd(before: Position, keys: seq<string>, tokens: seq<PathToken>, v: Value, p: Position)
    requires RootFree(tokens) && tokens != [] && tokens[0].Star? && p in ShortKeys(before, keys, tokens, v)
    ensures EndsShort(before, tokens, p)
    decreases |tokens| - 1, 2, |keys|
  {
    if p in ShortAt(before, Key(keys[0]), tokens, v) {
      ShortAtEnds(before, Key(keys[0]), tokens, v, p);
    } else {
      ShortKeysEnd(before, keys[1..], tokens, v, p);
    }
  }

  lemma {:induction false} ShortItemsEnd(before: Position, i: nat, tokens: seq<PathToken>, v: Value, p: Position)
    requires RootFree(tokens) && tokens != [] && tokens[0].StarIndex?
    requires v.Array? && i <= |v.items| && p in ShortItems(before, i, tokens, v)
    ensures EndsShort(before, tokens, p)
    decreases |tokens| - 1, 2, |v.items| - i
  {
    if p in ShortAt(before, Item(i), tokens, v) {
      ShortAtEnds(before, Item(i), tokens, v, p);
    } else {
      ShortItemsEnd(before, i + 1, tokens, v, p);
    }
  }

  // Without a root token nothing is reported where the last two tokens find only the empty name.
  lemma NothingShort(tokens: seq<PathToken>, value: Value)
    requires RootFree(tokens) && IsSilent(tokens)
    ensures Resolved(value, tokens) == []
  {
    if tokens == [] {
      assert Graph(tokens, value) == Empty;
    } else {
      RootlessResolves(value, tokens);
      var ps := ShortPositions([], tokens, value);
      forall p | p in ps ensures !IsReported(p) {
        ShortPositionsEnd([], tokens, value, p);
      }
      NoTexts(ps);
    }
  }

  // Neither the tokens nor all of them but the last have a position that is reported.
  predicate IsSilent(tokens: seq<PathToken>) {
    !CanReport(tokens) && (tokens == [] || !CanReport(tokens[..|tokens| - 1]))
  }

  lemma WrongWithoutRoot(tokens: seq<PathToken>)
    requires RootFree(tokens) && !IsSilent(tokens)
    ensures !IsRight(tokens)
  {
    UnrootedIsRootFree(tokens);
    if CanReport(tokens) {
      WitnessIsReported(tokens);
      WitnessIsNotShort([], tokens, [""]);
      assert Resolved(Witness(tokens), tokens) != Texts(Positions([], tokens, Witness(tokens)));
    } else {
      var init := tokens[..|tokens| - 1];
      WitnessIsShort([], init, [""]);
      assert tokens == init + [Field("")];
      NothingToReport(tokens, Witness(init));
      assert Resolved(Witness(init), tokens) != Texts(Positions([], tokens, Witness(init)));
    }
  }

  lemma WrongWithMoreRoots(expression: Path)
    requires |Unrooted(expression)| + 1 < |expression| && CanReport(Unrooted(expression))
    ensures !IsRight(expression)
  {
    var tokens := Unrooted(expression);
    UnrootedIsRootFree(expression);
    WitnessIsReported(tokens);
    MoreRootsResolveNothing(Witness(tokens), expression);
    assert Resolved(Witness(tokens), expression) != Texts(Positions([], tokens, Witness(tokens)));
  }

  /** The result is right for every document with one root token; with more of them where nothing can be
    * reported anyway, and with none where also nothing one label short can be. */
  lemma RightExactly(expression: Path)
    ensures var tokens := Unrooted(expression);
      var roots := |expression| - |tokens|;
      IsRight(expression) <==> roots == 1 || (roots > 1 && !CanReport(tokens)) || (roots == 0 && IsSilent(tokens))
  {
    var tokens := Unrooted(expression);
    var roots := |expression| - |tokens|;
    UnrootedIsRootFree(expression);
    if roots == 1 {
      forall value ensures Resolved(value, expression) == Texts(Positions([], tokens, value)) {
        ResolvesExactly(value, expression);
      }
    } else if roots > 1 {
      if CanReport(tokens) {
        WrongWithMoreRoots(expression);
      } else {
        forall value ensures Resolved(value, expression) == Texts(Positions([], tokens, value)) {
          MoreRootsResolveNothing(value, expression);
          NothingToReport(tokens, value);
        }
      }
    } else {
      NoRoots(expression);
      if IsSilent(tokens) {
        forall value ensures Resolved(value, expression) == Texts(Positions([], tokens, value)) {
          NothingShort(tokens, value);
          NothingToReport(tokens, value);
        }
      } else {
        WrongWithoutRoot(tokens);
      }
    }
  }

  lemma {:induction false} NoRoots(tokens: seq<PathToken>)
    ensures |Unrooted(tokens)| == |tokens| ==> Unrooted(tokens) == tokens
  {
    if tokens != [] {
      NoRoots(tokens[1..]);
    }
  }
}
