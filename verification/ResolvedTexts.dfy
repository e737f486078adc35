/** The strings that resolving a path returns, which are used as JSON pointers. */
module ResolvedTexts {
  import opened Wrappers
  import opened Json
  import opened StringOrder
  import opened Text
  import opened Paths
  import opened ResolvePath
  import opened ResolvePathLaws

  // ---- Positions and their labels

  lemma {:induction false} LabelAt(p: Position, i: nat)
    requires i < |p|
    ensures Labels(p)[i] == Label(p[i])
  {
    if i < |p| - 1 {
      LabelAt(p[..|p| - 1], i);
    }
  }

  lemma ShowNatInjective(m: nat, n: nat)
    requires ShowNat(m) == ShowNat(n)
    ensures m == n
  {
    ParseShownDigits(m);
    ParseShownDigits(n);
  }

  // In one document, labels lead to one position.
  lemma {:induction false} SameLabels(v: Value, p: Position, q: Position)
    requires At(v, p).Some? && At(v, q).Some? && |p| == |q|
    requires forall i :: 0 <= i < |p| ==> Label(p[i]) == Label(q[i])
    ensures p == q
    decreases |p|
  {
    if p != [] {
      assert Label(p[0]) == Label(q[0]);
      if p[0].Item? && q[0].Item? {
        ShowNatInjective(p[0].index, q[0].index);
      }
      assert forall i :: 0 <= i < |p| - 1 ==> p[1..][i] == p[i + 1] && q[1..][i] == q[i + 1];
      SameLabels(Child(v, p[0]).value, p[1..], q[1..]);
      assert p == [p[0]] + p[1..] && q == [q[0]] + q[1..];
    }
  }

  predicate LabelsAvoid(p: Position, c: char) {
    forall i | 0 <= i < |p| :: c !in Label(p[i])
  }

  lemma FragmentsAvoid(p: Position)
    requires LabelsAvoid(p, '/')
    ensures Split(TextOf(p), '/') == [""] + Labels(p)
  {
    var parts := [""] + Labels(p);
    forall part | part in parts ensures '/' !in part {
      var i :| 0 <= i < |parts| && parts[i] == part;
      if i > 0 {
        LabelAt(p, i - 1);
      }
    }
    SplitJoin(parts, '/');
  }

  lemma SameText(v: Value, p: Position, q: Position)
    requires At(v, p).Some? && At(v, q).Some? && LabelsAvoid(p, '/') && LabelsAvoid(q, '/')
    requires TextOf(p) == TextOf(q)
    ensures p == q
  {
    FragmentsAvoid(p);
    FragmentsAvoid(q);
    assert ([""] + Labels(p))[1..] == Labels(p) && ([""] + Labels(q))[1..] == Labels(q);
    forall i | 0 <= i < |p| ensures Label(p[i]) == Label(q[i]) {
      LabelAt(p, i);
      LabelAt(q, i);
    }
    SameLabels(v, p, q);
  }

  // ---- Distinct texts

  // Two of the reported positions never have one text.
  ghost predicate TextsDiffer(ps: seq<Position>) {
    forall i, j :: 0 <= i < j < |ps| && IsReported(ps[i]) && IsReported(ps[j]) ==> TextOf(ps[i]) != TextOf(ps[j])
  }

  lemma {:induction false} InTexts(ps: seq<Position>, t: string)
    ensures t in Texts(ps) <==> exists i :: 0 <= i < |ps| && IsReported(ps[i]) && TextOf(ps[i]) == t
  {
    if ps != [] {
      var init, last := ps[..|ps| - 1], ps[|ps| - 1];
      InTexts(init, t);
      assert Texts(ps) == TextAfter(Texts(init), last);
      assert ps == init + [last];
    }
  }

  lemma DistinctMore(ts: seq<string>, t: string)
    ensures Distinct(ts + [t]) <==> Distinct(ts) && t !in ts
  {
    if Distinct(ts + [t]) {
      forall i | 0 <= i < |ts| ensures ts[i] != t {
        assert (ts + [t])[i] != (ts + [t])[|ts|];
      }
      forall i, j | 0 <= i < j < |ts| ensures ts[i] != ts[j] {
        assert (ts + [t])[i] != (ts + [t])[j];
      }
    }
  }

  lemma {:induction false} DistinctTexts(ps: seq<Position>)
    ensures Distinct(Texts(ps)) <==> TextsDiffer(ps)
  {
    if ps != [] {
      var init, last := ps[..|ps| - 1], ps[|ps| - 1];
      DistinctTexts(init);
      assert ps == init + [last] && Texts(ps) == TextAfter(Texts(init), last);
      if IsReported(last) {
        InTexts(init, TextOf(last));
        DistinctMore(Texts(init), TextOf(last));
      }
      DifferMore(init, last);
    }
  }

  lemma DifferMore(init: seq<Position>, last: Position)
    ensures TextsDiffer(init + [last]) <==>
      TextsDiffer(init) && (IsReported(last) ==> forall i :: 0 <= i < |init| && IsReported(init[i]) ==> TextOf(init[i]) != TextOf(last))
  {
    var ps := init + [last];
    if TextsDiffer(ps) {
      forall i, j | 0 <= i < j < |init| && IsReported(init[i]) && IsReported(init[j]) ensures TextOf(init[i]) != TextOf(init[j]) {
        assert ps[i] == init[i] && ps[j] == init[j];
      }
      if IsReported(last) {
        forall i | 0 <= i < |init| && IsReported(init[i]) ensures TextOf(init[i]) != TextOf(last) {
          assert ps[i] == init[i] && ps[|init|] == last;
        }
      }
    }
  }

  /** The returned strings are all different exactly when no two of the positions have one text, which is so
    * when no label contains a slash. */
  lemma ResolvedDistinct(value: Value, expression: Path)
    requires |Unrooted(expression)| + 1 == |expression|
    ensures var ps := Positions([], Unrooted(expression), value);
      && (Distinct(Resolved(value, expression)) <==> TextsDiffer(ps))
      && ((forall p <- ps :: LabelsAvoid(p, '/')) ==> Distinct(Resolved(value, expression)))
  {
    var ps := Positions([], Unrooted(expression), value);
    ResolvesExactly(value, expression);
    DistinctTexts(ps);
    if forall p <- ps :: LabelsAvoid(p, '/') {
      forall i, j | 0 <= i < j < |ps| ensures TextOf(ps[i]) != TextOf(ps[j]) {
        assert ps[i] in ps && ps[j] in ps;
        if TextOf(ps[i]) == TextOf(ps[j]) {
          SameText(value, ps[i], ps[j]);
          PrecedesIrreflexive(ps[i]);
        }
      }
    }
  }

  // ---- What a caller can check of the document

  // No key at any level contains the character.
  predicate KeysAvoid(v: Value, c: char) {
    match v
    case Object(entries) => forall k | k in entries :: c !in k && KeysAvoid(entries[k], c)
    case Array(items) => forall i | 0 <= i < |items| :: KeysAvoid(items[i], c)
    case _ => true
  }

  lemma {:induction false} DigitsOnly(n: nat)
    ensures forall i :: 0 <= i < |ShowNat(n)| ==> '0' <= ShowNat(n)[i] <= '9'
    ensures |ShowNat(n)| > 1 ==> ShowNat(n)[0] != '0'
  {
    if n >= 10 {
      DigitsOnly(n / 10);
    }
  }

  lemma {:induction false} DocumentLabelsAvoid(v: Value, p: Position, c: char)
    requires KeysAvoid(v, c) && !('0' <= c <= '9') && At(v, p).Some?
    ensures LabelsAvoid(p, c)
    decreases |p|
  {
    if p != [] {
      if p[0].Item? {
        DigitsOnly(p[0].index);
      }
      DocumentLabelsAvoid(Child(v, p[0]).value, p[1..], c);
      forall i | 1 <= i < |p| ensures c !in Label(p[i]) {
        assert p[i] == p[1..][i - 1];
      }
    }
  }

  /** So without a slash in any key of the document the returned strings are all different. */
  lemma ResolvedDistinctInDocument(value: Value, expression: Path)
    requires |Unrooted(expression)| + 1 == |expression| && KeysAvoid(value, '/')
    ensures Distinct(Resolved(value, expression))
  {
    ResolvedDistinct(value, expression);
    ResolvesExactly(value, expression);
    forall p | p in Positions([], Unrooted(expression), value) ensures LabelsAvoid(p, '/') {
      DocumentLabelsAvoid(value, p, '/');
    }
  }

  // `{"a": {"b/c": null}, "a/b": {"c": null}}`
  function SlashedDocument(): Value {
    Object(map["a" := Object(map["b/c" := Null]), "a/b" := Object(map["c" := Null])])
  }

  lemma TwoSteps(v: Value, p: Position)
    requires |p| == 2 && Child(v, p[0]).Some? && Child(Child(v, p[0]).value, p[1]).Some?
    ensures At(v, p) == Child(Child(v, p[0]).value, p[1])
  {
    assert p[1..][0] == p[1] && p[1..][1..] == [];
    assert At(v, p) == At(Child(v, p[0]).value, p[1..]);
  }

  lemma TwoLabels(a: string, b: string)
    ensures TextOf([Key(a), Key(b)]) == "/" + a + "/" + b
  {
    assert [Key(a), Key(b)][..1] == [Key(a)] && [Key(a)][..0] == [];
    assert Labels([Key(a)]) == [a] && Labels([Key(a), Key(b)]) == [a, b];
    assert [""] + [a, b] == ["", a, b];
    assert ["", a, b][1..] == [a, b] && [a, b][1..] == [b];
    assert Join([a, b], "/") == a + "/" + b;
  }

  lemma SlashedPositions()
    ensures var v, p, q := SlashedDocument(), [Key("a"), Key("b/c")], [Key("a/b"), Key("c")];
      && Fits([Star, Star], v, p) && Fits([Star, Star], v, q)
      && p != q && IsReported(p) && IsReported(q) && TextOf(p) == TextOf(q)
  {
    var v, p, q := SlashedDocument(), [Key("a"), Key("b/c")], [Key("a/b"), Key("c")];
    assert |"a"| != |"a/b"| && p[0] != q[0];
    TwoSteps(v, p);
    TwoSteps(v, q);
    TwoLabels("a", "b/c");
    TwoLabels("a/b", "c");
    assert "/" + "a" + "/" + "b/c" == "/" + "a/b" + "/" + "c";
  }

  lemma SameTextRepeats(ps: seq<Position>, p: Position, q: Position)
    requires p in ps && q in ps && p != q && IsReported(p) && IsReported(q) && TextOf(p) == TextOf(q)
    ensures !TextsDiffer(ps)
  {
    var i :| 0 <= i < |ps| && ps[i] == p;
    var j :| 0 <= j < |ps| && ps[j] == q;
    assert i < j || j < i;
  }

  lemma RepeatedInResult(value: Value, expression: Path, p: Position, q: Position)
    requires |Unrooted(expression)| + 1 == |expression|
    requires Fits(Unrooted(expression), value, p) && Fits(Unrooted(expression), value, q)
    requires p != q && IsReported(p) && IsReported(q) && TextOf(p) == TextOf(q)
    ensures !Distinct(Resolved(value, expression))
  {
    ResolvesExactly(value, expression);
    DistinctTexts(Positions([], Unrooted(expression), value));
    SameTextRepeats(Positions([], Unrooted(expression), value), p, q);
  }

  lemma UnrootedStars()
    ensures Unrooted([Root, Star, Star]) == [Star, Star]
  {
    assert [Root, Star, Star][1..] == [Star, Star] && [Star, Star][1..] == [Star] && [Star][1..] == [];
    assert Unrooted([Star]) == [Star];
  }

  /** `$.*.*` finds one string twice in that document. */
  lemma SlashedTextsRepeat()
    ensures Unrooted([Root, Star, Star]) == [Star, Star]
    ensures !Distinct(Resolved(SlashedDocument(), [Root, Star, Star]))
  {
    UnrootedStars();
    SlashedPositions();
    RepeatedInResult(SlashedDocument(), [Root, Star, Star], [Key("a"), Key("b/c")], [Key("a/b"), Key("c")]);
  }

  // ---- Read as JSON pointers (section 4 of RFC 6901)

  // `~1` stands for a slash and `~0` for a tilde.
  function Unescape(s: string): string {
    if s == "" then ""
    else if |s| >= 2 && s[0] == '~' && s[1] == '1' then "/" + Unescape(s[2..])
    else if |s| >= 2 && s[0] == '~' && s[1] == '0' then "~" + Unescape(s[2..])
    else [s[0]] + Unescape(s[1..])
  }

  function UnescapeAll(parts: seq<string>): seq<string> {
    seq(|parts|, i requires 0 <= i < |parts| => Unescape(parts[i]))
  }

  // The reference tokens of a pointer.
  function PointerTokens(text: string): Option<seq<string>> {
    if text == "" then Some([])
    else if text[0] != '/' then None
    else Some(UnescapeAll(Split(text, '/')[1..]))
  }

  // An index has no sign and no leading zeros.
  function PointerIndex(token: string): Option<nat> {
    if token == "" || token[0] == '+' || (token[0] == '0' && |token| > 1) then None else ParseUsize(token)
  }

  function Follow(v: Value, tokens: seq<string>): Option<Value> {
    if tokens == [] then Some(v) else
      match v
      case Object(entries) => if tokens[0] in entries then Follow(entries[tokens[0]], tokens[1..]) else None
      case Array(items) =>
        var i := PointerIndex(tokens[0]);
        if i.Some? && i.value < |items| then Follow(items[i.value], tokens[1..]) else None
      case _ => None
  }

  // `Value::pointer`
  function Pointed(v: Value, text: string): Option<Value> {
    var tokens := PointerTokens(text);
    if tokens.Some? then Follow(v, tokens.value) else None
  }

  // The text means its labels: none contains a slash, or a tilde that is an escape.
  predicate LabelsArePlain(p: Position) {
    forall i | 0 <= i < |p| :: '/' !in Label(p[i]) && Unescape(Label(p[i])) == Label(p[i])
  }

  lemma {:induction false} UnescapeWithoutTilde(s: string)
    requires '~' !in s
    ensures Unescape(s) == s
  {
    if s != "" {
      UnescapeWithoutTilde(s[1..]);
    }
  }

  lemma TextStarts(p: Position)
    requires p != []
    ensures TextOf(p) == "/" + Join(Labels(p), "/")
    ensures Split(TextOf(p), '/')[1..] == Split(Join(Labels(p), "/"), '/')
  {
    assert ([""] + Labels(p))[1..] == Labels(p);
    assert "" + ['/'] + Join(Labels(p), "/") == TextOf(p);
    SplitAtFirst("", '/', Join(Labels(p), "/"));
  }

  lemma {:induction false} SplitJoinedExactly(parts: seq<string>, sep: char)
    requires parts != []
    ensures |Split(Join(parts, [sep]), sep)| >= |parts|
    ensures |Split(Join(parts, [sep]), sep)| == |parts| ==> forall i :: 0 <= i < |parts| ==> sep !in parts[i]
  {
    SplitSingle(parts[0], sep);
    if |parts| > 1 {
      SplitConcat(parts[0], sep, Join(parts[1..], [sep]));
      SplitJoinedExactly(parts[1..], sep);
      assert forall i :: 1 <= i < |parts| ==> parts[i] == parts[1..][i - 1];
    }
  }

  /** The reference tokens of the text of a position are its labels exactly when those are plain. */
  lemma TokensExactly(p: Position)
    requires p != []
    ensures PointerTokens(TextOf(p)) == Some(Labels(p)) <==> LabelsArePlain(p)
  {
    var pieces := Split(TextOf(p), '/')[1..];
    TextStarts(p);
    SplitJoinedExactly(Labels(p), '/');
    forall i | 0 <= i < |p| ensures Labels(p)[i] == Label(p[i]) {
      LabelAt(p, i);
    }
    if LabelsArePlain(p) {
      FragmentsAvoid(p);
      assert pieces == Labels(p);
      assert UnescapeAll(pieces) == Labels(p);
    } else if PointerTokens(TextOf(p)) == Some(Labels(p)) {
      assert |pieces| == |Labels(p)|;
      forall i | 0 <= i < |p| ensures '/' !in Label(p[i]) {
        assert '/' !in Labels(p)[i];
      }
      FragmentsAvoid(p);
      forall i | 0 <= i < |p| ensures Unescape(Label(p[i])) == Label(p[i]) {
        assert UnescapeAll(pieces)[i] == Unescape(pieces[i]);
      }
    }
  }

  // Lists are indexed by machine words.
  predicate IsAddressed(p: Position) {
    forall i | 0 <= i < |p| :: p[i].Item? ==> p[i].index < USIZE_LIMIT
  }

  lemma {:induction false} FollowLabels(v: Value, p: Position, labels: seq<string>)
    requires At(v, p).Some? && IsAddressed(p)
    requires |labels| == |p| && forall i :: 0 <= i < |p| ==> labels[i] == Label(p[i])
    ensures Follow(v, labels) == At(v, p)
    decreases |p|
  {
    if p != [] {
      assert labels[0] == Label(p[0]);
      if p[0].Item? {
        ParseShownNat(p[0].index);
        ParseShownDigits(p[0].index);
        DigitsOnly(p[0].index);
      }
      assert forall i :: 0 <= i < |p| - 1 ==> p[1..][i] == p[i + 1] && labels[1..][i] == labels[i + 1];
      FollowLabels(Child(v, p[0]).value, p[1..], labels[1..]);
    }
  }

  /** The text of a position with plain labels, read as a JSON pointer, leads back to it. */
  lemma PointerLeadsBack(v: Value, p: Position)
    requires p != [] && At(v, p).Some? && IsAddressed(p) && LabelsArePlain(p)
    ensures Pointed(v, TextOf(p)) == At(v, p)
  {
    TokensExactly(p);
    forall i | 0 <= i < |p| ensures Labels(p)[i] == Label(p[i]) {
      LabelAt(p, i);
    }
    FollowLabels(v, p, Labels(p));
  }

  // A document in which there is nothing but the position.
  function Lane(p: Position): Value {
    if p == [] then Bool(true) else
      var rest := Lane(p[1..]);
      match p[0]
      case Key(name) => Object(map[name := rest])
      case Item(i) => Array(seq(i, _ => Null) + [rest])
  }

  lemma {:induction false} LaneAt(p: Position)
    ensures At(Lane(p), p) == Some(Bool(true))
  {
    if p != [] {
      LaneAt(p[1..]);
    }
  }

  // Digits without leading zeros are those of the number they stand for.
  lemma {:induction false} DigitsShown(s: string, n: nat)
    requires s != "" && ParseDigits(s, |s|) == Some(n) && (s[0] != '0' || |s| == 1)
    ensures s == ShowNat(n)
    decreases |s|
  {
    var init, last := s[..|s| - 1], s[|s| - 1];
    assert s == init + [last];
    ParseDigitsPrefix(init, [last], |init|);
    var high := ParseDigits(init, |init|).value;
    if |s| > 1 {
      DigitsShown(init, high);
      assert ShowNat(0) == "0" && s[0] == init[0];
      assert high > 0;
      assert n / 10 == high && n % 10 == last as int - '0' as int;
    } else {
      assert high == 0;
    }
  }

  lemma IndexShown(token: string, i: nat)
    requires PointerIndex(token) == Some(i)
    ensures token == ShowNat(i) && i < USIZE_LIMIT
  {
    DigitsShown(token, i);
  }

  // Whatever leads to the end of the lane names its steps.
  lemma {:induction false} FollowLane(p: Position, tokens: seq<string>)
    requires Follow(Lane(p), tokens) == Some(Bool(true))
    ensures IsAddressed(p) && |tokens| == |p| && forall i :: 0 <= i < |p| ==> tokens[i] == Label(p[i])
    decreases |p|
  {
    if p != [] {
      if p[0].Item? {
        IndexShown(tokens[0], PointerIndex(tokens[0]).value);
        assert PointerIndex(tokens[0]).value == p[0].index;
      }
      FollowLane(p[1..], tokens[1..]);
      forall i | 0 <= i < |p| ensures tokens[i] == Label(p[i]) && (p[i].Item? ==> p[i].index < USIZE_LIMIT) {
        assert i > 0 ==> tokens[i] == tokens[1..][i - 1] && p[i] == p[1..][i - 1];
      }
    }
  }

  /** The text of a position, read as a JSON pointer, leads back to it in every document exactly when its labels are
    * plain and its indices machine words. */
  lemma PointsBackExactly(p: Position)
    ensures LabelsArePlain(p) && IsAddressed(p) <==> forall v :: At(v, p).Some? ==> Pointed(v, TextOf(p)) == At(v, p)
  {
    if LabelsArePlain(p) && IsAddressed(p) {
      forall v | At(v, p).Some? ensures Pointed(v, TextOf(p)) == At(v, p) {
        if p != [] {
          PointerLeadsBack(v, p);
        } else {
          assert TextOf(p) == "" && PointerTokens("") == Some([]);
        }
      }
    } else if forall v :: At(v, p).Some? ==> Pointed(v, TextOf(p)) == At(v, p) {
      LaneAt(p);
      assert Pointed(Lane(p), TextOf(p)) == Some(Bool(true));
      var tokens := PointerTokens(TextOf(p)).value;
      FollowLane(p, tokens);
      forall i | 0 <= i < |p| ensures tokens[i] == Labels(p)[i] {
        LabelAt(p, i);
      }
      assert tokens == Labels(p);
      if p != [] {
        TokensExactly(p);
      }
    }
  }

  lemma PlainInDocument(v: Value, p: Position)
    requires At(v, p).Some? && KeysAvoid(v, '/') && KeysAvoid(v, '~')
    ensures LabelsArePlain(p)
  {
    DocumentLabelsAvoid(v, p, '/');
    DocumentLabelsAvoid(v, p, '~');
    forall i | 0 <= i < |p| ensures Unescape(Label(p[i])) == Label(p[i]) {
      UnescapeWithoutTilde(Label(p[i]));
    }
  }

  /** So in a document without slashes and tildes in its keys every returned string is a pointer to the
    * position it was found at. */
  lemma ResolvedPointsBack(value: Value, expression: Path, p: Position)
    requires |Unrooted(expression)| + 1 == |expression| && KeysAvoid(value, '/') && KeysAvoid(value, '~')
    requires Fits(Unrooted(expression), value, p) && IsReported(p) && IsAddressed(p)
    ensures TextOf(p) in Resolved(value, expression) && Pointed(value, TextOf(p)) == At(value, p)
  {
    ResolvesExactly(value, expression);
    InTexts(Positions([], Unrooted(expression), value), TextOf(p));
    PlainInDocument(value, p);
    PointerLeadsBack(value, p);
  }

  lemma OneLabel(a: string)
    ensures TextOf([Key(a)]) == "/" + a
  {
    TextStarts([Key(a)]);
    LabelAt([Key(a)], 0);
    assert Labels([Key(a)]) == [a];
  }

  function SlashedKeyDocument(): Value {
    Object(map["a/b" := Bool(true), "a" := Object(map["b" := Bool(false)])])
  }

  lemma SlashedKeyPositions()
    ensures var v := SlashedKeyDocument();
      At(v, [Key("a/b")]) == Some(Bool(true)) && At(v, [Key("a"), Key("b")]) == Some(Bool(false))
  {
    var v, p, q := SlashedKeyDocument(), [Key("a/b")], [Key("a"), Key("b")];
    assert |"a"| != |"a/b"| && p[1..] == [];
    assert Child(v, p[0]) == Some(Bool(true)) && At(v, p) == At(Bool(true), p[1..]);
    TwoSteps(v, q);
  }

  /** Otherwise it can point elsewhere: `/a/b` is the text of the key `a/b`, and points into the value of `a`. */
  lemma SlashedKeyPointsElsewhere()
    ensures var v, p := SlashedKeyDocument(), [Key("a/b")];
      At(v, p) == Some(Bool(true)) && Pointed(v, TextOf(p)) == Some(Bool(false))
  {
    var q := [Key("a"), Key("b")];
    SlashedKeyPositions();
    OneLabel("a/b");
    TwoLabels("a", "b");
    assert "/" + "a/b" == "/" + "a" + "/" + "b";
    UnescapeWithoutTilde("a");
    UnescapeWithoutTilde("b");
    PointerLeadsBack(SlashedKeyDocument(), q);
  }
}
