/** For which expressions the strings that resolving a path returns are all different, whatever the document is. */
module RepeatedTexts {
  import opened Wrappers
  import opened Json
  import opened StringOrder
  import opened Text
  import opened Paths
  import opened ResolvePath
  import opened ResolvePathLaws
  import opened ResolvedTexts
  import opened RootlessPaths

  // ---- Texts, one label after the other

  lemma {:induction false} JoinMore(parts: seq<string>, last: string)
    requires parts != []
    ensures Join(parts + [last], "/") == Join(parts, "/") + "/" + last
  {
    if |parts| == 1 {
      assert (parts + [last])[1..] == [last];
    } else {
      JoinMore(parts[1..], last);
      assert (parts + [last])[1..] == parts[1..] + [last];
    }
  }

  lemma TextMore(p: Position, step: Step)
    ensures TextOf(p + [step]) == TextOf(p) + "/" + Label(step)
  {
    var q := p + [step];
    assert q[..|q| - 1] == p;
    assert [""] + (Labels(p) + [Label(step)]) == ([""] + Labels(p)) + [Label(step)];
    JoinMore([""] + Labels(p), Label(step));
  }

  lemma {:induction false} TextConcat(p: Position, q: Position)
    ensures TextOf(p + q) == TextOf(p) + TextOf(q)
    decreases |q|
  {
    if q == [] {
      assert p + q == p && TextOf([]) == "";
    } else {
      var init, last := q[..|q| - 1], q[|q| - 1];
      TextConcat(p, init);
      TextMore(p + init, last);
      TextMore(init, last);
      assert q == init + [last] && p + q == (p + init) + [last];
    }
  }

  lemma OneStep(step: Step)
    ensures TextOf([step]) == "/" + Label(step)
  {
    TextMore([], step);
    assert [] + [step] == [step] && TextOf([]) == "";
  }

  // A text is empty or starts with a slash.
  lemma TextStartsSlash(p: Position)
    ensures if p == [] then TextOf(p) == "" else TextOf(p) != "" && TextOf(p)[0] == '/'
  {
    if p != [] {
      assert p == [p[0]] + p[1..];
      TextConcat([p[0]], p[1..]);
      OneStep(p[0]);
    } else {
      assert TextOf([]) == "";
    }
  }

  // ---- Cutting equal texts

  // A beginning without slashes is no longer than one that is followed by a slash or by nothing.
  lemma FrontIsShort(x: string, y: string, r: string, s: string)
    requires x + r == y + s && '/' !in y && (r == "" || r[0] == '/')
    ensures |y| <= |x|
  {
    var t := x + r;
    assert |x| < |t| ==> t[|x|] == r[0];
    assert forall k :: 0 <= k < |y| ==> t[k] == y[k] && y[k] != '/';
  }

  lemma CutFront(x: string, y: string, r: string, s: string)
    requires x + r == y + s && (x == y || ('/' !in x && '/' !in y))
    requires (r == "" || r[0] == '/') && (s == "" || s[0] == '/')
    ensures x == y && r == s
  {
    if x != y {
      FrontIsShort(x, y, r, s);
      FrontIsShort(y, x, s, r);
    }
    assert x == (x + r)[..|x|] && r == (x + r)[|x|..] && y == (y + s)[..|y|] && s == (y + s)[|y|..];
  }

  // An ending without slashes is no longer than one that a slash precedes.
  lemma BackIsShort(a: string, x: string, b: string, y: string)
    requires a + "/" + x == b + "/" + y && '/' !in y
    ensures |y| <= |x|
  {
    var t := a + "/" + x;
    assert t[|a|] == '/';
    assert forall k :: |b| < k < |t| ==> t[k] == y[k - |b| - 1] && y[k - |b| - 1] != '/';
  }

  lemma CutBack(a: string, x: string, b: string, y: string)
    requires a + "/" + x == b + "/" + y && (x == y || ('/' !in x && '/' !in y))
    ensures x == y && a == b
  {
    var s, t := a + "/" + x, b + "/" + y;
    if x != y {
      BackIsShort(a, x, b, y);
      BackIsShort(b, y, a, x);
    }
    assert |a| == |b|;
    assert a == s[..|a|] && b == t[..|b|] && x == s[|a| + 1..] && y == t[|b| + 1..];
  }

  // ---- At most one star

  function Stars(tokens: seq<PathToken>): nat {
    if tokens == [] then 0 else (if tokens[0].Star? then 1 else 0) + Stars(tokens[1..])
  }

  lemma {:induction false} StarsConcat(s: seq<PathToken>, t: seq<PathToken>)
    ensures Stars(s + t) == Stars(s) + Stars(t)
  {
    if s == [] {
      assert s + t == t;
    } else {
      assert (s + t)[0] == s[0] && (s + t)[1..] == s[1..] + t;
      StarsConcat(s[1..], t);
    }
  }

  predicate Matches(tokens: seq<PathToken>, p: Position) {
    |p| == |tokens| && forall i :: 0 <= i < |p| ==> TokenMatches(tokens[i], p[i])
  }

  // Two steps that one token matches are the same, or have labels without slashes.
  lemma SameOrSlashFree(token: PathToken, s: Step, t: Step)
    requires TokenMatches(token, s) && TokenMatches(token, t) && !token.Star?
    ensures s == t || ('/' !in Label(s) && '/' !in Label(t))
    ensures Label(s) == Label(t) ==> s == t
  {
    if token.StarIndex? {
      DigitsOnly(s.index);
      DigitsOnly(t.index);
      if Label(s) == Label(t) {
        ShowNatInjective(s.index, t.index);
      }
    }
  }

  /** Positions that match an expression with at most one star are told apart by their texts. */
  lemma {:induction false} OneStarTexts(tokens: seq<PathToken>, p: Position, q: Position)
    requires Matches(tokens, p) && Matches(tokens, q) && Stars(tokens) <= 1 && TextOf(p) == TextOf(q)
    ensures p == q
    decreases |tokens|
  {
    if tokens != [] {
      var n := |tokens| - 1;
      if !tokens[0].Star? {
        CutFirst(tokens, p, q);
        OneStarTexts(tokens[1..], p[1..], q[1..]);
        assert p == [p[0]] + p[1..] && q == [q[0]] + q[1..];
      } else if n == 0 {
        OneStep(p[0]);
        OneStep(q[0]);
        assert p == [p[0]] && q == [q[0]];
        assert ("/" + Label(p[0]))[1..] == Label(p[0]) && ("/" + Label(q[0]))[1..] == Label(q[0]);
      } else {
        NoMoreStars(tokens);
        CutLast(tokens, p, q);
        OneStarTexts(tokens[..n], p[..n], q[..n]);
        assert p == p[..n] + [p[n]] && q == q[..n] + [q[n]];
      }
    }
  }

  lemma CutFirst(tokens: seq<PathToken>, p: Position, q: Position)
    requires tokens != [] && Matches(tokens, p) && Matches(tokens, q) && TextOf(p) == TextOf(q) && !tokens[0].Star?
    ensures p[0] == q[0] && TextOf(p[1..]) == TextOf(q[1..])
    ensures Matches(tokens[1..], p[1..]) && Matches(tokens[1..], q[1..])
  {
    FirstLabel(p);
    FirstLabel(q);
    TextStartsSlash(p[1..]);
    TextStartsSlash(q[1..]);
    SameOrSlashFree(tokens[0], p[0], q[0]);
    assert (Label(p[0]) + TextOf(p[1..])) == TextOf(p)[1..] && (Label(q[0]) + TextOf(q[1..])) == TextOf(q)[1..];
    CutFront(Label(p[0]), Label(q[0]), TextOf(p[1..]), TextOf(q[1..]));
  }

  lemma FirstLabel(p: Position)
    requires p != []
    ensures TextOf(p) == "/" + (Label(p[0]) + TextOf(p[1..]))
  {
    assert p == [p[0]] + p[1..];
    TextConcat([p[0]], p[1..]);
    OneStep(p[0]);
  }

  lemma NoMoreStars(tokens: seq<PathToken>)
    requires |tokens| > 1 && tokens[0].Star? && Stars(tokens) <= 1
    ensures !tokens[|tokens| - 1].Star? && Stars(tokens[..|tokens| - 1]) <= 1
  {
    var n := |tokens| - 1;
    assert tokens == tokens[..n] + [tokens[n]];
    StarsConcat(tokens[..n], [tokens[n]]);
    assert tokens[..n][0] == tokens[0];
    assert [tokens[n]][1..] == [];
  }

  lemma LastLabel(p: Position)
    requires p != []
    ensures TextOf(p) == TextOf(p[..|p| - 1]) + "/" + Label(p[|p| - 1])
  {
    assert p == p[..|p| - 1] + [p[|p| - 1]];
    TextMore(p[..|p| - 1], p[|p| - 1]);
  }

  lemma CutLast(tokens: seq<PathToken>, p: Position, q: Position)
    requires tokens != [] && Matches(tokens, p) && Matches(tokens, q) && TextOf(p) == TextOf(q) && !tokens[|tokens| - 1].Star?
    ensures var n := |tokens| - 1;
      && p[n] == q[n] && TextOf(p[..n]) == TextOf(q[..n]) && Matches(tokens[..n], p[..n]) && Matches(tokens[..n], q[..n])
  {
    var n := |tokens| - 1;
    LastLabel(p);
    LastLabel(q);
    SameOrSlashFree(tokens[n], p[n], q[n]);
    CutBack(TextOf(p[..n]), Label(p[n]), TextOf(q[..n]), Label(q[n]));
  }

  lemma OneStarDistinct(value: Value, expression: Path)
    requires |Unrooted(expression)| + 1 == |expression| && Stars(Unrooted(expression)) <= 1
    ensures Distinct(Resolved(value, expression))
  {
    var tokens := Unrooted(expression);
    var ps := Positions([], tokens, value);
    ResolvesExactly(value, expression);
    DistinctTexts(ps);
    forall i, j | 0 <= i < j < |ps| ensures TextOf(ps[i]) != TextOf(ps[j]) {
      assert ps[i] in ps && ps[j] in ps;
      if TextOf(ps[i]) == TextOf(ps[j]) {
        OneStarTexts(tokens, ps[i], ps[j]);
        PrecedesIrreflexive(ps[i]);
      }
    }
  }

  // ---- Two stars

  // A document in which the tokens lead to a value.
  function Nested(tokens: seq<PathToken>, leaf: Value): Value {
    if tokens == [] then leaf else
      var rest := Nested(tokens[1..], leaf);
      match tokens[0]
      case Root => Null
      case Field(name) => Object(map[name := rest])
      case Index(i) => Array(seq(i + 1, _ => rest))
      case Star => Object(map["a" := rest])
      case StarIndex => Array([rest])
  }

  lemma NestedChild(tokens: seq<PathToken>, leaf: Value)
    requires RootFree(tokens) && tokens != []
    ensures Child(Nested(tokens, leaf), WitnessStep(tokens[0])) == Some(Nested(tokens[1..], leaf))
    ensures TokenMatches(tokens[0], WitnessStep(tokens[0]))
  {
  }

  lemma {:induction false} NestedAt(tokens: seq<PathToken>, leaf: Value)
    requires RootFree(tokens)
    ensures At(Nested(tokens, leaf), WitnessPosition(tokens)) == Some(leaf) && Matches(tokens, WitnessPosition(tokens))
  {
    if tokens != [] {
      var p := WitnessPosition(tokens);
      NestedChild(tokens, leaf);
      NestedAt(tokens[1..], leaf);
      assert p[0] == WitnessStep(tokens[0]) && p[1..] == WitnessPosition(tokens[1..]);
      forall i | 0 <= i < |p| ensures TokenMatches(tokens[i], p[i]) {
        assert i > 0 ==> p[i] == p[1..][i - 1] && tokens[i] == tokens[1..][i - 1];
      }
    }
  }

  lemma {:induction false} AtConcat(v: Value, p: Position, q: Position)
    requires At(v, p).Some?
    ensures At(v, p + q) == At(At(v, p).value, q)
    decreases |p|
  {
    if p == [] {
      assert p + q == q;
    } else {
      assert (p + q)[0] == p[0] && (p + q)[1..] == p[1..] + q;
      AtConcat(Child(v, p[0]).value, p[1..], q);
    }
  }

  lemma MatchesConcat(s: seq<PathToken>, p: Position, t: seq<PathToken>, q: Position)
    requires Matches(s, p) && Matches(t, q)
    ensures Matches(s + t, p + q)
  {
  }

  // From a value with this key: the key, the middle, another key, the end.
  function Branch(first: string, mid: seq<PathToken>, second: string, post: seq<PathToken>): Position {
    [Key(first)] + (WitnessPosition(mid) + ([Key(second)] + WitnessPosition(post)))
  }

  function Hanging(mid: seq<PathToken>, second: string, post: seq<PathToken>): Value {
    Nested(mid, Object(map[second := Nested(post, Null)]))
  }

  lemma BranchFits(v: Value, first: string, mid: seq<PathToken>, second: string, post: seq<PathToken>)
    requires RootFree(mid) && RootFree(post) && v.Object? && first in v.entries && v.entries[first] == Hanging(mid, second, post)
    ensures At(v, Branch(first, mid, second, post)).Some?
    ensures Matches([Star] + (mid + ([Star] + post)), Branch(first, mid, second, post))
  {
    var end := [Key(second)] + WitnessPosition(post);
    var leaf := Object(map[second := Nested(post, Null)]);
    NestedAt(post, Null);
    assert end[0] == Key(second) && end[1..] == WitnessPosition(post) && Child(leaf, end[0]) == Some(Nested(post, Null));
    assert At(leaf, end) == Some(Null);
    NestedAt(mid, leaf);
    AtConcat(Hanging(mid, second, post), WitnessPosition(mid), end);
    var p := Branch(first, mid, second, post);
    assert p[0] == Key(first) && p[1..] == WitnessPosition(mid) + end;
    MatchesConcat([Star], [Key(second)], post, WitnessPosition(post));
    MatchesConcat(mid, WitnessPosition(mid), [Star] + post, end);
    MatchesConcat([Star], [Key(first)], mid + ([Star] + post), WitnessPosition(mid) + end);
  }

  lemma BranchText(first: string, mid: seq<PathToken>, second: string, post: seq<PathToken>)
    ensures TextOf(Branch(first, mid, second, post)) ==
      ("/" + first) + (TextOf(WitnessPosition(mid)) + (("/" + second) + TextOf(WitnessPosition(post))))
  {
    var end := [Key(second)] + WitnessPosition(post);
    OneStep(Key(first));
    OneStep(Key(second));
    TextConcat([Key(second)], WitnessPosition(post));
    TextConcat(WitnessPosition(mid), end);
    TextConcat([Key(first)], WitnessPosition(mid) + end);
  }

  // `a/`, the middle and `b` as one key, or `b/`, the middle and `c` as one: either way one text.
  lemma SameBranches(m: string, w: string)
    ensures ("/" + "a") + (m + (("/" + ("b" + m + "/c")) + w)) == ("/" + ("a" + m + "/b")) + (m + (("/" + "c") + w))
  {
    var text := "/a" + m + "/b" + m + "/c" + w;
    assert ("/" + "a") + (m + (("/" + ("b" + m + "/c")) + w)) == text;
    assert ("/" + ("a" + m + "/b")) + (m + (("/" + "c") + w)) == text;
  }

  // The keys that hold a slash.
  function LaterKey(mid: seq<PathToken>): string {
    "b" + TextOf(WitnessPosition(mid)) + "/c"
  }

  function EarlierKey(mid: seq<PathToken>): string {
    "a" + TextOf(WitnessPosition(mid)) + "/b"
  }

  function TwoBranches(mid: seq<PathToken>, post: seq<PathToken>): Value {
    Object(map["a" := Hanging(mid, LaterKey(mid), post), EarlierKey(mid) := Hanging(mid, "c", post)])
  }

  // The tokens around the first star.
  lemma {:induction false} FirstStar(tokens: seq<PathToken>) returns (pre: seq<PathToken>, rest: seq<PathToken>)
    requires Stars(tokens) > 0
    ensures tokens == pre + ([Star] + rest) && Stars(rest) == Stars(tokens) - 1
  {
    if tokens[0].Star? {
      pre, rest := [], tokens[1..];
      assert tokens == [Star] + rest == [] + ([Star] + rest);
    } else {
      pre, rest := FirstStar(tokens[1..]);
      assert tokens == [tokens[0]] + (pre + ([Star] + rest)) == ([tokens[0]] + pre) + ([Star] + rest);
      pre := [tokens[0]] + pre;
    }
  }

  // The two positions that have one text.
  lemma BranchesRepeat(pre: seq<PathToken>, mid: seq<PathToken>, post: seq<PathToken>) returns (p: Position, q: Position)
    requires RootFree(pre) && RootFree(mid) && RootFree(post) && (post != [] ==> CanReport(post))
    ensures var tokens, v := pre + ([Star] + (mid + ([Star] + post))), Nested(pre, TwoBranches(mid, post));
      Fits(tokens, v, p) && Fits(tokens, v, q)
    ensures p != q && IsReported(p) && IsReported(q) && TextOf(p) == TextOf(q)
  {
    var v, before := TwoBranches(mid, post), WitnessPosition(pre);
    var left, right := Branch("a", mid, LaterKey(mid), post), Branch(EarlierKey(mid), mid, "c", post);
    assert |EarlierKey(mid)| > |"a"|;
    BranchFits(v, "a", mid, LaterKey(mid), post);
    BranchFits(v, EarlierKey(mid), mid, "c", post);
    NestedAt(pre, v);
    AtConcat(Nested(pre, v), before, left);
    AtConcat(Nested(pre, v), before, right);
    MatchesConcat(pre, before, [Star] + (mid + ([Star] + post)), left);
    MatchesConcat(pre, before, [Star] + (mid + ([Star] + post)), right);
    p, q := before + left, before + right;
    assert p[|before|] == Key("a") && q[|before|] == Key(EarlierKey(mid));
    TextConcat(before, left);
    TextConcat(before, right);
    BranchText("a", mid, LaterKey(mid), post);
    BranchText(EarlierKey(mid), mid, "c", post);
    SameBranches(TextOf(WitnessPosition(mid)), TextOf(WitnessPosition(post)));
    BranchIsReported(before, "a", mid, LaterKey(mid), post);
    BranchIsReported(before, EarlierKey(mid), mid, "c", post);
  }

  lemma BranchIsReported(before: Position, first: string, mid: seq<PathToken>, second: string, post: seq<PathToken>)
    requires RootFree(post) && second != "" && (post != [] ==> CanReport(post))
    ensures IsReported(before + Branch(first, mid, second, post))
  {
    var p := before + Branch(first, mid, second, post);
    if post == [] {
      assert p[|p| - 1] == Key(second);
    } else {
      assert p[|p| - 1] == WitnessStep(post[|post| - 1]);
      ReportableLabel(post[|post| - 1]);
    }
  }

  lemma RootFreeParts(s: seq<PathToken>, t: seq<PathToken>)
    requires RootFree(s + t)
    ensures RootFree(s) && RootFree(t)
  {
    assert forall i :: 0 <= i < |s| ==> s[i] == (s + t)[i];
    assert forall i :: 0 <= i < |t| ==> t[i] == (s + t)[|s| + i];
  }

  // The tokens around the first two stars.
  lemma TwoStars(tokens: seq<PathToken>) returns (pre: seq<PathToken>, mid: seq<PathToken>, post: seq<PathToken>)
    requires RootFree(tokens) && Stars(tokens) >= 2
    ensures tokens == pre + ([Star] + (mid + ([Star] + post)))
    ensures RootFree(pre) && RootFree(mid) && RootFree(post)
  {
    var rest;
    pre, rest := FirstStar(tokens);
    mid, post := FirstStar(rest);
    RootFreeParts(pre, [Star] + rest);
    RootFreeParts([Star], rest);
    RootFreeParts(mid, [Star] + post);
    RootFreeParts([Star], post);
  }

  lemma LastReports(tokens: seq<PathToken>, before: seq<PathToken>, post: seq<PathToken>)
    requires tokens == before + post && CanReport(tokens)
    ensures post != [] ==> CanReport(post)
  {
  }

  lemma TwoStarsRepeat(expression: Path) returns (value: Value)
    requires |Unrooted(expression)| + 1 == |expression| && Stars(Unrooted(expression)) >= 2 && CanReport(Unrooted(expression))
    ensures !Distinct(Resolved(value, expression))
  {
    var tokens := Unrooted(expression);
    UnrootedIsRootFree(expression);
    var pre, mid, post := TwoStars(tokens);
    assert tokens == (pre + ([Star] + (mid + [Star]))) + post;
    LastReports(tokens, pre + ([Star] + (mid + [Star])), post);
    value := Nested(pre, TwoBranches(mid, post));
    var p, q := BranchesRepeat(pre, mid, post);
    RepeatedInResult(value, expression, p, q);
  }

  /** With a root token the strings are all different in every document exactly if there is at most one star, or if
    * nothing is ever reported: there are more root tokens, or the last token can only find the empty name. */
  lemma DistinctExactly(expression: Path)
    requires |Unrooted(expression)| < |expression|
    ensures (forall value :: Distinct(Resolved(value, expression))) <==>
      |Unrooted(expression)| + 1 < |expression| || Stars(Unrooted(expression)) <= 1 || !CanReport(Unrooted(expression))
  {
    var tokens := Unrooted(expression);
    UnrootedIsRootFree(expression);
    if |tokens| + 1 < |expression| {
      forall value ensures Distinct(Resolved(value, expression)) {
        MoreRootsResolveNothing(value, expression);
      }
    } else if !CanReport(tokens) {
      forall value ensures Distinct(Resolved(value, expression)) {
        ResolvesExactly(value, expression);
        NothingToReport(tokens, value);
      }
    } else if Stars(tokens) <= 1 {
      forall value ensures Distinct(Resolved(value, expression)) {
        OneStarDistinct(value, expression);
      }
    } else {
      var value := TwoStarsRepeat(expression);
    }
  }
}
