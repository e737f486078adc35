/** Which paths a rule is for, said token by token, whatever the weights are. */
module PatternLaws {
  import opened Wrappers
  import opened Paths
  import opened Rules

  // The tokens of a path that a token of a pattern stands for.
  predicate Covers(p: PathToken, t: PathToken) {
    match p
    case Star => true
    case StarIndex => t.Index? || t.StarIndex?
    case Index(i) => t == Index(i)
    case Field(name) => t == Field(name)
    case Root => t == Root
  }

  // A token as `join` builds it: what reads as an index or a star is no field.
  predicate IsJoined(t: PathToken) {
    match t
    case Root => false
    case Index(i) => i < USIZE_LIMIT
    case Field(name) => TokenOf(name) == t
    case _ => true
  }

  // The root, perhaps, and joined tokens after it; only a later one can be a field named like the root.
  predicate Addressable(path: Path) {
    forall i :: 0 <= i < |path| ==>
      if i == 0 then path[0] == Root || (IsJoined(path[0]) && path[0] != Field("$")) else IsJoined(path[i])
  }

  ghost predicate CoversAll(pattern: Path, path: Path) {
    |pattern| <= |path| && forall i :: 0 <= i < |pattern| ==> Covers(pattern[i], path[i])
  }

  lemma NoNumbers()
    ensures ParseUsize("$") == None && ParseUsize("*") == None && ParseUsize("[*]") == None
  {
    assert ParseDigits("$", 0) == Some(0) && ParseDigits("$", 1) == None;
    assert ParseDigits("*", 0) == Some(0) && ParseDigits("*", 1) == None;
    assert ParseDigits("[*]", 0) == Some(0) && ParseDigits("[*]", 1) == None;
    assert ParseDigits("[*]", 2) == None && ParseDigits("[*]", 3) == None;
  }

  // What `join` makes is joined, and looks like the part.
  lemma JoinedToken(part: string)
    ensures IsJoined(TokenOf(part))
  {
  }

  lemma IndexToken(i: nat)
    requires i < USIZE_LIMIT
    ensures TokenOf(ShowNat(i)) == Index(i)
  {
    NoNumbers();
    ParseShownNat(i);
  }

  lemma RootWeighs(t: PathToken)
    requires t == Root || IsJoined(t)
    ensures TokenWeight(ShowToken(t), Root) > 0 <==> t == Root || t == Field("$")
  {
    NoNumbers();
    if t.Index? {
      ParseShownNat(t.index);
    }
  }

  lemma FieldWeighs(name: string, t: PathToken)
    requires t == Root || IsJoined(t)
    requires TokenOf(name) == Field(name)
    ensures TokenWeight(ShowToken(t), Field(name)) > 0 <==> t == Field(name) || (t == Root && name == "$")
  {
    NoNumbers();
    if t.Index? {
      ParseShownNat(t.index);
    }
  }

  lemma IndexWeighs(p: PathToken, t: PathToken)
    requires (t == Root || IsJoined(t)) && (p.Index? || p.StarIndex?)
    ensures TokenWeight(ShowToken(t), p) > 0 <==> Covers(p, t)
  {
    NoNumbers();
    if t.Index? {
      ParseShownNat(t.index);
    }
  }

  // A token matches what it covers, but for a field named like the root.
  lemma WeighsExactly(p: PathToken, t: PathToken)
    requires (p == Root || IsJoined(p)) && (t == Root || IsJoined(t))
    requires p == Root ==> t != Field("$")
    requires t == Root ==> p != Field("$")
    ensures TokenWeight(ShowToken(t), p) > 0 <==> Covers(p, t)
  {
    match p
    case Root => RootWeighs(t);
    case Field(name) => FieldWeighs(name, t);
    case Star =>
    case _ => IndexWeighs(p, t);
  }

  /** A pattern matches a path exactly when each of its tokens covers the one of the path. */
  lemma MatchesExactly(pattern: Path, path: Path)
    requires Addressable(pattern) && Addressable(path)
    ensures MatchesPath(pattern, path) <==> CoversAll(pattern, path)
  {
    MatchesPathExactly(pattern, path);
    if |pattern| <= |path| {
      forall i | 0 <= i < |pattern| ensures TokenWeight(ShowToken(path[i]), pattern[i]) > 0 <==> Covers(pattern[i], path[i]) {
        WeighsExactly(pattern[i], path[i]);
      }
    }
  }

  // A quoted field is compared by its text alone, so it also stands for an index of that text.
  lemma QuotedIndex(i: nat)
    requires i < USIZE_LIMIT
    ensures MatchesPath([Root, Field(ShowNat(i))], [Root, Index(i)]) && !Covers(Field(ShowNat(i)), Index(i))
    ensures !Addressable([Root, Field(ShowNat(i))])
  {
    var pattern, path := [Root, Field(ShowNat(i))], [Root, Index(i)];
    MatchesPathExactly(pattern, path);
    IndexToken(i);
    assert !IsJoined(pattern[1]);
  }

  // A pattern that is no longer than a path matches what is below the path when it matches the path.
  lemma BelowExactly(pattern: Path, path: Path, p: Path)
    requires Addressable(pattern) && Addressable(path) && |pattern| <= |path| && path <= p
    ensures MatchesPath(pattern, p) <==> CoversAll(pattern, path)
  {
    MatchesPathExactly(pattern, path);
    MatchesPathExactly(pattern, p);
    MatchesExactly(pattern, path);
  }

  lemma CoversLast(path: Path, q: PathToken, t: PathToken)
    ensures CoversAll(path + [q], path + [t]) <==> Covers(q, t)
  {
    var pattern, covered := path + [q], path + [t];
    assert pattern[|path|] == q && covered[|path|] == t;
    if Covers(q, t) {
      forall j | 0 <= j < |pattern| ensures Covers(pattern[j], covered[j]) {
        assert j < |path| ==> pattern[j] == path[j] == covered[j];
      }
    }
  }

  // ---- Scores

  // How many of the first `n` tokens are no stars.
  function ExactTokens(pattern: Path, n: nat): nat
    requires n <= |pattern|
  {
    if n == 0 then 0 else ExactTokens(pattern, n - 1) + if IsExact(pattern[n - 1]) then 1 else 0
  }

  function Power2(n: nat): (p: nat)
    ensures p > 0
  {
    if n == 0 then 1 else 2 * Power2(n - 1)
  }

  lemma {:induction false} WeightExactly(pattern: Path, path: Path, n: nat)
    requires n <= |pattern| <= |path| && forall i :: 0 <= i < n ==> TokenWeight(ShowToken(path[i]), pattern[i]) > 0
    ensures WeightOf(pattern, path, n) == Power2(ExactTokens(pattern, n))
  {
    if n > 0 {
      WeightExactly(pattern, path, n - 1);
      TokenDoubles(ShowToken(path[n - 1]), pattern[n - 1]);
    }
  }

  /** The score of a rule for the paths it matches: doubled for every token that is no star, and times the length. */
  lemma ScoreExactly(rule: (Path, RuleList), path: Path)
    requires MatchesPath(rule.0, path)
    ensures Score(rule, path) == Power2(ExactTokens(rule.0, |rule.0|)) * |rule.0|
  {
    MatchesPathExactly(rule.0, path);
    WeightExactly(rule.0, path, |rule.0|);
  }

  lemma {:induction false} PowersGrow(m: nat, n: nat)
    requires m <= n
    ensures Power2(m) <= Power2(n)
  {
    if m < n {
      PowersGrow(m, n - 1);
    }
  }

  lemma ProductGrows(v: nat, w: nat, m: nat, n: nat)
    requires v >= w > 0 && m > n
    ensures v * m > w * n
  {
    MoreByLength(v, w, m);
    MoreByLength(m, n, w);
  }

  /** So a longer pattern with at least as many exact tokens is the better match: a rule below a path beats one above it. */
  lemma LongerScoresHigher(p: (Path, RuleList), q: (Path, RuleList), path: Path)
    requires MatchesPath(p.0, path) && MatchesPath(q.0, path)
    requires |p.0| > |q.0| && ExactTokens(p.0, |p.0|) >= ExactTokens(q.0, |q.0|)
    ensures Score(p, path) > Score(q, path)
  {
    var v, w := Power2(ExactTokens(p.0, |p.0|)), Power2(ExactTokens(q.0, |q.0|));
    ScoreExactly(p, path);
    ScoreExactly(q, path);
    PowersGrow(ExactTokens(q.0, |q.0|), ExactTokens(p.0, |p.0|));
    ProductGrows(v, w, |p.0|, |q.0|);
  }
}
