/** Matching rules, and how the rules of a category are selected for a path. */
module Rules {
  import opened Wrappers
  import opened Paths

  datatype MatchingRule =
    | Equality
    | Regex(pattern: string)
    | Type
    | MinType(min: nat)
    | MaxType(max: nat)
    | MinMaxType(low: nat, high: nat)
    | Timestamp(timestampFormat: string)
    | Time(timeFormat: string)
    | Date(dateFormat: string)
    | Include(text: string)
    | Number
    | Integer
    | Decimal
    | Null
    | ContentType(contentType: string)
    | ArrayContains(variants: seq<Variant>)
    | Values
    | Boolean
    | StatusCode
    | NotEmpty
    | Semver
    | EachKey(keyRules: seq<RuleOrReference>)
    | EachValue(valueRules: seq<RuleOrReference>)

  // A rule, or a reference to one that was never resolved.
  datatype RuleOrReference = Resolved(rule: MatchingRule) | Reference(name: string)

  datatype Variant = Variant(index: nat, rules: Category)

  datatype RuleLogic = And | Or

  datatype RuleList = RuleList(rules: seq<MatchingRule>, logic: RuleLogic, cascaded: bool)

  datatype CategoryName = METHOD | PATH | HEADER | QUERY | BODY | STATUS | CONTENTS | METADATA

  // The rules of a category, in the order in which its hash map happens to be walked.
  datatype Category = Category(name: CategoryName, rules: seq<(Path, RuleList)>)

  const EMPTY_LIST := RuleList([], And, false)

  // The category that compares everything for equality.
  const EQUALITY_CATEGORY := Category(BODY, [([], RuleList([Equality], And, false))])

  // Every expected item, to be found by equality.
  function DefaultVariants(n: nat): seq<Variant> {
    seq(n, i requires 0 <= i < n => Variant(i, EQUALITY_CATEGORY))
  }

  predicate IsValuesMatcher(rule: MatchingRule) {
    rule.Values? || rule.EachValue?
  }

  predicate IsTypeMatcher(rule: MatchingRule) {
    rule.Type? || rule.MinType? || rule.MaxType? || rule.MinMaxType?
  }

  // `matches_token`
  function TokenWeight(fragment: string, token: PathToken): nat {
    match token
    case Root => if fragment == "$" then 2 else 0
    case Field(name) => if fragment == name then 2 else 0
    case Index(i) => if ParseUsize(fragment) == Some(i) then 2 else 0
    case StarIndex => if fragment == "[*]" || ParseUsize(fragment).Some? then 1 else 0
    case Star => 1
  }

  // The product of the first `i` token weights.
  function WeightOf(pattern: Path, path: Path, i: nat): nat
    requires i <= |pattern| && i <= |path|
  {
    if i == 0 then 1 else WeightOf(pattern, path, i - 1) * TokenWeight(ShowToken(path[i - 1]), pattern[i - 1])
  }

  // `path_weight`: the weight of a pattern for a path; zero when it does not match a beginning of it.
  function PathWeight(pattern: Path, path: Path): nat {
    if |path| >= |pattern| then WeightOf(pattern, path, |pattern|) else 0
  }

  predicate MatchesPath(pattern: Path, path: Path) {
    PathWeight(pattern, path) > 0
  }

  /** A pattern matches the paths that have a beginning whose tokens it matches one by one. */
  lemma {:induction false} MatchesPathExactly(pattern: Path, path: Path)
    ensures MatchesPath(pattern, path) <==>
      |pattern| <= |path| && forall i :: 0 <= i < |pattern| ==> TokenWeight(ShowToken(path[i]), pattern[i]) > 0
  {
    if |path| >= |pattern| {
      WeightPositive(pattern, path, |pattern|);
    }
  }

  lemma {:induction false} WeightPositive(pattern: Path, path: Path, n: nat)
    requires n <= |pattern| && n <= |path|
    ensures WeightOf(pattern, path, n) > 0 <==> forall i :: 0 <= i < n ==> TokenWeight(ShowToken(path[i]), pattern[i]) > 0
  {
    if n > 0 {
      WeightPositive(pattern, path, n - 1);
      var w, t := WeightOf(pattern, path, n - 1), TokenWeight(ShowToken(path[n - 1]), pattern[n - 1]);
      assert w * t > 0 <==> w > 0 && t > 0;
    }
  }

  // ---- Selection

  function Score(rule: (Path, RuleList), path: Path): nat {
    PathWeight(rule.0, path) * |rule.0|
  }

  // The best of the first `i` rules: the last one of those with the highest score.
  function BestOf(rules: seq<(Path, RuleList)>, path: Path, i: nat): (best: Option<nat>)
    requires i <= |rules|
    ensures best.Some? ==> best.value < i
  {
    if i == 0 then None else
      var best := BestOf(rules, path, i - 1);
      if !MatchesPath(rules[i - 1].0, path) then best
      else if best.None? || Score(rules[best.value], path) <= Score(rules[i - 1], path) then Some(i - 1)
      else best
  }

  // `max_by_path`
  function MaxByPath(rules: seq<(Path, RuleList)>, path: Path): RuleList {
    var best := BestOf(rules, path, |rules|);
    if best.None? then EMPTY_LIST
    else rules[best.value].1.(cascaded := |rules[best.value].0| != |path|)
  }

  /** The selected rule matches, none scores higher and no later one as high; there is one if any rule matches. */
  lemma {:induction false} BestOfExactly(rules: seq<(Path, RuleList)>, path: Path, n: nat)
    requires n <= |rules|
    ensures var best := BestOf(rules, path, n);
      && (best.None? ==> forall j :: 0 <= j < n ==> !MatchesPath(rules[j].0, path))
      && (best.Some? ==> MatchesPath(rules[best.value].0, path))
      && (best.Some? ==> forall j :: 0 <= j < n && MatchesPath(rules[j].0, path) ==>
          Score(rules[j], path) < Score(rules[best.value], path)
          || (Score(rules[j], path) == Score(rules[best.value], path) && j <= best.value))
  {
    if n > 0 {
      BestOfExactly(rules, path, n - 1);
    }
  }

  // The rules that a predicate keeps.
  function Filtered(rules: seq<(Path, RuleList)>, keep: (Path, RuleList) -> bool): seq<(Path, RuleList)> {
    if rules == [] then [] else
      (if keep(rules[0].0, rules[0].1) then [rules[0]] else []) + Filtered(rules[1..], keep)
  }

  // ---- More exact patterns win

  predicate IsExact(t: PathToken) {
    t.Root? || t.Field? || t.Index?
  }

  // The pattern is exact wherever the other one is.
  predicate AtLeastAsExact(p: Path, q: Path) {
    |p| == |q| && forall i | 0 <= i < |q| :: IsExact(q[i]) ==> IsExact(p[i])
  }

  // Whether the first pattern is exact and the other is not at one of the first `n` tokens.
  predicate MoreExact(p: Path, q: Path, n: nat)
    requires n <= |p| && n <= |q|
  {
    exists i :: 0 <= i < n && IsExact(p[i]) && !IsExact(q[i])
  }

  lemma {:induction false} ExactWeighsMore(p: Path, q: Path, path: Path, n: nat)
    requires n <= |p| <= |path| && AtLeastAsExact(p, q)
    requires forall i :: 0 <= i < n ==> TokenWeight(ShowToken(path[i]), p[i]) > 0 && TokenWeight(ShowToken(path[i]), q[i]) > 0
    ensures WeightOf(p, path, n) >= WeightOf(q, path, n) > 0
    ensures MoreExact(p, q, n) ==> WeightOf(p, path, n) > WeightOf(q, path, n)
  {
    if n > 0 {
      var fragment := ShowToken(path[n - 1]);
      ExactWeighsMore(p, q, path, n - 1);
      TokenDoubles(fragment, p[n - 1]);
      TokenDoubles(fragment, q[n - 1]);
      assert MoreExact(p, q, n) <==> MoreExact(p, q, n - 1) || (IsExact(p[n - 1]) && !IsExact(q[n - 1]));
      MoreTogether(WeightOf(p, path, n - 1), WeightOf(q, path, n - 1), TokenWeight(fragment, p[n - 1]), TokenWeight(fragment, q[n - 1]));
    }
  }

  lemma TokenDoubles(fragment: string, token: PathToken)
    requires TokenWeight(fragment, token) > 0
    ensures TokenWeight(fragment, token) == if IsExact(token) then 2 else 1
  {
  }

  lemma MoreTogether(v: nat, w: nat, s: nat, t: nat)
    requires v >= w > 0 && s >= t > 0
    ensures v * s >= w * t > 0
    ensures v > w || s > t ==> v * s > w * t
  {
    MoreByLength(v, w, s);
    MoreByLength(s, t, w);
  }

  /** Of two matching patterns of the same length, one that is exact where the other is and at some further
    * token scores higher, so the other one is not selected beside it. */
  lemma MoreExactScoresHigher(p: (Path, RuleList), q: (Path, RuleList), path: Path)
    requires AtLeastAsExact(p.0, q.0) && MoreExact(p.0, q.0, |p.0|)
    requires MatchesPath(p.0, path) && MatchesPath(q.0, path)
    ensures Score(p, path) > Score(q, path)
  {
    MatchesPathExactly(p.0, path);
    MatchesPathExactly(q.0, path);
    ExactWeighsMore(p.0, q.0, path, |p.0|);
    MoreByLength(PathWeight(p.0, path), PathWeight(q.0, path), |p.0|);
  }

  lemma MoreByLength(v: nat, w: nat, n: nat)
    ensures v > w && n > 0 ==> v * n > w * n
    ensures v >= w ==> v * n >= w * n
  {
  }

  // `resolve_matchers_for_path`
  function ResolveMatchers(c: Category, path: Path): Category {
    if c.name in {HEADER, QUERY, BODY, CONTENTS, METADATA}
    then c.(rules := Filtered(c.rules, (pattern, list) => MatchesPath(pattern, path)))
    else c
  }

  predicate MatcherIsDefined(c: Category, path: Path) {
    ResolveMatchers(c, path).rules != []
  }

  // `as_rule_list`: the list that is walked first. The rules were filtered into a new hash map, whose order
  // nothing fixes, so any of them can be the one.
  function FirstList(rules: seq<(Path, RuleList)>, pick: nat): RuleList {
    if rules == [] then EMPTY_LIST else rules[if pick < |rules| then pick else 0].1
  }

  // `select_best_matcher`
  function SelectBestMatcher(c: Category, path: Path, pick: nat): RuleList {
    if c.name == BODY || c.name == METADATA then MaxByPath(c.rules, path)
    else FirstList(ResolveMatchers(c, path).rules, pick)
  }

  predicate TypeMatcherDefined(c: Category, path: Path) {
    exists rule <- ResolveMatchers(c, path).rules :: exists r <- rule.1.rules :: IsTypeMatcher(r)
  }

  function FirstField(path: Path): Option<string> {
    if path == [] then None else if path[0].Field? then Some(path[0].name) else FirstField(path[1..])
  }

  // `matchers_for_exact_path`
  function MatchersForExactPath(c: Category, path: Path): seq<(Path, RuleList)> {
    if c.name == HEADER || c.name == QUERY then
      Filtered(c.rules, (pattern, list) => |path| == 1 && FirstField(path) == FirstField(pattern))
    else if c.name == BODY then
      Filtered(c.rules, (pattern, list) => |pattern| == |path| && MatchesPath(pattern, path))
    else []
  }

  // Whether a list says that keys are not compared as they are.
  predicate AboutKeys(list: RuleList) {
    exists rule <- list.rules :: rule.Values? || rule.EachValue? || rule.EachKey?
  }

  // Whether the first of the lists at exactly this path does.
  predicate KeysAreMatched(c: Category, path: Path, pick: nat) {
    AboutKeys(FirstList(MatchersForExactPath(c, path), pick))
  }

  lemma {:induction false} FilteredEmpty(rules: seq<(Path, RuleList)>, keep: (Path, RuleList) -> bool)
    ensures Filtered(rules, keep) == [] <==> forall i :: 0 <= i < |rules| ==> !keep(rules[i].0, rules[i].1)
  {
    if rules != [] {
      FilteredEmpty(rules[1..], keep);
      if forall i :: 0 <= i < |rules[1..]| ==> !keep(rules[1..][i].0, rules[1..][i].1) {
        forall i | 1 <= i < |rules| ensures !keep(rules[i].0, rules[i].1) {
          assert rules[1..][i - 1] == rules[i];
        }
      } else {
        var i :| 0 <= i < |rules[1..]| && keep(rules[1..][i].0, rules[1..][i].1);
        assert keep(rules[i + 1].0, rules[i + 1].1);
      }
    }
  }

  /** In a body a rule is selected exactly where one is defined, and it is one of those that match. */
  lemma SelectedWhereDefined(c: Category, path: Path)
    requires c.name == BODY || c.name == METADATA
    ensures MatcherIsDefined(c, path) <==> BestOf(c.rules, path, |c.rules|).Some?
  {
    BestOfExactly(c.rules, path, |c.rules|);
    FilteredEmpty(c.rules, (pattern, list) => MatchesPath(pattern, path));
  }

  /** In a body with a single rule, the rule is selected for the paths that continue a path it matches. */
  lemma OneRule(c: Category, path: Path, pick: nat)
    requires c.name == BODY && |c.rules| == 1
    ensures MatcherIsDefined(c, path) <==> MatchesPath(c.rules[0].0, path)
    ensures MatcherIsDefined(c, path) ==> SelectBestMatcher(c, path, pick) == c.rules[0].1.(cascaded := |c.rules[0].0| != |path|)
    ensures TypeMatcherDefined(c, path) <==> MatcherIsDefined(c, path) && exists r <- c.rules[0].1.rules :: IsTypeMatcher(r)
    ensures MatchersForExactPath(c, path) ==
      if MatcherIsDefined(c, path) && |c.rules[0].0| == |path| then [c.rules[0]] else []
  {
    var rules := c.rules;
    assert Filtered(rules[1..], (pattern, list) => MatchesPath(pattern, path)) == [];
    assert Filtered(rules[1..], (pattern, list) => |pattern| == |path| && MatchesPath(pattern, path)) == [];
    assert BestOf(rules, path, 0) == None;
  }
}
