/** Rules for which it does not matter which list a new hash map yields first. */
module SettledRules {
  import opened Wrappers
  import opened Paths
  import opened Rules
  import opened Contexts

  // The lists at exactly the path agree on whether they are about keys.
  ghost predicate AgreeAt(c: Category, path: Path) {
    var lists := MatchersForExactPath(c, path);
    forall i, j :: 0 <= i < |lists| && 0 <= j < |lists| ==> (AboutKeys(lists[i].1) <==> AboutKeys(lists[j].1))
  }

  // In bodies and metadata the best list is found by its weight; elsewhere all matching lists are the same.
  ghost predicate SelectsOneAt(c: Category, path: Path) {
    c.name == BODY || c.name == METADATA ||
    var lists := ResolveMatchers(c, path).rules;
    forall i, j :: 0 <= i < |lists| && 0 <= j < |lists| ==> lists[i].1 == lists[j].1
  }

  // So it is at every path, and for the rules that variants and values are compared by.
  ghost predicate Settled(c: Category)
    decreases c
  {
    && (forall path :: AgreeAt(c, path) && SelectsOneAt(c, path))
    && forall i, j | 0 <= i < |c.rules| && 0 <= j < |c.rules[i].1.rules| :: SettledRule(c.rules[i].1.rules[j])
  }

  ghost predicate SettledRule(rule: MatchingRule)
    decreases rule
  {
    match rule
    case ArrayContains(variants) => forall i | 0 <= i < |variants| :: Settled(variants[i].rules)
    case EachValue(rules) => forall i | 0 <= i < |rules| :: rules[i].Resolved? ==> SettledRule(rules[i].rule)
    case _ => true
  }

  // ---- Where the lists agree, the choice does not matter

  /** The lists agree exactly where any two of them decide the same about keys. */
  lemma AgreeExactly(c: Category, path: Path)
    ensures AgreeAt(c, path) <==> forall m: nat, n: nat :: KeysAreMatched(c, path, m) <==> KeysAreMatched(c, path, n)
  {
    var lists := MatchersForExactPath(c, path);
    if forall m: nat, n: nat :: KeysAreMatched(c, path, m) <==> KeysAreMatched(c, path, n) {
      forall i, j | 0 <= i < |lists| && 0 <= j < |lists| ensures AboutKeys(lists[i].1) <==> AboutKeys(lists[j].1) {
        assert KeysAreMatched(c, path, i) <==> KeysAreMatched(c, path, j);
      }
    }
  }

  lemma SelectedIsOne(c: Category, path: Path, m: nat, n: nat)
    requires SelectsOneAt(c, path)
    ensures SelectBestMatcher(c, path, m) == SelectBestMatcher(c, path, n)
  {
  }

  lemma {:induction false} FilteredFrom(rules: seq<(Path, RuleList)>, keep: (Path, RuleList) -> bool)
    ensures forall i :: 0 <= i < |Filtered(rules, keep)| ==> Filtered(rules, keep)[i] in rules
  {
    if rules != [] {
      FilteredFrom(rules[1..], keep);
    }
  }

  // A list that is selected is empty or one of the category.
  lemma SelectedFrom(c: Category, path: Path, pick: nat)
    ensures var list := SelectBestMatcher(c, path, pick);
      list.rules == [] || exists i :: 0 <= i < |c.rules| && list.rules == c.rules[i].1.rules
  {
    if c.name == BODY || c.name == METADATA {
      var best := BestOf(c.rules, path, |c.rules|);
      assert best.Some? ==> SelectBestMatcher(c, path, pick).rules == c.rules[best.value].1.rules;
    } else {
      var lists := ResolveMatchers(c, path).rules;
      FilteredFrom(c.rules, (pattern, list) => MatchesPath(pattern, path));
      if lists != [] {
        var found := lists[if pick < |lists| then pick else 0];
        assert found in c.rules;
      }
    }
  }

  lemma SelectedAreSettled(c: Category, path: Path, pick: nat)
    requires Settled(c)
    ensures forall rule <- SelectBestMatcher(c, path, pick).rules :: SettledRule(rule)
  {
    SelectedFrom(c, path, pick);
  }

  // ---- The categories that are swapped in

  lemma {:induction false} ResolvedAreSettled(rules: seq<RuleOrReference>)
    requires forall i | 0 <= i < |rules| :: rules[i].Resolved? ==> SettledRule(rules[i].rule)
    ensures forall rule <- ResolvedRules(rules) :: SettledRule(rule)
  {
    if rules != [] {
      assert forall i :: 0 <= i < |rules| - 1 ==> rules[1..][i] == rules[i + 1];
      ResolvedAreSettled(rules[1..]);
    }
  }

  lemma {:induction false} FewerFiltered(rules: seq<(Path, RuleList)>, keep: (Path, RuleList) -> bool)
    ensures |Filtered(rules, keep)| <= |rules|
  {
    if rules != [] {
      FewerFiltered(rules[1..], keep);
    }
  }

  /** In a body with at most one rule there is nothing to choose from. */
  lemma OneListIsSettled(c: Category)
    requires c.name == BODY && |c.rules| <= 1
    requires forall i, j | 0 <= i < |c.rules| && 0 <= j < |c.rules[i].1.rules| :: SettledRule(c.rules[i].1.rules[j])
    ensures Settled(c)
  {
    forall path ensures AgreeAt(c, path) {
      FewerFiltered(c.rules, (pattern, list) => |pattern| == |path| && MatchesPath(pattern, path));
    }
  }

  lemma EachValueIsSettled(path: Path, rule: MatchingRule)
    requires rule.EachValue? && SettledRule(rule)
    ensures Settled(EachValueCategory(path, rule.valueRules))
  {
    ResolvedAreSettled(rule.valueRules);
    OneListIsSettled(EachValueCategory(path, rule.valueRules));
  }

  lemma EqualityIsSettled()
    ensures Settled(EQUALITY_CATEGORY)
  {
    OneListIsSettled(EQUALITY_CATEGORY);
  }

  // The variants that are looked for.
  lemma VariantsAreSettled(rule: MatchingRule, n: nat)
    requires rule.ArrayContains? && SettledRule(rule)
    ensures var variants := if rule.variants == [] then DefaultVariants(n) else rule.variants;
      forall i :: 0 <= i < |variants| ==> Settled(variants[i].rules)
  {
    EqualityIsSettled();
  }

  // ---- What can be checked rule by rule

  // No fragment of a path is matched by both of these exact tokens.
  predicate Clash(s: PathToken, t: PathToken) {
    && IsExact(s) && IsExact(t)
    && if s.Index? && t.Index? then s.index != t.index
       else if s.Index? then ParseUsize(ShowToken(t)) != Some(s.index)
       else if t.Index? then ParseUsize(ShowToken(s)) != Some(t.index)
       else ShowToken(s) != ShowToken(t)
  }

  // No path matches both patterns exactly.
  predicate Apart(p: Path, q: Path) {
    |p| != |q| || exists i | 0 <= i < |p| :: Clash(p[i], q[i])
  }

  // Any two lists agree about keys, or are for different paths.
  predicate AgreeInPairs(rules: seq<(Path, RuleList)>) {
    forall i, j | 0 <= i < |rules| && 0 <= j < |rules| ::
      Apart(rules[i].0, rules[j].0) || (AboutKeys(rules[i].1) <==> AboutKeys(rules[j].1))
  }

  lemma ApartDoNotMeet(p: Path, q: Path, path: Path)
    requires Apart(p, q)
    ensures !(|p| == |path| == |q| && MatchesPath(p, path) && MatchesPath(q, path))
  {
    MatchesPathExactly(p, path);
    MatchesPathExactly(q, path);
    if |p| == |path| == |q| {
      forall i | 0 <= i < |p| && Clash(p[i], q[i])
        ensures TokenWeight(ShowToken(path[i]), p[i]) == 0 || TokenWeight(ShowToken(path[i]), q[i]) == 0
      {
        ClashDoNotMeet(ShowToken(path[i]), p[i], q[i]);
      }
    }
  }

  lemma ClashDoNotMeet(fragment: string, s: PathToken, t: PathToken)
    requires Clash(s, t)
    ensures TokenWeight(fragment, s) == 0 || TokenWeight(fragment, t) == 0
  {
  }

  lemma {:induction false} FilteredKept(rules: seq<(Path, RuleList)>, keep: (Path, RuleList) -> bool)
    ensures forall i :: 0 <= i < |Filtered(rules, keep)| ==> keep(Filtered(rules, keep)[i].0, Filtered(rules, keep)[i].1)
  {
    if rules != [] {
      FilteredKept(rules[1..], keep);
    }
  }

  /** So it is enough that the lists of a body agree in pairs. */
  lemma PairsAreEnough(c: Category, path: Path)
    requires c.name == BODY && AgreeInPairs(c.rules)
    ensures AgreeAt(c, path) && SelectsOneAt(c, path)
  {
    var lists := MatchersForExactPath(c, path);
    FilteredFrom(c.rules, (pattern, list) => |pattern| == |path| && MatchesPath(pattern, path));
    FilteredKept(c.rules, (pattern, list) => |pattern| == |path| && MatchesPath(pattern, path));
    forall i, j | 0 <= i < |lists| && 0 <= j < |lists| ensures AboutKeys(lists[i].1) <==> AboutKeys(lists[j].1) {
      var m :| 0 <= m < |c.rules| && c.rules[m] == lists[i];
      var n :| 0 <= n < |c.rules| && c.rules[n] == lists[j];
      if Apart(c.rules[m].0, c.rules[n].0) {
        ApartDoNotMeet(c.rules[m].0, c.rules[n].0, path);
      }
    }
  }
}
