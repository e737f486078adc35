/** `EachValue` with the rule `Type`: every value has the shape of its example. */
module JsonEachValueLaws {
  import opened Json
  import opened Paths
  import opened Rules
  import opened Contexts
  import opened JsonVerdicts
  import opened JsonAcceptance
  import opened JsonTypeLaws
  import opened TypeRules

  // The indices of a path are machine words.
  predicate IsAddressable(path: Path) {
    forall i | 0 <= i < |path| :: path[i].Index? ==> path[i].index < USIZE_LIMIT
  }

  const TYPE_RULES := [Resolved(Type)]

  lemma TokenMatchesItself(t: PathToken)
    requires t.Index? ==> t.index < USIZE_LIMIT
    ensures TokenWeight(ShowToken(t), t) > 0
  {
    if t.Index? {
      ParseShownNat(t.index);
    }
  }

  // The pattern of `EachValue` matches every path strictly below its own.
  lemma ChildrenMatch(path: Path, p: Path)
    requires IsAddressable(path) && path < p
    ensures MatchesPath(JoinPath(path, "*"), p)
  {
    var pattern := JoinPath(path, "*");
    MatchesPathExactly(pattern, p);
    forall i | 0 <= i < |pattern| ensures TokenWeight(ShowToken(p[i]), pattern[i]) > 0 {
      if i < |path| {
        TokenMatchesItself(path[i]);
      }
    }
  }

  /** The rules that `EachValue` swaps in: all the resolved ones have to pass at the children of the path, they cascade
    * further down, and nothing is defined at the path itself. */
  lemma SwappedRules(path: Path, p: Path, rules: seq<RuleOrReference>, pick: nat)
    requires IsAddressable(path) && path <= p
    ensures var swapped := EachValueCategory(path, rules);
      if p == path then !MatcherIsDefined(swapped, p)
      else MatcherIsDefined(swapped, p) && SelectBestMatcher(swapped, p, pick) == RuleList(ResolvedRules(rules), And, |p| > |path| + 1)
  {
    if path < p {
      ChildrenMatch(path, p);
    }
    OneRule(EachValueCategory(path, rules), p, pick);
  }

  // The resolved rules are those that are no references, in order.
  lemma {:induction false} ResolvedExactly(rules: seq<RuleOrReference>, rule: MatchingRule)
    ensures rule in ResolvedRules(rules) <==> Resolved(rule) in rules
    ensures (forall r <- rules :: r.Resolved?) ==> |ResolvedRules(rules)| == |rules|
  {
    if rules != [] {
      ResolvedExactly(rules[1..], rule);
      assert rules == [rules[0]] + rules[1..];
    }
  }

  /** The rules that `EachValue` swaps in leave only `Type` below the path. */
  lemma SwappedIsOnlyType(path: Path, child: Path, c: Context)
    requires IsAddressable(path) && path < child
    ensures OnlyType(c.CloneWith(EachValueCategory(path, TYPE_RULES)), child)
  {
    var swapped := c.CloneWith(EachValueCategory(path, TYPE_RULES));
    assert ResolvedRules(TYPE_RULES) == [Type] by {
      assert TYPE_RULES[1..] == [] && ResolvedRules(TYPE_RULES[1..]) == [];
    }
    forall p: Path, pick: nat | child <= p ensures OnlyTypeAt(swapped.matchers, p, pick) {
      ChildrenMatch(path, p);
      OneRule(swapped.matchers, p, pick);
      assert Type in swapped.matchers.rules[0].1.rules;
    }
    OnlyTypeEverywhere(swapped, child);
  }

  /** On a list: whatever the rules were before, and however long the list is. */
  lemma EachItemHasType(path: Path, e: Value, a: Value, c: Context)
    requires IsAddressable(path) && e.Array? && a.Array? && e.items != []
    ensures ListRulePasses(EachValue(TYPE_RULES), false, path, e, a, c) <==>
      forall i | 0 <= i < |a.items| :: SameShape(c.config, ItemFor(e, i), a.items[i])
  {
    var swapped := c.CloneWith(EachValueCategory(path, TYPE_RULES));
    EachValueListAccepted(EachValue(TYPE_RULES), path, e, a, c);
    forall i | 0 <= i < ContentLength(e, a)
      ensures ContentAccepted(i, path, e, a, swapped) <==> (i < |a.items| ==> SameShape(c.config, ItemFor(e, i), a.items[i]))
    {
      var p := JoinPath(path, ShowNat(i));
      SwappedIsOnlyType(path, p, c);
      if i < |a.items| {
        TypeExactly(p, ItemFor(e, i), a.items[i], swapped);
      }
    }
  }

  // The example for a key.
  function ExampleFor(e: Value, key: string): Value
    requires e.Object? && e.entries.Keys != {}
  {
    if key in e.entries then e.entries[key] else FirstValue(e.entries)
  }

  /** On a map: the keys do not matter. */
  lemma EachEntryHasType(path: Path, e: Value, a: Value, c: Context)
    requires IsAddressable(path) && e.Object? && a.Object? && e.entries.Keys != {}
    ensures MapRulePasses(EachValue(TYPE_RULES), false, path, e, a, c) <==>
      forall k | k in a.entries :: SameShape(c.config, ExampleFor(e, k), a.entries[k])
  {
    var swapped := c.CloneWith(EachValueCategory(path, TYPE_RULES));
    EachValueMapAccepted(EachValue(TYPE_RULES), path, e, a, c);
    forall k | k in a.entries
      ensures AnyKeyAccepted(k, path, e, a, swapped) <==> SameShape(c.config, ExampleFor(e, k), a.entries[k])
    {
      SwappedIsOnlyType(path, JoinPath(path, k), c);
      TypeExactly(JoinPath(path, k), ExampleFor(e, k), a.entries[k], swapped.Under(k));
    }
  }
}
