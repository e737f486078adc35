/** What the JSON comparator reports for every context: nothing that a key, an entry, an item or a rule gives is lost. */
module JsonReports {
  import opened Json
  import opened StringOrder
  import opened Paths
  import opened Rules
  import opened Contexts
  import opened RuleMatching
  import opened KeyLaws
  import opened Reports
  import opened JsonVerdicts
  import opened JsonPathLaws
  import opened JsonAcceptance

  // ---- Keys

  predicate Unresolved(rules: seq<RuleOrReference>) {
    exists rule <- rules :: rule.Reference?
  }

  predicate KeyRefused(m: Mismatch, rule: RuleOrReference, path: Path, actual: set<string>, foreign: Foreign) {
    match rule
    case Reference(_) => m == Mismatch(path, UnresolvedReference)
    case Resolved(r) => exists key <- actual :: !KeyPasses(r, key, foreign) && m == Mismatch(path + [TokenOf(key)], KeyMismatch)
  }

  predicate EachKeyReported(m: Mismatch, rule: MatchingRule, path: Path, actual: set<string>, foreign: Foreign) {
    rule.EachKey? && exists r <- rule.keyRules :: KeyRefused(m, r, path, actual, foreign)
  }

  // Keys that do not fit are reported at the map, and each key that fails a rule at its own path.
  predicate KeysReported(m: Mismatch, c: Context, path: Path, expected: set<string>, actual: set<string>) {
    || (!PlainKeysPass(c, path, expected, actual) && m == Mismatch(path, KeysMismatch))
    || (MatchersForExactPath(c.matchers, path) != []
        && exists rule <- c.SelectBestMatcher(path).rules :: EachKeyReported(m, rule, path, actual, c.foreign))
  }

  // ---- Values

  predicate ScalarPasses(path: Path, e: Value, a: Value, c: Context) {
    if !c.MatcherIsDefined(path) then e == a
    else
      var list := c.SelectBestMatcher(path);
      && list.rules != []
      && (list.logic == And ==> forall rule <- list.rules :: ValueMatches(rule, e, a, list.cascaded, c.foreign))
      && (list.logic == Or ==> exists rule <- list.rules :: ValueMatches(rule, e, a, list.cascaded, c.foreign))
  }

  ghost predicate Reported(m: Mismatch, path: Path, e: Value, a: Value, c: Context)
    decreases e, 4
  {
    if e.Object? then (if a.Object? then MapsReported(m, path, e, a, c) else m == Mismatch(path, TypeMismatch))
    else if e.Array? then (if a.Array? then ListsReported(m, path, e, a, c) else m == Mismatch(path, TypeMismatch))
    else !ScalarPasses(path, e, a, c) && m == Mismatch(path, FailureTag(path, c))
  }

  // ---- Maps

  ghost predicate MapsReported(m: Mismatch, path: Path, e: Value, a: Value, c: Context)
    requires e.Object? && a.Object?
    decreases e, 3
  {
    if e.entries == map[] && c.config == NoUnexpectedKeys && a.entries != map[] then m == Mismatch(path, UnexpectedEntries)
    else if c.MatcherIsDefined(path) then
      var list := c.SelectBestMatcher(path);
      exists i | 0 <= i < |list.rules| :: MapRuleReported(m, list.rules[i], list.cascaded, path, e, a, c.Again(i))
    else KeysReported(m, c, path, e.entries.Keys, a.entries.Keys) || EntriesReported(m, path, e, a, c)
  }

  // An entry that both maps have.
  ghost predicate EntriesReported(m: Mismatch, path: Path, e: Value, a: Value, c: Context)
    requires e.Object? && a.Object?
    decreases e, 1
  {
    exists key | key in e.entries :: EntryReported(m, key, path, e, a, c)
  }

  ghost predicate EntryReported(m: Mismatch, key: string, path: Path, e: Value, a: Value, c: Context)
    requires e.Object? && a.Object? && key in e.entries
    decreases e, 0
  {
    key in a.entries && Reported(m, path + [TokenOf(key)], e.entries[key], a.entries[key], c.Under(key))
  }

  // Any entry of the actual map, compared with the expected one of the same key or else with the first.
  ghost predicate AnyKeysReported(m: Mismatch, path: Path, e: Value, a: Value, c: Context)
    requires e.Object? && a.Object?
    decreases e, 1
  {
    exists key | key in a.entries :: AnyKeyReported(m, key, path, e, a, c)
  }

  ghost predicate AnyKeyReported(m: Mismatch, key: string, path: Path, e: Value, a: Value, c: Context)
    requires e.Object? && a.Object? && key in a.entries
    decreases e, 0
  {
    if key in e.entries then Reported(m, path + [TokenOf(key)], e.entries[key], a.entries[key], c.Under(key))
    else e.entries.Keys != {} && Reported(m, path + [TokenOf(key)], FirstValue(e.entries), a.entries[key], c.Under(key))
  }

  ghost predicate MapRuleReported(m: Mismatch, rule: MatchingRule, cascaded: bool, path: Path, e: Value, a: Value, c: Context)
    requires e.Object? && a.Object?
    decreases e, 2
  {
    if cascaded || !IsValuesMatcher(rule) then
      || (!MapMatches(rule, e.entries, a.entries, cascaded) && m == Mismatch(path, RuleMismatch))
      || KeysReported(m, c, path, e.entries.Keys, a.entries.Keys)
      || EntriesReported(m, path, e, a, c)
    else if rule.EachValue? then
      || (Unresolved(rule.valueRules) && m == Mismatch(path, UnresolvedReference))
      || AnyKeysReported(m, path, e, a, c.CloneWith(EachValueCategory(path, rule.valueRules)))
    else AnyKeysReported(m, path, e, a, c)
  }

  // ---- Lists

  ghost predicate ListsReported(m: Mismatch, path: Path, e: Value, a: Value, c: Context)
    requires e.Array? && a.Array?
    decreases e, 3
  {
    if c.MatcherIsDefined(path) then ListRulesReported(m, c.SelectBestMatcher(path), path, e, a, c)
    else if e.items == [] && a.items != [] then m == Mismatch(path, UnexpectedItems)
    else
      || (|e.items| != |a.items| && m == Mismatch(path, LengthMismatch))
      || exists i | 0 <= i < |e.items| :: ItemReported(m, i, e.items[i], path, e, a, c)
  }

  // An item that both lists have, or a missing one for which no rule is defined.
  ghost predicate ItemReported(m: Mismatch, i: nat, item: Value, path: Path, e: Value, a: Value, c: Context)
    requires e.Array? && a.Array? && item in e.items
    decreases e, 0
  {
    var p := path + [TokenOf(ShowNat(i))];
    if i < |a.items| then Reported(m, p, item, a.items[i], c) else !c.MatcherIsDefined(p) && m == Mismatch(path, MissingItem)
  }

  // With `Or` nothing is reported if one of the rules passes; else what any of them gives.
  ghost predicate ListRulesReported(m: Mismatch, list: RuleList, path: Path, e: Value, a: Value, c: Context)
    requires e.Array? && a.Array?
    decreases e, 2, 1
  {
    if list.rules == [] then m == Mismatch(path, NoMatcher)
    else
      && (list.logic == Or ==> forall i :: 0 <= i < |list.rules| ==> !ListRulePasses(list.rules[i], list.cascaded, path, e, a, c.Again(i)))
      && exists i | 0 <= i < |list.rules| :: ListRuleReported(m, list.rules[i], list.cascaded, path, e, a, c.Again(i))
  }

  ghost predicate ListRuleReported(m: Mismatch, rule: MatchingRule, cascaded: bool, path: Path, e: Value, a: Value, c: Context)
    requires e.Array? && a.Array?
    decreases e, 2, 0
  {
    e.items != []
    && if rule.ArrayContains? then
         var variants := if rule.variants == [] then DefaultVariants(|e.items|) else rule.variants;
         exists i | 0 <= i < |variants| :: VariantReported(m, variants[i], path, e, a, c.Again(i))
       else if rule.EachValue? then
         !cascaded
         && (|| (Unresolved(rule.valueRules) && m == Mismatch(path, UnresolvedReference))
             || ContentReported(m, path, e, a, c.CloneWith(EachValueCategory(path, rule.valueRules))))
       else
         || (!ListMatches(rule, e.items, a.items, cascaded) && m == Mismatch(path, RuleMismatch))
         || ContentReported(m, path, e, a, c)
  }

  predicate VariantReported(m: Mismatch, variant: Variant, path: Path, e: Value, a: Value, c: Context)
    requires e.Array? && a.Array?
  {
    !VariantFound(variant, e, a, c) && m == Mismatch(path, if variant.index >= |e.items| then VariantMissing else VariantNotFound)
  }

  // The items of the expected list, filled up with its first one to the length of the actual list.
  ghost predicate ContentReported(m: Mismatch, path: Path, e: Value, a: Value, c: Context)
    requires e.Array? && a.Array? && e.items != []
    decreases e, 1
  {
    exists i | 0 <= i < ContentLength(e, a) :: ItemReported(m, i, ItemFor(e, i), path, e, a, c)
  }

  // ---- Reading the collected mismatches: keys

  lemma {:induction false} KeysFailingList(rule: MatchingRule, path: Path, keys: seq<string>, i: nat, foreign: Foreign, m: Mismatch)
    requires i <= |keys|
    ensures m in KeysFailing(rule, path, keys, i, foreign) <==>
      exists j :: 0 <= j < i && !KeyPasses(rule, keys[j], foreign) && m == Mismatch(JoinPath(path, keys[j]), KeyMismatch)
  {
    if i > 0 {
      KeysFailingList(rule, path, keys, i - 1, foreign, m);
    }
  }

  lemma KeyRefusedList(rule: RuleOrReference, path: Path, keys: seq<string>, actual: set<string>, foreign: Foreign, m: Mismatch)
    requires rule.Resolved? && forall k :: k in keys <==> k in actual
    ensures m in KeysFailing(rule.rule, path, keys, |keys|, foreign) <==> KeyRefused(m, rule, path, actual, foreign)
  {
    KeysFailingList(rule.rule, path, keys, |keys|, foreign, m);
    if KeyRefused(m, rule, path, actual, foreign) {
      var key :| key in actual && !KeyPasses(rule.rule, key, foreign) && m == Mismatch(path + [TokenOf(key)], KeyMismatch);
      assert key in keys;
    }
  }

  // The references and failing keys of the first `i` rules are those that are listed.
  ghost predicate RefusedListed(rules: seq<RuleOrReference>, i: nat, path: Path, keys: seq<string>, actual: set<string>, foreign: Foreign, m: Mismatch)
    requires i <= |rules|
  {
    m in EachKeyMismatches(rules, i, path, keys, foreign) <==> exists j :: 0 <= j < i && KeyRefused(m, rules[j], path, actual, foreign)
  }

  lemma NextRefusedListed(rules: seq<RuleOrReference>, i: nat, path: Path, keys: seq<string>, actual: set<string>, foreign: Foreign, m: Mismatch)
    requires i < |rules| && forall k :: k in keys <==> k in actual
    requires RefusedListed(rules, i, path, keys, actual, foreign, m)
    ensures RefusedListed(rules, i + 1, path, keys, actual, foreign, m)
  {
    var so := EachKeyMismatches(rules, i, path, keys, foreign);
    if rules[i].Resolved? {
      KeyRefusedList(rules[i], path, keys, actual, foreign, m);
      assert EachKeyMismatches(rules, i + 1, path, keys, foreign) == so + KeysFailing(rules[i].rule, path, keys, |keys|, foreign);
    } else {
      assert EachKeyMismatches(rules, i + 1, path, keys, foreign) == so + [Mismatch(path, UnresolvedReference)];
    }
  }

  lemma {:induction false} EachKeyList(rules: seq<RuleOrReference>, i: nat, path: Path, keys: seq<string>, actual: set<string>, foreign: Foreign, m: Mismatch)
    requires i <= |rules| && forall k :: k in keys <==> k in actual
    ensures RefusedListed(rules, i, path, keys, actual, foreign, m)
  {
    if i > 0 {
      EachKeyList(rules, i - 1, path, keys, actual, foreign, m);
      NextRefusedListed(rules, i - 1, path, keys, actual, foreign, m);
    }
  }

  ghost predicate KeyRulesListed(rules: seq<MatchingRule>, i: nat, path: Path, keys: seq<string>, actual: set<string>, foreign: Foreign, m: Mismatch)
    requires i <= |rules|
  {
    m in RuleKeys(rules, i, path, keys, foreign) <==> exists j :: 0 <= j < i && EachKeyReported(m, rules[j], path, actual, foreign)
  }

  lemma MoreRuleKeys(rules: seq<MatchingRule>, i: nat, path: Path, keys: seq<string>, foreign: Foreign, m: Mismatch)
    requires i < |rules|
    ensures m in RuleKeys(rules, i + 1, path, keys, foreign) <==>
      || m in RuleKeys(rules, i, path, keys, foreign)
      || (rules[i].EachKey? && m in EachKeyMismatches(rules[i].keyRules, |rules[i].keyRules|, path, keys, foreign))
  {
  }

  lemma OneKeyRuleListed(rule: MatchingRule, path: Path, keys: seq<string>, actual: set<string>, foreign: Foreign, m: Mismatch)
    requires rule.EachKey? && forall k :: k in keys <==> k in actual
    ensures m in EachKeyMismatches(rule.keyRules, |rule.keyRules|, path, keys, foreign) <==> EachKeyReported(m, rule, path, actual, foreign)
  {
    EachKeyList(rule.keyRules, |rule.keyRules|, path, keys, actual, foreign, m);
  }

  lemma NextKeyRuleListed(rules: seq<MatchingRule>, i: nat, path: Path, keys: seq<string>, actual: set<string>, foreign: Foreign, m: Mismatch)
    requires i < |rules| && (forall k :: k in keys <==> k in actual) && KeyRulesListed(rules, i, path, keys, actual, foreign, m)
    ensures KeyRulesListed(rules, i + 1, path, keys, actual, foreign, m)
  {
    MoreRuleKeys(rules, i, path, keys, foreign, m);
    if rules[i].EachKey? {
      OneKeyRuleListed(rules[i], path, keys, actual, foreign, m);
    }
  }

  lemma {:induction false} RuleKeysList(rules: seq<MatchingRule>, i: nat, path: Path, keys: seq<string>, actual: set<string>, foreign: Foreign, m: Mismatch)
    requires i <= |rules| && forall k :: k in keys <==> k in actual
    ensures KeyRulesListed(rules, i, path, keys, actual, foreign, m)
  {
    if i > 0 {
      RuleKeysList(rules, i - 1, path, keys, actual, foreign, m);
      NextKeyRuleListed(rules, i - 1, path, keys, actual, foreign, m);
    }
  }

  /** Keys that do not fit are reported at the map, and each key that fails an `EachKey` rule at its own path. */
  lemma KeysListed(c: Context, path: Path, expected: set<string>, actual: set<string>, m: Mismatch)
    ensures Lists(KeysVerdict(c, path, expected, actual), m) <==> KeysReported(m, c, path, expected, actual)
  {
    var rules := if MatchersForExactPath(c.matchers, path) != [] then c.SelectBestMatcher(path).rules else [];
    RuleKeysList(rules, |rules|, path, SortedKeys(actual), actual, c.foreign, m);
    VerdictLists(PlainKeys(c, path, expected, actual) + RuleKeys(rules, |rules|, path, SortedKeys(actual), c.foreign), m);
    assert m in PlainKeys(c, path, expected, actual) <==> !PlainKeysPass(c, path, expected, actual) && m == Mismatch(path, KeysMismatch);
  }

  // ---- Values

  lemma ScalarListed(path: Path, e: Value, a: Value, c: Context, m: Mismatch)
    ensures Lists(ValuesVerdict(path, e, a, c), m) <==> !ScalarPasses(path, e, a, c) && m == Mismatch(path, FailureTag(path, c))
  {
    if c.MatcherIsDefined(path) {
      var list := c.SelectBestMatcher(path);
      MatchValuesExactly(path, list, e, a, c.foreign);
      CombinedLists(path, list.logic, ValueResults(list, e, a, c.foreign), m);
    } else if e != a {
      FailLists(path, ValueMismatch, m);
    }
  }

  // The comparator lists what is reported.
  ghost predicate IsListed(path: Path, e: Value, a: Value, c: Context, m: Mismatch) {
    Lists(JsonVerdict(path, e, a, c), m) <==> Reported(m, path, e, a, c)
  }

  /** For every context, whatever rules it is swapped for on the way down: a mismatch is listed exactly when the values at
    * its path are turned away, so what an entry, an item or a rule gives is in the result for its map or list. */
  lemma {:induction false} ReportedExactly(path: Path, e: Value, a: Value, c: Context, m: Mismatch)
    ensures IsListed(path, e, a, c, m)
    decreases e, 5, 0
  {
    if e.Object? && a.Object? {
      MapsListed(path, e, a, c, m);
    } else if e.Array? && a.Array? {
      ListsListed(path, e, a, c, m);
    } else if !e.Object? && !e.Array? {
      ScalarListed(path, e, a, c, m);
    }
  }

  // ---- Maps

  ghost predicate FirstEntriesReported(m: Mismatch, keys: seq<string>, i: nat, path: Path, e: Value, a: Value, c: Context)
    requires e.Object? && a.Object? && i <= |keys| && forall k <- keys :: k in e.entries
  {
    exists j | 0 <= j < i :: keys[j] in keys && EntryReported(m, keys[j], path, e, a, c)
  }

  ghost predicate EntriesListed(start: Verdict, keys: seq<string>, i: nat, path: Path, e: Value, a: Value, c: Context, m: Mismatch)
    requires e.Object? && a.Object? && i <= |keys| && forall k <- keys :: k in e.entries
  {
    Lists(EntriesVerdict(start, keys, i, path, e, a, c), m) <==> Lists(start, m) || FirstEntriesReported(m, keys, i, path, e, a, c)
  }

  lemma NextEntryListed(start: Verdict, keys: seq<string>, i: nat, path: Path, e: Value, a: Value, c: Context, m: Mismatch)
    requires e.Object? && a.Object? && i < |keys| && (forall k <- keys :: k in e.entries) && keys[i] in keys
    requires EntriesListed(start, keys, i, path, e, a, c, m)
    requires keys[i] in a.entries ==> IsListed(JoinPath(path, keys[i]), e.entries[keys[i]], a.entries[keys[i]], c.Under(keys[i]), m)
    ensures EntriesListed(start, keys, i + 1, path, e, a, c, m)
  {
    var key, so := keys[i], EntriesVerdict(start, keys, i, path, e, a, c);
    assert FirstEntriesReported(m, keys, i + 1, path, e, a, c) <==>
      FirstEntriesReported(m, keys, i, path, e, a, c) || EntryReported(m, key, path, e, a, c);
    if key in a.entries {
      MergeLists(so, JsonVerdict(JoinPath(path, key), e.entries[key], a.entries[key], c.Under(key)), m);
    }
  }

  lemma {:induction false} FirstEntriesListed(start: Verdict, keys: seq<string>, i: nat, path: Path, e: Value, a: Value, c: Context, m: Mismatch)
    requires e.Object? && a.Object? && i <= |keys| && forall k <- keys :: k in e.entries
    ensures EntriesListed(start, keys, i, path, e, a, c, m)
    decreases e, 1, i
  {
    if i > 0 {
      var key := keys[i - 1];
      assert key in keys;
      FirstEntriesListed(start, keys, i - 1, path, e, a, c, m);
      if key in a.entries {
        ReportedExactly(JoinPath(path, key), e.entries[key], a.entries[key], c.Under(key), m);
      }
      NextEntryListed(start, keys, i - 1, path, e, a, c, m);
    }
  }

  lemma AllEntriesListed(start: Verdict, path: Path, e: Value, a: Value, c: Context, m: Mismatch)
    requires e.Object? && a.Object?
    requires var keys := SortedKeys(e.entries.Keys); EntriesListed(start, keys, |keys|, path, e, a, c, m)
    ensures var keys := SortedKeys(e.entries.Keys);
      Lists(EntriesVerdict(start, keys, |keys|, path, e, a, c), m) <==> Lists(start, m) || EntriesReported(m, path, e, a, c)
  {
    var keys := SortedKeys(e.entries.Keys);
    if key :| key in e.entries && EntryReported(m, key, path, e, a, c) {
      assert key in keys;
    }
  }

  lemma {:induction false} MapsListed(path: Path, e: Value, a: Value, c: Context, m: Mismatch)
    requires e.Object? && a.Object?
    ensures IsListed(path, e, a, c, m)
    decreases e, 4, 0
  {
    var keys, list := SortedKeys(e.entries.Keys), c.SelectBestMatcher(path);
    if e.entries == map[] && c.config == NoUnexpectedKeys && a.entries != map[] {
    } else if c.MatcherIsDefined(path) {
      FirstMapRulesListed(list, |list.rules|, path, e, a, c, m);
    } else {
      var start := KeysVerdict(c, path, e.entries.Keys, a.entries.Keys);
      KeysListed(c, path, e.entries.Keys, a.entries.Keys, m);
      FirstEntriesListed(start, keys, |keys|, path, e, a, c, m);
      AllEntriesListed(start, path, e, a, c, m);
    }
  }

  ghost predicate FirstMapRulesReported(m: Mismatch, list: RuleList, i: nat, path: Path, e: Value, a: Value, c: Context)
    requires e.Object? && a.Object? && i <= |list.rules|
  {
    exists j | 0 <= j < i :: MapRuleReported(m, list.rules[j], list.cascaded, path, e, a, c.Again(j))
  }

  lemma NextMapRuleReported(m: Mismatch, list: RuleList, i: nat, path: Path, e: Value, a: Value, c: Context)
    requires e.Object? && a.Object? && i < |list.rules|
    ensures FirstMapRulesReported(m, list, i + 1, path, e, a, c) <==>
      FirstMapRulesReported(m, list, i, path, e, a, c) || MapRuleReported(m, list.rules[i], list.cascaded, path, e, a, c.Again(i))
  {
  }

  ghost predicate MapRulesListed(list: RuleList, i: nat, path: Path, e: Value, a: Value, c: Context, m: Mismatch)
    requires e.Object? && a.Object? && i <= |list.rules|
  {
    Lists(MapRulesVerdict(list, i, path, e, a, c), m) <==> FirstMapRulesReported(m, list, i, path, e, a, c)
  }

  ghost predicate MapRuleListed(rule: MatchingRule, cascaded: bool, path: Path, e: Value, a: Value, c: Context, m: Mismatch)
    requires e.Object? && a.Object?
  {
    Lists(MapRuleVerdict(rule, cascaded, path, e, a, c), m) <==> MapRuleReported(m, rule, cascaded, path, e, a, c)
  }

  lemma NextMapRuleListed(list: RuleList, i: nat, path: Path, e: Value, a: Value, c: Context, m: Mismatch)
    requires e.Object? && a.Object? && i < |list.rules| && MapRulesListed(list, i, path, e, a, c, m)
    requires MapRuleListed(list.rules[i], list.cascaded, path, e, a, c.Again(i), m)
    ensures MapRulesListed(list, i + 1, path, e, a, c, m)
  {
    NextMapRuleReported(m, list, i, path, e, a, c);
    MergeLists(MapRulesVerdict(list, i, path, e, a, c), MapRuleVerdict(list.rules[i], list.cascaded, path, e, a, c.Again(i)), m);
  }

  lemma {:induction false} FirstMapRulesListed(list: RuleList, i: nat, path: Path, e: Value, a: Value, c: Context, m: Mismatch)
    requires e.Object? && a.Object? && i <= |list.rules|
    ensures MapRulesListed(list, i, path, e, a, c, m)
    decreases e, 3, i
  {
    if i > 0 {
      FirstMapRulesListed(list, i - 1, path, e, a, c, m);
      OneMapRuleListed(list.rules[i - 1], list.cascaded, path, e, a, c.Again(i - 1), m);
      NextMapRuleListed(list, i - 1, path, e, a, c, m);
    }
  }

  lemma {:induction false} OneMapRuleListed(rule: MatchingRule, cascaded: bool, path: Path, e: Value, a: Value, c: Context, m: Mismatch)
    requires e.Object? && a.Object?
    ensures MapRuleListed(rule, cascaded, path, e, a, c, m)
    decreases e, 2, 1
  {
    if !cascaded && IsValuesMatcher(rule) {
      ValuesRuleListed(rule, path, e, a, c, m);
    } else {
      WholeRuleListed(rule, cascaded, path, e, a, c, m);
    }
  }

  // The verdict on the maps as a whole and on their keys.
  function BeforeEntries(rule: MatchingRule, cascaded: bool, path: Path, e: Value, a: Value, c: Context): Verdict
    requires e.Object? && a.Object?
  {
    var whole := if MapMatches(rule, e.entries, a.entries, cascaded) then Ok else Fail(path, RuleMismatch);
    MergeResult(whole, KeysVerdict(c, path, e.entries.Keys, a.entries.Keys))
  }

  lemma BeforeEntriesListed(rule: MatchingRule, cascaded: bool, path: Path, e: Value, a: Value, c: Context, m: Mismatch)
    requires e.Object? && a.Object?
    ensures Lists(BeforeEntries(rule, cascaded, path, e, a, c), m) <==>
      || (!MapMatches(rule, e.entries, a.entries, cascaded) && m == Mismatch(path, RuleMismatch))
      || KeysReported(m, c, path, e.entries.Keys, a.entries.Keys)
  {
    var whole := if MapMatches(rule, e.entries, a.entries, cascaded) then Ok else Fail(path, RuleMismatch);
    KeysListed(c, path, e.entries.Keys, a.entries.Keys, m);
    MergeLists(whole, KeysVerdict(c, path, e.entries.Keys, a.entries.Keys), m);
  }

  lemma {:induction false} WholeRuleListed(rule: MatchingRule, cascaded: bool, path: Path, e: Value, a: Value, c: Context, m: Mismatch)
    requires e.Object? && a.Object? && (cascaded || !IsValuesMatcher(rule))
    ensures MapRuleListed(rule, cascaded, path, e, a, c, m)
    decreases e, 2, 0
  {
    var keys, start := SortedKeys(e.entries.Keys), BeforeEntries(rule, cascaded, path, e, a, c);
    BeforeEntriesListed(rule, cascaded, path, e, a, c, m);
    FirstEntriesListed(start, keys, |keys|, path, e, a, c, m);
    AllEntriesListed(start, path, e, a, c, m);
  }

  ghost predicate FirstAnyReported(m: Mismatch, keys: seq<string>, i: nat, path: Path, e: Value, a: Value, c: Context)
    requires e.Object? && a.Object? && i <= |keys| && forall k <- keys :: k in a.entries
  {
    exists j | 0 <= j < i :: keys[j] in keys && AnyKeyReported(m, keys[j], path, e, a, c)
  }

  ghost predicate AnyListed(start: Verdict, keys: seq<string>, i: nat, path: Path, e: Value, a: Value, c: Context, m: Mismatch)
    requires e.Object? && a.Object? && i <= |keys| && forall k <- keys :: k in a.entries
  {
    Lists(AnyKeyVerdict(start, keys, i, path, e, a, c), m) <==> Lists(start, m) || FirstAnyReported(m, keys, i, path, e, a, c)
  }

  // The expected value for an actual key.
  function ValueFor(key: string, e: Value): Value
    requires e.Object? && e.entries.Keys != {}
  {
    if key in e.entries then e.entries[key] else FirstValue(e.entries)
  }

  lemma NextAnyListed(start: Verdict, keys: seq<string>, i: nat, path: Path, e: Value, a: Value, c: Context, m: Mismatch)
    requires e.Object? && a.Object? && i < |keys| && (forall k <- keys :: k in a.entries) && keys[i] in keys
    requires AnyListed(start, keys, i, path, e, a, c, m)
    requires e.entries.Keys != {} ==> IsListed(JoinPath(path, keys[i]), ValueFor(keys[i], e), a.entries[keys[i]], c.Under(keys[i]), m)
    ensures AnyListed(start, keys, i + 1, path, e, a, c, m)
  {
    var key, so := keys[i], AnyKeyVerdict(start, keys, i, path, e, a, c);
    assert FirstAnyReported(m, keys, i + 1, path, e, a, c) <==>
      FirstAnyReported(m, keys, i, path, e, a, c) || AnyKeyReported(m, key, path, e, a, c);
    if e.entries.Keys != {} {
      MergeLists(so, JsonVerdict(JoinPath(path, key), ValueFor(key, e), a.entries[key], c.Under(key)), m);
    }
  }

  lemma {:induction false} FirstAnyListed(start: Verdict, keys: seq<string>, i: nat, path: Path, e: Value, a: Value, c: Context, m: Mismatch)
    requires e.Object? && a.Object? && i <= |keys| && forall k <- keys :: k in a.entries
    ensures AnyListed(start, keys, i, path, e, a, c, m)
    decreases e, 1, i
  {
    if i > 0 {
      var key := keys[i - 1];
      assert key in keys;
      FirstAnyListed(start, keys, i - 1, path, e, a, c, m);
      if e.entries.Keys != {} {
        ReportedExactly(JoinPath(path, key), ValueFor(key, e), a.entries[key], c.Under(key), m);
      }
      NextAnyListed(start, keys, i - 1, path, e, a, c, m);
    }
  }

  lemma AllAnyListed(start: Verdict, path: Path, e: Value, a: Value, c: Context, m: Mismatch)
    requires e.Object? && a.Object?
    requires var keys := SortedKeys(a.entries.Keys); AnyListed(start, keys, |keys|, path, e, a, c, m)
    ensures var keys := SortedKeys(a.entries.Keys);
      Lists(AnyKeyVerdict(start, keys, |keys|, path, e, a, c), m) <==> Lists(start, m) || AnyKeysReported(m, path, e, a, c)
  {
    var keys := SortedKeys(a.entries.Keys);
    if key :| key in a.entries && AnyKeyReported(m, key, path, e, a, c) {
      assert key in keys;
    }
  }

  lemma {:induction false} ReferencesList(path: Path, rules: seq<RuleOrReference>, m: Mismatch)
    ensures m in References(path, rules) <==> Unresolved(rules) && m == Mismatch(path, UnresolvedReference)
  {
    if rules != [] {
      ReferencesList(path, rules[1..], m);
      assert rules == [rules[0]] + rules[1..];
    }
  }

  lemma {:induction false} ValuesRuleListed(rule: MatchingRule, path: Path, e: Value, a: Value, c: Context, m: Mismatch)
    requires e.Object? && a.Object? && IsValuesMatcher(rule)
    ensures MapRuleListed(rule, false, path, e, a, c, m)
    decreases e, 2, 0
  {
    var keys := SortedKeys(a.entries.Keys);
    assert c.CloneWith(c.matchers) == c;
    var start := if rule.EachValue? then VerdictOf(References(path, rule.valueRules)) else Ok;
    var swapped := if rule.EachValue? then c.CloneWith(EachValueCategory(path, rule.valueRules)) else c;
    if rule.EachValue? {
      ReferencesList(path, rule.valueRules, m);
      VerdictLists(References(path, rule.valueRules), m);
    }
    FirstAnyListed(start, keys, |keys|, path, e, a, swapped, m);
    AllAnyListed(start, path, e, a, swapped, m);
  }

  // ---- Lists

  ghost predicate FirstItemsReported(m: Mismatch, i: nat, path: Path, e: Value, a: Value, c: Context)
    requires e.Array? && a.Array? && i <= |e.items|
  {
    exists j | 0 <= j < i :: ItemReported(m, j, e.items[j], path, e, a, c)
  }

  ghost predicate ItemsListed(i: nat, path: Path, e: Value, a: Value, c: Context, m: Mismatch)
    requires e.Array? && a.Array? && i <= |e.items|
  {
    Lists(ItemsVerdict(i, path, e, a, c), m) <==> FirstItemsReported(m, i, path, e, a, c)
  }

  lemma NextItemListed(i: nat, path: Path, e: Value, a: Value, c: Context, m: Mismatch)
    requires e.Array? && a.Array? && i < |e.items| && ItemsListed(i, path, e, a, c, m)
    requires i < |a.items| ==> IsListed(JoinPath(path, ShowNat(i)), e.items[i], a.items[i], c, m)
    ensures ItemsListed(i + 1, path, e, a, c, m)
  {
    var so, p := ItemsVerdict(i, path, e, a, c), JoinPath(path, ShowNat(i));
    assert FirstItemsReported(m, i + 1, path, e, a, c) <==>
      FirstItemsReported(m, i, path, e, a, c) || ItemReported(m, i, e.items[i], path, e, a, c);
    if i < |a.items| {
      MergeLists(so, JsonVerdict(p, e.items[i], a.items[i], c), m);
    } else {
      MergeLists(so, Fail(path, MissingItem), m);
    }
  }

  lemma {:induction false} FirstItemsListed(i: nat, path: Path, e: Value, a: Value, c: Context, m: Mismatch)
    requires e.Array? && a.Array? && i <= |e.items|
    ensures ItemsListed(i, path, e, a, c, m)
    decreases e, 1, i
  {
    if i > 0 {
      FirstItemsListed(i - 1, path, e, a, c, m);
      if i - 1 < |a.items| {
        ReportedExactly(JoinPath(path, ShowNat(i - 1)), e.items[i - 1], a.items[i - 1], c, m);
      }
      NextItemListed(i - 1, path, e, a, c, m);
    }
  }

  lemma {:induction false} ListsListed(path: Path, e: Value, a: Value, c: Context, m: Mismatch)
    requires e.Array? && a.Array?
    ensures IsListed(path, e, a, c, m)
    decreases e, 4, 0
  {
    if c.MatcherIsDefined(path) {
      ListRulesListed(c.SelectBestMatcher(path), path, e, a, c, m);
    } else if !(e.items == [] && a.items != []) {
      FirstItemsListed(|e.items|, path, e, a, c, m);
      PlainListListed(path, e, a, c, m);
    }
  }

  lemma PlainListListed(path: Path, e: Value, a: Value, c: Context, m: Mismatch)
    requires e.Array? && a.Array? && !c.MatcherIsDefined(path) && !(e.items == [] && a.items != [])
    requires ItemsListed(|e.items|, path, e, a, c, m)
    ensures IsListed(path, e, a, c, m)
  {
    MergeLists(ItemsVerdict(|e.items|, path, e, a, c), Fail(path, LengthMismatch), m);
    assert Reported(m, path, e, a, c) <==>
      (|e.items| != |a.items| && m == Mismatch(path, LengthMismatch)) || FirstItemsReported(m, |e.items|, path, e, a, c);
  }

  ghost predicate ListRuleListed(rule: MatchingRule, cascaded: bool, path: Path, e: Value, a: Value, c: Context, m: Mismatch)
    requires e.Array? && a.Array?
  {
    Lists(ListRuleVerdict(rule, cascaded, path, e, a, c), m) <==> ListRuleReported(m, rule, cascaded, path, e, a, c)
  }

  ghost predicate FirstRulesReported(m: Mismatch, list: RuleList, i: nat, path: Path, e: Value, a: Value, c: Context)
    requires e.Array? && a.Array? && i <= |list.rules|
  {
    exists j | 0 <= j < i :: ListRuleReported(m, list.rules[j], list.cascaded, path, e, a, c.Again(j))
  }

  lemma NextRuleReported(m: Mismatch, list: RuleList, i: nat, path: Path, e: Value, a: Value, c: Context)
    requires e.Array? && a.Array? && i < |list.rules|
    ensures FirstRulesReported(m, list, i + 1, path, e, a, c) <==>
      FirstRulesReported(m, list, i, path, e, a, c) || ListRuleReported(m, list.rules[i], list.cascaded, path, e, a, c.Again(i))
  {
  }

  ghost predicate FailuresListed(list: RuleList, i: nat, path: Path, e: Value, a: Value, c: Context, m: Mismatch)
    requires e.Array? && a.Array? && i <= |list.rules|
  {
    m in RuleFailures(list, i, path, e, a, c) <==> FirstRulesReported(m, list, i, path, e, a, c)
  }

  ghost predicate NthRuleListed(list: RuleList, j: nat, path: Path, e: Value, a: Value, c: Context, m: Mismatch)
    requires e.Array? && a.Array? && j < |list.rules|
  {
    ListRuleListed(list.rules[j], list.cascaded, path, e, a, c.Again(j), m)
  }

  lemma {:induction false} NthListRuleListed(list: RuleList, j: nat, path: Path, e: Value, a: Value, c: Context, m: Mismatch)
    requires e.Array? && a.Array? && j < |list.rules|
    ensures NthRuleListed(list, j, path, e, a, c, m)
    decreases e, 3, 0
  {
    OneListRuleListed(list.rules[j], list.cascaded, path, e, a, c.Again(j), m);
  }

  lemma NextFailureListed(list: RuleList, i: nat, path: Path, e: Value, a: Value, c: Context, m: Mismatch)
    requires e.Array? && a.Array? && i < |list.rules| && FailuresListed(list, i, path, e, a, c, m)
    requires NthRuleListed(list, i, path, e, a, c, m)
    ensures FailuresListed(list, i + 1, path, e, a, c, m)
  {
    NextRuleReported(m, list, i, path, e, a, c);
    CollectLists(RuleFailures(list, i, path, e, a, c), ListRuleVerdict(list.rules[i], list.cascaded, path, e, a, c.Again(i)), m);
  }

  lemma {:induction false} FirstFailuresListed(list: RuleList, i: nat, path: Path, e: Value, a: Value, c: Context, m: Mismatch)
    requires e.Array? && a.Array? && i <= |list.rules|
    ensures FailuresListed(list, i, path, e, a, c, m)
    decreases e, 3, i
  {
    if i > 0 {
      FirstFailuresListed(list, i - 1, path, e, a, c, m);
      NthListRuleListed(list, i - 1, path, e, a, c, m);
      NextFailureListed(list, i - 1, path, e, a, c, m);
    }
  }

  lemma {:induction false} ListRulesListed(list: RuleList, path: Path, e: Value, a: Value, c: Context, m: Mismatch)
    requires e.Array? && a.Array?
    ensures Lists(ListRulesVerdict(list, path, e, a, c), m) <==> ListRulesReported(m, list, path, e, a, c)
    decreases e, 3, |list.rules| + 1
  {
    var n := |list.rules|;
    FirstFailuresListed(list, n, path, e, a, c, m);
    AllRulesFailAll(list, n, path, e, a, c);
    VerdictLists(RuleFailures(list, n, path, e, a, c), m);
  }

  lemma {:induction false} OneListRuleListed(rule: MatchingRule, cascaded: bool, path: Path, e: Value, a: Value, c: Context, m: Mismatch)
    requires e.Array? && a.Array?
    ensures ListRuleListed(rule, cascaded, path, e, a, c, m)
    decreases e, 2, 0
  {
    if e.items != [] {
      if rule.ArrayContains? {
        ArrayContainsListed(rule, cascaded, path, e, a, c, m);
      } else if rule.EachValue? {
        var swapped := c.CloneWith(EachValueCategory(path, rule.valueRules));
        FirstContentsListed(ContentLength(e, a), path, e, a, swapped, m);
        EachValueListed(rule, cascaded, path, e, a, c, m);
      } else {
        FirstContentsListed(ContentLength(e, a), path, e, a, c, m);
        ItemsRuleListed(rule, cascaded, path, e, a, c, m);
      }
    }
  }

  lemma {:induction false} VariantsListed(variants: seq<Variant>, i: nat, path: Path, e: Value, a: Value, c: Context, m: Mismatch)
    requires e.Array? && a.Array? && i <= |variants|
    ensures m in VariantMismatches(variants, i, path, e, a, c) <==>
      exists j | 0 <= j < i :: VariantReported(m, variants[j], path, e, a, c.Again(j))
  {
    if i > 0 {
      var variant := variants[i - 1];
      VariantsListed(variants, i - 1, path, e, a, c, m);
      OneVariantListed(variant, path, e, a, c.Again(i - 1), m);
      CollectLists(VariantMismatches(variants, i - 1, path, e, a, c), VariantVerdict(variant, path, e, a, c.Again(i - 1)), m);
    }
  }

  lemma OneVariantListed(variant: Variant, path: Path, e: Value, a: Value, c: Context, m: Mismatch)
    requires e.Array? && a.Array?
    ensures Lists(VariantVerdict(variant, path, e, a, c), m) <==> VariantReported(m, variant, path, e, a, c)
  {
    if variant.index < |e.items| {
      SomeMatchesExactly(e.items[variant.index], a.items, 0, c.CloneWith(variant.rules));
    }
  }

  lemma ArrayContainsListed(rule: MatchingRule, cascaded: bool, path: Path, e: Value, a: Value, c: Context, m: Mismatch)
    requires e.Array? && a.Array? && e.items != [] && rule.ArrayContains?
    ensures ListRuleListed(rule, cascaded, path, e, a, c, m)
  {
    var variants := if rule.variants == [] then DefaultVariants(|e.items|) else rule.variants;
    VariantsListed(variants, |variants|, path, e, a, c, m);
    VerdictLists(VariantMismatches(variants, |variants|, path, e, a, c), m);
  }

  ghost predicate FirstContentsReported(m: Mismatch, i: nat, path: Path, e: Value, a: Value, c: Context)
    requires e.Array? && a.Array? && e.items != []
  {
    exists j | 0 <= j < i :: ItemReported(m, j, ItemFor(e, j), path, e, a, c)
  }

  ghost predicate ContentsListed(i: nat, path: Path, e: Value, a: Value, c: Context, m: Mismatch)
    requires e.Array? && a.Array? && e.items != [] && i <= ContentLength(e, a)
  {
    m in ContentMismatches(i, path, e, a, c) <==> FirstContentsReported(m, i, path, e, a, c)
  }

  lemma NextContentListed(i: nat, path: Path, e: Value, a: Value, c: Context, m: Mismatch)
    requires e.Array? && a.Array? && e.items != [] && i < ContentLength(e, a) && ContentsListed(i, path, e, a, c, m)
    requires i < |a.items| ==> IsListed(JoinPath(path, ShowNat(i)), ItemFor(e, i), a.items[i], c, m)
    ensures ContentsListed(i + 1, path, e, a, c, m)
  {
    assert FirstContentsReported(m, i + 1, path, e, a, c) <==>
      FirstContentsReported(m, i, path, e, a, c) || ItemReported(m, i, ItemFor(e, i), path, e, a, c);
    if i < |a.items| {
      CollectLists(ContentMismatches(i, path, e, a, c), JsonVerdict(JoinPath(path, ShowNat(i)), ItemFor(e, i), a.items[i], c), m);
    }
  }

  lemma {:induction false} FirstContentsListed(i: nat, path: Path, e: Value, a: Value, c: Context, m: Mismatch)
    requires e.Array? && a.Array? && e.items != [] && i <= ContentLength(e, a)
    ensures ContentsListed(i, path, e, a, c, m)
    decreases e, 1, i
  {
    if i > 0 {
      FirstContentsListed(i - 1, path, e, a, c, m);
      if i - 1 < |a.items| {
        ReportedExactly(JoinPath(path, ShowNat(i - 1)), ItemFor(e, i - 1), a.items[i - 1], c, m);
      }
      NextContentListed(i - 1, path, e, a, c, m);
    }
  }

  lemma EachValueListed(rule: MatchingRule, cascaded: bool, path: Path, e: Value, a: Value, c: Context, m: Mismatch)
    requires e.Array? && a.Array? && e.items != [] && rule.EachValue?
    requires ContentsListed(ContentLength(e, a), path, e, a, c.CloneWith(EachValueCategory(path, rule.valueRules)), m)
    ensures ListRuleListed(rule, cascaded, path, e, a, c, m)
  {
    var swapped := c.CloneWith(EachValueCategory(path, rule.valueRules));
    ReferencesList(path, rule.valueRules, m);
    VerdictLists(References(path, rule.valueRules) + ContentMismatches(ContentLength(e, a), path, e, a, swapped), m);
    assert ContentReported(m, path, e, a, swapped) <==> FirstContentsReported(m, ContentLength(e, a), path, e, a, swapped);
  }

  lemma ItemsRuleListed(rule: MatchingRule, cascaded: bool, path: Path, e: Value, a: Value, c: Context, m: Mismatch)
    requires e.Array? && a.Array? && e.items != [] && !rule.ArrayContains? && !rule.EachValue?
    requires ContentsListed(ContentLength(e, a), path, e, a, c, m)
    ensures ListRuleListed(rule, cascaded, path, e, a, c, m)
  {
    var whole := if ListMatches(rule, e.items, a.items, cascaded) then [] else [Mismatch(path, RuleMismatch)];
    VerdictLists(whole + ContentMismatches(ContentLength(e, a), path, e, a, c), m);
    assert ContentReported(m, path, e, a, c) <==> FirstContentsReported(m, ContentLength(e, a), path, e, a, c);
  }

  ghost predicate NothingReported(path: Path, e: Value, a: Value, c: Context) {
    forall m :: !Reported(m, path, e, a, c)
  }

  /** So a value is accepted when there is nothing to report. */
  lemma AcceptedExactly(path: Path, e: Value, a: Value, c: Context)
    ensures Accepts(path, e, a, c) <==> NothingReported(path, e, a, c)
  {
    var v := JsonVerdict(path, e, a, c);
    if v.Ok? {
      forall m ensures !Reported(m, path, e, a, c) {
        ReportedExactly(path, e, a, c, m);
      }
    } else {
      CompareJustified(path, e, a, c);
      ReportedExactly(path, e, a, c, v.mismatches[0]);
      assert v.mismatches[0] in v.mismatches;
      assert Reported(v.mismatches[0], path, e, a, c);
    }
  }
}
