/** When the keys of a map are accepted. */
module KeyLaws {
  import opened StringOrder
  import opened Paths
  import opened Rules
  import opened Contexts

  // Every actual key passes the rule, which is resolved.
  predicate KeysPass(rule: RuleOrReference, actual: set<string>, foreign: Foreign) {
    rule.Resolved? && forall key <- actual :: KeyPasses(rule.rule, key, foreign)
  }

  predicate EachKeyPasses(rule: MatchingRule, actual: set<string>, foreign: Foreign) {
    rule.EachKey? ==> forall r <- rule.keyRules :: KeysPass(r, actual, foreign)
  }

  // The keys as they are: the expected ones have to be there, and no others if those are unexpected.
  predicate PlainKeysPass(c: Context, path: Path, expected: set<string>, actual: set<string>) {
    || c.KeysAreMatched(path)
    || (if c.config == NoUnexpectedKeys then expected == actual else expected <= actual)
  }

  lemma {:induction false} KeysFailingEmpty(rule: MatchingRule, path: Path, keys: seq<string>, i: nat, foreign: Foreign)
    requires i <= |keys|
    ensures |KeysFailing(rule, path, keys, i, foreign)| == 0 <==> forall j :: 0 <= j < i ==> KeyPasses(rule, keys[j], foreign)
  {
    if i > 0 {
      KeysFailingEmpty(rule, path, keys, i - 1, foreign);
    }
  }

  lemma {:induction false} EachKeyEmpty(rules: seq<RuleOrReference>, i: nat, path: Path, keys: seq<string>, actual: set<string>, foreign: Foreign)
    requires i <= |rules| && forall k :: k in keys <==> k in actual
    ensures |EachKeyMismatches(rules, i, path, keys, foreign)| == 0 <==>
      forall j :: 0 <= j < i ==> KeysPass(rules[j], actual, foreign)
  {
    if i > 0 {
      EachKeyEmpty(rules, i - 1, path, keys, actual, foreign);
      if rules[i - 1].Resolved? {
        var rule := rules[i - 1].rule;
        KeysFailingEmpty(rule, path, keys, |keys|, foreign);
        assert (forall j :: 0 <= j < |keys| ==> KeyPasses(rule, keys[j], foreign)) <==> KeysPass(rules[i - 1], actual, foreign) by {
          if forall j :: 0 <= j < |keys| ==> KeyPasses(rule, keys[j], foreign) {
            forall key | key in actual ensures KeyPasses(rule, key, foreign) {
              assert key in keys;
            }
          } else {
            var j :| 0 <= j < |keys| && !KeyPasses(rule, keys[j], foreign);
            assert keys[j] in keys;
          }
        }
      }
    }
  }

  lemma {:induction false} RuleKeysEmpty(rules: seq<MatchingRule>, i: nat, path: Path, keys: seq<string>, actual: set<string>, foreign: Foreign)
    requires i <= |rules| && forall k :: k in keys <==> k in actual
    ensures |RuleKeys(rules, i, path, keys, foreign)| == 0 <==> forall j :: 0 <= j < i ==> EachKeyPasses(rules[j], actual, foreign)
  {
    if i > 0 {
      RuleKeysEmpty(rules, i - 1, path, keys, actual, foreign);
      if rules[i - 1].EachKey? {
        EachKeyEmpty(rules[i - 1].keyRules, |rules[i - 1].keyRules|, path, keys, actual, foreign);
      }
    }
  }

  /** Keys are accepted when they are as expected, unless a rule at the path is about keys or values, and
    * when every `EachKey` rule selected there, if one is defined at exactly the path, passes for each of them. */
  lemma KeysExactly(c: Context, path: Path, expected: set<string>, actual: set<string>)
    ensures KeysVerdict(c, path, expected, actual).Ok? <==>
      && PlainKeysPass(c, path, expected, actual)
      && (MatchersForExactPath(c.matchers, path) != [] ==>
        forall rule <- c.SelectBestMatcher(path).rules :: EachKeyPasses(rule, actual, c.foreign))
  {
    var rules := if MatchersForExactPath(c.matchers, path) != [] then c.SelectBestMatcher(path).rules else [];
    RuleKeysEmpty(rules, |rules|, path, SortedKeys(actual), actual, c.foreign);
    assert |PlainKeys(c, path, expected, actual)| == 0 <==> PlainKeysPass(c, path, expected, actual);
  }
}
