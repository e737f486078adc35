/** The outcome of a comparison, and the context that steers it (`CoreMatchingContext`). */
module Contexts {
  import opened Json
  import opened StringOrder
  import opened Paths
  import opened Rules

  datatype Tag =
    | TypeMismatch | ValueMismatch | UnexpectedEntries | UnexpectedItems | LengthMismatch | MissingItem
    | KeysMismatch | KeyMismatch | RuleMismatch | NoMatcher | UnresolvedReference | VariantMissing | VariantNotFound
    | UnexpectedAttributes | AttributeCount | MissingAttribute | UnexpectedChild | MissingChild

  datatype Mismatch = Mismatch(path: Path, tag: Tag)

  datatype Verdict = Ok | Err(mismatches: seq<Mismatch>)

  function Fail(path: Path, tag: Tag): Verdict {
    Err([Mismatch(path, tag)])
  }

  // `merge_result`
  function MergeResult(a: Verdict, b: Verdict): Verdict {
    match a
    case Ok => b
    case Err(m) => if b.Ok? then a else Err(m + b.mismatches)
  }

  // The verdict of a list of collected mismatches.
  function VerdictOf(mismatches: seq<Mismatch>): Verdict {
    if |mismatches| == 0 then Ok else Err(mismatches)
  }

  // The mismatches collected so far, with those of one more verdict.
  function Collect(mismatches: seq<Mismatch>, v: Verdict): seq<Mismatch> {
    if v.Ok? then mismatches else mismatches + v.mismatches
  }

  // A failure says why, somewhere at or below the path.
  ghost predicate AllUnder(path: Path, mismatches: seq<Mismatch>) {
    forall i :: 0 <= i < |mismatches| ==> path <= mismatches[i].path
  }

  ghost predicate Justified(v: Verdict, path: Path) {
    v.Err? ==> |v.mismatches| > 0 && AllUnder(path, v.mismatches)
  }

  lemma MergeJustified(a: Verdict, b: Verdict, path: Path)
    requires Justified(a, path) && Justified(b, path)
    ensures Justified(MergeResult(a, b), path)
  {
  }

  lemma JustifiedUp(v: Verdict, path: Path, below: Path)
    requires Justified(v, below) && path <= below
    ensures Justified(v, path)
  {
  }

  // ---- Contexts

  datatype DiffConfig = AllowUnexpectedKeys | NoUnexpectedKeys

  // What the foreign libraries say: regular expressions, dates, content types and versions.
  datatype Foreign = Foreign(acceptsValue: (Value, MatchingRule) -> bool, acceptsString: (string, MatchingRule) -> bool)

  // Where a comparison has got to: the entries, rules and variants passed through, and the item tried for one.
  datatype Turn = Entry(key: string) | Nth(index: nat) | Trial(item: Value)

  // A look at the lists for a path, which were filtered into a new hash map: for the best one, or for those
  // at exactly the path.
  datatype Lookup = Best(path: Path, turns: seq<Turn>) | Exact(path: Path, turns: seq<Turn>)

  // The list found first may be another one at every lookup.
  datatype Context = Context(config: DiffConfig, matchers: Category, foreign: Foreign, first: Lookup -> nat, turns: seq<Turn>)
  {
    predicate MatcherIsDefined(path: Path) {
      Rules.MatcherIsDefined(matchers, path)
    }

    function SelectBestMatcher(path: Path): RuleList {
      Rules.SelectBestMatcher(matchers, path, first(Best(path, turns)))
    }

    predicate KeysAreMatched(path: Path) {
      Rules.KeysAreMatched(matchers, path, first(Exact(path, turns)))
    }

    // `clone_with`
    function CloneWith(category: Category): Context {
      this.(matchers := category)
    }

    function Under(key: string): Context {
      this.(turns := turns + [Entry(key)])
    }

    function Again(i: nat): Context {
      this.(turns := turns + [Nth(i)])
    }

    function Trying(item: Value): Context {
      this.(turns := turns + [Trial(item)])
    }
  }

  predicate NoRules(c: Context) {
    c.matchers.rules == []
  }

  lemma NothingDefined(path: Path, c: Context)
    requires NoRules(c)
    ensures !c.MatcherIsDefined(path) && !c.KeysAreMatched(path) && MatchersForExactPath(c.matchers, path) == []
  {
  }

  // No rule is defined at the path or anywhere below it.
  ghost predicate NothingBelow(c: Context, path: Path) {
    forall p: Path :: path <= p ==> !MatcherIsDefined(c.matchers, p) && MatchersForExactPath(c.matchers, p) == []
  }

  lemma NoRulesBelow(c: Context, path: Path)
    requires NoRules(c)
    ensures NothingBelow(c, path)
  {
    forall p: Path | path <= p ensures !MatcherIsDefined(c.matchers, p) && MatchersForExactPath(c.matchers, p) == [] {
      NothingDefined(p, c);
    }
  }

  lemma NothingFurtherBelow(c: Context, path: Path, part: string)
    requires NothingBelow(c, path)
    ensures NothingBelow(c, JoinPath(path, part))
  {
  }

  // The category under which `EachValue` compares the children of a path.
  function EachValueCategory(path: Path, rules: seq<RuleOrReference>): Category {
    Category(BODY, [(JoinPath(path, "*"), RuleList(ResolvedRules(rules), And, false))])
  }

  function ResolvedRules(rules: seq<RuleOrReference>): seq<MatchingRule> {
    if rules == [] then [] else
      (if rules[0].Resolved? then [rules[0].rule] else []) + ResolvedRules(rules[1..])
  }

  // One mismatch for each unresolved reference.
  function References(path: Path, rules: seq<RuleOrReference>): seq<Mismatch> {
    if rules == [] then [] else
      (if rules[0].Reference? then [Mismatch(path, UnresolvedReference)] else []) + References(path, rules[1..])
  }

  lemma {:induction false} ReferencesEmpty(path: Path, rules: seq<RuleOrReference>)
    ensures |References(path, rules)| == 0 <==> forall i :: 0 <= i < |rules| ==> rules[i].Resolved?
  {
    if rules != [] {
      ReferencesEmpty(path, rules[1..]);
      assert forall i :: 1 <= i < |rules| ==> rules[i] == rules[1..][i - 1];
    }
  }

  // ---- Keys

  // A rule on two strings. The rules for entries only pass where they cascade, and those for nothing but
  // lists or null never do.
  predicate StringMatches(rule: MatchingRule, expected: string, actual: string, cascaded: bool, foreign: Foreign) {
    match rule
    case Equality => expected == actual
    case Values => expected == actual
    case Boolean => actual == "true" || actual == "false"
    case NotEmpty => actual != ""
    case EachKey(_) => cascaded
    case EachValue(_) => cascaded
    case ArrayContains(_) => false
    case Null => false
    case _ => IsTypeMatcher(rule) || foreign.acceptsString(actual, rule)
  }

  // Whether a key passes a rule of `EachKey`, which compares it with the empty string.
  predicate KeyPasses(rule: MatchingRule, key: string, foreign: Foreign) {
    StringMatches(rule, "", key, false, foreign)
  }

  // The mismatch of the keys as they are.
  function PlainKeys(c: Context, path: Path, expected: set<string>, actual: set<string>): seq<Mismatch> {
    if c.KeysAreMatched(path) then []
    else if c.config == AllowUnexpectedKeys && !(expected <= actual) then [Mismatch(path, KeysMismatch)]
    else if c.config == NoUnexpectedKeys && expected != actual then [Mismatch(path, KeysMismatch)]
    else []
  }

  // The first `i` keys that fail a rule.
  function KeysFailing(rule: MatchingRule, path: Path, keys: seq<string>, i: nat, foreign: Foreign): seq<Mismatch>
    requires i <= |keys|
  {
    if i == 0 then [] else
      var so := KeysFailing(rule, path, keys, i - 1, foreign);
      if KeyPasses(rule, keys[i - 1], foreign) then so else so + [Mismatch(JoinPath(path, keys[i - 1]), KeyMismatch)]
  }

  function EachKeyMismatches(rules: seq<RuleOrReference>, i: nat, path: Path, keys: seq<string>, foreign: Foreign): seq<Mismatch>
    requires i <= |rules|
  {
    if i == 0 then [] else
      EachKeyMismatches(rules, i - 1, path, keys, foreign)
      + match rules[i - 1]
        case Resolved(rule) => KeysFailing(rule, path, keys, |keys|, foreign)
        case Reference(_) => [Mismatch(path, UnresolvedReference)]
  }

  function RuleKeys(rules: seq<MatchingRule>, i: nat, path: Path, keys: seq<string>, foreign: Foreign): seq<Mismatch>
    requires i <= |rules|
  {
    if i == 0 then [] else
      var so := RuleKeys(rules, i - 1, path, keys, foreign);
      if rules[i - 1].EachKey? then so + EachKeyMismatches(rules[i - 1].keyRules, |rules[i - 1].keyRules|, path, keys, foreign)
      else so
  }

  // What `match_keys` finds.
  function KeysVerdict(c: Context, path: Path, expected: set<string>, actual: set<string>): Verdict {
    var rules := if MatchersForExactPath(c.matchers, path) != [] then c.SelectBestMatcher(path).rules else [];
    VerdictOf(PlainKeys(c, path, expected, actual) + RuleKeys(rules, |rules|, path, SortedKeys(actual), c.foreign))
  }

  /** Compares the key sets, then lets every `EachKey` rule judge every actual key. */
  method MatchKeys(c: Context, path: Path, expected: set<string>, actual: set<string>) returns (verdict: Verdict)
    ensures verdict == KeysVerdict(c, path, expected, actual)
  {
    var result := MatchPlainKeys(c, path, expected, actual);
    var rules: seq<MatchingRule> := [];
    if MatchersForExactPath(c.matchers, path) != [] {
      rules := c.SelectBestMatcher(path).rules;
    }
    var found := MatchKeyRules(rules, path, SortedKeys(actual), c.foreign);
    verdict := VerdictOf(result + found);
  }

  method MatchPlainKeys(c: Context, path: Path, expected: set<string>, actual: set<string>) returns (result: seq<Mismatch>)
    ensures result == PlainKeys(c, path, expected, actual)
  {
    var missingKeys := set key | key in expected && key !in actual;
    assert missingKeys == {} <==> expected <= actual by {
      if missingKeys == {} {
        forall key | key in expected ensures key in actual {
          assert key !in missingKeys;
        }
      }
    }
    result := [];
    if !c.KeysAreMatched(path) {
      if c.config == AllowUnexpectedKeys && missingKeys != {} {
        result := [Mismatch(path, KeysMismatch)];
      } else if c.config == NoUnexpectedKeys && expected != actual {
        result := [Mismatch(path, KeysMismatch)];
      }
    }
  }

  method MatchKeyRules(rules: seq<MatchingRule>, path: Path, keys: seq<string>, foreign: Foreign) returns (result: seq<Mismatch>)
    ensures result == RuleKeys(rules, |rules|, path, keys, foreign)
  {
    result := [];
    for i := 0 to |rules|
      invariant result == RuleKeys(rules, i, path, keys, foreign)
    {
      if rules[i].EachKey? {
        var found := MatchEachKey(rules[i].keyRules, path, keys, foreign);
        result := result + found;
      }
    }
  }

  method MatchEachKey(rules: seq<RuleOrReference>, path: Path, keys: seq<string>, foreign: Foreign) returns (result: seq<Mismatch>)
    ensures result == EachKeyMismatches(rules, |rules|, path, keys, foreign)
  {
    result := [];
    for i := 0 to |rules|
      invariant result == EachKeyMismatches(rules, i, path, keys, foreign)
    {
      match rules[i] {
        case Resolved(rule) =>
          var failing: seq<Mismatch> := [];
          for j := 0 to |keys|
            invariant failing == KeysFailing(rule, path, keys, j, foreign)
          {
            if !KeyPasses(rule, keys[j], foreign) {
              failing := failing + [Mismatch(JoinPath(path, keys[j]), KeyMismatch)];
            }
          }
          result := result + failing;
        case Reference(_) =>
          result := result + [Mismatch(path, UnresolvedReference)];
      }
    }
  }
}
