/** What a single matching rule says about two values (`Matches::matches_with`). */
module RuleMatching {
  import opened Json
  import opened Paths
  import opened Rules
  import opened Contexts

  predicate LengthPasses(rule: MatchingRule, length: nat, cascaded: bool) {
    match rule
    case MinType(min) => cascaded || length >= min
    case MaxType(max) => cascaded || length <= max
    case MinMaxType(min, max) => cascaded || min <= length <= max
    case _ => true
  }

  // A rule on two lists; the rules for scalars pass, as they are applied to the items.
  predicate ListMatches<T(==)>(rule: MatchingRule, expected: seq<T>, actual: seq<T>, cascaded: bool) {
    match rule
    case Equality => expected == actual
    case NotEmpty => actual != []
    case Null => false
    case StatusCode => false
    case _ => LengthPasses(rule, |actual|, cascaded)
  }

  // The expected list is filled up with its first item to the length of the actual list.
  function FilledLength(expected: nat, actual: nat): nat {
    if actual > expected && expected > 0 then actual else expected
  }

  function FilledItem<T>(items: seq<T>, i: nat): T
    requires |items| > 0
  {
    if i < |items| then items[i] else items[0]
  }

  // A rule on two maps; most of the rules for scalars fail.
  predicate MapMatches<T(==)>(rule: MatchingRule, expected: map<string, T>, actual: map<string, T>, cascaded: bool) {
    match rule
    case Equality => expected == actual
    case NotEmpty => actual != map[]
    case Regex(_) => true
    case ArrayContains(_) => true
    case EachKey(_) => true
    case EachValue(_) => true
    case Values => true
    case _ => IsTypeMatcher(rule) && LengthPasses(rule, |actual|, cascaded)
  }

  // A rule on two JSON values.
  predicate ValueMatches(rule: MatchingRule, expected: Value, actual: Value, cascaded: bool, foreign: Foreign) {
    match rule
    case Type => SameKind(expected, actual)
    case MinType(_) => SameKind(expected, actual) && (actual.Array? ==> LengthPasses(rule, |actual.items|, cascaded))
    case MaxType(_) => SameKind(expected, actual) && (actual.Array? ==> LengthPasses(rule, |actual.items|, cascaded))
    case MinMaxType(_, _) => SameKind(expected, actual) && (actual.Array? ==> LengthPasses(rule, |actual.items|, cascaded))
    case Equality => expected == actual
    case Values => expected == actual
    case Null => actual.Null?
    case Integer => actual.Number? && actual.n.Integer?
    case Decimal => actual.Number? && actual.n.Decimal?
    case Number => actual.Number?
    case Boolean => actual.Bool? || actual == String("true") || actual == String("false")
    case NotEmpty => !actual.Null? && actual != String("") && actual != Array([]) && actual != Object(map[])
    case ArrayContains(_) => true
    case StatusCode => true
    case EachKey(_) => true
    case EachValue(_) => true
    case _ => foreign.acceptsValue(actual, rule)
  }

  // ---- Combining the results of a list of rules

  // One mismatch for each of the first `i` failures.
  function Failures(path: Path, results: seq<bool>, i: nat): seq<Mismatch>
    requires i <= |results|
  {
    if i == 0 then [] else
      var so := Failures(path, results, i - 1);
      if results[i - 1] then so else so + [Mismatch(path, RuleMismatch)]
  }

  // `match_values`, once all the rules were applied
  function Combined(path: Path, logic: RuleLogic, results: seq<bool>): Verdict {
    if |results| == 0 then Fail(path, NoMatcher)
    else if logic == Or && true in results then Ok
    else VerdictOf(Failures(path, results, |results|))
  }

  function ValueResults(list: RuleList, expected: Value, actual: Value, foreign: Foreign): seq<bool> {
    seq(|list.rules|, i requires 0 <= i < |list.rules| => ValueMatches(list.rules[i], expected, actual, list.cascaded, foreign))
  }

  function MatchValues(path: Path, list: RuleList, expected: Value, actual: Value, foreign: Foreign): Verdict {
    Combined(path, list.logic, ValueResults(list, expected, actual, foreign))
  }

  function StringResults(list: RuleList, expected: string, actual: string, foreign: Foreign): seq<bool> {
    seq(|list.rules|, i requires 0 <= i < |list.rules| => StringMatches(list.rules[i], expected, actual, list.cascaded, foreign))
  }

  function MatchStrings(path: Path, list: RuleList, expected: string, actual: string, foreign: Foreign): Verdict {
    Combined(path, list.logic, StringResults(list, expected, actual, foreign))
  }

  lemma {:induction false} FailuresEmpty(path: Path, results: seq<bool>, i: nat)
    requires i <= |results|
    ensures |Failures(path, results, i)| == 0 <==> forall j :: 0 <= j < i ==> results[j]
    ensures AllUnder(path, Failures(path, results, i))
  {
    if i > 0 {
      FailuresEmpty(path, results, i - 1);
    }
  }

  /** Results are accepted when there are some and all of them are, or any with `Or`. */
  lemma CombinedExactly(path: Path, logic: RuleLogic, results: seq<bool>)
    ensures Combined(path, logic, results).Ok? <==>
      && |results| > 0 && (logic == And ==> false !in results) && (logic == Or ==> true in results)
    ensures Justified(Combined(path, logic, results), path)
  {
    FailuresEmpty(path, results, |results|);
    if |results| > 0 && true !in results {
      assert results[0] in results;
    }
  }

  /** Values pass a list of rules when there are rules and all of them pass, or any with `Or`. */
  lemma MatchValuesExactly(path: Path, list: RuleList, expected: Value, actual: Value, foreign: Foreign)
    ensures MatchValues(path, list, expected, actual, foreign).Ok? <==>
      && list.rules != []
      && (list.logic == And ==> forall rule <- list.rules :: ValueMatches(rule, expected, actual, list.cascaded, foreign))
      && (list.logic == Or ==> exists rule <- list.rules :: ValueMatches(rule, expected, actual, list.cascaded, foreign))
    ensures Justified(MatchValues(path, list, expected, actual, foreign), path)
  {
    var results := ValueResults(list, expected, actual, foreign);
    CombinedExactly(path, list.logic, results);
    forall rule | rule in list.rules ensures ValueMatches(rule, expected, actual, list.cascaded, foreign) in results {
      var i :| 0 <= i < |list.rules| && list.rules[i] == rule;
      assert results[i] == ValueMatches(rule, expected, actual, list.cascaded, foreign);
    }
  }
}
