/** Which mismatches a verdict lists. */
module Reports {
  import opened Paths
  import opened Rules
  import opened Contexts
  import opened RuleMatching

  predicate Lists(v: Verdict, m: Mismatch) {
    v.Err? && m in v.mismatches
  }

  lemma MergeLists(a: Verdict, b: Verdict, m: Mismatch)
    ensures Lists(MergeResult(a, b), m) <==> Lists(a, m) || Lists(b, m)
  {
  }

  lemma CollectLists(so: seq<Mismatch>, v: Verdict, m: Mismatch)
    ensures m in Collect(so, v) <==> m in so || Lists(v, m)
  {
  }

  lemma FailLists(path: Path, tag: Tag, m: Mismatch)
    ensures Lists(Fail(path, tag), m) <==> m == Mismatch(path, tag)
  {
  }

  lemma {:induction false} FailuresList(path: Path, results: seq<bool>, i: nat, m: Mismatch)
    requires i <= |results|
    ensures m in Failures(path, results, i) <==> m == Mismatch(path, RuleMismatch) && exists j :: 0 <= j < i && !results[j]
  {
    if i > 0 {
      FailuresList(path, results, i - 1, m);
    }
  }

  // Failing results are reported at the path, and so is a list without rules.
  lemma CombinedLists(path: Path, logic: RuleLogic, results: seq<bool>, m: Mismatch)
    ensures Lists(Combined(path, logic, results), m) <==>
      !Combined(path, logic, results).Ok? && m == Mismatch(path, if |results| == 0 then NoMatcher else RuleMismatch)
  {
    FailuresList(path, results, |results|, m);
    FailuresEmpty(path, results, |results|);
  }

  lemma VerdictLists(mismatches: seq<Mismatch>, m: Mismatch)
    ensures Lists(VerdictOf(mismatches), m) <==> m in mismatches
  {
  }

  // How values that are turned away are reported.
  function FailureTag(path: Path, c: Context): Tag {
    if !c.MatcherIsDefined(path) then ValueMismatch
    else if c.SelectBestMatcher(path).rules == [] then NoMatcher
    else RuleMismatch
  }

  // ---- Strings

  // The list has rules, and all of them accept the strings, or any with `Or`.
  predicate StringsPass(list: RuleList, e: string, a: string, foreign: Foreign) {
    && list.rules != []
    && (list.logic == And ==> forall rule <- list.rules :: StringMatches(rule, e, a, list.cascaded, foreign))
    && (list.logic == Or ==> exists rule <- list.rules :: StringMatches(rule, e, a, list.cascaded, foreign))
  }

  lemma MatchStringsExactly(path: Path, list: RuleList, e: string, a: string, foreign: Foreign)
    ensures MatchStrings(path, list, e, a, foreign).Ok? <==> StringsPass(list, e, a, foreign)
  {
    var results := StringResults(list, e, a, foreign);
    CombinedExactly(path, list.logic, results);
    forall rule | rule in list.rules ensures StringMatches(rule, e, a, list.cascaded, foreign) in results {
      var i :| 0 <= i < |list.rules| && list.rules[i] == rule;
      assert results[i] == StringMatches(rule, e, a, list.cascaded, foreign);
    }
  }
}
