/** Without rules a form is accepted when every name has the same values in the same order. */
module FormLaws {
  import opened Grouping
  import opened Traces
  import opened Paths
  import opened Contexts
  import opened QueryRules
  import opened QueryMatching

  predicate ValueEqual(expected: seq<string>, actual: seq<string>, i: nat) {
    i < |actual| && (if i < |expected| then expected[i] else "") == actual[i]
  }

  lemma ParameterStep(path: Path, expected: seq<string>, actual: seq<string>, i: nat, c: Context)
    requires NoRules(c) && i > 0
    ensures |ParametersReasons(path, expected, actual, i, c)| == 0 <==>
      |ParametersReasons(path, expected, actual, i - 1, c)| == 0 && ValueEqual(expected, actual, i - 1)
  {
    NothingDefined(path, c);
    if i - 1 < |actual| {
      var value := if i - 1 < |expected| then expected[i - 1] else "";
      NothingDefined(JoinPath(path, ShowNat(i - 1)), c);
      assert |ParameterReasons(path, value, actual[i - 1], i - 1, c)| == 0 <==> value == actual[i - 1];
    }
  }

  lemma {:induction false} ParametersEqual(path: Path, expected: seq<string>, actual: seq<string>, i: nat, c: Context)
    requires NoRules(c)
    ensures |ParametersReasons(path, expected, actual, i, c)| == 0 <==> forall j :: 0 <= j < i ==> ValueEqual(expected, actual, j)
  {
    if i > 0 {
      ParametersEqual(path, expected, actual, i - 1, c);
      ParameterStep(path, expected, actual, i, c);
      if |ParametersReasons(path, expected, actual, i, c)| == 0 {
        forall j | 0 <= j < i ensures ValueEqual(expected, actual, j) {
          assert j == i - 1 || j < i - 1;
        }
      }
    }
  }

  /** Without rules, the values of a parameter are accepted when they are equal, in order and in number. */
  lemma ValuesExactly(key: string, expected: seq<string>, actual: seq<string>, c: Context)
    requires NoRules(c)
    ensures |ValuesReasons(key, expected, actual, c)| == 0 <==> expected == actual
  {
    ParametersEqual(JoinPath([Root], key), expected, actual, PaddedLength(expected, actual), c);
    if |expected| == |actual| && forall j :: 0 <= j < |expected| ==> ValueEqual(expected, actual, j) {
      forall j | 0 <= j < |expected| ensures expected[j] == actual[j] {
        assert ValueEqual(expected, actual, j);
      }
    }
  }

  // The grouped pairs of a name hold its values.
  lemma {:induction false} GroupedValues(form: Form, name: string)
    ensures var group, values := ValuesOf(Keyed(form, NameOf), name), ValuesOf(form, name);
      |group| == |values| && forall i :: 0 <= i < |group| ==> group[i].1 == values[i]
    decreases |form|
  {
    if form != [] {
      var n := |form| - 1;
      assert Keyed(form, NameOf)[..n] == Keyed(form[..n], NameOf);
      assert Keyed(form, NameOf)[n] == (NameOf(form[n]), form[n]);
      GroupedValues(form[..n], name);
    }
  }

  lemma ParametersOfForm(form: Form, name: string)
    ensures name in FormParameters(form) <==> ValuesOf(form, name) != []
    ensures name in FormParameters(form) ==> ValueTexts(FormParameters(form)[name]) == ValuesOf(form, name)
  {
    GroupedValues(form, name);
    ValuesOfPresent(Keyed(form, NameOf), name);
  }

  /** Without rules, two forms are accepted exactly when every name has the same values in the same order. */
  lemma FormsExactly(expected: Form, actual: Form, c: Context)
    requires NoRules(c)
    ensures (forall name :: |FormReasons(name, expected, actual, c)| == 0) <==> SameValues(expected, actual)
  {
    forall name
      ensures |FormReasons(name, expected, actual, c)| == 0 <==> ValuesOf(expected, name) == ValuesOf(actual, name)
    {
      ParametersOfForm(expected, name);
      ParametersOfForm(actual, name);
      ValuesExactly(name, ValuesOf(expected, name), ValuesOf(actual, name), c.Under(name));
    }
  }

  /** So two forms are accepted exactly when swaps of neighbours with different names make them equal. */
  lemma FormsAreTraces(expected: Form, actual: Form, c: Context)
    requires NoRules(c)
    ensures (forall name :: |FormReasons(name, expected, actual, c)| == 0) <==>
      exists moves :: Moved(expected, moves) == actual
  {
    FormsExactly(expected, actual, c);
    SameValuesExactly(expected, actual);
  }
}
