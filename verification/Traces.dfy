/** Lists of named values, equal up to swaps of neighbours with different names. */
module Traces {
  import opened Grouping
  import opened Sequences

  // For every name both lists have the same values in the same order.
  ghost predicate SameValues<V>(e: seq<(string, V)>, a: seq<(string, V)>) {
    forall name :: ValuesOf(e, name) == ValuesOf(a, name)
  }

  predicate CanSwap<V>(s: seq<(string, V)>, i: nat) {
    i + 1 < |s| && s[i].0 != s[i + 1].0
  }

  function Swap<V>(s: seq<(string, V)>, i: nat): seq<(string, V)>
    requires i + 1 < |s|
  {
    s[..i] + [s[i + 1], s[i]] + s[i + 2..]
  }

  // Swaps the pairs at a position, if there are two with different names.
  function Step<V>(s: seq<(string, V)>, i: nat): seq<(string, V)> {
    if CanSwap(s, i) then Swap(s, i) else s
  }

  // The form after one such swap after the other.
  function Moved<V>(s: seq<(string, V)>, moves: seq<nat>): seq<(string, V)> {
    if moves == [] then s else Step(Moved(s, moves[..|moves| - 1]), moves[|moves| - 1])
  }

  lemma SwapKeepsValues<V>(s: seq<(string, V)>, i: nat, name: string)
    requires CanSwap(s, i)
    ensures ValuesOf(Swap(s, i), name) == ValuesOf(s, name)
  {
    var before, x, y, after := s[..i], s[i], s[i + 1], s[i + 2..];
    assert s == before + [x, y] + after;
    ValuesOfConcat(before + [x, y], after, name);
    ValuesOfConcat(before + [y, x], after, name);
    ValuesOfConcat(before, [x, y], name);
    ValuesOfConcat(before, [y, x], name);
    ValuesOfTwo(x, y, name);
    ValuesOfTwo(y, x, name);
  }

  lemma ValuesOfOne<V>(x: (string, V), name: string)
    ensures ValuesOf([x], name) == if x.0 == name then [x.1] else []
  {
    assert [x][..0] == [];
    assert |ValuesOf([x][..0], name)| == 0;
  }

  lemma ValuesOfTwo<V>(x: (string, V), y: (string, V), name: string)
    ensures ValuesOf([x, y], name) == (if x.0 == name then [x.1] else []) + (if y.0 == name then [y.1] else [])
  {
    assert [x, y][..1] == [x];
    ValuesOfOne(x, name);
  }

  lemma {:induction false} MovesKeepValues<V>(s: seq<(string, V)>, moves: seq<nat>, name: string)
    ensures ValuesOf(Moved(s, moves), name) == ValuesOf(s, name)
  {
    if moves != [] {
      var n := |moves| - 1;
      MovesKeepValues(s, moves[..n], name);
      if CanSwap(Moved(s, moves[..n]), moves[n]) {
        SwapKeepsValues(Moved(s, moves[..n]), moves[n], name);
      }
    }
  }

  lemma {:induction false} MovesCompose<V>(s: seq<(string, V)>, a: seq<nat>, b: seq<nat>)
    ensures Moved(s, a + b) == Moved(Moved(s, a), b)
  {
    if b == [] {
      assert a + b == a;
    } else {
      var n := |b| - 1;
      assert (a + b)[..|a| + n] == a + b[..n];
      MovesCompose(s, a, b[..n]);
    }
  }

  lemma OneMove<V>(s: seq<(string, V)>, i: nat)
    ensures Moved(s, [i]) == Step(s, i)
  {
    assert [i][..0] == [];
  }

  lemma StepBack<V>(s: seq<(string, V)>, i: nat)
    ensures Step(Step(s, i), i) == s
  {
    if CanSwap(s, i) {
      assert Swap(Swap(s, i), i) == s;
    }
  }

  lemma {:induction false} MovesBack<V>(s: seq<(string, V)>, moves: seq<nat>) returns (back: seq<nat>)
    ensures Moved(Moved(s, moves), back) == s
  {
    if moves == [] {
      back := [];
    } else {
      var init, i := moves[..|moves| - 1], moves[|moves| - 1];
      back := MovesBack(s, init);
      StepBack(Moved(s, init), i);
      OneMove(Moved(s, moves), i);
      MovesCompose(Moved(s, moves), [i], back);
      back := [i] + back;
    }
  }

  lemma {:induction false} MovesBeforeLast<V>(s: seq<(string, V)>, moves: seq<nat>, x: (string, V)) returns (more: seq<nat>)
    ensures Moved(s + [x], more) == Moved(s, moves) + [x]
  {
    if moves == [] {
      more := [];
    } else {
      var init, i := moves[..|moves| - 1], moves[|moves| - 1];
      var t := Moved(s, init);
      more := MovesBeforeLast(s, init, x);
      if CanSwap(t, i) {
        assert CanSwap(t + [x], i) && Swap(t + [x], i) == Swap(t, i) + [x];
        OneMove(t + [x], i);
        MovesCompose(s + [x], more, [i]);
        more := more + [i];
      }
    }
  }

  // A pair moves to the end past pairs with other names.
  lemma {:induction false} MoveToEnd<V>(before: seq<(string, V)>, x: (string, V), after: seq<(string, V)>) returns (moves: seq<nat>)
    requires forall i :: 0 <= i < |after| ==> after[i].0 != x.0
    ensures Moved(before + [x] + after, moves) == before + after + [x]
    decreases |after|
  {
    if after == [] {
      assert before + [x] + after == before + after + [x];
      moves := [];
    } else {
      var s, next, rest := before + [x] + after, before + [after[0]], after[1..];
      moves := MoveToEnd(next, x, rest);
      assert CanSwap(s, |before|) && Swap(s, |before|) == next + [x] + rest;
      assert next + rest == before + after;
      OneMove(s, |before|);
      MovesCompose(s, [|before|], moves);
      moves := [|before|] + moves;
    }
  }

  // The last pair with a name that occurs.
  lemma {:induction false} LastOf<V>(t: seq<(string, V)>, name: string) returns (before: seq<(string, V)>, x: (string, V), after: seq<(string, V)>)
    requires ValuesOf(t, name) != []
    ensures t == before + [x] + after && x.0 == name
    ensures forall i :: 0 <= i < |after| ==> after[i].0 != name
    ensures ValuesOf(t, name) == ValuesOf(before, name) + [x.1]
  {
    var n := |t| - 1;
    if t[n].0 == name {
      before, x, after := t[..n], t[n], [];
    } else {
      before, x, after := LastOf(t[..n], name);
      after := after + [t[n]];
    }
  }

  lemma NoValuesNoPairs<V>(t: seq<(string, V)>)
    ensures t == [] || exists name :: |ValuesOf(t, name)| > 0
  {
    if t != [] {
      assert |ValuesOf(t, t[|t| - 1].0)| > 0;
    }
  }

  lemma {:induction false} SameValuesMove<V>(s: seq<(string, V)>, t: seq<(string, V)>) returns (moves: seq<nat>)
    requires SameValues(s, t)
    ensures Moved(s, moves) == t
    decreases |s|
  {
    if s == [] {
      NoValuesNoPairs(t);
      moves := [];
    } else {
      var init, last := s[..|s| - 1], s[|s| - 1];
      assert ValuesOf(s, last.0) == ValuesOf(t, last.0);
      var before, x, after := LastOf(t, last.0);
      SameLast(ValuesOf(init, last.0), last.1, ValuesOf(before, last.0), x.1);
      forall name ensures ValuesOf(init, name) == ValuesOf(before + after, name) {
        RestKeepsValues(s, t, before, x, after, name);
      }
      moves := SameValuesMove(init, before + after);
      moves := MovesBeforeLast(init, moves, last);
      assert init + [last] == s;
      var out := MoveToEnd(before, x, after);
      var back := MovesBack(t, out);
      MovesCompose(s, moves, back);
      moves := moves + back;
    }
  }

  lemma SameLast<V>(a: seq<V>, x: V, b: seq<V>, y: V)
    requires a + [x] == b + [y]
    ensures a == b && x == y
  {
    assert (a + [x])[|a|] == x && (b + [y])[|b|] == y;
    assert (a + [x])[..|a|] == a && (b + [y])[..|b|] == b;
  }

  lemma {:induction false} NoValues<V>(after: seq<(string, V)>, name: string)
    requires forall i :: 0 <= i < |after| ==> after[i].0 != name
    ensures ValuesOf(after, name) == []
  {
    if after != [] {
      NoValues(after[..|after| - 1], name);
    }
  }

  lemma ValuesAround<V>(before: seq<(string, V)>, x: (string, V), after: seq<(string, V)>, name: string)
    requires forall i :: 0 <= i < |after| ==> after[i].0 != x.0
    ensures ValuesOf(before + [x] + after, name) ==
      if x.0 == name then ValuesOf(before + after, name) + [x.1] else ValuesOf(before + after, name)
  {
    ValuesOfConcat(before + [x], after, name);
    ValuesOfConcat(before, after, name);
    assert (before + [x])[..|before|] == before;
    if x.0 == name {
      NoValues(after, name);
      EmptyUnit(ValuesOf(before, name));
      EmptyUnit(ValuesOf(before + [x], name));
    }
  }

  // Without their last pairs of the same name, both forms still have the same values.
  lemma RestKeepsValues<V>(s: seq<(string, V)>, t: seq<(string, V)>, before: seq<(string, V)>, x: (string, V), after: seq<(string, V)>, name: string)
    requires s != [] && x == s[|s| - 1] && t == before + [x] + after
    requires forall i :: 0 <= i < |after| ==> after[i].0 != x.0
    requires ValuesOf(s, name) == ValuesOf(t, name)
    ensures ValuesOf(s[..|s| - 1], name) == ValuesOf(before + after, name)
  {
    ValuesAround(before, x, after, name);
    if name == x.0 {
      SameLast(ValuesOf(s[..|s| - 1], name), x.1, ValuesOf(before + after, name), x.1);
    }
  }

  /** Two lists have the same values for every name exactly when swaps of neighbours with different names
    * turn one into the other. */
  lemma SameValuesExactly<V>(s: seq<(string, V)>, t: seq<(string, V)>)
    ensures SameValues(s, t) <==> exists moves :: Moved(s, moves) == t
  {
    if SameValues(s, t) {
      var moves := SameValuesMove(s, t);
      assert Moved(s, moves) == t;
    }
    forall moves | Moved(s, moves) == t ensures SameValues(s, t) {
      forall name ensures ValuesOf(s, name) == ValuesOf(t, name) {
        MovesKeepValues(s, moves, name);
      }
    }
  }
}
