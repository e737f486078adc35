/** The cartesian product of two slices as a stateful iterator (`CartesianProductIterator`). */
module CartesianProduct {

  // What one call of `next` does; asking again after the end can index past the first slice.
  datatype Step<+T> = Yielded(item: T) | Finished | OutOfBounds

  // Every pair, the first slice varying slowest.
  function Product<A, B>(v1: seq<A>, v2: seq<B>): seq<(A, B)> {
    if v1 == [] then [] else Row(v1[0], v2) + Product(v1[1..], v2)
  }

  function Row<A, B>(x: A, v2: seq<B>): (r: seq<(A, B)>)
    ensures |r| == |v2| && forall j :: 0 <= j < |r| ==> r[j] == (x, v2[j])
  {
    seq(|v2|, j requires 0 <= j < |v2| => (x, v2[j]))
  }

  // The pair at row `i` and column `j` sits at position `i * |v2| + j`.
  lemma {:induction false} ProductAt<A, B>(v1: seq<A>, v2: seq<B>, i: nat, j: nat)
    requires i < |v1| && j < |v2|
    ensures |Product(v1, v2)| == |v1| * |v2|
    ensures i * |v2| + j < |v1| * |v2|
    ensures Product(v1, v2)[i * |v2| + j] == (v1[i], v2[j])
  {
    var n := |v2|;
    ProductSize(v1, v2);
    Below(i, j, |v1|, n);
    if i == 0 {
      assert 0 * n == 0;
    } else {
      ProductAt(v1[1..], v2, i - 1, j);
      assert i * n + j == n + ((i - 1) * n + j);
    }
  }

  lemma {:induction false} ProductSize<A, B>(v1: seq<A>, v2: seq<B>)
    ensures |Product(v1, v2)| == |v1| * |v2|
  {
    if v1 != [] {
      ProductSize(v1[1..], v2);
      assert |v1| * |v2| == |v2| + |v1[1..]| * |v2|;
    }
  }

  lemma Below(i: nat, j: nat, m: nat, n: nat)
    requires i < m && j < n
    ensures i * n + j < m * n
  {
    assert i * n + n == (i + 1) * n <= m * n;
  }

  lemma QuotientBelow(k: nat, m: nat, n: nat)
    requires k < m * n
    ensures n > 0 && k / n < m && k == (k / n) * n + k % n
  {
    assert m * 0 == 0;
  }

  // The k-th pair is found by division: row `k / n`, column `k % n`.
  lemma ProductByDivision<A, B>(v1: seq<A>, v2: seq<B>, k: nat)
    requires k < |v1| * |v2|
    ensures |v2| > 0 && k / |v2| < |v1|
    ensures k < |Product(v1, v2)| && Product(v1, v2)[k] == (v1[k / |v2|], v2[k % |v2|])
  {
    QuotientBelow(k, |v1|, |v2|);
    ProductAt(v1, v2, k / |v2|, k % |v2|);
  }

  lemma NextRow(i: nat, n: nat)
    ensures (i + 1) * n == i * n + n
  {
  }

  // What comes after `j` pairs of row `i` were handed out.
  lemma After<A, B>(v1: seq<A>, v2: seq<B>, i: nat, j: nat)
    requires i < |v1| && j <= |v2| && v2 != []
    ensures var p, k := Product(v1, v2), i * |v2| + j;
      if j < |v2| then k < |p| && p[k] == (v1[i], v2[j])
      else if i + 1 < |v1| then k < |p| && p[k] == (v1[i + 1], v2[0])
      else k == |p|
  {
    if j < |v2| {
      ProductAt(v1, v2, i, j);
    } else {
      NextRow(i, |v2|);
      if i + 1 < |v1| {
        ProductAt(v1, v2, i + 1, 0);
      } else {
        ProductSize(v1, v2);
      }
    }
  }

  class CartesianProductIterator<A, B> {
    const v1: seq<A>
    const v2: seq<B>
    var v1Idx: nat
    var v2Idx: nat

    constructor (v1: seq<A>, v2: seq<B>)
      ensures this.v1 == v1 && this.v2 == v2
      ensures Live() && Taken() == 0
    {
      this.v1, this.v2 := v1, v2;
      v1Idx, v2Idx := 0, 0;
    }

    // The number of pairs the indices say were handed out.
    ghost function Taken(): nat
      reads this
    {
      v1Idx * |v2| + v2Idx
    }

    // No call has run past the last pair yet.
    ghost predicate Live()
      reads this
    {
      if v1 == [] || v2 == [] then v1Idx == v2Idx == 0 else v1Idx < |v1| && v2Idx <= |v2|
    }

    // Some call has answered that there are no more pairs, though there were some.
    ghost predicate Ended()
      reads this
    {
      v1 != [] && v2 != [] && v1Idx == |v1| && 1 <= v2Idx <= |v2|
    }

    // The end was just answered for the first time.
    ghost predicate JustEnded()
      reads this
    {
      if v1 == [] || v2 == [] then Live() else Ended() && v2Idx == 1
    }

    /** Hands out the pair numbered by the calls so far, and nothing after the last one. */
    method Next() returns (r: Step<(A, B)>)
      requires Live() || Ended()
      modifies this
      ensures old(Live()) && old(Taken()) < |Product(v1, v2)| ==>
        r == Yielded(Product(v1, v2)[old(Taken())]) && Live() && Taken() == old(Taken()) + 1
      ensures old(Live()) && old(Taken()) >= |Product(v1, v2)| ==> r == Finished && JustEnded()
      // Once ended it stays ended: the column grows up to its bound, and only there `next` answers again.
      ensures old(Ended()) ==> Ended()
      ensures old(Ended()) && old(v2Idx) == |v2| ==> r == Finished && v2Idx == |v2|
      ensures old(Ended()) && old(v2Idx) < |v2| ==> r == OutOfBounds && v2Idx == old(v2Idx) + 1
    {
      ProductSize(v1, v2);
      if |v1| == 0 || |v2| == 0 || (v1Idx == |v1| && v2Idx == |v2|) {
        r := Finished;
      } else if v2Idx == |v2| {
        After(v1, v2, v1Idx, v2Idx);
        NextRow(v1Idx, |v2|);
        v2Idx := 1;
        v1Idx := v1Idx + 1;
        if v1Idx == |v1| {
          r := Finished;
        } else {
          r := Yielded((v1[v1Idx], v2[v2Idx - 1]));
        }
      } else {
        if v1Idx < |v1| {
          After(v1, v2, v1Idx, v2Idx);
        }
        v2Idx := v2Idx + 1;
        r := if v1Idx < |v1| then Yielded((v1[v1Idx], v2[v2Idx - 1])) else OutOfBounds;
      }
    }

    /** Draining a new iterator yields exactly the product, in order. */
    method Collect() returns (items: seq<(A, B)>)
      requires Live() && Taken() == 0
      modifies this
      ensures items == Product(v1, v2)
      ensures JustEnded()
    {
      items := [];
      var step := Next();
      while step.Yielded?
        invariant |items| <= |Product(v1, v2)| && items == Product(v1, v2)[..|items|]
        invariant step.Yielded? ==> |items| < |Product(v1, v2)| && step.item == Product(v1, v2)[|items|]
        invariant step.Yielded? ==> Live() && Taken() == |items| + 1
        invariant !step.Yielded? ==> items == Product(v1, v2) && JustEnded()
        decreases |Product(v1, v2)| - |items|, step.Yielded?
      {
        items := items + [step.item];
        step := Next();
      }
    }
  }

  /** The call after the first `None` is out of bounds exactly when there were pairs and the second slice has
    * more than one item; otherwise it and every later one answer `None` again. */
  method AskAgain<A, B>(v1: seq<A>, v2: seq<B>, times: nat) returns (steps: seq<Step<(A, B)>>)
    ensures |steps| == times
    ensures times > 0 ==> (steps[0] == OutOfBounds <==> v1 != [] && v2 != [] && |v2| > 1)
    ensures v1 == [] || |v2| <= 1 ==> forall i :: 0 <= i < times ==> steps[i] == Finished
  {
    var pairs := new CartesianProductIterator(v1, v2);
    var items := pairs.Collect();
    steps := [];
    for i := 0 to times
      invariant |steps| == i && (if v1 == [] || v2 == [] then pairs.Live() else pairs.Ended())
      invariant i == 0 || v1 == [] || |v2| <= 1 ==> pairs.JustEnded()
      invariant i > 0 ==> (steps[0] == OutOfBounds <==> v1 != [] && v2 != [] && |v2| > 1)
      invariant v1 == [] || |v2| <= 1 ==> forall j :: 0 <= j < i ==> steps[j] == Finished
    {
      var step := pairs.Next();
      steps := steps + [step];
    }
  }
}
