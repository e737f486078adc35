/** Facts about sequences that the solver finds slowly on its own. */
module Sequences {
  lemma Associate<T>(a: seq<T>, b: seq<T>, c: seq<T>)
    ensures (a + b) + c == a + (b + c)
  {
  }

  lemma EmptyUnit<T>(a: seq<T>)
    ensures a + [] == a && [] + a == a
  {
  }
}
