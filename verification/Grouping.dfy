/** Collecting the values of equal keys, in order (`group_by`, and the folds that work like it). */
module Grouping {

  // The values paired with a key, in order.
  function ValuesOf<K(==), V>(items: seq<(K, V)>, key: K): seq<V> {
    if items == [] then [] else
      var n := |items| - 1;
      var so := ValuesOf(items[..n], key);
      if items[n].0 == key then so + [items[n].1] else so
  }

  function KeysOf<K, V>(items: seq<(K, V)>): set<K> {
    set i | 0 <= i < |items| :: items[i].0
  }

  function Grouped<K, V>(items: seq<(K, V)>): map<K, seq<V>> {
    map k | k in KeysOf(items) :: ValuesOf(items, k)
  }

  lemma {:induction false} ValuesOfConcat<K, V>(a: seq<(K, V)>, b: seq<(K, V)>, key: K)
    ensures ValuesOf(a + b, key) == ValuesOf(a, key) + ValuesOf(b, key)
  {
    if b == [] {
      assert a + b == a;
    } else {
      var n := |b| - 1;
      assert (a + b)[..|a| + n] == a + b[..n];
      ValuesOfConcat(a, b[..n], key);
    }
  }

  lemma {:induction false} ValuesOfPresent<K, V>(items: seq<(K, V)>, key: K)
    ensures key in KeysOf(items) <==> ValuesOf(items, key) != []
  {
    if items != [] {
      var n := |items| - 1;
      ValuesOfPresent(items[..n], key);
      assert KeysOf(items) == KeysOf(items[..n]) + {items[n].0} by {
        assert forall i :: 0 <= i < n ==> items[i] == items[..n][i];
      }
    }
  }

  // Pushing a value onto the entry of its key, which starts out empty.
  function Pushed<K, V>(m: map<K, seq<V>>, key: K, value: V): map<K, seq<V>> {
    m[key := (if key in m then m[key] else []) + [value]]
  }

  lemma GroupedMore<K, V>(items: seq<(K, V)>, item: (K, V))
    ensures Grouped(items + [item]) == Pushed(Grouped(items), item.0, item.1)
  {
    var more := items + [item];
    assert more[..|items|] == items;
    assert KeysOf(more) == KeysOf(items) + {item.0} by {
      assert forall i :: 0 <= i < |items| ==> more[i] == items[i];
      assert more[|items|] == item;
    }
    var pushed := Pushed(Grouped(items), item.0, item.1);
    forall k | k in KeysOf(more) ensures ValuesOf(more, k) == pushed[k] {
      ValuesOfPresent(items, item.0);
    }
  }

  // The items with the keys a function gives them.
  function Keyed<T, K>(items: seq<T>, f: T -> K): seq<(K, T)> {
    seq(|items|, i requires 0 <= i < |items| => (f(items[i]), items[i]))
  }

  /** `group_by`: fills a map, pushing each item onto the list of its key. */
  method GroupBy<T, K(==)>(items: seq<T>, f: T -> K) returns (m: map<K, seq<T>>)
    ensures m == Grouped(Keyed(items, f))
  {
    m := map[];
    for i := 0 to |items|
      invariant m == Grouped(Keyed(items, f)[..i])
    {
      var key := f(items[i]);
      GroupedMore(Keyed(items, f)[..i], (key, items[i]));
      assert Keyed(items, f)[..i + 1] == Keyed(items, f)[..i] + [(key, items[i])];
      m := Pushed(m, key, items[i]);
    }
    assert Keyed(items, f)[..|items|] == Keyed(items, f);
  }
}
