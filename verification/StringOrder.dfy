/** The order of Rust's `String` (by code point) and the key order in which a `BTreeMap` is walked. */
module StringOrder {

  // Strict lexicographic order.
  predicate Below(a: string, b: string) {
    BelowFrom(a, b, 0)
  }

  predicate BelowFrom(a: string, b: string, i: nat)
    requires i <= |a| && i <= |b|
    decreases |a| - i
  {
    i < |b| && (i == |a| || a[i] < b[i] || (a[i] == b[i] && BelowFrom(a, b, i + 1)))
  }

  lemma {:induction false} BelowIrreflexiveFrom(a: string, i: nat)
    requires i <= |a|
    ensures !BelowFrom(a, a, i)
    decreases |a| - i
  {
    if i < |a| {
      BelowIrreflexiveFrom(a, i + 1);
    }
  }

  lemma BelowIrreflexive(a: string)
    ensures !Below(a, a)
  {
    BelowIrreflexiveFrom(a, 0);
  }

  lemma {:induction false} BelowTransitiveFrom(a: string, b: string, c: string, i: nat)
    requires i <= |a| && i <= |b| && i <= |c|
    requires BelowFrom(a, b, i) && BelowFrom(b, c, i)
    ensures BelowFrom(a, c, i)
    decreases |a| - i
  {
    if i < |a| && a[i] == b[i] == c[i] {
      BelowTransitiveFrom(a, b, c, i + 1);
    }
  }

  lemma BelowTransitive(a: string, b: string, c: string)
    requires Below(a, b) && Below(b, c)
    ensures Below(a, c)
  {
    BelowTransitiveFrom(a, b, c, 0);
  }

  lemma BelowAsymmetric(a: string, b: string)
    ensures !(Below(a, b) && Below(b, a))
  {
    if Below(a, b) && Below(b, a) {
      BelowTransitive(a, b, a);
      BelowIrreflexive(a);
    }
  }

  lemma {:induction false} BelowTotalFrom(a: string, b: string, i: nat)
    requires i <= |a| && i <= |b| && a[..i] == b[..i]
    ensures a == b || BelowFrom(a, b, i) || BelowFrom(b, a, i)
    decreases |a| - i
  {
    if i < |a| && i < |b| && a[i] == b[i] {
      assert a[..i + 1] == a[..i] + [a[i]] && b[..i + 1] == b[..i] + [b[i]];
      BelowTotalFrom(a, b, i + 1);
    } else if i == |a| && i == |b| {
      assert a[..i] == a && b[..i] == b;
    }
  }

  lemma BelowTotal(a: string, b: string)
    ensures a == b || Below(a, b) || Below(b, a)
  {
    BelowTotalFrom(a, b, 0);
  }

  predicate IsLeast(m: string, s: set<string>) {
    m in s && forall k | k in s :: k != m ==> Below(m, k)
  }

  lemma {:induction false} LeastExists(s: set<string>)
    requires s != {}
    ensures exists m :: IsLeast(m, s)
  {
    var x :| x in s;
    if s == {x} {
      assert IsLeast(x, s);
    } else {
      LeastExists(s - {x});
      var m :| IsLeast(m, s - {x});
      BelowTotal(x, m);
      if Below(x, m) {
        forall k | k in s && k != x ensures Below(x, k) {
          if k != m { BelowTransitive(x, m, k); }
        }
        assert IsLeast(x, s);
      } else {
        assert IsLeast(m, s);
      }
    }
  }

  lemma LeastUnique(s: set<string>, m: string, n: string)
    requires IsLeast(m, s) && IsLeast(n, s)
    ensures m == n
  {
    if m != n {
      BelowTransitive(m, n, m);
      BelowIrreflexive(m);
    }
  }

  // The first key of a `BTreeMap` with these keys.
  function Least(s: set<string>): (m: string)
    requires s != {}
    ensures IsLeast(m, s)
  {
    LeastExists(s);
    assert forall m, n :: IsLeast(m, s) && IsLeast(n, s) ==> m == n by {
      forall m, n | IsLeast(m, s) && IsLeast(n, s) ensures m == n { LeastUnique(s, m, n); }
    }
    var m :| m in s && IsLeast(m, s);
    m
  }

  predicate Ascending(keys: seq<string>) {
    forall i, j :: 0 <= i < j < |keys| ==> Below(keys[i], keys[j])
  }

  predicate Distinct(keys: seq<string>) {
    forall i, j :: 0 <= i < j < |keys| ==> keys[i] != keys[j]
  }

  // The keys of a `BTreeMap` in iteration order.
  function SortedKeys(s: set<string>): (keys: seq<string>)
    ensures forall k :: k in keys <==> k in s
    ensures Distinct(keys)
  {
    if s == {} then [] else
      var m := Least(s);
      [m] + SortedKeys(s - {m})
  }

  lemma {:induction false} SortedKeysAscending(s: set<string>)
    ensures Ascending(SortedKeys(s))
  {
    if s != {} {
      SortedKeysAscending(s - {Least(s)});
    }
  }

  // The first `i` of a list of keys.
  ghost function FirstKeys(keys: seq<string>, i: nat): set<string>
    requires i <= |keys|
  {
    set j | 0 <= j < i :: keys[j]
  }

  lemma FirstKeysStep(keys: seq<string>, i: nat)
    requires i < |keys| && Distinct(keys)
    ensures FirstKeys(keys, i + 1) == FirstKeys(keys, i) + {keys[i]}
    ensures keys[i] in keys && keys[i] !in FirstKeys(keys, i)
  {
  }

  lemma FirstKeysAll(keys: seq<string>, s: set<string>)
    requires forall k :: k in keys <==> k in s
    ensures FirstKeys(keys, |keys|) == s
  {
  }
}
