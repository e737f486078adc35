/** Laws of deep merging: units, keys, and exactly when the grouping of three merges matters. */
module DeepMergeLaws {
  import opened Json
  import opened DeepMerge

  lemma {:induction false} EmptyObjectIsUnit(v: Value)
    requires v.Object?
    ensures Merged(Object(map[]), v) == v && Merged(v, Object(map[])) == v
  {
    assert Merged(Object(map[]), v).entries == v.entries;
    assert Merged(v, Object(map[])).entries == v.entries;
  }

  // Merging keeps every key of both objects, keeps what only one side has, and
  // merges what both have.
  lemma MergedEntries(a: Value, b: Value)
    requires a.Object? && b.Object?
    ensures Merged(a, b).Object?
    ensures var m := Merged(a, b).entries;
      && m.Keys == a.entries.Keys + b.entries.Keys
      && (forall k :: k in a.entries && k !in b.entries ==> m[k] == a.entries[k])
      && (forall k :: k in b.entries && k !in a.entries ==> m[k] == b.entries[k])
      && (forall k :: k in a.entries && k in b.entries ==> m[k] == Merged(a.entries[k], b.entries[k]))
  {
  }

  // Merging `a` into `b` adds nothing to `b`.
  predicate Absorbs(a: Value, b: Value) {
    match (a, b)
    case (Array(items), Array(_)) => items == []
    case (Object(m), Object(n)) => forall k | k in m :: k in n && Absorbs(m[k], n[k])
    case _ => true
  }

  lemma {:induction false} AbsorbsExactly(a: Value, b: Value)
    ensures Merged(a, b) == b <==> Absorbs(a, b)
    decreases a
  {
    match (a, b)
    case (Array(items), Array(others)) =>
      if items + others == others { assert |items + others| == |others|; }
    case (Object(m), Object(n)) =>
      var r := Merged(a, b).entries;
      forall k | k in m && k in n ensures r[k] == n[k] <==> Absorbs(m[k], n[k]) {
        AbsorbsExactly(m[k], n[k]);
      }
      if Absorbs(a, b) {
        assert r == n;
      } else {
        var k :| k in m && !(k in n && Absorbs(m[k], n[k]));
        assert k in r;
      }
    case _ =>
  }

  // Where the middle document is of another kind, the outer two must not interact.
  predicate Associates(a: Value, b: Value, c: Value) {
    if a.Object? && b.Object? && c.Object? then
      forall k | k in a.entries && k in b.entries && k in c.entries ::
        Associates(a.entries[k], b.entries[k], c.entries[k])
    else (SameKind(a, c) && !SameKind(b, c)) ==> Absorbs(a, c)
  }

  lemma {:induction false} AssociatesExactly(a: Value, b: Value, c: Value)
    ensures Merged(Merged(a, b), c) == Merged(a, Merged(b, c)) <==> Associates(a, b, c)
    decreases a
  {
    if a.Object? && b.Object? && c.Object? {
      var l, r := Merged(Merged(a, b), c).entries, Merged(a, Merged(b, c)).entries;
      assert l.Keys == r.Keys;
      forall k | k in l
        ensures l[k] == r[k] <==> (k in a.entries && k in b.entries && k in c.entries ==>
          Associates(a.entries[k], b.entries[k], c.entries[k]))
      {
        if k in a.entries && k in b.entries && k in c.entries {
          AssociatesExactly(a.entries[k], b.entries[k], c.entries[k]);
        }
      }
      if Associates(a, b, c) {
        assert l == r;
      } else {
        var k :| k in a.entries && k in b.entries && k in c.entries &&
          !Associates(a.entries[k], b.entries[k], c.entries[k]);
        assert k in l;
      }
    } else {
      AbsorbsExactly(a, c);
      if a.Array? && b.Array? && c.Array? {
        assert (a.items + b.items) + c.items == a.items + (b.items + c.items);
      }
    }
  }

  // At every path two of the documents share, they hold values of one kind.
  predicate ShapeCompatible(a: Value, b: Value) {
    SameKind(a, b) && (a.Object? ==> forall k | k in a.entries && k in b.entries ::
      ShapeCompatible(a.entries[k], b.entries[k]))
  }

  lemma {:induction false} ShapeCompatibleAssociates(a: Value, b: Value, c: Value)
    requires ShapeCompatible(a, b) && ShapeCompatible(b, c) && ShapeCompatible(a, c)
    ensures Merged(Merged(a, b), c) == Merged(a, Merged(b, c))
  {
    CompatibleAssociates(a, b, c);
    AssociatesExactly(a, b, c);
  }

  lemma {:induction false} CompatibleAssociates(a: Value, b: Value, c: Value)
    requires ShapeCompatible(a, b) && ShapeCompatible(b, c)
    ensures Associates(a, b, c)
    decreases a
  {
    if a.Object? {
      forall k | k in a.entries && k in b.entries && k in c.entries
        ensures Associates(a.entries[k], b.entries[k], c.entries[k])
      {
        CompatibleAssociates(a.entries[k], b.entries[k], c.entries[k]);
      }
    }
  }

  // Merging is not associative in general: a null between two arrays cuts the first one off.
  lemma NotAssociative()
    ensures var a, b, c := Array([Bool(true)]), Null, Array([]);
      Merged(Merged(a, b), c) != Merged(a, Merged(b, c))
  {
    AssociatesExactly(Array([Bool(true)]), Null, Array([]));
  }
}
