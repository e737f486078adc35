/** What a deep merge holds at every position that is reached through keys. */
module MergedPositions {
  import opened Wrappers
  import opened Json
  import opened DeepMerge

  // The value that a document holds below these keys.
  function Inside(v: Value, keys: seq<string>): Option<Value>
    decreases |keys|
  {
    if keys == [] then Some(v)
    else if v.Object? && keys[0] in v.entries then Inside(v.entries[keys[0]], keys[1..])
    else None
  }

  // Both arrays, one after the other.
  predicate IsAppended(m: Value, x: Value, y: Value)
    requires x.Array? && y.Array?
  {
    && m.Array? && |m.items| == |x.items| + |y.items|
    && m.items[..|x.items|] == x.items && m.items[|x.items|..] == y.items
  }

  // All the keys of both objects.
  predicate HasBothKeys(m: Value, x: Value, y: Value)
    requires x.Object? && y.Object?
  {
    m.Object? && m.entries.Keys == x.entries.Keys + y.entries.Keys
  }

  // Where both documents hold something, this one holds the first array followed by the second one, an object with
  // the keys of both and the values that only one has, or what the other document holds.
  predicate HoldsMerge(a: Value, b: Value, m: Value, keys: seq<string>)
    requires Inside(a, keys).Some? && Inside(b, keys).Some?
  {
    && Inside(m, keys).Some?
    && var x, y, z := Inside(a, keys).value, Inside(b, keys).value, Inside(m, keys).value;
       if x.Array? && y.Array? then IsAppended(z, x, y)
       else if x.Object? && y.Object? then
         && HasBothKeys(z, x, y)
         && (forall k | k in x.entries && k !in y.entries :: z.entries[k] == x.entries[k])
         && (forall k | k in y.entries && k !in x.entries :: z.entries[k] == y.entries[k])
       else z == y
  }

  /** The merge does, at every position that both documents share. */
  lemma {:induction false} MergedHolds(a: Value, b: Value, keys: seq<string>)
    requires Inside(a, keys).Some? && Inside(b, keys).Some?
    ensures HoldsMerge(a, b, Merged(a, b), keys)
    decreases |keys|
  {
    if keys != [] {
      MergedHolds(a.entries[keys[0]], b.entries[keys[0]], keys[1..]);
    }
  }

  // Nothing else does.
  lemma {:induction false} MergedIsAll(a: Value, b: Value, m: Value)
    requires forall keys :: Inside(a, keys).Some? && Inside(b, keys).Some? ==> HoldsMerge(a, b, m, keys)
    ensures m == Merged(a, b)
    decreases a
  {
    assert HoldsMerge(a, b, m, []);
    if a.Array? && b.Array? {
      assert m.items == m.items[..|a.items|] + m.items[|a.items|..];
    } else if a.Object? && b.Object? {
      var r := Merged(a, b).entries;
      forall k | k in m.entries ensures m.entries[k] == r[k] {
        if k in a.entries && k in b.entries {
          forall keys | Inside(a.entries[k], keys).Some? && Inside(b.entries[k], keys).Some?
            ensures HoldsMerge(a.entries[k], b.entries[k], m.entries[k], keys)
          {
            assert ([k] + keys)[0] == k && ([k] + keys)[1..] == keys;
            assert HoldsMerge(a, b, m, [k] + keys);
          }
          MergedIsAll(a.entries[k], b.entries[k], m.entries[k]);
        }
      }
      assert m.entries == r;
    }
  }

  /** A document is the merge exactly when it holds this at every position that both documents share. */
  lemma MergedExactly(a: Value, b: Value, m: Value)
    ensures m == Merged(a, b) <==>
      forall keys :: Inside(a, keys).Some? && Inside(b, keys).Some? ==> HoldsMerge(a, b, m, keys)
  {
    if m == Merged(a, b) {
      forall keys | Inside(a, keys).Some? && Inside(b, keys).Some? ensures HoldsMerge(a, b, m, keys) {
        MergedHolds(a, b, keys);
      }
    } else if forall keys :: Inside(a, keys).Some? && Inside(b, keys).Some? ==> HoldsMerge(a, b, m, keys) {
      MergedIsAll(a, b, m);
    }
  }
}
