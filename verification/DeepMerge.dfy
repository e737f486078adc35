/** Deep merging of JSON documents (`json_deep_merge`) and of plugin data (`PluginData::merge`). */
module DeepMerge {
  import opened Json
  import opened StringOrder

  // What merging means: arrays are appended, objects are merged key by key, and
  // anything else is replaced by the other value.
  function Merged(value: Value, other: Value): Value {
    match (value, other)
    case (Array(items), Array(otherItems)) => Array(items + otherItems)
    case (Object(entries), Object(otherEntries)) => Object(
      map k | k in entries.Keys + otherEntries.Keys ::
        if k !in entries then otherEntries[k]
        else if k !in otherEntries then entries[k]
        else Merged(entries[k], otherEntries[k]))
    case _ => other
  }

  // The merged object restricted to the keys already taken from either side.
  ghost function PartlyMerged(a: map<string, Value>, b: map<string, Value>, fromA: set<string>, fromB: set<string>): map<string, Value>
    requires fromA <= a.Keys && fromB <= b.Keys
  {
    map k | k in fromA + fromB ::
      if k !in fromB then a[k] else if k in a then Merged(a[k], b[k]) else b[k]
  }

  lemma TakeEntry(a: map<string, Value>, b: map<string, Value>, fromA: set<string>, k: string)
    requires fromA <= a.Keys && k in a && k !in fromA
    ensures var m := PartlyMerged(a, b, fromA, {});
      k !in m && PartlyMerged(a, b, fromA + {k}, {}) == m[k := a[k]]
  {
  }

  lemma TakeOther(a: map<string, Value>, b: map<string, Value>, fromB: set<string>, k: string)
    requires fromB <= b.Keys && k in b && k !in fromB
    ensures var m := PartlyMerged(a, b, a.Keys, fromB);
      && (k in m <==> k in a) && (k in a ==> m[k] == a[k])
      && PartlyMerged(a, b, a.Keys, fromB + {k}) == m[k := if k in a then Merged(a[k], b[k]) else b[k]]
  {
  }

  lemma AllMerged(a: map<string, Value>, b: map<string, Value>)
    ensures Object(PartlyMerged(a, b, a.Keys, b.Keys)) == Merged(Object(a), Object(b))
  {
  }

  /** The fold over the entries of both objects, one chained after the other. */
  method JsonDeepMerge(value: Value, other: Value) returns (r: Value)
    ensures r == Merged(value, other)
    decreases value
  {
    match (value, other)
    case (Array(items), Array(otherItems)) =>
      r := Array(items + otherItems);
    case (Object(entries), Object(otherEntries)) =>
      var m := MergeEntries(value, other, SortedKeys(entries.Keys), SortedKeys(otherEntries.Keys));
      AllMerged(entries, otherEntries);
      r := Object(m);
    case _ =>
      r := other;
  }

  method MergeEntries(value: Value, other: Value, first: seq<string>, second: seq<string>) returns (m: map<string, Value>)
    requires value.Object? && other.Object?
    requires Distinct(first) && forall k :: k in first <==> k in value.entries.Keys
    requires Distinct(second) && forall k :: k in second <==> k in other.entries.Keys
    ensures m == PartlyMerged(value.entries, other.entries, value.entries.Keys, other.entries.Keys)
    decreases value, 0
  {
    var entries, otherEntries, n := value.entries, other.entries, |first|;
    m := map[];
    ghost var fromA, fromB := {}, {};
    for i := 0 to n + |second|
      invariant fromA == FirstKeys(first, if i < n then i else n) <= entries.Keys
      invariant fromB == FirstKeys(second, if i < n then 0 else i - n) <= otherEntries.Keys
      invariant m == PartlyMerged(entries, otherEntries, fromA, fromB)
    {
      var k := if i < n then first[i] else second[i - n];
      var v := if i < n then entries[k] else otherEntries[k];
      if i < n {
        FirstKeysStep(first, i);
        TakeEntry(entries, otherEntries, fromA, k);
        fromA := fromA + {k};
      } else {
        FirstKeysStep(second, i - n);
        FirstKeysAll(first, entries.Keys);
        TakeOther(entries, otherEntries, fromB, k);
        fromB := fromB + {k};
      }
      if k in m {
        v := JsonDeepMerge(m[k], v);
      }
      m := m[k := v];
    }
    FirstKeysAll(first, entries.Keys);
    FirstKeysAll(second, otherEntries.Keys);
  }
}
