/** Which keys a merge keeps, and when its result is sorted. */
module MergeKeyLaws {
  import opened MessagePacts
  import opened MessagePactLaws

  ghost predicate AllAbove(k: Key, keys: seq<Key>) {
    forall x :: x in keys ==> KeyBelow(k, x)
  }

  // Strictly sorted.
  ghost predicate Ascending(keys: seq<Key>) {
    keys == [] || (AllAbove(keys[0], keys[1..]) && Ascending(keys[1..]))
  }

  ghost function Descriptions(keys: seq<Key>): set<string> {
    set i | 0 <= i < |keys| :: keys[i].description
  }

  lemma DescriptionsCons(keys: seq<Key>)
    requires keys != []
    ensures Descriptions(keys) == {keys[0].description} + Descriptions(keys[1..])
  {
    assert forall i :: 1 <= i < |keys| ==> keys[i] == keys[1..][i - 1];
  }

  // Nothing is made up, and nothing of the other side is lost.
  lemma {:induction false} MergeKeepsKeys(a: seq<Key>, b: seq<Key>, x: Key)
    ensures x in MergeKeys(a, b) ==> x in a || x in b
    ensures x in b ==> x in MergeKeys(a, b)
    decreases |a| + |b|
  {
    if a != [] && b != [] {
      match CompareHeads(a[0], b[0])
      case Less => MergeKeepsKeys(a[1..], b, x);
      case Greater => MergeKeepsKeys(a, b[1..], x);
      case Equal => MergeKeepsKeys(a[1..], b[1..], x);
    }
  }

  // Nor is a key with states, whatever the order of either side.
  lemma {:induction false} StatefulIsKept(a: seq<Key>, b: seq<Key>, x: Key)
    requires x in a && x.states != []
    ensures x in MergeKeys(a, b)
    decreases |a| + |b|
  {
    if b != [] {
      CompareStringsSound(a[0].description, b[0].description);
      match CompareHeads(a[0], b[0])
      case Less =>
        if x != a[0] {
          StatefulIsKept(a[1..], b, x);
        }
      case Greater => StatefulIsKept(a, b[1..], x);
      case Equal =>
        if x == a[0] {
          CompareListsSound(x.states, b[0].states);
        } else {
          StatefulIsKept(a[1..], b[1..], x);
        }
    }
  }

  // No description of either side is lost.
  lemma {:induction false} MergeKeepsDescriptions(a: seq<Key>, b: seq<Key>)
    ensures Descriptions(MergeKeys(a, b)) == Descriptions(a) + Descriptions(b)
    decreases |a| + |b|
  {
    if a != [] && b != [] {
      var m := MergeKeys(a, b);
      DescriptionsCons(m);
      CompareStringsSound(a[0].description, b[0].description);
      match CompareHeads(a[0], b[0])
      case Less =>
        DescriptionsCons(a);
        MergeKeepsDescriptions(a[1..], b);
      case Greater =>
        DescriptionsCons(b);
        MergeKeepsDescriptions(a, b[1..]);
      case Equal =>
        DescriptionsCons(a);
        DescriptionsCons(b);
        MergeKeepsDescriptions(a[1..], b[1..]);
    }
  }

  // A stateless key that meets its description on the other side finds a stateless one there.
  predicate CoveredKey(k: Key, b: seq<Key>) {
    k.states == [] && (exists y | y in b :: y.description == k.description) ==> k in b
  }

  ghost predicate Covered(a: seq<Key>, b: seq<Key>) {
    forall k :: k in a ==> CoveredKey(k, b)
  }

  // A stateless key comes first among the keys of its description.
  lemma StatelessFirst(k: Key, y: Key)
    requires k.states == [] && k.description == y.description
    ensures !KeyBelow(y, k)
  {
  }

  // On the heads of sorted keys that are covered, the comparison is that of the keys.
  lemma CompareHeadsByKey(a: seq<Key>, b: seq<Key>)
    requires a != [] && b != [] && Ascending(b) && CoveredKey(a[0], b)
    ensures CompareHeads(a[0], b[0]) == CompareKeys(a[0], b[0])
  {
    CompareStringsSound(a[0].description, b[0].description);
    if a[0].description == b[0].description && a[0].states == [] {
      assert a[0] in b;
      if a[0] != b[0] {
        assert a[0] in b[1..];
        StatelessFirst(a[0], b[0]);
      }
    }
  }

  lemma AboveTransitive(k: Key, keys: seq<Key>)
    requires Ascending(keys) && keys != [] && KeyBelow(k, keys[0])
    ensures AllAbove(k, keys)
  {
    forall x | x in keys ensures KeyBelow(k, x) {
      if x != keys[0] {
        assert x in keys[1..];
        KeyBelowTransitive(k, keys[0], x);
      }
    }
  }

  // Dropping a head that is below everything else keeps the rest covered.
  lemma CoveredWithoutHead(a: seq<Key>, b: seq<Key>, h: Key)
    requires b != [] && h == b[0] && Covered(a, b) && AllAbove(h, a)
    ensures Covered(a, b[1..])
  {
    forall k | k in a ensures CoveredKey(k, b[1..]) {
      CompareKeysSound(h, k);
      if k.states == [] && exists y | y in b[1..] :: y.description == k.description {
        assert k in b && k != h;
      }
    }
  }

  // The merge of sorted keys: when covered, it is sorted and has the keys of both.
  lemma {:induction false} CoveredMerge(a: seq<Key>, b: seq<Key>, x: Key)
    requires Ascending(a) && Ascending(b) && Covered(a, b)
    ensures Ascending(MergeKeys(a, b))
    ensures x in MergeKeys(a, b) <==> x in a || x in b
    decreases |a| + |b|, 0
  {
    if a != [] && b != [] {
      CompareHeadsByKey(a, b);
      CompareKeysSound(a[0], b[0]);
      CompareKeysSound(b[0], a[0]);
      match CompareHeads(a[0], b[0])
      case Less =>
        AboveTransitive(a[0], b);
        MergeHead(a[0], a[1..], b, x);
      case Greater =>
        AboveTransitive(b[0], a);
        CoveredWithoutHead(a, b, b[0]);
        MergeHead(b[0], a, b[1..], x);
      case Equal =>
        assert Covered(a[1..], b) by { assert forall k :: k in a[1..] ==> k in a; }
        CoveredWithoutHead(a[1..], b, b[0]);
        MergeHead(b[0], a[1..], b[1..], x);
    }
  }

  lemma {:induction false} MergeHead(h: Key, a: seq<Key>, b: seq<Key>, x: Key)
    requires Ascending(a) && Ascending(b) && Covered(a, b)
    requires AllAbove(h, a) && AllAbove(h, b)
    ensures Ascending([h] + MergeKeys(a, b))
    ensures x in MergeKeys(a, b) <==> x in a || x in b
    decreases |a| + |b|, 1
  {
    CoveredMerge(a, b, x);
    var m := MergeKeys(a, b);
    forall y | y in m ensures KeyBelow(h, y) {
      MergeKeepsKeys(a, b, y);
    }
    assert ([h] + m)[1..] == m;
  }

  lemma StatelessAbove(h: Key, k: Key)
    requires k.states == [] && KeyBelow(h, k)
    ensures h.description != k.description && CompareStrings(h.description, k.description) == Less
  {
    CompareListsSound(h.states, k.states);
  }

  // A head below a key has a description no later than the key's.
  lemma HeadDescription(b: seq<Key>, y: Key)
    requires Ascending(b) && y in b
    ensures b[0].description == y.description || CompareStrings(b[0].description, y.description) == Less
  {
    if y != b[0] {
      assert y in b[1..];
    }
  }

  // A key that is not covered is lost: the other side's key of the same description replaces it.
  lemma {:induction false} UncoveredIsLost(a: seq<Key>, b: seq<Key>, k: Key)
    requires Ascending(a) && Ascending(b) && k in a && !CoveredKey(k, b)
    ensures k !in MergeKeys(a, b)
    decreases |a| + |b|
  {
    var y :| y in b && y.description == k.description;
    var h, g := a[0], b[0];
    CompareStringsSound(h.description, g.description);
    HeadDescription(b, y);
    CompareKeysSound(k, k);
    if h != k {
      assert k in a[1..];
      StatelessAbove(h, k);
      if g.description == k.description || CompareHeads(h, g) == Less {
        CompareStringsSound(g.description, h.description);
        UncoveredIsLost(a[1..], b, k);
      } else {
        assert y in b[1..];
        if CompareHeads(h, g) == Greater {
          UncoveredIsLost(a, b[1..], k);
        } else {
          UncoveredIsLost(a[1..], b[1..], k);
        }
      }
    } else if g.description == k.description {
      MergeKeepsKeys(a[1..], b[1..], k);
    } else {
      assert y in b[1..];
      CompareStringsSound(k.description, g.description);
      UncoveredIsLost(a, b[1..], k);
    }
  }

  // The merge of sorted keys has the keys of both sides exactly when the left ones are covered.
  lemma MergeHasAllKeysExactly(a: seq<Key>, b: seq<Key>)
    requires Ascending(a) && Ascending(b)
    ensures (forall x :: x in a || x in b ==> x in MergeKeys(a, b)) <==> Covered(a, b)
    ensures Covered(a, b) ==> Ascending(MergeKeys(a, b))
  {
    if Covered(a, b) {
      forall x ensures x in MergeKeys(a, b) <==> x in a || x in b {
        CoveredMerge(a, b, x);
      }
      CoveredMerge(a, b, Key("", []));
    } else {
      var k :| k in a && !CoveredKey(k, b);
      UncoveredIsLost(a, b, k);
    }
  }
}
