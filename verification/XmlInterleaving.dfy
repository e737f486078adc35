/** The order of children with different names, at any depth of the expected and the actual element. */
module XmlInterleaving {
  import opened Grouping
  import opened Traces
  import opened StringOrder
  import opened Paths
  import opened Rules
  import opened Contexts
  import opened Xml
  import opened XmlVerdicts
  import opened XmlLaws

  // The two differ at most in the order of their attributes and, at any depth, in how children of different
  // names are interleaved.
  ghost predicate Reinterleaved(a: Element, b: Element)
    decreases a, 2
  {
    && a.name == b.name && AttributeMap(a.attributes) == AttributeMap(b.attributes)
    && |a.children| == |b.children| && TextOf(a.children) == TextOf(b.children)
    && forall name :: NameReinterleaved(name, a, b)
  }

  ghost predicate NameReinterleaved(name: string, a: Element, b: Element)
    decreases a, 1
  {
    InPairs(Group(a, name), Group(b, name), a)
  }

  ghost predicate InPairs(a: seq<Element>, b: seq<Element>, whole: Element)
    requires PartsOf(a, whole)
    decreases whole, 0
  {
    |a| == |b| && forall i | 0 <= i < |a| :: Reinterleaved(a[i], b[i])
  }

  ghost predicate Paired(a: seq<Element>, b: seq<Element>) {
    |a| == |b| && forall i :: 0 <= i < |a| ==> Reinterleaved(a[i], b[i])
  }

  lemma PairedGroups(name: string, a: Element, b: Element)
    requires Reinterleaved(a, b)
    ensures Paired(Group(a, name), Group(b, name))
    ensures name in ChildNames(a) <==> name in ChildNames(b)
  {
    assert NameReinterleaved(name, a, b);
    assert InPairs(Group(a, name), Group(b, name), a);
    assert Group(a, name) != [] <==> |Group(a, name)| > 0;
    assert Group(b, name) != [] <==> |Group(b, name)| > 0;
  }

  lemma PairedNames(a: Element, b: Element)
    requires Reinterleaved(a, b)
    ensures ChildNames(a) == ChildNames(b) && (Elements(a.children) == [] <==> Elements(b.children) == [])
  {
    forall name ensures name in ChildNames(a) <==> name in ChildNames(b) {
      PairedGroups(name, a, b);
    }
    NoChildren(a);
    NoChildren(b);
  }

  // ---- The comparator does not see the order

  lemma SameElementVerdict(path: Path, e: Element, f: Element, a: Element, b: Element, c: Context)
    requires Reinterleaved(e, f) && Reinterleaved(a, b)
    ensures ElementVerdict(path, e, a, c) == ElementVerdict(path, f, b, c)
  {
    var list := c.SelectBestMatcher(path);
    assert (a.children == [] <==> |a.children| == 0) && (b.children == [] <==> |b.children| == 0);
    assert ElementResults(list, e, a, c.foreign) == ElementResults(list, f, b, c.foreign);
  }

  /** For every context, neither order is seen: not in the mismatches and not in their order. */
  lemma {:induction false} OrderIsIgnored(so: seq<Mismatch>, path: Path, e: Element, f: Element, a: Element, b: Element, c: Context)
    requires Reinterleaved(e, f) && Reinterleaved(a, b)
    ensures ElementAfter(so, path, e, a, c) == ElementAfter(so, path, f, b, c)
    decreases e, 4, 0
  {
    SameElementVerdict(path, e, f, a, b, c);
    var next := AttributesAfter(so, path, e, a, c);
    assert next == AttributesAfter(so, path, f, b, c);
    ChildOrderIsIgnored(next, path, e, f, a, b, c);
    var last := ChildrenAfter(next, path, e, a, c);
    assert TextAfter(last, path, e, a, c) == TextAfter(last, path, f, b, c);
  }

  lemma {:induction false} ChildOrderIsIgnored(so: seq<Mismatch>, path: Path, e: Element, f: Element, a: Element, b: Element, c: Context)
    requires Reinterleaved(e, f) && Reinterleaved(a, b)
    ensures ChildrenAfter(so, path, e, a, c) == ChildrenAfter(so, path, f, b, c)
    decreases e, 3, 0
  {
    PairedNames(e, f);
    PairedNames(a, b);
    var names := SortedKeys(ChildNames(a));
    GroupOrderIsIgnored(so, names, |names|, path, e, f, a, b, c);
  }

  lemma {:induction false} GroupOrderIsIgnored(so: seq<Mismatch>, names: seq<string>, i: nat, path: Path,
                                               e: Element, f: Element, a: Element, b: Element, c: Context)
    requires i <= |names| && Reinterleaved(e, f) && Reinterleaved(a, b)
    ensures GroupsAfter(so, names, i, path, e, a, c) == GroupsAfter(so, names, i, path, f, b, c)
    decreases e, 2, i
  {
    if i > 0 {
      GroupOrderIsIgnored(so, names, i - 1, path, e, f, a, b, c);
      SameGroupAfter(GroupsAfter(so, names, i - 1, path, e, a, c), names[i - 1], path, e, f, a, b, c);
    }
  }

  lemma {:induction false} SameGroupAfter(so: seq<Mismatch>, name: string, path: Path, e: Element, f: Element, a: Element, b: Element, c: Context)
    requires Reinterleaved(e, f) && Reinterleaved(a, b)
    ensures GroupAfter(so, name, path, e, a, c) == GroupAfter(so, name, path, f, b, c)
    decreases e, 1, 0
  {
    var p := JoinPath(path, name);
    var expected, actual := Group(e, name), Group(a, name);
    PairedGroups(name, e, f);
    PairedGroups(name, a, b);
    if |expected| > 0 {
      assert expected != [] && Group(f, name) != [];
      if TypeMatcherDefined(c.matchers, p) {
        SameAllAfter(so, p, expected[0], Group(f, name)[0], actual, Group(b, name), |actual|, c, e, f);
      } else {
        SamePairsAfter(so, p, expected, Group(f, name), actual, Group(b, name), PairsLength(expected, actual), c, e, f);
      }
    }
  }

  lemma {:induction false} SameAllAfter(so: seq<Mismatch>, path: Path, e: Element, f: Element, a: seq<Element>, b: seq<Element>,
                                        i: nat, c: Context, inE: Element, inF: Element)
    requires e < inE && f < inF && Reinterleaved(e, f) && Paired(a, b) && i <= |a|
    ensures AllAfter(so, path, e, a, i, c, inE) == AllAfter(so, path, f, b, i, c, inF)
    decreases inE, 0, i
  {
    if i > 0 {
      SameAllAfter(so, path, e, f, a, b, i - 1, c, inE, inF);
      OrderIsIgnored(AllAfter(so, path, e, a, i - 1, c, inE), path, e, f, a[i - 1], b[i - 1], c);
    }
  }

  lemma {:induction false} SamePairsAfter(so: seq<Mismatch>, path: Path, e: seq<Element>, f: seq<Element>, a: seq<Element>, b: seq<Element>,
                                          i: nat, c: Context, inE: Element, inF: Element)
    requires PartsOf(e, inE) && PartsOf(f, inF) && Paired(e, f) && Paired(a, b)
    requires i <= PairsLength(e, a)
    ensures PairsAfter(so, path, e, a, i, c, inE) == PairsAfter(so, path, f, b, i, c, inF)
    decreases inE, 0, i
  {
    if i > 0 {
      SamePairsAfter(so, path, e, f, a, b, i - 1, c, inE, inF);
      SamePair(PairsAfter(so, path, e, a, i - 1, c, inE), path, e, f, a, b, i - 1, c, inE, inF);
    }
  }

  lemma {:induction false} SamePair(so: seq<Mismatch>, path: Path, e: seq<Element>, f: seq<Element>, a: seq<Element>, b: seq<Element>,
                                    i: nat, c: Context, inE: Element, inF: Element)
    requires PartsOf(e, inE) && PartsOf(f, inF) && Paired(e, f) && Paired(a, b) && i < PairsLength(e, a)
    ensures PairAfter(so, path, e, a, i, c, inE) == PairAfter(so, path, f, b, i, c, inF)
    decreases inE, 0, 0
  {
    if i < |e| && i < |a| {
      OrderIsIgnored(so, path, e[i], f[i], a[i], b[i], c);
    }
  }

  // ---- What the relation holds of

  lemma {:induction false} ReinterleavedItself(e: Element)
    ensures Reinterleaved(e, e)
    decreases e
  {
    forall name ensures NameReinterleaved(name, e, e) {
      var group := Group(e, name);
      forall i | 0 <= i < |group| ensures Reinterleaved(group[i], group[i]) {
        ReinterleavedItself(group[i]);
      }
    }
  }

  lemma {:induction false} ReinterleavedTwice(a: Element, b: Element, c: Element)
    requires Reinterleaved(a, b) && Reinterleaved(b, c)
    ensures Reinterleaved(a, c)
    decreases a
  {
    forall name ensures NameReinterleaved(name, a, c) {
      PairedGroups(name, a, b);
      PairedGroups(name, b, c);
      var first, second, third := Group(a, name), Group(b, name), Group(c, name);
      forall i | 0 <= i < |first| ensures Reinterleaved(first[i], third[i]) {
        ReinterleavedTwice(first[i], second[i], third[i]);
      }
    }
  }

  // The two differ at most in how their own children of different names are interleaved.
  ghost predicate SameGroups(a: Element, b: Element) {
    && a.name == b.name && a.attributes == b.attributes && |a.children| == |b.children|
    && TextOf(a.children) == TextOf(b.children)
    && SameValues(NamedChildren(a), NamedChildren(b))
  }

  lemma SameNames(a: Element, b: Element)
    requires SameGroups(a, b)
    ensures ChildNames(a) == ChildNames(b) && (Elements(a.children) == [] <==> Elements(b.children) == [])
    ensures forall name :: Group(a, name) == Group(b, name)
  {
    forall name ensures Group(a, name) == Group(b, name) && (name in ChildNames(a) <==> name in ChildNames(b)) {
      assert ValuesOf(NamedChildren(a), name) == ValuesOf(NamedChildren(b), name);
    }
    NoChildren(a);
    NoChildren(b);
  }

  /** It holds of elements whose own children are interleaved differently. */
  lemma SameGroupsReinterleaved(a: Element, b: Element)
    requires SameGroups(a, b)
    ensures Reinterleaved(a, b)
  {
    SameNames(a, b);
    ReinterleavedItself(a);
    forall name ensures NameReinterleaved(name, a, b) {
      PairedGroups(name, a, a);
    }
  }

  // The nodes are equal, or elements of which the relation holds.
  ghost predicate NodesReinterleaved(a: seq<Node>, b: seq<Node>) {
    |a| == |b| && forall i :: 0 <= i < |a| ==> NodeReinterleaved(a[i], b[i])
  }

  ghost predicate NodeReinterleaved(a: Node, b: Node) {
    a == b || (a.ElementNode? && b.ElementNode? && Reinterleaved(a.element, b.element))
  }

  lemma PairedMore(a: seq<Element>, b: seq<Element>, x: Element, y: Element)
    requires Paired(a, b) && Reinterleaved(x, y)
    ensures Paired(a + [x], b + [y])
  {
  }

  lemma {:induction false} NodesInPairs(a: seq<Node>, b: seq<Node>)
    requires NodesReinterleaved(a, b)
    ensures TextOf(a) == TextOf(b) && Paired(Elements(a), Elements(b))
  {
    if |a| > 0 {
      var n := |a| - 1;
      NodesInPairs(a[..n], b[..n]);
      assert NodeReinterleaved(a[n], b[n]);
      if a[n].ElementNode? {
        ReinterleavedItself(a[n].element);
        PairedMore(Elements(a[..n]), Elements(b[..n]), a[n].element, b[n].element);
      }
    }
  }

  lemma {:induction false} ValuesInPairs(a: seq<Element>, b: seq<Element>, name: string)
    requires Paired(a, b)
    ensures Paired(ValuesOf(Keyed(a, ElementName), name), ValuesOf(Keyed(b, ElementName), name))
    decreases |a|
  {
    if |a| > 0 {
      var n := |a| - 1;
      assert Keyed(a, ElementName)[..n] == Keyed(a[..n], ElementName);
      assert Keyed(b, ElementName)[..n] == Keyed(b[..n], ElementName);
      ValuesInPairs(a[..n], b[..n], name);
      assert Reinterleaved(a[n], b[n]);
      if ElementName(a[n]) == name {
        PairedMore(ValuesOf(Keyed(a[..n], ElementName), name), ValuesOf(Keyed(b[..n], ElementName), name), a[n], b[n]);
      }
    } else {
      assert Keyed(a, ElementName) == [] && Keyed(b, ElementName) == [];
    }
  }

  /** It carries over from the children to their parents, and so to any depth. */
  lemma ReinterleavedBelow(a: Element, b: Element)
    requires a.name == b.name && a.attributes == b.attributes && NodesReinterleaved(a.children, b.children)
    ensures Reinterleaved(a, b)
  {
    NodesInPairs(a.children, b.children);
    forall name ensures NameReinterleaved(name, a, b) {
      ValuesInPairs(Elements(a.children), Elements(b.children), name);
    }
  }

  /** In particular, interleaving the children of either element otherwise changes nothing. */
  lemma InterleavingIsIgnored(so: seq<Mismatch>, path: Path, e: Element, f: Element, a: Element, b: Element, c: Context)
    requires SameGroups(e, f) && SameGroups(a, b)
    ensures ElementAfter(so, path, e, a, c) == ElementAfter(so, path, f, b, c)
  {
    SameGroupsReinterleaved(e, f);
    SameGroupsReinterleaved(a, b);
    OrderIsIgnored(so, path, e, f, a, b, c);
  }

  // The children of `b` are those of `a` after swaps of neighbours with different names.
  predicate IsSwapped(a: Element, b: Element, moves: seq<nat>) {
    && a.name == b.name && a.attributes == b.attributes && |a.children| == |b.children|
    && TextOf(a.children) == TextOf(b.children)
    && Moved(NamedChildren(a), moves) == NamedChildren(b)
  }

  lemma SwapsKeepGroups(a: Element, b: Element, moves: seq<nat>)
    requires IsSwapped(a, b, moves)
    ensures SameGroups(a, b)
  {
    forall name ensures ValuesOf(NamedChildren(a), name) == ValuesOf(NamedChildren(b), name) {
      MovesKeepValues(NamedChildren(a), moves, name);
    }
  }

  lemma SwappedChildren(so: seq<Mismatch>, path: Path, e: Element, f: Element, expected: seq<nat>,
                        a: Element, b: Element, actual: seq<nat>, c: Context)
    requires IsSwapped(e, f, expected) && IsSwapped(a, b, actual)
    ensures ElementAfter(so, path, e, a, c) == ElementAfter(so, path, f, b, c)
  {
    SwapsKeepGroups(e, f, expected);
    SwapsKeepGroups(a, b, actual);
    InterleavingIsIgnored(so, path, e, f, a, b, c);
  }
}
