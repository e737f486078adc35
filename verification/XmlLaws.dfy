/** Comparing XML without rules: equal groups of same-named children. */
module XmlLaws {
  import opened StringOrder
  import opened Text
  import opened Paths
  import opened Rules
  import opened Contexts
  import opened Xml
  import opened XmlVerdicts

  // ---- When elements agree

  predicate AttributesAgree(config: DiffConfig, e: map<string, string>, a: map<string, string>) {
    if config == NoUnexpectedKeys then e == a else forall k | k in e :: k in a && e[k] == a[k]
  }

  // Names and texts are equal, attributes and groups of children are as the configuration wants them.
  ghost predicate Agrees(config: DiffConfig, e: Element, a: Element)
    decreases e, 2
  {
    && e.name == a.name
    && AttributesAgree(config, AttributeMap(e.attributes), AttributeMap(a.attributes))
    && TextOf(e.children) == TextOf(a.children)
    && forall name :: NameAgrees(config, name, e, a)
  }

  ghost predicate NameAgrees(config: DiffConfig, name: string, e: Element, a: Element)
    decreases e, 1
  {
    GroupsAgree(config, Group(e, name), Group(a, name), e)
  }

  // Both are equally long, or the expected one is shorter where that is allowed, and agree in pairs.
  ghost predicate GroupsAgree(config: DiffConfig, e: seq<Element>, a: seq<Element>, whole: Element)
    requires PartsOf(e, whole)
    decreases whole, 0
  {
    && (if config == NoUnexpectedKeys then |e| == |a| else |e| <= |a|)
    && forall i | 0 <= i < |e| && i < |a| :: Agrees(config, e[i], a[i])
  }

  // Nothing was taken away, and nothing was added exactly when the condition holds.
  predicate Adds(so: seq<Mismatch>, after: seq<Mismatch>, accepted: bool) {
    |after| >= |so| && (|after| == |so| <==> accepted)
  }

  lemma AddsBoth(so: seq<Mismatch>, next: seq<Mismatch>, after: seq<Mismatch>, p: bool, q: bool)
    requires Adds(so, next, p) && Adds(next, after, q)
    ensures Adds(so, after, p && q)
  {
  }

  // ---- Text

  lemma {:induction false} TextIsTrimmed(nodes: seq<Node>)
    ensures Trimmed(TextOf(nodes))
  {
    if nodes != [] {
      var n := |nodes| - 1;
      TextIsTrimmed(nodes[..n]);
      if nodes[n].TextNode? {
        TrimExactly(nodes[n].text);
        TrimmedConcat(TextOf(nodes[..n]), Trim(nodes[n].text));
      }
    }
  }

  lemma TrimmedConcat(s: string, t: string)
    requires Trimmed(s) && Trimmed(t)
    ensures Trimmed(s + t)
  {
    if s == "" {
      assert s + t == t;
    } else if t == "" {
      assert s + t == s;
    } else {
      assert (s + t)[0] == s[0] && (s + t)[|s + t| - 1] == t[|t| - 1];
    }
  }

  // What the nodes of an element hold: the trimmed texts and the elements, in order.
  lemma {:induction false} NodesInOrder(a: seq<Node>, b: seq<Node>)
    ensures TextOf(a + b) == TextOf(a) + TextOf(b) && Elements(a + b) == Elements(a) + Elements(b)
    decreases |b|
  {
    if b == [] {
      assert a + b == a;
    } else {
      var n := |b| - 1;
      assert (a + b)[..|a + b| - 1] == a + b[..n] && (a + b)[|a + b| - 1] == b[n];
      NodesInOrder(a, b[..n]);
    }
  }

  lemma OneNode(node: Node)
    ensures TextOf([node]) == if node.TextNode? then Trim(node.text) else ""
    ensures Elements([node]) == if node.ElementNode? then [node.element] else []
  {
    assert [node][..0] == [];
  }

  lemma TextExactly(so: seq<Mismatch>, path: Path, e: Element, a: Element, c: Context)
    requires !c.MatcherIsDefined(JoinPath(path, "#text"))
    ensures Adds(so, TextAfter(so, path, e, a, c), TextOf(e.children) == TextOf(a.children))
  {
    TextIsTrimmed(a.children);
    TrimExactly(TextOf(a.children));
  }

  // ---- Names

  // The text of a name is its name space, a colon and the local name; as local names hold no colon, it tells names apart.
  lemma NamesApart(x: QName, y: QName)
    requires ':' !in x.local && ':' !in y.local
    ensures NameText(x) == NameText(y) <==> x == y
    ensures x.space.Some? ==> x.space.value + ":" <= NameText(x)
  {
    if NameText(x) == NameText(y) {
      SuffixIs(x);
      SuffixIs(y);
      if |x.local| < |y.local| {
        LongerLocal(x, y);
      } else if |x.local| > |y.local| {
        LongerLocal(y, x);
      } else if x.space.Some? && y.space.Some? {
        assert (x.space.value + ":")[..|x.space.value|] == x.space.value && (y.space.value + ":")[..|y.space.value|] == y.space.value;
      }
    }
  }

  lemma SuffixIs(x: QName)
    ensures |NameText(x)| >= |x.local| && NameText(x)[|NameText(x)| - |x.local|..] == x.local
    ensures x.space.Some? ==> NameText(x)[..|NameText(x)| - |x.local|] == x.space.value + ":"
    ensures x.space.None? ==> |NameText(x)| == |x.local|
  {
  }

  // A longer local name would hold the colon of the other one.
  lemma LongerLocal(x: QName, y: QName)
    requires ':' !in y.local && |x.local| < |y.local|
    ensures NameText(x) != NameText(y)
  {
    var s, t := NameText(x), NameText(y);
    SuffixIs(x);
    SuffixIs(y);
    if |s| == |t| && x.space.Some? {
      var i := |s| - |x.local| - 1;
      var j := i - (|t| - |y.local|);
      assert s[i] == (x.space.value + ":")[i] == ':';
      assert y.local[j] == t[i] && y.local[j] in y.local;
    }
  }

  // ---- Attributes

  // An attribute has the last value given to its name.
  lemma {:induction false} LastValueCounts(attributes: seq<(QName, string)>, name: string, value: string)
    ensures name in AttributeMap(attributes) && AttributeMap(attributes)[name] == value <==>
      exists i :: 0 <= i < |attributes| && NameText(attributes[i].0) == name && attributes[i].1 == value
        && forall j :: i < j < |attributes| ==> NameText(attributes[j].0) != name
  {
    if attributes != [] {
      var n := |attributes| - 1;
      LastValueCounts(attributes[..n], name, value);
    }
  }

  predicate AttributeEqual(key: string, e: map<string, string>, a: map<string, string>)
    requires key in e
  {
    key in a && e[key] == a[key]
  }

  lemma {:induction false} AttributeValuesExactly(so: seq<Mismatch>, keys: seq<string>, i: nat, path: Path,
                                                  e: map<string, string>, a: map<string, string>, c: Context)
    requires NothingBelow(c, path) && i <= |keys| && forall k <- keys :: k in e
    ensures Adds(so, AttributeValuesAfter(so, keys, i, path, e, a, c), forall j :: 0 <= j < i ==> AttributeEqual(keys[j], e, a))
  {
    if i > 0 {
      var p := JoinPath(path, "@" + keys[i - 1]);
      AttributeValuesExactly(so, keys, i - 1, path, e, a, c);
      NothingFurtherBelow(c, path, "@" + keys[i - 1]);
      assert keys[i - 1] in keys;
    }
  }

  lemma {:induction false} SubsetOfSameSize(s: set<string>, t: set<string>)
    requires s <= t
    ensures |s| <= |t|
    ensures |s| == |t| ==> s == t
  {
    if s != {} {
      var x :| x in s;
      SubsetOfSameSize(s - {x}, t - {x});
      assert s == s - {x} + {x} && t == t - {x} + {x};
    }
  }

  // Included attributes are not too many, and equal if they are as many.
  lemma IncludedAttributes(e: map<string, string>, a: map<string, string>)
    requires forall k | k in e :: AttributeEqual(k, e, a)
    ensures |e| <= |a| && (|e| == |a| <==> e == a)
  {
    SubsetOfSameSize(e.Keys, a.Keys);
    assert |e| == |e.Keys| && |a| == |a.Keys|;
    if e.Keys == a.Keys {
      assert e == a;
    }
  }

  lemma AttributesExactly(so: seq<Mismatch>, path: Path, e: Element, a: Element, c: Context)
    requires NothingBelow(c, path)
    ensures Adds(so, AttributesAfter(so, path, e, a, c), AttributesAgree(c.config, AttributeMap(e.attributes), AttributeMap(a.attributes)))
  {
    var expected, actual := AttributeMap(e.attributes), AttributeMap(a.attributes);
    var keys := SortedKeys(expected.Keys);
    var counted := CountAfter(so, path, |expected|, |actual|, c);
    var included := forall j :: 0 <= j < |keys| ==> AttributeEqual(keys[j], expected, actual);
    AttributeValuesExactly(counted, keys, |keys|, path, expected, actual, c);
    KeysCover(keys, expected, actual);
    CountExactly(so, path, expected, actual, c);
    AddsBoth(so, counted, AttributeValuesAfter(counted, keys, |keys|, path, expected, actual, c), CountFits(c.config, |expected|, |actual|), included);
    IncludedExactly(c.config, expected, actual);
  }

  predicate CountFits(config: DiffConfig, expected: nat, actual: nat) {
    if config == NoUnexpectedKeys then expected == actual else expected <= actual
  }

  lemma CountExactly(so: seq<Mismatch>, path: Path, e: map<string, string>, a: map<string, string>, c: Context)
    ensures Adds(so, CountAfter(so, path, |e|, |a|, c), CountFits(c.config, |e|, |a|))
  {
  }

  lemma IncludedExactly(config: DiffConfig, e: map<string, string>, a: map<string, string>)
    ensures AttributesAgree(config, e, a) <==> CountFits(config, |e|, |a|) && forall k | k in e :: AttributeEqual(k, e, a)
  {
    if forall k | k in e :: AttributeEqual(k, e, a) {
      IncludedAttributes(e, a);
    }
  }

  lemma KeysCover(keys: seq<string>, e: map<string, string>, a: map<string, string>)
    requires forall k :: k in keys <==> k in e.Keys
    ensures (forall k | k in e :: AttributeEqual(k, e, a)) <==> forall j :: 0 <= j < |keys| ==> AttributeEqual(keys[j], e, a)
  {
    if forall k | k in e :: AttributeEqual(k, e, a) {
      forall j | 0 <= j < |keys| ensures AttributeEqual(keys[j], e, a) {
        assert keys[j] in keys;
      }
    } else {
      var k :| k in e && !AttributeEqual(k, e, a);
      assert k in keys;
      var j :| 0 <= j < |keys| && keys[j] == k;
      assert !AttributeEqual(keys[j], e, a);
    }
  }

  // ---- Children

  lemma {:induction false} MissingExactly(so: seq<Mismatch>, names: seq<string>, i: nat, path: Path)
    requires i <= |names|
    ensures Adds(so, MissingAfter(so, names, i, path), i == 0)
  {
    if i > 0 {
      MissingExactly(so, names, i - 1, path);
    }
  }

  // What the first `i` pairs have to meet.
  ghost predicate PairAgrees(config: DiffConfig, e: seq<Element>, a: seq<Element>, j: nat) {
    if j < |e| && j < |a| then Agrees(config, e[j], a[j]) else j >= |e| && config == AllowUnexpectedKeys
  }

  ghost predicate FirstPairsAgree(config: DiffConfig, e: seq<Element>, a: seq<Element>, i: nat) {
    forall j :: 0 <= j < i ==> PairAgrees(config, e, a, j)
  }

  lemma NextPairAgrees(config: DiffConfig, e: seq<Element>, a: seq<Element>, i: nat)
    requires i > 0
    ensures FirstPairsAgree(config, e, a, i) <==> FirstPairsAgree(config, e, a, i - 1) && PairAgrees(config, e, a, i - 1)
  {
  }

  lemma {:induction false} PairExactly(so: seq<Mismatch>, path: Path, e: seq<Element>, a: seq<Element>, i: nat, c: Context, whole: Element)
    requires NothingBelow(c, path) && 0 < i <= PairsLength(e, a) && PartsOf(e, whole)
    ensures Adds(PairsAfter(so, path, e, a, i - 1, c, whole), PairsAfter(so, path, e, a, i, c, whole), PairAgrees(c.config, e, a, i - 1))
    decreases whole, 0, 0
  {
    if i <= |e| && i <= |a| {
      XmlExactly(PairsAfter(so, path, e, a, i - 1, c, whole), path, e[i - 1], a[i - 1], c);
    }
  }

  lemma {:induction false} PairsExactly(so: seq<Mismatch>, path: Path, e: seq<Element>, a: seq<Element>, i: nat, c: Context, whole: Element)
    requires NothingBelow(c, path) && i <= PairsLength(e, a) && PartsOf(e, whole)
    ensures Adds(so, PairsAfter(so, path, e, a, i, c, whole), FirstPairsAgree(c.config, e, a, i))
    decreases whole, 0, i
  {
    if i > 0 {
      var next, after := PairsAfter(so, path, e, a, i - 1, c, whole), PairsAfter(so, path, e, a, i, c, whole);
      PairsExactly(so, path, e, a, i - 1, c, whole);
      PairExactly(so, path, e, a, i, c, whole);
      NextPairAgrees(c.config, e, a, i);
      AddsBoth(so, next, after, FirstPairsAgree(c.config, e, a, i - 1), PairAgrees(c.config, e, a, i - 1));
    }
  }

  lemma PairsAreGroups(config: DiffConfig, e: seq<Element>, a: seq<Element>, whole: Element)
    requires PartsOf(e, whole)
    ensures FirstPairsAgree(config, e, a, PairsLength(e, a)) <==> GroupsAgree(config, e, a, whole)
  {
    var n := PairsLength(e, a);
    if FirstPairsAgree(config, e, a, n) {
      if |e| != |a| {
        assert PairAgrees(config, e, a, n - 1);
      }
      forall j | 0 <= j < |e| && j < |a| ensures Agrees(config, e[j], a[j]) {
        assert PairAgrees(config, e, a, j);
      }
    }
  }

  // No rule is defined at or below the child elements.
  ghost predicate NothingAtChildren(c: Context, path: Path, a: Element) {
    forall name | name in ChildNames(a) :: NothingBelow(c, JoinPath(path, name))
  }

  lemma NothingAtChildrenBelow(c: Context, path: Path, a: Element)
    requires NothingBelow(c, path)
    ensures NothingAtChildren(c, path, a)
  {
    forall name | name in ChildNames(a) ensures NothingBelow(c, JoinPath(path, name)) {
      NothingFurtherBelow(c, path, name);
    }
  }

  lemma {:induction false} GroupExactly(so: seq<Mismatch>, name: string, path: Path, e: Element, a: Element, c: Context)
    requires NothingBelow(c, JoinPath(path, name)) && name in ChildNames(a)
    ensures Adds(so, GroupAfter(so, name, path, e, a, c), NameAgrees(c.config, name, e, a))
    decreases e, 1, 0
  {
    var p := JoinPath(path, name);
    var expected, actual := Group(e, name), Group(a, name);
    assert !MatcherIsDefined(c.matchers, p);
    if expected != [] {
      PairsExactly(so, p, expected, actual, PairsLength(expected, actual), c, e);
      PairsAreGroups(c.config, expected, actual, e);
    }
  }

  ghost predicate FirstNamesAgree(config: DiffConfig, names: seq<string>, i: nat, e: Element, a: Element)
    requires i <= |names|
  {
    forall j :: 0 <= j < i ==> NameAgrees(config, names[j], e, a)
  }

  lemma NextNameAgrees(config: DiffConfig, names: seq<string>, i: nat, e: Element, a: Element)
    requires 0 < i <= |names|
    ensures FirstNamesAgree(config, names, i, e, a) <==>
      FirstNamesAgree(config, names, i - 1, e, a) && NameAgrees(config, names[i - 1], e, a)
  {
  }

  lemma {:induction false} GroupsExactly(so: seq<Mismatch>, names: seq<string>, i: nat, path: Path, e: Element, a: Element, c: Context)
    requires NothingAtChildren(c, path, a) && i <= |names| && forall name <- names :: name in ChildNames(a)
    ensures Adds(so, GroupsAfter(so, names, i, path, e, a, c), FirstNamesAgree(c.config, names, i, e, a))
    decreases e, 2, i
  {
    if i > 0 {
      var name := names[i - 1];
      var next, after := GroupsAfter(so, names, i - 1, path, e, a, c), GroupsAfter(so, names, i, path, e, a, c);
      GroupsExactly(so, names, i - 1, path, e, a, c);
      assert name in names;
      GroupExactly(next, name, path, e, a, c);
      NextNameAgrees(c.config, names, i, e, a);
      AddsBoth(so, next, after, FirstNamesAgree(c.config, names, i - 1, e, a), NameAgrees(c.config, name, e, a));
    }
  }

  lemma ExpectedNameIsThere(config: DiffConfig, name: string, e: Element, a: Element)
    requires NameAgrees(config, name, e, a) && name in ChildNames(e)
    ensures name in ChildNames(a)
  {
    assert 0 < |Group(e, name)| <= |Group(a, name)|;
  }

  lemma AbsentNameAgrees(config: DiffConfig, name: string, e: Element, a: Element)
    requires name !in ChildNames(e) && name !in ChildNames(a)
    ensures NameAgrees(config, name, e, a)
  {
    assert |Group(e, name)| == 0 && |Group(a, name)| == 0;
  }

  ghost predicate AllNamesAgree(config: DiffConfig, e: Element, a: Element) {
    forall name :: NameAgrees(config, name, e, a)
  }

  lemma OneNameAgrees(config: DiffConfig, names: seq<string>, name: string, e: Element, a: Element)
    requires forall name :: name in names <==> name in ChildNames(a)
    requires ChildNames(e) <= ChildNames(a) && FirstNamesAgree(config, names, |names|, e, a)
    ensures NameAgrees(config, name, e, a)
  {
    if name in ChildNames(a) {
      assert name in names;
    } else {
      AbsentNameAgrees(config, name, e, a);
    }
  }

  // All names agree when the actual ones do and no expected one is missing.
  lemma NamesAgree(config: DiffConfig, names: seq<string>, e: Element, a: Element)
    requires forall name :: name in names <==> name in ChildNames(a)
    ensures AllNamesAgree(config, e, a) <==> ChildNames(e) <= ChildNames(a) && FirstNamesAgree(config, names, |names|, e, a)
  {
    if AllNamesAgree(config, e, a) {
      forall name | name in ChildNames(e) ensures name in ChildNames(a) {
        ExpectedNameIsThere(config, name, e, a);
      }
    } else if ChildNames(e) <= ChildNames(a) && FirstNamesAgree(config, names, |names|, e, a) {
      forall name ensures NameAgrees(config, name, e, a) {
        OneNameAgrees(config, names, name, e, a);
      }
      assert false;
    }
  }

  lemma NoChildren(e: Element)
    ensures Elements(e.children) == [] <==> ChildNames(e) == {}
  {
    if Elements(e.children) != [] {
      assert NamedChildren(e)[0].0 in ChildNames(e);
    }
  }

  lemma {:induction false} ChildrenExactly(so: seq<Mismatch>, path: Path, e: Element, a: Element, c: Context)
    requires NothingAtChildren(c, path, a)
    ensures Adds(so, ChildrenAfter(so, path, e, a, c), AllNamesAgree(c.config, e, a))
    decreases e, 3, 0
  {
    NoChildren(e);
    NoChildren(a);
    if Elements(e.children) == [] && Elements(a.children) != [] && c.config == NoUnexpectedKeys {
      var name :| name in ChildNames(a);
      assert !NameAgrees(c.config, name, e, a);
    } else {
      var names, missing := SortedKeys(ChildNames(a)), SortedKeys(ChildNames(e) - ChildNames(a));
      var grouped := GroupsAfter(so, names, |names|, path, e, a, c);
      GroupsExactly(so, names, |names|, path, e, a, c);
      MissingExactly(grouped, missing, |missing|, path);
      NamesAgree(c.config, names, e, a);
      NoneMissing(missing, ChildNames(e), ChildNames(a));
      AddsBoth(so, grouped, MissingAfter(grouped, missing, |missing|, path), FirstNamesAgree(c.config, names, |names|, e, a), |missing| == 0);
    }
  }

  lemma NoneMissing(missing: seq<string>, e: set<string>, a: set<string>)
    requires forall k :: k in missing <==> k in e - a
    ensures |missing| == 0 <==> e <= a
  {
    if |missing| > 0 {
      assert missing[0] in missing;
    } else {
      forall k | k in e ensures k in a {
        assert k !in missing;
      }
    }
  }

  /** Without rules at or below its path, no mismatch is pushed for an element exactly when it agrees. */
  lemma {:induction false} XmlExactly(so: seq<Mismatch>, path: Path, e: Element, a: Element, c: Context)
    requires NothingBelow(c, path)
    ensures Adds(so, ElementAfter(so, path, e, a, c), Agrees(c.config, e, a))
    decreases e, 4, 0
  {
    assert !MatcherIsDefined(c.matchers, path);
    if e.name == a.name {
      var first := AttributesAfter(so, path, e, a, c);
      var second := ChildrenAfter(first, path, e, a, c);
      var p := AttributesAgree(c.config, AttributeMap(e.attributes), AttributeMap(a.attributes));
      var q := AllNamesAgree(c.config, e, a);
      AttributesExactly(so, path, e, a, c);
      NothingAtChildrenBelow(c, path, a);
      ChildrenExactly(first, path, e, a, c);
      AddsBoth(so, first, second, p, q);
      NothingFurtherBelow(c, path, "#text");
      TextExactly(second, path, e, a, c);
      AddsBoth(so, second, TextAfter(second, path, e, a, c), p && q, TextOf(e.children) == TextOf(a.children));
    }
  }

  lemma XmlAcceptedExactly(path: Path, e: Element, a: Element, c: Context)
    requires NothingBelow(c, path)
    ensures VerdictOf(ElementAfter([], path, e, a, c)).Ok? <==> Agrees(c.config, e, a)
  {
    XmlExactly([], path, e, a, c);
  }

  lemma {:induction false} AgreesWithItself(config: DiffConfig, e: Element)
    ensures Agrees(config, e, e)
    decreases e
  {
    forall name ensures NameAgrees(config, name, e, e) {
      var group := Group(e, name);
      forall i | 0 <= i < |group| ensures Agrees(config, group[i], group[i]) {
        AgreesWithItself(config, group[i]);
      }
    }
  }
}
