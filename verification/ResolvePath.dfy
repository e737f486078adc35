/** Resolving a path expression against a document (`resolve_path`). */
module ResolvePath {
  import opened Wrappers
  import opened Json
  import opened Text
  import opened Sequences
  import opened Paths
  import opened Arena
  import opened ArenaOrder
  import opened PathGraph

  // The paths found so far, with the one of a node: a leaf at the depth of the expression gives its way from the root.
  function Visit(so: seq<string>, nodes: seq<Node>, id: nat, n: nat): seq<string>
    requires Linked(nodes) && id < |nodes|
  {
    if nodes[id].data != "" && IsLeaf(nodes, id) && |FragmentsTo(nodes, id)| == n then so + [Join(FragmentsTo(nodes, id), "/")]
    else so
  }

  function VisitAll(so: seq<string>, nodes: seq<Node>, lo: nat, hi: nat, n: nat): seq<string>
    requires Linked(nodes) && lo <= hi <= |nodes|
    decreases hi
  {
    if lo == hi then so else Visit(VisitAll(so, nodes, lo, hi - 1, n), nodes, hi - 1, n)
  }

  // The same, read off the forest: `prefix` leads to its roots.
  function Collected(so: seq<string>, f: Forest, prefix: seq<string>, n: nat): seq<string>
    decreases f
  {
    match f
    case Empty => so
    case Tree(data, children, siblings) =>
      Collected(Collected(RootCollected(so, data, children.Empty?, prefix, n), children, prefix + [data], n), siblings, prefix, n)
  }

  function RootCollected(so: seq<string>, data: string, leaf: bool, prefix: seq<string>, n: nat): seq<string> {
    if data != "" && leaf && |prefix| + 1 == n then so + [Join(prefix + [data], "/")] else so
  }

  lemma {:induction false} VisitSplit(so: seq<string>, nodes: seq<Node>, lo: nat, mid: nat, hi: nat, n: nat)
    requires Linked(nodes) && lo <= mid <= hi <= |nodes|
    ensures VisitAll(so, nodes, lo, hi, n) == VisitAll(VisitAll(so, nodes, lo, mid, n), nodes, mid, hi, n)
    decreases hi
  {
    if mid < hi {
      VisitSplit(so, nodes, lo, mid, hi - 1, n);
    }
  }

  // What a visit reads at the nodes of a forest laid from `base` on.
  ghost predicate Reads(nodes: seq<Node>, f: Forest, prefix: seq<string>, base: nat)
    requires Linked(nodes)
    decreases f
  {
    match f
    case Empty => true
    case Tree(data, children, siblings) =>
      && base < |nodes| && nodes[base].data == data && (IsLeaf(nodes, base) <==> children.Empty?)
      && FragmentsTo(nodes, base) == prefix + [data]
      && Reads(nodes, children, prefix + [data], base + 1)
      && Reads(nodes, siblings, prefix, base + 1 + Size(children))
  }

  lemma {:induction false} LaidReads(nodes: seq<Node>, f: Forest, parent: nat, base: nat, prefix: seq<string>)
    requires Linked(nodes) && Laid(nodes, f, parent, base) && parent < base && base + Size(f) <= |nodes|
    requires Closed(nodes, base, base + Size(f)) && FragmentsTo(nodes, parent) == prefix
    ensures Reads(nodes, f, prefix, base)
    decreases f
  {
    match f {
      case Empty =>
      case Tree(data, children, siblings) =>
        ClosedParts(nodes, f, parent, base);
        LaidLeaf(nodes, f, parent, base);
        LaidReads(nodes, children, base, base + 1, prefix + [data]);
        LaidReads(nodes, siblings, parent, base + 1 + Size(children), prefix);
    }
  }

  lemma OneVisit(so: seq<string>, nodes: seq<Node>, id: nat, n: nat)
    requires Linked(nodes) && id < |nodes|
    ensures VisitAll(so, nodes, id, id + 1, n) == Visit(so, nodes, id, n)
  {
    assert VisitAll(so, nodes, id, id, n) == so;
  }

  lemma {:induction false} ReadsCollected(so: seq<string>, nodes: seq<Node>, f: Forest, base: nat, prefix: seq<string>, n: nat)
    requires Linked(nodes) && Reads(nodes, f, prefix, base) && base + Size(f) <= |nodes|
    ensures VisitAll(so, nodes, base, base + Size(f), n) == Collected(so, f, prefix, n)
    decreases f
  {
    match f {
      case Empty =>
      case Tree(data, children, siblings) =>
        var next := base + 1 + Size(children);
        var first := RootCollected(so, data, children.Empty?, prefix, n);
        OneVisit(so, nodes, base, n);
        ReadsCollected(first, nodes, children, base + 1, prefix + [data], n);
        ReadsCollected(Collected(first, children, prefix + [data], n), nodes, siblings, next, prefix, n);
        VisitSplit(so, nodes, base, base + 1, next, n);
        VisitSplit(so, nodes, base, next, base + Size(f), n);
    }
  }

  // The arena that holds an empty root with the forest below it.
  lemma RootedArena(f: Forest)
    ensures var nodes := Placed([Node("", None)], 0, f);
      && |nodes| == 1 + Size(f) && nodes[0] == Node("", None) && Linked(nodes)
      && Laid(nodes, f, 0, 1) && Closed(nodes, 1, 1 + Size(f))
      && Counts(Descendants(nodes, 0), 0, |nodes|)
  {
    var nodes := Placed([Node("", None)], 0, f);
    PlacedExtends([Node("", None)], 0, f);
    PlacedIsLaid([Node("", None)], 0, f);
    forall j | 0 <= j < |nodes| && nodes[j].parent.Some? ensures nodes[j].parent.value < j {
      if j > 0 {
        LaidInside(nodes, f, 0, 1, j);
      }
    }
    LaidDescendants(nodes, f, 0, 1);
    CountsOn(0, DescendantsFrom(nodes, 0, 1), [], |nodes|, |nodes|);
    EmptyUnit(Descendants(nodes, 0));
  }

  lemma RootAddsNothing(f: Forest, n: nat)
    ensures var nodes := Placed([Node("", None)], 0, f);
      Linked(nodes) && VisitAll([], nodes, 0, |nodes|, n) == Collected([], f, [""], n)
  {
    var nodes := Placed([Node("", None)], 0, f);
    RootedArena(f);
    OneVisit([], nodes, 0, n);
    LaidReads(nodes, f, 0, 1, [""]);
    ReadsCollected([], nodes, f, 1, [""], n);
    VisitSplit([], nodes, 0, 1, |nodes|, n);
  }

  function Resolved(value: Value, expression: Path): seq<string> {
    Collected([], Graph(expression, value), [""], |expression|)
  }

  /** Builds the tree and folds over its nodes in preorder. */
  method ResolvePath(value: Value, expression: Path) returns (paths: seq<string>)
    ensures paths == Resolved(value, expression)
  {
    var tree := new Arena();
    var root := tree.NewNode("");
    assert tree.nodes == [Node("", None)];
    QueryObjectGraph(expression, tree, root, value);
    RootedArena(Graph(expression, value));
    RootAddsNothing(Graph(expression, value), |expression|);
    paths := FoldPaths(tree.nodes, Descendants(tree.nodes, root), |expression|);
  }

  method FoldPaths(nodes: seq<Node>, descendants: seq<nat>, n: nat) returns (paths: seq<string>)
    requires Linked(nodes) && Counts(descendants, 0, |nodes|)
    ensures paths == VisitAll([], nodes, 0, |nodes|, n)
  {
    paths := [];
    for i := 0 to |descendants|
      invariant paths == VisitAll([], nodes, 0, i, n)
    {
      var id := descendants[i];
      if nodes[id].data != "" && IsLeaf(nodes, id) {
        var path := FragmentsTo(nodes, id);
        if |path| == n {
          paths := paths + [Join(path, "/")];
        }
      }
    }
  }
}
