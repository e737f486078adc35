/** The arena that trees of path fragments are built in (`indextree::Arena`). */
module Arena {
  import opened Wrappers

  // Nodes are only ever appended, so a node's children are the nodes that name it as their
  // parent, in the order of their positions.
  datatype Node = Node(data: string, parent: Option<nat>)

  class Arena {
    var nodes: seq<Node>

    constructor ()
      ensures nodes == []
    {
      nodes := [];
    }

    method NewNode(data: string) returns (id: nat)
      modifies this
      ensures id == old(|nodes|) && nodes == old(nodes) + [Node(data, None)]
    {
      id := |nodes|;
      nodes := nodes + [Node(data, None)];
    }

    /** Adds a node as the last child of another one. */
    method AppendValue(parent: nat, data: string) returns (id: nat)
      requires parent < |nodes|
      modifies this
      ensures id == old(|nodes|) && nodes == old(nodes) + [Node(data, Some(parent))]
    {
      id := |nodes|;
      nodes := nodes + [Node(data, Some(parent))];
    }
  }

  // The trees below a node, as values: the first one, with its children, and its siblings.
  datatype Forest = Empty | Tree(data: string, children: Forest, siblings: Forest)

  function Append(f: Forest, g: Forest): Forest {
    match f
    case Empty => g
    case Tree(data, children, siblings) => Tree(data, children, Append(siblings, g))
  }

  function Single(data: string, children: Forest): Forest {
    Tree(data, children, Empty)
  }

  function Size(f: Forest): nat {
    match f
    case Empty => 0
    case Tree(_, children, siblings) => 1 + Size(children) + Size(siblings)
  }

  // The arena after a forest was added below a node, in preorder.
  function Placed(nodes: seq<Node>, root: nat, f: Forest): (r: seq<Node>)
    ensures |r| == |nodes| + Size(f)
    decreases f
  {
    match f
    case Empty => nodes
    case Tree(data, children, siblings) =>
      Placed(Placed(nodes + [Node(data, Some(root))], |nodes|, children), root, siblings)
  }

  lemma {:induction false} PlaceAppended(nodes: seq<Node>, root: nat, f: Forest, g: Forest)
    ensures Placed(nodes, root, Append(f, g)) == Placed(Placed(nodes, root, f), root, g)
    decreases f
  {
    if f.Tree? {
      PlaceAppended(Placed(nodes + [Node(f.data, Some(root))], |nodes|, f.children), root, f.siblings, g);
    }
  }

  // Appending a child and filling it adds one more tree to the forest.
  lemma PlaceNext(nodes: seq<Node>, root: nat, f: Forest, data: string, g: Forest)
    ensures var placed := Placed(nodes, root, f);
      Placed(placed + [Node(data, Some(root))], |placed|, g) == Placed(nodes, root, Append(f, Single(data, g)))
  {
    PlaceAppended(nodes, root, f, Single(data, g));
  }

  // A chain of single children with a forest below the last of them.
  function Chain(labels: seq<string>, f: Forest): Forest {
    if labels == [] then f else Single(labels[0], Chain(labels[1..], f))
  }

  // Where the chain ends.
  function ChainEnd(nodes: seq<Node>, root: nat, labels: seq<string>): nat {
    if labels == [] then root else |nodes| + |labels| - 1
  }

  // Filling the end of a chain is placing the chain with the forest below it.
  lemma {:induction false} PlaceUnder(nodes: seq<Node>, root: nat, labels: seq<string>, f: Forest)
    ensures Size(Chain(labels, Empty)) == |labels|
    ensures Placed(Placed(nodes, root, Chain(labels, Empty)), ChainEnd(nodes, root, labels), f)
      == Placed(nodes, root, Chain(labels, f))
    decreases |labels|
  {
    if labels != [] {
      PlaceUnder(nodes + [Node(labels[0], Some(root))], |nodes|, labels[1..], f);
    }
  }

  // Extending a chain by one label.
  lemma {:induction false} ChainMore(labels: seq<string>, name: string, f: Forest)
    ensures Chain(labels, Single(name, f)) == Chain(labels + [name], f)
  {
    if labels == [] {
      assert (labels + [name])[1..] == [];
    } else {
      assert (labels + [name])[1..] == labels[1..] + [name];
      ChainMore(labels[1..], name, f);
    }
  }
}
