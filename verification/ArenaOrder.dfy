/** Walking an arena: descendants in preorder, and the way from the root to a node. */
module ArenaOrder {
  import opened Wrappers
  import opened Arena

  // Every node but the first hangs below an earlier one.
  predicate Linked(nodes: seq<Node>) {
    forall j | 0 <= j < |nodes| :: nodes[j].parent.Some? ==> nodes[j].parent.value < j
  }

  // `descendants`: a node, then the descendants of its children in order.
  function Descendants(nodes: seq<Node>, id: nat): seq<nat>
    requires id < |nodes|
    decreases |nodes| - id, 0
  {
    [id] + DescendantsFrom(nodes, id, id + 1)
  }

  // The descendants of a node's children from a position on.
  function DescendantsFrom(nodes: seq<Node>, id: nat, lo: nat): seq<nat>
    requires lo <= |nodes|
    decreases |nodes| - lo, 1
  {
    if lo == |nodes| then []
    else if nodes[lo].parent == Some(id) then Descendants(nodes, lo) + DescendantsFrom(nodes, id, lo + 1)
    else DescendantsFrom(nodes, id, lo + 1)
  }

  // The fragments from the root down to a node (`ancestors`, reversed).
  function FragmentsTo(nodes: seq<Node>, id: nat): seq<string>
    requires Linked(nodes) && id < |nodes|
  {
    (if nodes[id].parent.Some? then FragmentsTo(nodes, nodes[id].parent.value) else []) + [nodes[id].data]
  }

  // No node from a position on hangs below this one.
  predicate Childless(nodes: seq<Node>, id: nat, lo: nat) {
    forall j | lo <= j < |nodes| :: nodes[j].parent != Some(id)
  }

  // A node without a first child.
  predicate IsLeaf(nodes: seq<Node>, id: nat) {
    Childless(nodes, id, 0)
  }

  // ---- Arenas filled in preorder

  // The nodes from `base` on are those of the forest, below the parent.
  ghost predicate Laid(nodes: seq<Node>, f: Forest, parent: nat, base: nat)
    decreases f
  {
    match f
    case Empty => true
    case Tree(data, children, siblings) =>
      && base < |nodes| && nodes[base] == Node(data, Some(parent))
      && Laid(nodes, children, base, base + 1)
      && Laid(nodes, siblings, parent, base + 1 + Size(children))
  }

  lemma {:induction false} PlacedExtends(nodes: seq<Node>, root: nat, f: Forest)
    ensures nodes <= Placed(nodes, root, f)
    decreases f
  {
    if f.Tree? {
      var with := nodes + [Node(f.data, Some(root))];
      PlacedExtends(with, |nodes|, f.children);
      PlacedExtends(Placed(with, |nodes|, f.children), root, f.siblings);
    }
  }

  lemma {:induction false} LaidExtends(nodes: seq<Node>, more: seq<Node>, f: Forest, parent: nat, base: nat)
    requires Laid(nodes, f, parent, base) && nodes <= more
    ensures Laid(more, f, parent, base)
    decreases f
  {
    if f.Tree? {
      LaidExtends(nodes, more, f.children, base, base + 1);
      LaidExtends(nodes, more, f.siblings, parent, base + 1 + Size(f.children));
    }
  }

  lemma {:induction false} PlacedIsLaid(nodes: seq<Node>, root: nat, f: Forest)
    ensures Laid(Placed(nodes, root, f), f, root, |nodes|)
    decreases f
  {
    if f.Tree? {
      var with := nodes + [Node(f.data, Some(root))];
      var below := Placed(with, |nodes|, f.children);
      var all := Placed(below, root, f.siblings);
      PlacedIsLaid(with, |nodes|, f.children);
      PlacedIsLaid(below, root, f.siblings);
      PlacedExtends(with, |nodes|, f.children);
      PlacedExtends(below, root, f.siblings);
      LaidExtends(below, all, f.children, |nodes|, |nodes| + 1);
      assert with[|nodes|] == all[|nodes|];
    }
  }

  // The nodes of a laid forest hang below its parent or below each other.
  lemma {:induction false} LaidInside(nodes: seq<Node>, f: Forest, parent: nat, base: nat, j: nat)
    requires Laid(nodes, f, parent, base) && base <= j < base + Size(f)
    ensures j < |nodes| && nodes[j].parent.Some?
    ensures nodes[j].parent.value == parent || base <= nodes[j].parent.value < j
    decreases f
  {
    if j != base {
      var next := base + 1 + Size(f.children);
      if j < next {
        LaidInside(nodes, f.children, base, base + 1, j);
      } else {
        LaidInside(nodes, f.siblings, parent, next, j);
      }
    }
  }

  // No later node hangs below one of these positions.
  ghost predicate Closed(nodes: seq<Node>, lo: nat, hi: nat) {
    forall j :: hi <= j < |nodes| && nodes[j].parent.Some? ==> !(lo <= nodes[j].parent.value < hi)
  }

  lemma {:induction false} SkipOthers(nodes: seq<Node>, id: nat, lo: nat, hi: nat)
    requires lo <= hi <= |nodes|
    requires forall j :: lo <= j < hi ==> nodes[j].parent != Some(id)
    ensures DescendantsFrom(nodes, id, lo) == DescendantsFrom(nodes, id, hi)
    decreases |nodes| - lo
  {
    if lo < hi {
      SkipOthers(nodes, id, lo + 1, hi);
    }
  }

  lemma SkipForest(nodes: seq<Node>, f: Forest, parent: nat, base: nat, id: nat)
    requires Laid(nodes, f, parent, base) && base + Size(f) <= |nodes| && id < base && id != parent
    ensures DescendantsFrom(nodes, id, base) == DescendantsFrom(nodes, id, base + Size(f))
  {
    forall j | base <= j < base + Size(f) ensures nodes[j].parent != Some(id) {
      LaidInside(nodes, f, parent, base, j);
    }
    SkipOthers(nodes, id, base, base + Size(f));
  }

  // The positions from `lo` to `hi`, in order.
  predicate Counts(ids: seq<nat>, lo: nat, hi: nat) {
    lo + |ids| == hi && forall i | 0 <= i < |ids| :: ids[i] == lo + i
  }

  lemma CountsOn(first: nat, a: seq<nat>, b: seq<nat>, mid: nat, hi: nat)
    requires Counts(a, first + 1, mid) && Counts(b, mid, hi)
    ensures Counts([first] + a + b, first, hi)
  {
  }

  lemma ClosedParts(nodes: seq<Node>, f: Forest, parent: nat, base: nat)
    requires f.Tree? && Laid(nodes, f, parent, base) && parent < base && base + Size(f) <= |nodes|
    requires Closed(nodes, base, base + Size(f))
    ensures var next := base + 1 + Size(f.children);
      Closed(nodes, base, next) && Closed(nodes, next, base + Size(f))
  {
    var next := base + 1 + Size(f.children);
    forall j | next <= j < |nodes| && nodes[j].parent.Some? ensures !(base <= nodes[j].parent.value < next) {
      if j < base + Size(f) {
        LaidInside(nodes, f.siblings, parent, next, j);
      }
    }
  }

  // The first tree of a laid forest, and what comes after it.
  lemma FirstDescendants(nodes: seq<Node>, f: Forest, parent: nat, base: nat)
    requires f.Tree? && Laid(nodes, f, parent, base) && parent < base && base + Size(f) <= |nodes|
    ensures DescendantsFrom(nodes, parent, base) ==
      [base] + DescendantsFrom(nodes, base, base + 1) + DescendantsFrom(nodes, parent, base + 1 + Size(f.children))
  {
    SkipForest(nodes, f.children, base, base + 1, parent);
  }

  // The descendants of a node with a laid forest below it are all the positions of the forest, in order.
  lemma {:induction false} LaidDescendants(nodes: seq<Node>, f: Forest, parent: nat, base: nat)
    requires Laid(nodes, f, parent, base) && parent < base && base + Size(f) <= |nodes|
    requires Closed(nodes, base, base + Size(f)) && Childless(nodes, parent, base + Size(f))
    ensures Counts(DescendantsFrom(nodes, parent, base), base, base + Size(f))
    decreases f
  {
    if f.Empty? {
      SkipOthers(nodes, parent, base, |nodes|);
    } else {
      var next := base + 1 + Size(f.children);
      ClosedParts(nodes, f, parent, base);
      var below, beside := DescendantsFrom(nodes, base, base + 1), DescendantsFrom(nodes, parent, next);
      LaidDescendants(nodes, f.children, base, base + 1);
      LaidDescendants(nodes, f.siblings, parent, next);
      FirstDescendants(nodes, f, parent, base);
      CountsOn(base, below, beside, next, base + Size(f));
    }
  }

  // A root of a laid forest is a leaf exactly when it has no children there.
  lemma LaidLeaf(nodes: seq<Node>, f: Forest, parent: nat, base: nat)
    requires Linked(nodes) && f.Tree? && Laid(nodes, f, parent, base) && base + Size(f) <= |nodes|
    requires Closed(nodes, base, base + 1 + Size(f.children))
    ensures IsLeaf(nodes, base) <==> f.children.Empty?
  {
    if f.children.Tree? {
      assert nodes[base + 1].parent == Some(base);
    }
  }
}
