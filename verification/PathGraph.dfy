/** The tree of the document positions that follow a path expression (`query_object_graph`). */
module PathGraph {
  import opened Wrappers
  import opened Json
  import opened StringOrder
  import opened Paths
  import opened Arena

  // The forest of fragments an expression finds in a document. A missing field ends the walk, but
  // an index past the end of its list is merely skipped.
  function Graph(tokens: seq<PathToken>, body: Value): Forest
    decreases |tokens|, 1
  {
    if tokens == [] then Empty else
      var rest := tokens[1..];
      match tokens[0]
      case Root => Graph(rest, body)
      case Field(name) =>
        if body.Object? && name in body.entries then Single(name, Graph(rest, body.entries[name])) else Empty
      case Index(i) =>
        if !body.Array? then Empty
        else if i < |body.items| then Single(ShowNat(i), Graph(rest, body.items[i]))
        else Graph(rest, body)
      case Star => if body.Object? then FieldGraphs(rest, SortedKeys(body.entries.Keys), body.entries) else Empty
      case StarIndex => if body.Array? then ItemGraphs(rest, 0, body.items) else Empty
  }

  function FieldGraphs(tokens: seq<PathToken>, keys: seq<string>, entries: map<string, Value>): Forest
    requires forall k :: k in keys ==> k in entries
    decreases |tokens|, 2, |keys|
  {
    if keys == [] then Empty else
      Tree(keys[0], Graph(tokens, entries[keys[0]]), FieldGraphs(tokens, keys[1..], entries))
  }

  function ItemGraphs(tokens: seq<PathToken>, i: nat, items: seq<Value>): Forest
    requires i <= |items|
    decreases |tokens|, 2, |items| - i
  {
    if i == |items| then Empty else
      Tree(ShowNat(i), Graph(tokens, items[i]), ItemGraphs(tokens, i + 1, items))
  }

  lemma {:induction false} FieldGraphsSplit(tokens: seq<PathToken>, keys: seq<string>, entries: map<string, Value>, i: nat)
    requires forall k :: k in keys ==> k in entries
    requires i < |keys|
    ensures FieldGraphs(tokens, keys[..i + 1], entries) ==
      Append(FieldGraphs(tokens, keys[..i], entries), Single(keys[i], Graph(tokens, entries[keys[i]])))
  {
    assert keys[..i + 1][0] == keys[0];
    if i > 0 {
      assert keys[..i + 1][1..] == keys[1..][..i] && keys[..i][1..] == keys[1..][..i - 1];
      FieldGraphsSplit(tokens, keys[1..], entries, i - 1);
    } else {
      assert keys[..1][1..] == [];
    }
  }

  // The trees of the items before position `i`.
  function ItemsBefore(tokens: seq<PathToken>, i: nat, items: seq<Value>): Forest
    requires i <= |items|
  {
    if i == 0 then Empty else
      Append(ItemsBefore(tokens, i - 1, items), Single(ShowNat(i - 1), Graph(tokens, items[i - 1])))
  }

  lemma {:induction false} ItemsBeforeAll(tokens: seq<PathToken>, i: nat, items: seq<Value>)
    requires i <= |items|
    ensures Append(ItemsBefore(tokens, i, items), ItemGraphs(tokens, i, items)) == ItemGraphs(tokens, 0, items)
    decreases i
  {
    if i > 0 {
      ItemsBeforeAll(tokens, i - 1, items);
      AppendAssociates(ItemsBefore(tokens, i - 1, items), Single(ShowNat(i - 1), Graph(tokens, items[i - 1])), ItemGraphs(tokens, i, items));
    }
  }

  lemma {:induction false} AppendAssociates(f: Forest, g: Forest, h: Forest)
    ensures Append(Append(f, g), h) == Append(f, Append(g, h))
  {
    if f.Tree? {
      AppendAssociates(f.siblings, g, h);
    }
  }

  lemma {:induction false} AppendEmpty(f: Forest)
    ensures Append(f, Empty) == f
  {
    if f.Tree? {
      AppendEmpty(f.siblings);
    }
  }

  /** Walks down the document with two cursors; the star tokens branch for each child. */
  method QueryObjectGraph(pathExp: seq<PathToken>, tree: Arena, root: nat, body: Value)
    requires root < |tree.nodes|
    modifies tree
    ensures tree.nodes == Placed(old(tree.nodes), root, Graph(pathExp, body))
    decreases |pathExp|, 0
  {
    var bodyCursor := body;
    var nodeCursor := root;
    var i := 0;
    ghost var labels: seq<string> := [];
    ghost var before := tree.nodes;
    assert pathExp[0..] == pathExp;
    while i < |pathExp|
      invariant i <= |pathExp|
      invariant nodeCursor == ChainEnd(before, root, labels) < |tree.nodes|
      invariant tree.nodes == Placed(before, root, Chain(labels, Empty))
      invariant Graph(pathExp, body) == Chain(labels, Graph(pathExp[i..], bodyCursor))
    {
      var token, rest := pathExp[i], pathExp[i + 1..];
      assert pathExp[i..][1..] == rest;
      PlaceUnder(before, root, labels, Graph(pathExp[i..], bodyCursor));
      i := i + 1;
      match token {
        case Root =>
        case Field(name) =>
          if !bodyCursor.Object? || name !in bodyCursor.entries {
            return;
          }
          nodeCursor := tree.AppendValue(nodeCursor, name);
          bodyCursor := bodyCursor.entries[name];
          labels := Descend(before, root, labels, name, Graph(rest, bodyCursor));
        case Index(index) =>
          if !bodyCursor.Array? {
            return;
          }
          if index < |bodyCursor.items| {
            nodeCursor := tree.AppendValue(nodeCursor, ShowNat(index));
            bodyCursor := bodyCursor.items[index];
            labels := Descend(before, root, labels, ShowNat(index), Graph(rest, bodyCursor));
          }
        case Star =>
          if bodyCursor.Object? {
            QueryFields(rest, tree, nodeCursor, bodyCursor);
          }
          return;
        case StarIndex =>
          if bodyCursor.Array? {
            QueryItems(rest, tree, nodeCursor, bodyCursor);
          }
          return;
      }
    }
    assert Graph(pathExp[i..], bodyCursor) == Empty;
  }

  // The chain after one more step down.
  lemma Descend(nodes: seq<Node>, root: nat, labels: seq<string>, name: string, f: Forest) returns (more: seq<string>)
    ensures more == labels + [name]
    ensures Chain(more, f) == Chain(labels, Single(name, f))
    ensures Placed(nodes, root, Chain(more, Empty)) ==
      Placed(nodes, root, Chain(labels, Empty)) + [Node(name, Some(ChainEnd(nodes, root, labels)))]
    ensures ChainEnd(nodes, root, more) == |Placed(nodes, root, Chain(labels, Empty))|
  {
    more := labels + [name];
    ChainMore(labels, name, f);
    ChainMore(labels, name, Empty);
    PlaceUnder(nodes, root, labels, Single(name, Empty));
  }

  method QueryFields(rest: seq<PathToken>, tree: Arena, node: nat, body: Value)
    requires node < |tree.nodes| && body.Object?
    modifies tree
    ensures tree.nodes == Placed(old(tree.nodes), node, FieldGraphs(rest, SortedKeys(body.entries.Keys), body.entries))
    decreases |rest|, 1
  {
    var keys := SortedKeys(body.entries.Keys);
    ghost var before := tree.nodes;
    for i := 0 to |keys|
      invariant node < |tree.nodes|
      invariant tree.nodes == Placed(before, node, FieldGraphs(rest, keys[..i], body.entries))
    {
      FieldGraphsSplit(rest, keys, body.entries, i);
      PlaceNext(before, node, FieldGraphs(rest, keys[..i], body.entries), keys[i], Graph(rest, body.entries[keys[i]]));
      var child := tree.AppendValue(node, keys[i]);
      QueryObjectGraph(rest, tree, child, body.entries[keys[i]]);
    }
    assert keys[..|keys|] == keys;
  }

  method QueryItems(rest: seq<PathToken>, tree: Arena, node: nat, body: Value)
    requires node < |tree.nodes| && body.Array?
    modifies tree
    ensures tree.nodes == Placed(old(tree.nodes), node, ItemGraphs(rest, 0, body.items))
    decreases |rest|, 1
  {
    ghost var before := tree.nodes;
    for i := 0 to |body.items|
      invariant node < |tree.nodes|
      invariant tree.nodes == Placed(before, node, ItemsBefore(rest, i, body.items))
    {
      PlaceNext(before, node, ItemsBefore(rest, i, body.items), ShowNat(i), Graph(rest, body.items[i]));
      var child := tree.AppendValue(node, ShowNat(i));
      QueryObjectGraph(rest, tree, child, body.items[i]);
    }
    ItemsBeforeAll(rest, |body.items|, body.items);
    AppendEmpty(ItemsBefore(rest, |body.items|, body.items));
  }
}
