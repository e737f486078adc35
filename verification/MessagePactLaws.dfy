/** What merging two message pacts keeps. */
module MessagePactLaws {
  import opened StringOrder
  import opened MessagePacts

  // What an interaction is identified by.
  datatype Key = Key(description: string, states: seq<string>)

  function KeyOf(m: Message): Key {
    Key(m.description, StateNames(m.providerStates))
  }

  function KeyOfInteraction(i: Interaction): Key {
    Key(i.description, StateNames(i.providerStates))
  }

  function KeyOfJoined(j: Joined): Key {
    match j
    case Left(m) => KeyOf(m)
    case Right(i) => KeyOfInteraction(i)
    case Both(_, i) => KeyOfInteraction(i)
  }

  // ---- The order of the keys

  function CompareKeys(a: Key, b: Key): Ordering {
    if a.description != b.description then CompareStrings(a.description, b.description)
    else CompareLists(a.states, b.states)
  }

  predicate KeyBelow(a: Key, b: Key) {
    CompareKeys(a, b) == Less
  }

  lemma CompareStringsSound(a: string, b: string)
    ensures CompareStrings(a, b) == Equal <==> a == b
    ensures CompareStrings(a, b) == Less <==> CompareStrings(b, a) == Greater
  {
    BelowTotal(a, b);
    BelowAsymmetric(a, b);
  }

  lemma {:induction false} CompareListsSound(a: seq<string>, b: seq<string>)
    ensures CompareLists(a, b) == Equal <==> a == b
    ensures CompareLists(a, b) == Less <==> CompareLists(b, a) == Greater
  {
    if a != [] && b != [] {
      if a[0] == b[0] {
        CompareListsSound(a[1..], b[1..]);
        assert a == [a[0]] + a[1..] && b == [b[0]] + b[1..];
      } else {
        CompareStringsSound(a[0], b[0]);
      }
    }
  }

  lemma {:induction false} CompareListsTransitive(a: seq<string>, b: seq<string>, c: seq<string>)
    requires CompareLists(a, b) == Less && CompareLists(b, c) == Less
    ensures CompareLists(a, c) == Less
  {
    if a != [] && b != [] && c != [] {
      if a[0] == b[0] == c[0] {
        CompareListsTransitive(a[1..], b[1..], c[1..]);
      } else if a[0] != b[0] && b[0] != c[0] {
        BelowTransitive(a[0], b[0], c[0]);
        BelowIrreflexive(a[0]);
      }
    }
  }

  lemma CompareKeysSound(a: Key, b: Key)
    ensures CompareKeys(a, b) == Equal <==> a == b
    ensures CompareKeys(a, b) == Less <==> CompareKeys(b, a) == Greater
  {
    CompareStringsSound(a.description, b.description);
    CompareListsSound(a.states, b.states);
  }

  lemma KeyBelowTransitive(a: Key, b: Key, c: Key)
    requires KeyBelow(a, b) && KeyBelow(b, c)
    ensures KeyBelow(a, c)
  {
    if a.description == b.description == c.description {
      CompareListsTransitive(a.states, b.states, c.states);
    } else if a.description != b.description && b.description != c.description {
      BelowTransitive(a.description, b.description, c.description);
      BelowIrreflexive(a.description);
    }
  }

  // ---- The merge, seen through the keys

  function MessageKeys(l: seq<Message>): seq<Key> {
    seq(|l|, i requires 0 <= i < |l| => KeyOf(l[i]))
  }

  function InteractionKeys(r: seq<Interaction>): seq<Key> {
    seq(|r|, i requires 0 <= i < |r| => KeyOfInteraction(r[i]))
  }

  function JoinedKeys(js: seq<Joined>): seq<Key> {
    seq(|js|, i requires 0 <= i < |js| => KeyOfJoined(js[i]))
  }

  function CompareHeads(a: Key, b: Key): Ordering {
    var cmp := CompareStrings(a.description, b.description);
    if cmp == Equal && a.states != [] then CompareLists(a.states, b.states) else cmp
  }

  function MergeKeys(a: seq<Key>, b: seq<Key>): seq<Key>
    decreases |a| + |b|
  {
    if b == [] then a
    else if a == [] then b
    else
      match CompareHeads(a[0], b[0])
      case Less => [a[0]] + MergeKeys(a[1..], b)
      case Greater => [b[0]] + MergeKeys(a, b[1..])
      case Equal => [b[0]] + MergeKeys(a[1..], b[1..])
  }

  lemma KeysCons(j: Joined, js: seq<Joined>)
    ensures JoinedKeys([j] + js) == [KeyOfJoined(j)] + JoinedKeys(js)
  {
  }

  lemma MessageKeysTail(l: seq<Message>)
    requires l != []
    ensures MessageKeys(l) == [KeyOf(l[0])] + MessageKeys(l[1..])
  {
  }

  lemma InteractionKeysTail(r: seq<Interaction>)
    requires r != []
    ensures InteractionKeys(r) == [KeyOfInteraction(r[0])] + InteractionKeys(r[1..])
  {
  }

  lemma CompareIsOnKeys(a: Message, b: Interaction)
    ensures Compare(a, b) == CompareHeads(KeyOf(a), KeyOfInteraction(b))
  {
  }

  lemma {:induction false} KeysOfJoin(l: seq<Message>, r: seq<Interaction>)
    ensures JoinedKeys(MergeJoin(l, r)) == MergeKeys(MessageKeys(l), InteractionKeys(r))
    decreases |l| + |r|
  {
    if l != [] || r != [] {
      var j := Step(l, r);
      var l', r' := if j.Right? then l else l[1..], if j.Left? then r else r[1..];
      KeysOfJoin(l', r');
      KeysCons(j, MergeJoin(l', r'));
      if l != [] { MessageKeysTail(l); }
      if r != [] { InteractionKeysTail(r); }
      if l != [] && r != [] { CompareIsOnKeys(l[0], r[0]); }
    }
  }

  // ---- When the merge is refused

  // The types of the interactions that are no messages, in order.
  function TypesOfOthers(r: seq<Interaction>): seq<string> {
    if r == [] then [] else (if r[0].asMessage.None? then [r[0].typeName] else []) + TypesOfOthers(r[1..])
  }

  lemma UnconvertibleCons(j: Joined, js: seq<Joined>)
    ensures Unconvertible([j] + js) == (if Converted(j).None? then [j.interaction.typeName] else []) + Unconvertible(js)
  {
    assert ([j] + js)[1..] == js;
  }

  // Every interaction of the other pact is met once, in order.
  lemma {:induction false} UnconvertibleExactly(l: seq<Message>, r: seq<Interaction>)
    ensures Unconvertible(MergeJoin(l, r)) == TypesOfOthers(r)
    decreases |l| + |r|
  {
    if l != [] || r != [] {
      var j := Step(l, r);
      var l', r' := if j.Right? then l else l[1..], if j.Left? then r else r[1..];
      UnconvertibleExactly(l', r');
      UnconvertibleCons(j, MergeJoin(l', r'));
    }
  }

  lemma {:induction false} OthersExactly(r: seq<Interaction>)
    ensures TypesOfOthers(r) == [] <==> forall i <- r :: i.asMessage.Some?
  {
    if r != [] {
      OthersExactly(r[1..]);
      assert r == [r[0]] + r[1..];
    }
  }

  /** Pacts of other participants are refused, and so are interactions that are no messages, with the types of all of them;
    * otherwise the result is a pact of the same participants with the metadata and version of the first one. */
  lemma MergeRefusesExactly(p: MessagePact, other: Pact)
    ensures Merge(p, other).DifferentParticipants? <==> p.consumer != other.consumer || p.provider != other.provider
    ensures Merge(p, other).CannotConvert? <==>
      p.consumer == other.consumer && p.provider == other.provider && exists i <- other.interactions :: i.asMessage.None?
    ensures Merge(p, other).CannotConvert? ==> Merge(p, other).types == TypesOfOthers(other.interactions)
    ensures Merge(p, other).Merged? ==>
      var q := Merge(p, other).pact;
      && q.consumer == p.consumer && q.provider == p.provider
      && q.metadata == p.metadata && q.specificationVersion == p.specificationVersion
  {
    UnconvertibleExactly(p.messages, other.interactions);
    OthersExactly(other.interactions);
  }
}
