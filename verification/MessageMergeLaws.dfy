/** What merging two message pacts keeps. */
module MessageMergeLaws {
  import opened Wrappers
  import opened MessagePacts
  import opened MessagePactLaws
  import opened MergeKeyLaws

  // ---- Any pacts

  // Merging a pact with itself changes nothing.
  lemma {:induction false} JoinSelf(ms: seq<Message>)
    ensures var js := MergeJoin(ms, AsInteractions(ms));
      Unconvertible(js) == [] && Messages(js) == ms
  {
    if ms != [] {
      CompareKeysSound(KeyOf(ms[0]), KeyOf(ms[0]));
      assert AsInteractions(ms)[1..] == AsInteractions(ms[1..]);
      JoinSelf(ms[1..]);
    }
  }

  lemma MergeSelf(p: MessagePact)
    ensures Merge(p, AsPact(p)) == Merged(p)
  {
    JoinSelf(p.messages);
  }

  function CountBoth(js: seq<Joined>): nat {
    if js == [] then 0 else (if js[0].Both? then 1 else 0) + CountBoth(js[1..])
  }

  // The number of messages is that of both sides less the pairs that were joined.
  lemma {:induction false} JoinLength(l: seq<Message>, r: seq<Interaction>)
    ensures |MergeJoin(l, r)| + CountBoth(MergeJoin(l, r)) == |l| + |r|
    decreases |l| + |r|
  {
    if l != [] || r != [] {
      var j := Step(l, r);
      JoinLength(if j.Right? then l else l[1..], if j.Left? then r else r[1..]);
    }
  }

  lemma {:induction false} ConvertedLength(js: seq<Joined>)
    ensures |Messages(js)| + |Unconvertible(js)| == |js|
  {
    if js != [] {
      ConvertedLength(js[1..]);
    }
  }

  lemma MergeLength(p: MessagePact, other: Pact)
    ensures Merge(p, other).Merged? ==>
      |Merge(p, other).pact.messages| + CountBoth(MergeJoin(p.messages, other.interactions))
        == |p.messages| + |other.interactions|
  {
    JoinLength(p.messages, other.interactions);
    ConvertedLength(MergeJoin(p.messages, other.interactions));
  }

  // ---- What becomes of the messages

  ghost predicate AllFaithful(r: seq<Interaction>) {
    forall i :: i in r ==> Faithful(i)
  }

  // When everything converts, the messages have the keys of what was joined.
  lemma {:induction false} ConvertedKeys(js: seq<Joined>)
    requires Unconvertible(js) == []
    requires forall j :: j in js && !j.Left? ==> Faithful(j.interaction)
    ensures MessageKeys(Messages(js)) == JoinedKeys(js)
  {
    if js != [] {
      assert js[0] in js && forall j :: j in js[1..] ==> j in js;
      ConvertedKeys(js[1..]);
      KeysCons(js[0], js[1..]);
      assert js == [js[0]] + js[1..];
      MessageKeysTail(Messages(js));
    }
  }

  lemma {:induction false} JoinedAreFrom(l: seq<Message>, r: seq<Interaction>, j: Joined)
    requires j in MergeJoin(l, r)
    ensures !j.Right? ==> j.message in l
    ensures !j.Left? ==> j.interaction in r
    decreases |l| + |r|
  {
    var first := Step(l, r);
    if j != first {
      JoinedAreFrom(if first.Right? then l else l[1..], if first.Left? then r else r[1..], j);
    }
  }

  lemma {:induction false} MessagesOf(js: seq<Joined>, m: Message)
    ensures m in Messages(js) <==> exists j :: j in js && Converted(j) == Some(m)
  {
    if js != [] {
      MessagesOf(js[1..], m);
      assert forall j :: j in js <==> j == js[0] || j in js[1..];
    }
  }

  lemma {:induction false} RightIsJoined(l: seq<Message>, r: seq<Interaction>, i: Interaction) returns (j: Joined)
    requires i in r
    ensures j in MergeJoin(l, r) && !j.Left? && j.interaction == i
    decreases |l| + |r|
  {
    var first := Step(l, r);
    var l', r' := if first.Right? then l else l[1..], if first.Left? then r else r[1..];
    if i in r' {
      j := RightIsJoined(l', r', i);
    } else {
      j := first;
    }
  }

  // Every interaction of the other pact ends up in the result.
  lemma OtherIsKept(p: MessagePact, other: Pact, i: Interaction)
    requires Merge(p, other).Merged? && i in other.interactions
    ensures i.asMessage.Some? && i.asMessage.value in Merge(p, other).pact.messages
  {
    var js := MergeJoin(p.messages, other.interactions);
    var j := RightIsJoined(p.messages, other.interactions, i);
    AllConvert(js, j);
    MessagesOf(js, i.asMessage.value);
  }

  lemma {:induction false} AllConvert(js: seq<Joined>, j: Joined)
    requires Unconvertible(js) == [] && j in js
    ensures Converted(j).Some?
  {
    if j != js[0] {
      AllConvert(js[1..], j);
    }
  }

  // A message of the result comes from one of the two pacts.
  lemma ResultIsFrom(p: MessagePact, other: Pact, m: Message)
    requires Merge(p, other).Merged? && m in Merge(p, other).pact.messages
    ensures m in p.messages || exists i :: i in other.interactions && i.asMessage == Some(m)
  {
    var js := MergeJoin(p.messages, other.interactions);
    MessagesOf(js, m);
    var j :| j in js && Converted(j) == Some(m);
    JoinedAreFrom(p.messages, other.interactions, j);
  }

  lemma ResultKeys(p: MessagePact, other: Pact)
    requires Merge(p, other).Merged? && AllFaithful(other.interactions)
    ensures MessageKeys(Merge(p, other).pact.messages) == MergeKeys(MessageKeys(p.messages), InteractionKeys(other.interactions))
  {
    var js := MergeJoin(p.messages, other.interactions);
    forall j | j in js && !j.Left? ensures Faithful(j.interaction) {
      JoinedAreFrom(p.messages, other.interactions, j);
    }
    ConvertedKeys(js);
    KeysOfJoin(p.messages, other.interactions);
  }

  // No description of either pact is lost, sorted or not.
  lemma MergeKeepsAllDescriptions(p: MessagePact, other: Pact)
    requires Merge(p, other).Merged? && AllFaithful(other.interactions)
    ensures Descriptions(MessageKeys(Merge(p, other).pact.messages)) ==
      Descriptions(MessageKeys(p.messages)) + Descriptions(InteractionKeys(other.interactions))
  {
    ResultKeys(p, other);
    MergeKeepsDescriptions(MessageKeys(p.messages), InteractionKeys(other.interactions));
  }

  // A message with states keeps its key in the result, sorted or not: only ones without states can be lost.
  lemma StatefulMessageIsKept(p: MessagePact, other: Pact, m: Message)
    requires Merge(p, other).Merged? && AllFaithful(other.interactions)
    requires m in p.messages && m.providerStates != []
    ensures KeyOf(m) in MessageKeys(Merge(p, other).pact.messages)
  {
    ResultKeys(p, other);
    var i :| 0 <= i < |p.messages| && p.messages[i] == m;
    assert MessageKeys(p.messages)[i] == KeyOf(m);
    assert |KeyOf(m).states| > 0;
    StatefulIsKept(MessageKeys(p.messages), InteractionKeys(other.interactions), KeyOf(m));
  }

  // For sorted pacts, the merge has the keys of both exactly when no stateless message meets only
  // interactions with states; then it is sorted.
  lemma MergeSortedExactly(p: MessagePact, other: Pact)
    requires Merge(p, other).Merged? && AllFaithful(other.interactions)
    requires Ascending(MessageKeys(p.messages)) && Ascending(InteractionKeys(other.interactions))
    ensures var l, r, m := MessageKeys(p.messages), InteractionKeys(other.interactions), MessageKeys(Merge(p, other).pact.messages);
      && ((forall k :: k in m <==> k in l || k in r) <==> Covered(l, r))
      && (Covered(l, r) ==> Ascending(m))
  {
    var l, r := MessageKeys(p.messages), InteractionKeys(other.interactions);
    ResultKeys(p, other);
    MergeHasAllKeysExactly(l, r);
    forall k ensures k in MergeKeys(l, r) ==> k in l || k in r {
      MergeKeepsKeys(l, r, k);
    }
  }

  // Messages that all have states are covered by anything.
  lemma StatefulIsCovered(p: MessagePact, keys: seq<Key>)
    requires forall m <- p.messages :: m.providerStates != []
    ensures Covered(MessageKeys(p.messages), keys)
  {
    forall k | k in MessageKeys(p.messages) ensures k.states != [] {
      var i :| 0 <= i < |p.messages| && MessageKeys(p.messages)[i] == k;
      assert p.messages[i] in p.messages;
    }
  }

  // When all keys are kept, the other pact wins on those both have.
  lemma OtherWins(p: MessagePact, other: Pact, m: Message, i: Interaction)
    requires Merge(p, other).Merged? && AllFaithful(other.interactions)
    requires Ascending(MessageKeys(p.messages)) && Ascending(InteractionKeys(other.interactions))
    requires Covered(MessageKeys(p.messages), InteractionKeys(other.interactions))
    requires m in Merge(p, other).pact.messages && i in other.interactions && KeyOf(m) == KeyOfInteraction(i)
    ensures i.asMessage == Some(m)
  {
    MergeSortedExactly(p, other);
    OtherIsKept(p, other, i);
    SameKeySameMessage(Merge(p, other).pact.messages, m, i.asMessage.value);
  }

  lemma {:induction false} SameKeySameMessage(ms: seq<Message>, m: Message, n: Message)
    requires Ascending(MessageKeys(ms)) && m in ms && n in ms && KeyOf(m) == KeyOf(n)
    ensures m == n
  {
    MessageKeysTail(ms);
    assert MessageKeys(ms)[1..] == MessageKeys(ms[1..]);
    CompareKeysSound(KeyOf(m), KeyOf(m));
    forall x | x in ms[1..] ensures KeyOf(x) in MessageKeys(ms[1..]) {
      var k :| 0 <= k < |ms[1..]| && ms[1..][k] == x;
      assert MessageKeys(ms[1..])[k] == KeyOf(x);
    }
    if m in ms[1..] && n in ms[1..] {
      SameKeySameMessage(ms[1..], m, n);
    }
  }

  // A stateless message is replaced by one with states of the same description.
  lemma StatelessMessageIsLost(a: Message, b: Message)
    requires a.description == b.description && a.providerStates == [] && b.providerStates != []
    ensures Messages(MergeJoin([a], AsInteractions([b]))) == [b]
  {
    CompareStringsSound(a.description, b.description);
    var i := AsInteractions([b])[0];
    assert Compare(a, i) == Equal;
    assert MergeJoin([a], AsInteractions([b])) == [Both(a, i)] + MergeJoin([a][1..], AsInteractions([b])[1..]);
    assert [a][1..] == [] && AsInteractions([b])[1..] == [];
  }
}
