/** Merging two message pacts (`MessagePact::merge`). */
module MessagePacts {
  import opened Wrappers
  import opened Json
  import opened StringOrder

  datatype ProviderState = ProviderState(name: string, params: map<string, Value>)

  datatype Message = Message(
    id: Option<string>,
    description: string,
    providerStates: seq<ProviderState>,
    contents: Option<string>,
    metadata: map<string, Value>)

  // What the merge sees of an interaction of any kind: only some kinds convert to a message.
  datatype Interaction = Interaction(
    typeName: string,
    description: string,
    providerStates: seq<ProviderState>,
    asMessage: Option<Message>)

  // Converting an interaction keeps its description and its provider states.
  predicate Faithful(i: Interaction) {
    i.asMessage.Some? ==>
      i.asMessage.value.description == i.description && i.asMessage.value.providerStates == i.providerStates
  }

  function MessageAsInteraction(m: Message): (i: Interaction)
    ensures Faithful(i)
  {
    Interaction("V3 Asynchronous/Messages", m.description, m.providerStates, Some(m))
  }

  datatype Pact = Pact(consumer: string, provider: string, interactions: seq<Interaction>)

  datatype MessagePact = MessagePact(
    consumer: string,
    provider: string,
    messages: seq<Message>,
    metadata: map<string, map<string, string>>,
    specificationVersion: string)

  function AsInteractions(ms: seq<Message>): seq<Interaction> {
    seq(|ms|, i requires 0 <= i < |ms| => MessageAsInteraction(ms[i]))
  }

  function AsPact(p: MessagePact): Pact {
    Pact(p.consumer, p.provider, AsInteractions(p.messages))
  }

  // ---- The order of interactions

  datatype Ordering = Less | Equal | Greater

  function CompareStrings(a: string, b: string): Ordering {
    if a == b then Equal else if Below(a, b) then Less else Greater
  }

  function CompareLists(a: seq<string>, b: seq<string>): Ordering {
    if a == [] && b == [] then Equal
    else if a == [] then Less
    else if b == [] then Greater
    else if a[0] != b[0] then CompareStrings(a[0], b[0])
    else CompareLists(a[1..], b[1..])
  }

  function StateNames(states: seq<ProviderState>): seq<string> {
    seq(|states|, i requires 0 <= i < |states| => states[i].name)
  }

  // The states only count when the left message has some.
  function Compare(a: Message, b: Interaction): Ordering {
    var cmp := CompareStrings(a.description, b.description);
    if cmp == Equal && a.providerStates != [] then
      CompareLists(StateNames(a.providerStates), StateNames(b.providerStates))
    else cmp
  }

  // ---- The merge

  datatype Joined = Left(message: Message) | Right(interaction: Interaction) | Both(message: Message, interaction: Interaction)

  // What `merge_join_by` takes next: it compares the heads, until one side runs out.
  function Step(l: seq<Message>, r: seq<Interaction>): Joined
    requires l != [] || r != []
  {
    if r == [] then Left(l[0])
    else if l == [] then Right(r[0])
    else
      match Compare(l[0], r[0])
      case Less => Left(l[0])
      case Greater => Right(r[0])
      case Equal => Both(l[0], r[0])
  }

  function MergeJoin(l: seq<Message>, r: seq<Interaction>): seq<Joined>
    decreases |l| + |r|
  {
    if l == [] && r == [] then [] else
      var j := Step(l, r);
      [j] + MergeJoin(if j.Right? then l else l[1..], if j.Left? then r else r[1..])
  }

  function Converted(j: Joined): Option<Message> {
    match j
    case Left(m) => Some(m)
    case Right(i) => i.asMessage
    case Both(_, i) => i.asMessage
  }

  // The types of the interactions that cannot be converted, in order.
  function Unconvertible(js: seq<Joined>): seq<string> {
    if js == [] then [] else
      (if Converted(js[0]).None? then [js[0].interaction.typeName] else []) + Unconvertible(js[1..])
  }

  function Messages(js: seq<Joined>): seq<Message> {
    if js == [] then [] else
      (if Converted(js[0]).Some? then [Converted(js[0]).value] else []) + Messages(js[1..])
  }

  datatype MergeResult = Merged(pact: MessagePact) | CannotConvert(types: seq<string>) | DifferentParticipants

  function Merge(p: MessagePact, other: Pact): MergeResult {
    if p.consumer == other.consumer && p.provider == other.provider then
      var joined := MergeJoin(p.messages, other.interactions);
      if Unconvertible(joined) == [] then Merged(p.(messages := Messages(joined)))
      else CannotConvert(Unconvertible(joined))
    else DifferentParticipants
  }
}
