/** Exactly which query maps survive being written as a query string and parsed again. */
module QueryStringLaws {
  import opened Wrappers
  import opened StringOrder
  import opened Text
  import opened Utf8
  import opened QueryEncoding
  import opened QueryEncodingLaws
  import opened Grouping
  import opened Sequences
  import opened Traces
  import opened QueryStrings
  import opened QueryNames

  lemma {:induction false} EncodedCharacters(q: string)
    requires IsEncoded(q)
    ensures forall i :: 0 <= i < |q| ==> q[i] as int < 0x80 && q[i] != '&' && q[i] != '='
  {
    if q != "" {
      if q[0] == '%' {
        EncodedCharacters(q[3..]);
        assert forall i :: 3 <= i < |q| ==> q[i] == q[3..][i - 3];
      } else {
        EncodedCharacters(q[1..]);
        assert forall i :: 1 <= i < |q| ==> q[i] == q[1..][i - 1];
      }
    }
  }

  // What comes back for a value that is written and parsed.
  function Back(v: Option<string>): Option<string> {
    if v.None? || EncodeQuery(v.value).None? then None
    else Some(DecodedOr(EncodeQuery(v.value).value))
  }

  lemma {:induction false} UnencodableBelow(s: string)
    requires forall i :: 0 <= i < |s| ==> s[i] as int < 0x80
    requires EncodeQuery(s).Some?
    ensures InRange(s)
  {
    if s != "" {
      CodeBytesShort(s[0]);
      UnencodableBelow(s[1..]);
      assert forall i :: 1 <= i < |s| ==> s[i] == s[1..][i - 1];
    }
  }

  lemma BackExactly(v: Option<string>)
    ensures Back(v) == v <==> v.None? || InRange(v.value)
  {
    if v.Some? && EncodeQuery(v.value).Some? {
      var s, e := v.value, EncodeQuery(v.value).value;
      EncodingRoundTripExactly(s);
      if Decoded(e).None? && e == s {
        EncodeQueryAlphabet(s);
        EncodedCharacters(e);
        UnencodableBelow(s);
      }
    } else if v.Some? {
      EncodingRoundTripExactly(v.value);
    }
  }

  lemma ParameterTextParses(p: Parameter)
    requires MeansItself(p.0) && p.0 != "" && Encodable(p)
    ensures '&' !in ParameterText(p) && ParameterText(p) != ""
    ensures ParseParameter(ParameterText(p)) == [(p.0, Back(p.1))]
  {
    var text := ParameterText(p);
    IndexOfFirst(text, '=');
    if p.1.Some? {
      var e := EncodeQuery(p.1.value).value;
      EncodeQueryAlphabet(p.1.value);
      EncodedCharacters(e);
      var n := |p.0|;
      assert text[n] == '=' && text[..n] == p.0 && text[n + 1..] == e;
      assert forall i :: 0 <= i < n ==> text[i] == p.0[i];
      assert IndexOf(text, '=') == Some(n);
    }
  }

  function Backs(ps: seq<Parameter>): seq<Parameter> {
    seq(|ps|, i requires 0 <= i < |ps| => (ps[i].0, Back(ps[i].1)))
  }

  ghost predicate Writable(ps: seq<Parameter>) {
    forall i :: 0 <= i < |ps| ==> Encodable(ps[i]) && MeansItself(ps[i].0) && ps[i].0 != ""
  }

  lemma LastText(ps: seq<Parameter>)
    requires Writable(ps) && ps != []
    ensures var n := |ps| - 1;
      && Texts(ps)[..n] == Texts(ps[..n]) && Texts(ps)[n] == ParameterText(ps[n])
      && Backs(ps) == Backs(ps[..n]) + [(ps[n].0, Back(ps[n].1))]
  {
  }

  lemma {:induction false} TextsParse(ps: seq<Parameter>)
    requires Writable(ps)
    ensures ParseParameters(Texts(ps)) == Backs(ps)
  {
    if ps != [] {
      LastText(ps);
      TextsParse(ps[..|ps| - 1]);
      ParameterTextParses(ps[|ps| - 1]);
    }
  }

  lemma WrittenParses(ps: seq<Parameter>)
    requires Writable(ps)
    ensures Parsed(Join(Texts(ps), "&")) == if ps == [] then None else Some(Grouped(Backs(ps)))
  {
    if ps != [] {
      var texts := Texts(ps);
      forall t | t in texts ensures '&' !in t && t != "" {
        var i :| 0 <= i < |ps| && t == ParameterText(ps[i]);
        ParameterTextParses(ps[i]);
      }
      assert texts[0] in texts;
      SplitJoin(texts, '&');
      TextsParse(ps);
    }
  }

  function BackValues(values: seq<Option<string>>): seq<Option<string>> {
    seq(|values|, i requires 0 <= i < |values| => Back(values[i]))
  }

  lemma {:induction false} ValuesOfTagged(key: string, values: seq<Option<string>>, name: string)
    ensures ValuesOf(Tagged(key, values), name) == if name == key then values else []
  {
    if values != [] {
      var n := |values| - 1;
      ValuesOfTagged(key, values[..n], name);
      assert Tagged(key, values)[..n] == Tagged(key, values[..n]);
    }
  }

  // Every name has its own values, in order.
  lemma {:induction false} ValuesOfParameters(keys: seq<string>, query: Query, name: string)
    requires forall k :: k in keys ==> k in query
    requires Distinct(keys)
    ensures ValuesOf(Parameters(keys, query), name) == if name in keys then query[name] else []
  {
    if keys != [] {
      ValuesOfConcat(Tagged(keys[0], query[keys[0]]), Parameters(keys[1..], query), name);
      ValuesOfTagged(keys[0], query[keys[0]], name);
      ValuesOfParameters(keys[1..], query, name);
      if name in keys && name != keys[0] {
        assert name in keys[1..];
      }
    }
  }

  lemma {:induction false} ValuesOfBacks(ps: seq<Parameter>, name: string)
    ensures ValuesOf(Backs(ps), name) == BackValues(ValuesOf(ps, name))
  {
    if ps != [] {
      var n := |ps| - 1;
      ValuesOfBacks(ps[..n], name);
      assert Backs(ps)[..n] == Backs(ps[..n]);
    }
  }

  predicate Survives(query: Query) {
    && query != map[]
    && forall k | k in query ::
      k != "" && MeansItself(k) && query[k] != [] && forall i | 0 <= i < |query[k]| :: query[k][i].None? || InRange(query[k][i].value)
  }

  lemma {:induction false} ParametersAre(keys: seq<string>, query: Query)
    requires forall k :: k in keys ==> k in query
    ensures forall i :: 0 <= i < |Parameters(keys, query)| ==>
      var p := Parameters(keys, query)[i]; p.0 in keys && p.1 in query[p.0]
  {
    if keys != [] {
      assert forall k :: k in keys[1..] ==> k in keys;
      ParametersAre(keys[1..], query);
      var first := Tagged(keys[0], query[keys[0]]);
      assert forall i :: |first| <= i < |Parameters(keys, query)| ==>
        Parameters(keys, query)[i] == Parameters(keys[1..], query)[i - |first|];
    }
  }

  // What is parsed back, name by name.
  lemma WrittenBack(query: Query, name: string)
    ensures var found := ValuesOf(Backs(Written(query)), name);
      && (found == if name != "" && name in query then BackValues(query[name]) else [])
      && (name in Grouped(Backs(Written(query))) <==> found != [])
  {
    ValuesOfParameters(SortedKeys(query.Keys - {""}), query, name);
    ValuesOfBacks(Written(query), name);
    ValuesOfPresent(Backs(Written(query)), name);
  }

  lemma BackValuesExactly(values: seq<Option<string>>)
    ensures BackValues(values) == values <==>
      forall i :: 0 <= i < |values| ==> values[i].None? || InRange(values[i].value)
  {
    forall i | 0 <= i < |values| ensures BackValues(values)[i] == values[i] <==> values[i].None? || InRange(values[i].value) {
      BackExactly(values[i]);
    }
  }

  lemma BackSurvives(query: Query)
    requires forall k :: k in query ==> MeansItself(k)
    ensures query != map[] && Grouped(Backs(Written(query))) == query <==> Survives(query)
  {
    var back := Grouped(Backs(Written(query)));
    forall k ensures k in back ==> k in query && k != "" && query[k] != [] && back[k] == BackValues(query[k])
      ensures k in query && k != "" && query[k] != [] ==> k in back
    {
      WrittenBack(query, k);
    }
    forall k | k in query ensures BackValues(query[k]) == query[k] <==>
      forall i | 0 <= i < |query[k]| :: query[k][i].None? || InRange(query[k][i].value)
    {
      BackValuesExactly(query[k]);
    }
    if back == query {
      assert forall k :: k in query ==> k in back;
    }
    if Survives(query) {
      assert back.Keys == query.Keys;
    }
  }

  lemma SurvivorsEncode(query: Query)
    requires Survives(query)
    ensures BuildQueryString(query).Some?
  {
    ParametersAre(SortedKeys(query.Keys - {""}), query);
    forall i | 0 <= i < |Written(query)| ensures Encodable(Written(query)[i]) {
      var p := Written(query)[i];
      if p.1.Some? {
        EncodingRoundTripExactly(p.1.value);
      }
    }
  }

  lemma ParsedBack(query: Query)
    requires forall k :: k in query ==> MeansItself(k)
    requires BuildQueryString(query).Some?
    ensures Parsed(BuildQueryString(query).value) ==
      if Written(query) == [] then None else Some(Grouped(Backs(Written(query))))
  {
    ParametersAre(SortedKeys(query.Keys - {""}), query);
    WrittenParses(Written(query));
  }

  // ---- Names that do not mean themselves get lighter

  lemma ParseLast(parts: seq<string>, part: string)
    ensures ParseParameters(parts + [part]) == ParseParameters(parts) + ParseParameter(part)
  {
    assert (parts + [part])[..|parts|] == parts;
  }

  lemma {:induction false} ParseConcat(a: seq<string>, b: seq<string>)
    ensures ParseParameters(a + b) == ParseParameters(a) + ParseParameters(b)
  {
    if b == [] {
      assert a + b == a;
      EmptyUnit(ParseParameters(a));
    } else {
      var init, last := b[..|b| - 1], b[|b| - 1];
      assert b == init + [last] && a + b == (a + init) + [last];
      ParseConcat(a, init);
      ParseLast(a + init, last);
      ParseLast(init, last);
      Associate(ParseParameters(a), ParseParameters(init), ParseParameter(last));
    }
  }

  lemma ParseOne(part: string)
    ensures ParseParameters([part]) == ParseParameter(part)
  {
    assert [part][..0] == [] && ParseParameters([]) == [];
  }

  function NamesWeight(ps: seq<Parameter>): nat {
    if ps == [] then 0 else NamesWeight(ps[..|ps| - 1]) + Weight(ps[|ps| - 1].0)
  }

  lemma {:induction false} NamesWeightConcat(a: seq<Parameter>, b: seq<Parameter>)
    ensures NamesWeight(a + b) == NamesWeight(a) + NamesWeight(b)
  {
    if b == [] {
      assert a + b == a;
    } else {
      var n := |b| - 1;
      assert (a + b)[..|a| + n] == a + b[..n];
      NamesWeightConcat(a, b[..n]);
    }
  }

  lemma OneNameWeight(p: Parameter)
    ensures NamesWeight([p]) == Weight(p.0)
  {
    assert [p][..0] == [] && NamesWeight([]) == 0;
  }

  // The weight of all the names that are read from a text.
  function ReadWeight(text: string): nat {
    NamesWeight(ParseParameters(Split(text, '&')))
  }

  // What follows a name in the text of a parameter.
  predicate IsTail(tail: string) {
    '&' !in tail && (tail == "" || tail[0] == '=')
  }

  // The text before the first equals sign.
  function RawName(part: string): string {
    var eq := IndexOf(part, '=');
    if eq.Some? then part[..eq.value] else part
  }

  lemma OneParsed(part: string)
    requires part != ""
    ensures NamesWeight(ParseParameter(part)) == Weight(DecodedOr(RawName(part)))
  {
    OneNameWeight(ParseParameter(part)[0]);
  }

  lemma FirstEquals(name: string, rest: string)
    requires '=' !in name
    ensures IndexOf(name + "=" + rest, '=') == Some(|name|)
  {
    var part := name + "=" + rest;
    IndexOfFirst(part, '=');
    assert part[|name|] == '=' && forall k :: 0 <= k < |name| ==> part[k] == name[k];
  }

  lemma CutName(name: string, tail: string)
    requires '=' in name
    ensures exists i :: 0 <= i < |name| && RawName(name + tail) == name[..i]
  {
    IndexOfFirst(name, '=');
    var i := IndexOf(name, '=').value;
    FirstEquals(name[..i], name[i + 1..] + tail);
    assert name + tail == name[..i] + "=" + (name[i + 1..] + tail);
    assert RawName(name + tail) == name[..i];
  }

  lemma WholeName(name: string, tail: string)
    requires '=' !in name && IsTail(tail)
    ensures RawName(name + tail) == name
  {
    if tail == "" {
      IndexOfFirst(name, '=');
      assert name + tail == name;
    } else {
      FirstEquals(name, tail[1..]);
      assert name + tail == name + "=" + tail[1..];
    }
  }

  lemma BeginningIsLighter(name: string, i: nat)
    requires i < |name|
    ensures Weight(name[..i]) < Weight(name)
  {
    assert name == name[..i] + name[i..];
    WeightConcat(name[..i], name[i..]);
  }

  // A part without ampersands is no lighter than the name read from it.
  lemma PartIsLighter(name: string, tail: string)
    requires '&' !in name && IsTail(tail)
    ensures NamesWeight(ParseParameter(name + tail)) <= Weight(name)
    ensures NamesWeight(ParseParameter(name + tail)) == Weight(name) ==> MeansItself(name)
  {
    if name + tail != "" {
      OneParsed(name + tail);
      if '=' in name {
        CutName(name, tail);
        var i :| 0 <= i < |name| && RawName(name + tail) == name[..i];
        BeginningIsLighter(name, i);
        DecodedIsLighter(name[..i]);
      } else {
        WholeName(name, tail);
        DecodedIsLighter(name);
      }
    } else {
      DecodedIsLighter("");
    }
  }

  // Where the first ampersand cuts a name.
  lemma CutAtAmpersand(name: string, tail: string) returns (a: string, b: string)
    requires '&' in name
    ensures name == a + ['&'] + b && name + tail == a + ['&'] + (b + tail) && '&' !in a
  {
    IndexOfFirst(name, '&');
    var i := IndexOf(name, '&').value;
    a, b := name[..i], name[i + 1..];
  }

  // What is read before an ampersand and after it.
  lemma ReadBoth(a: string, b: string)
    requires '&' !in a
    ensures ReadWeight(a + ['&'] + b) == NamesWeight(ParseParameter(a)) + ReadWeight(b)
  {
    SplitAtFirst(a, '&', b);
    ParseConcat([a], Split(b, '&'));
    ParseOne(a);
    NamesWeightConcat(ParseParameter(a), ParseParameters(Split(b, '&')));
  }

  lemma CutIsLighter(a: string, b: string)
    ensures Weight(a + ['&'] + b) > Weight(a) + Weight(b)
  {
    WeightConcat(a + ['&'], b);
    WeightConcat(a, ['&']);
    assert Weight(['&']) > 0;
  }

  lemma {:induction false} TextIsNotHeavier(name: string, tail: string)
    requires IsTail(tail)
    ensures ReadWeight(name + tail) <= Weight(name)
    ensures ReadWeight(name + tail) == Weight(name) ==> MeansItself(name)
    decreases |name|
  {
    if '&' in name {
      var a, b := CutAtAmpersand(name, tail);
      ReadBoth(a, b + tail);
      PartIsLighter(a, "");
      assert a + "" == a;
      TextIsNotHeavier(b, tail);
      CutIsLighter(a, b);
    } else {
      SplitWhole(name + tail, '&');
      ParseOne(name + tail);
      PartIsLighter(name, tail);
    }
  }

  lemma ParameterIsNotHeavier(p: Parameter)
    requires Encodable(p)
    ensures var w := ReadWeight(ParameterText(p));
      w <= Weight(p.0) && (w == Weight(p.0) ==> MeansItself(p.0))
  {
    if p.1.None? {
      assert p.0 + "" == p.0;
      TextIsNotHeavier(p.0, "");
    } else {
      var e := EncodeQuery(p.1.value).value;
      EncodeQueryAlphabet(p.1.value);
      EncodedCharacters(e);
      assert p.0 + "=" + e == p.0 + ("=" + e);
      TextIsNotHeavier(p.0, "=" + e);
    }
  }

  ghost predicate AllEncodable(ps: seq<Parameter>) {
    forall i :: 0 <= i < |ps| ==> Encodable(ps[i])
  }

  ghost predicate AllMeanThemselves(ps: seq<Parameter>) {
    forall i :: 0 <= i < |ps| ==> MeansItself(ps[i].0)
  }

  lemma ReadWeightJoined(first: string, later: string)
    ensures ReadWeight(first + ['&'] + later) == ReadWeight(first) + ReadWeight(later)
  {
    SplitConcat(first, '&', later);
    ParseConcat(Split(first, '&'), Split(later, '&'));
    NamesWeightConcat(ParseParameters(Split(first, '&')), ParseParameters(Split(later, '&')));
  }

  lemma ReadNothing()
    ensures ReadWeight("") == 0
  {
    assert Split("", '&') == [""] && ParseParameter("") == [];
    ParseOne("");
  }

  lemma JoinedWeight(ps: seq<Parameter>)
    requires AllEncodable(ps) && ps != []
    ensures ReadWeight(Join(Texts(ps), "&")) == ReadWeight(ParameterText(ps[0])) + ReadWeight(Join(Texts(ps[1..]), "&"))
  {
    var first, rest := ParameterText(ps[0]), ps[1..];
    if rest == [] {
      assert Texts(ps) == [first];
      ReadNothing();
    } else {
      assert Texts(ps)[1..] == Texts(rest);
      assert Join(Texts(ps), "&") == first + ['&'] + Join(Texts(rest), "&");
      ReadWeightJoined(first, Join(Texts(rest), "&"));
    }
  }

  // All that is read from the joined texts weighs no more than their names.
  ghost predicate NotHeavier(w: nat, ps: seq<Parameter>) {
    w <= NamesWeight(ps) && (w == NamesWeight(ps) ==> AllMeanThemselves(ps))
  }

  lemma NotHeavierWithFirst(first: nat, rest: nat, ps: seq<Parameter>)
    requires ps != [] && NotHeavier(rest, ps[1..])
    requires first <= Weight(ps[0].0) && (first == Weight(ps[0].0) ==> MeansItself(ps[0].0))
    ensures NotHeavier(first + rest, ps)
  {
    assert ps == [ps[0]] + ps[1..];
    NamesWeightConcat([ps[0]], ps[1..]);
    OneNameWeight(ps[0]);
    if AllMeanThemselves(ps[1..]) && MeansItself(ps[0].0) {
      AllWithFirst(ps);
    }
  }

  lemma {:induction false} TextsAreNotHeavier(ps: seq<Parameter>)
    requires AllEncodable(ps)
    ensures NotHeavier(ReadWeight(Join(Texts(ps), "&")), ps)
  {
    if ps == [] {
      ReadNothing();
    } else {
      JoinedWeight(ps);
      ParameterIsNotHeavier(ps[0]);
      TextsAreNotHeavier(ps[1..]);
      NotHeavierWithFirst(ReadWeight(ParameterText(ps[0])), ReadWeight(Join(Texts(ps[1..]), "&")), ps);
    }
  }

  lemma AllWithFirst(ps: seq<Parameter>)
    requires ps != [] && MeansItself(ps[0].0) && AllMeanThemselves(ps[1..])
    ensures AllMeanThemselves(ps)
  {
    forall i | 1 <= i < |ps| ensures MeansItself(ps[i].0) {
      assert ps[i] == ps[1..][i - 1];
    }
  }

  lemma {:induction false} MovedWeight(ps: seq<Parameter>, moves: seq<nat>)
    ensures NamesWeight(Moved(ps, moves)) == NamesWeight(ps)
  {
    if moves != [] {
      var n := |moves| - 1;
      MovedWeight(ps, moves[..n]);
      var s, i := Moved(ps, moves[..n]), moves[n];
      if CanSwap(s, i) {
        SwappedWeight(s, i);
      }
    }
  }

  lemma SwappedWeight(s: seq<Parameter>, i: nat)
    requires CanSwap(s, i)
    ensures NamesWeight(Swap(s, i)) == NamesWeight(s)
  {
    var before, x, y, after := s[..i], s[i], s[i + 1], s[i + 2..];
    assert s == before + ([x] + [y]) + after && Swap(s, i) == before + ([y] + [x]) + after;
    NamesWeightConcat(before + ([x] + [y]), after);
    NamesWeightConcat(before + ([y] + [x]), after);
    NamesWeightConcat(before, [x] + [y]);
    NamesWeightConcat(before, [y] + [x]);
    NamesWeightConcat([x], [y]);
    NamesWeightConcat([y], [x]);
  }

  // All the parameters of a map, those without a name first, which are not written.
  function AllParameters(query: Query): seq<Parameter> {
    (if "" in query then Tagged("", query[""]) else []) + Written(query)
  }

  lemma ValuesOfAll(query: Query, name: string)
    ensures ValuesOf(AllParameters(query), name) == if name in query then query[name] else []
  {
    var nameless := if "" in query then Tagged("", query[""]) else [];
    ValuesOfConcat(nameless, Written(query), name);
    ValuesOfParameters(SortedKeys(query.Keys - {""}), query, name);
    if "" in query {
      ValuesOfTagged("", query[""], name);
    }
  }

  lemma {:induction false} NamelessWeight(values: seq<Option<string>>)
    ensures NamesWeight(Tagged("", values)) == 0
  {
    if values != [] {
      var n := |values| - 1;
      assert Tagged("", values)[..n] == Tagged("", values[..n]);
      NamelessWeight(values[..n]);
    }
  }

  // Parameters that group to the map weigh as much as those that are written.
  lemma GroupedWeight(ps: seq<Parameter>, query: Query)
    requires Grouped(ps) == query
    ensures NamesWeight(ps) == NamesWeight(Written(query))
  {
    forall name ensures ValuesOf(AllParameters(query), name) == ValuesOf(ps, name) {
      ValuesOfAll(query, name);
      ValuesOfPresent(ps, name);
    }
    SameValuesExactly(AllParameters(query), ps);
    var moves :| Moved(AllParameters(query), moves) == ps;
    MovedWeight(AllParameters(query), moves);
    if "" in query {
      NamesWeightConcat(Tagged("", query[""]), Written(query));
      NamelessWeight(query[""]);
    } else {
      assert AllParameters(query) == Written(query);
    }
  }

  lemma {:induction false} WrittenNames(keys: seq<string>, query: Query, k: string)
    requires forall k :: k in keys ==> k in query
    requires k in keys && query[k] != []
    ensures exists i :: 0 <= i < |Parameters(keys, query)| && Parameters(keys, query)[i].0 == k
  {
    var first, rest := Tagged(keys[0], query[keys[0]]), Parameters(keys[1..], query);
    if k == keys[0] {
      assert Parameters(keys, query)[0].0 == k;
    } else {
      WrittenNames(keys[1..], query, k);
      var i :| 0 <= i < |rest| && rest[i].0 == k;
      assert Parameters(keys, query)[|first| + i].0 == k;
    }
  }

  lemma NoNameMeansItself()
    ensures MeansItself("")
  {
    DecodedIsLighter("");
    PlainMeansItself("");
  }

  // A map that comes back has only names that mean themselves.
  lemma BackMeansItself(query: Query, k: string)
    requires BuildQueryString(query).Some? && Parsed(BuildQueryString(query).value) == Some(query) && k in query
    ensures MeansItself(k)
  {
    var ps := ParseParameters(Split(BuildQueryString(query).value, '&'));
    GroupedWeight(ps, query);
    TextsAreNotHeavier(Written(query));
    ValuesOfPresent(ps, k);
    if k == "" {
      NoNameMeansItself();
    } else {
      WrittenNames(SortedKeys(query.Keys - {""}), query, k);
    }
  }

  /** For every map: parsing undoes building exactly when there is a parameter, every name is there, means
    * itself and has a value list that is not empty, and every value is missing or over U+0010..U+007F. */
  lemma QueryRoundTripExactly(query: Query)
    ensures BuildQueryString(query).Some? && Parsed(BuildQueryString(query).value) == Some(query) <==> Survives(query)
  {
    if Survives(query) {
      SurvivorsEncode(query);
      ComesBack(query);
    } else if BuildQueryString(query).Some? && Parsed(BuildQueryString(query).value) == Some(query) {
      forall k | k in query ensures MeansItself(k) {
        BackMeansItself(query, k);
      }
      ComesBack(query);
    }
  }

  lemma ComesBack(query: Query)
    requires BuildQueryString(query).Some? && forall k :: k in query ==> MeansItself(k)
    ensures Parsed(BuildQueryString(query).value) == Some(query) <==> Survives(query)
  {
    ParsedBack(query);
    BackSurvives(query);
    if Written(query) == [] {
      assert Grouped(Backs(Written(query))) == map[];
    }
  }

  lemma OnlyKey(keys: seq<string>, key: string, last: nat)
    requires Distinct(keys) && last < |keys| && forall k :: k in keys <==> k == key
    ensures last == 0 && keys[0] == key
  {
    assert keys[0] in keys && keys[last] in keys;
  }

  // Names are not encoded: one that is a plus sign is written as it is, and read as a space.
  lemma PlusIsWritten()
    ensures BuildQueryString(map["+" := [None]]) == Some("+")
  {
    var query: Query := map["+" := [None]];
    var keys := SortedKeys(query.Keys - {""});
    assert query.Keys - {""} == {"+"} && "+" in keys;
    OnlyKey(keys, "+", |keys| - 1);
    assert keys == ["+"];
    assert Parameters(keys[1..], query) == [];
    assert Written(query) == [("+", None)];
    assert Texts(Written(query)) == ["+"];
  }

  lemma PlusIsReadAsSpace()
    ensures DecodedOr("+") == " "
  {
    var bytes := DecodedBytes("+", 0);
    assert bytes == [32] + DecodedBytes("+", 1) == Encode(" ");
    FromUtf8Exactly(bytes, " ");
  }

  lemma NamesAreNotEncoded()
    ensures var query: Query := map["+" := [None]];
      BuildQueryString(query) == Some("+") && Parsed("+").Some? && "+" !in Parsed("+").value
  {
    PlusIsWritten();
    PlusIsReadAsSpace();
    SplitWhole("+", '&');
    assert ParseParameter("+") == [(" ", None)];
    ParseMore(["+"], 0);
    assert ["+"][..1] == ["+"] && ["+"][..0] == [];
    assert ParseParameters(["+"]) == [(" ", None)];
  }
}
