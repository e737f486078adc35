/** How a query string is read part by part, and in which order its parameters are written. */
module QueryReadingLaws {
  import opened Wrappers
  import opened StringOrder
  import opened Text
  import opened QueryStrings
  import opened QueryStringLaws
  import opened Grouping

  // The parameters of a query string, in order.
  function Read(query: string): seq<Parameter> {
    ParseParameters(Split(query, '&'))
  }

  /** An ampersand separates parameters, and every name gets the values read for it, in order. */
  lemma ReadsBoth(a: string, b: string, name: string)
    ensures Read(a + ['&'] + b) == Read(a) + Read(b)
    ensures var m := Parsed(a + ['&'] + b);
      m.Some? && ValuesOf(Read(a), name) + ValuesOf(Read(b), name) == if name in m.value then m.value[name] else []
  {
    SplitConcat(a, '&', b);
    ParseConcat(Split(a, '&'), Split(b, '&'));
    ValuesOfConcat(Read(a), Read(b), name);
    ValuesOfPresent(Read(a + ['&'] + b), name);
  }

  /** Nothing is read from an empty part; a part without an equals sign is a name; otherwise the first one ends the name. */
  lemma ReadsPart(name: string, value: string)
    requires '&' !in name && '&' !in value && '=' !in name
    ensures Read("") == []
    ensures name != "" ==> Read(name) == [(DecodedOr(name), None)]
    ensures Read(name + "=" + value) == [(DecodedOr(name), Some(DecodedOr(value)))]
  {
    var part := name + "=" + value;
    SplitWhole("", '&');
    ParseOne("");
    SplitWhole(name, '&');
    ParseOne(name);
    IndexOfFirst(name, '=');
    SplitWhole(part, '&');
    ParseOne(part);
    FirstEquals(name, value);
    assert part[..|name|] == name && part[|name| + 1..] == value;
  }

  // ---- Writing

  // The names do not descend.
  ghost predicate NamesAscend(ps: seq<Parameter>) {
    forall i, j :: 0 <= i < j < |ps| ==> ps[i].0 == ps[j].0 || Below(ps[i].0, ps[j].0)
  }

  lemma {:induction false} ParametersAscend(keys: seq<string>, query: Query)
    requires (forall k :: k in keys ==> k in query) && Ascending(keys)
    ensures NamesAscend(Parameters(keys, query))
  {
    if keys != [] {
      var first, rest := Tagged(keys[0], query[keys[0]]), Parameters(keys[1..], query);
      ParametersAscend(keys[1..], query);
      ParametersAre(keys[1..], query);
      forall i, j | 0 <= i < |first| && 0 <= j < |rest| ensures Below(first[i].0, rest[j].0) {
        var m :| 0 <= m < |keys[1..]| && keys[1..][m] == rest[j].0;
        assert Below(keys[0], keys[m + 1]);
      }
      BothAscend(first, rest);
    }
  }

  lemma BothAscend(a: seq<Parameter>, b: seq<Parameter>)
    requires NamesAscend(a) && NamesAscend(b) && forall i, j :: 0 <= i < |a| && 0 <= j < |b| ==> Below(a[i].0, b[j].0)
    ensures NamesAscend(a + b)
  {
  }

  /** All the parameters with a name are written, sorted by their names, the values of a name in their own order. */
  lemma WrittenInOrder(query: Query, name: string)
    ensures NamesAscend(Written(query))
    ensures ValuesOf(Written(query), name) == if name != "" && name in query then query[name] else []
  {
    SortedKeysAscending(query.Keys - {""});
    ParametersAscend(SortedKeys(query.Keys - {""}), query);
    ValuesOfParameters(SortedKeys(query.Keys - {""}), query, name);
  }
}
