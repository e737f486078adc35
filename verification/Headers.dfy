/** Header maps and their JSON form (`parse_header`, `headers_to_json`, `headers_from_json`). */
module Headers {
  import opened Wrappers
  import opened Json
  import opened Text

  // The values of each header.
  type HeaderMap = map<string, seq<string>>

  const SINGLE_VALUE_HEADERS := {
    "date", "accept-datetime", "if-modified-since", "if-unmodified-since", "expires",
    "retry-after", "last-modified", "set-cookie", "user-agent"
  }

  // Lower case as far as it can produce one of the names above: the Latin letters and the
  // Kelvin sign; every other character keeps or gets a form outside ASCII.
  function Lower(c: char): char {
    if 'A' <= c <= 'Z' then 'a' + (c - 'A') else if c as int == 0x212A then 'k' else c
  }

  predicate IsSingleValue(name: string) {
    seq(|name|, i requires 0 <= i < |name| => Lower(name[i])) in SINGLE_VALUE_HEADERS
  }

  function TrimAll(parts: seq<string>): seq<string> {
    seq(|parts|, i requires 0 <= i < |parts| => Trim(parts[i]))
  }

  // Headers that hold dates or free text are not split at their commas.
  function ParseHeader(name: string, value: string): seq<string> {
    if IsSingleValue(name) then [Trim(value)] else TrimAll(Split(value, ','))
  }

  function HeadersToJson(headers: HeaderMap): Value {
    Object(map k | k in headers :: String(Join(headers[k], ", ")))
  }

  // The values one JSON member stands for; `show` prints JSON that is not a string.
  function HeaderValues(name: string, value: Value, show: Value -> string): seq<string> {
    match value
    case String(s) => ParseHeader(name, s)
    case Array(items) => seq(|items|, i requires 0 <= i < |items| =>
      if items[i].String? then items[i].s else show(items[i]))
    case _ => [show(value)]
  }

  function HeadersFromJson(request: Value, show: Value -> string): Option<HeaderMap> {
    if request.Object? && "headers" in request.entries && request.entries["headers"].Object? then
      var m := request.entries["headers"].entries;
      Some(map k | k in m :: HeaderValues(k, m[k], show))
    else None
  }

  // Strings in an array come back as they are: they are neither split nor trimmed.
  lemma ArraysAreKept(name: string, values: seq<string>, show: Value -> string)
    ensures HeaderValues(name, Array(seq(|values|, i requires 0 <= i < |values| => String(values[i]))), show) == values
  {
    var items := seq(|values|, i requires 0 <= i < |values| => String(values[i]));
    assert forall i :: 0 <= i < |values| ==> items[i] == String(values[i]);
  }

  // A header is written as its values with a comma and a space between them.
  lemma WrittenHeader(headers: HeaderMap, name: string, first: string, second: string)
    requires name in headers
    ensures HeadersToJson(headers).entries.Keys == headers.Keys
    ensures headers[name] == [first] ==> HeadersToJson(headers).entries[name] == String(first)
    ensures headers[name] == [first, second] ==> HeadersToJson(headers).entries[name] == String(first + ", " + second)
  {
    assert [first, second][1..] == [second] && Join([second], ", ") == second;
    assert Join([first, second], ", ") == first + ", " + second;
  }

  // ---- Round trips

  function AllPieces(values: seq<string>): seq<string> {
    if values == [] then [] else TrimAll(Split(values[0], ',')) + AllPieces(values[1..])
  }

  lemma SpaceIsTrimmed(s: string)
    ensures TrimAll(Split(" " + s, ',')) == TrimAll(Split(s, ','))
  {
    var t := " " + s;
    assert t[1..] == s;
    var first := Split(s, ',')[0];
    assert Split(t, ',') == [[' '] + first] + Split(s, ',')[1..];
    assert ([' '] + first)[1..] == first;
  }

  // Joining and splitting again gives the pieces of every value.
  lemma {:induction false} JoinedPieces(values: seq<string>)
    requires values != []
    ensures TrimAll(Split(Join(values, ", "), ',')) == AllPieces(values)
  {
    if |values| == 1 {
      assert AllPieces(values) == TrimAll(Split(values[0], ',')) + [];
    } else {
      var first, rest := values[0], Join(values[1..], ", ");
      assert Join(values, ", ") == first + [','] + (" " + rest);
      SplitConcat(first, ',', " " + rest);
      SpaceIsTrimmed(rest);
      JoinedPieces(values[1..]);
      var all := Split(first, ',') + Split(" " + rest, ',');
      assert TrimAll(all) == TrimAll(Split(first, ',')) + TrimAll(Split(" " + rest, ','));
    }
  }

  predicate Canonical(value: string) {
    Trimmed(value) && ',' !in value
  }

  lemma {:induction false} PiecesExactly(values: seq<string>)
    ensures |AllPieces(values)| >= |values|
    ensures AllPieces(values) == values <==> forall i :: 0 <= i < |values| ==> Canonical(values[i])
  {
    if values != [] {
      var first := values[0];
      PiecesExactly(values[1..]);
      SplitSingle(first, ',');
      TrimExactly(first);
      if ',' !in first {
        SplitWhole(first, ',');
        assert AllPieces(values) == [Trim(first)] + AllPieces(values[1..]);
        if AllPieces(values) == values {
          assert AllPieces(values)[1..] == AllPieces(values[1..]);
        }
      } else {
        assert |AllPieces(values)| > |values|;
      }
    }
  }

  predicate Survives(name: string, values: seq<string>) {
    if IsSingleValue(name) then |values| == 1 && Trimmed(values[0])
    else values != [] && forall i | 0 <= i < |values| :: Canonical(values[i])
  }

  lemma ParseJoinExactly(name: string, values: seq<string>)
    ensures ParseHeader(name, Join(values, ", ")) == values <==> Survives(name, values)
  {
    if IsSingleValue(name) {
      if |values| == 1 {
        TrimExactly(values[0]);
      }
    } else if values != [] {
      JoinedPieces(values);
      PiecesExactly(values);
    }
  }

  // Reading back the JSON form of a header map gives the map exactly when every header has
  // trimmed values without commas, or is one that is never split and has a single trimmed value.
  lemma HeadersRoundTripExactly(headers: HeaderMap, request: Value, show: Value -> string)
    requires request.Object? && "headers" in request.entries
    requires request.entries["headers"] == HeadersToJson(headers)
    ensures HeadersFromJson(request, show) == Some(headers) <==>
      forall k :: k in headers ==> Survives(k, headers[k])
  {
    var back := HeadersFromJson(request, show).value;
    forall k | k in headers ensures back[k] == headers[k] <==> Survives(k, headers[k]) {
      ParseJoinExactly(k, headers[k]);
    }
    if forall k :: k in headers ==> Survives(k, headers[k]) {
      assert back == headers;
    } else {
      var k :| k in headers && !Survives(k, headers[k]);
      assert back[k] != headers[k];
    }
  }
}
