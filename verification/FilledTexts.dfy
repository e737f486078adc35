/** What a template evaluates to: its text, with the text of each value in place of its key. */
module FilledTexts {
  import opened Wrappers
  import opened Json
  import opened Sequences
  import opened Text
  import opened Expressions
  import opened ExpressionValues

  // A text for every key; the empty key stands for nothing.
  type Texts = string -> string

  // The template with the texts in place of the expressions.
  function Filled(t: Template, texts: Texts): string {
    match t
    case Expression(literal, key, rest) => literal + (if key == "" then "" else texts(key)) + Filled(rest, texts)
    case _ => t.text
  }

  // Every key has a value, with this text: a string is its own, a null has none.
  ghost predicate HasTexts(t: Template, resolve: Resolver, show: Value -> string, texts: Texts) {
    forall key | key in Keys(t) && key != "" :: resolve(key).Some? && IsTextOf(resolve(key).value, texts(key), show)
  }

  predicate IsTextOf(v: Value, text: string, show: Value -> string) {
    match v
    case String(s) => text == s
    case Null => text == ""
    case _ => text == show(v)
  }

  // How many literals and keys the template has that are not empty.
  function Parts(t: Template): nat {
    match t
    case Expression(literal, key, rest) => (if literal == "" then 0 else 1) + (if key == "" then 0 else 1) + Parts(rest)
    case _ => if t.text == "" then 0 else 1
  }

  // The value of the first of them.
  function FirstPiece(t: Template, resolve: Resolver): Option<Value> {
    match t
    case Expression(literal, key, rest) =>
      if literal != "" then Some(String(literal)) else if key != "" then resolve(key) else FirstPiece(rest, resolve)
    case _ => if t.text == "" then None else Some(String(t.text))
  }

  // ---- The pieces, one after the other

  function Joined(pieces: seq<Value>, show: Value -> string): string {
    if pieces == [] then "" else
      var n := |pieces| - 1;
      Joined(pieces[..n], show) + JsonToString(pieces[n], show)
  }

  lemma JoinedMore(pieces: seq<Value>, v: Value, show: Value -> string)
    ensures Joined(pieces + [v], show) == Joined(pieces, show) + JsonToString(v, show)
  {
    assert (pieces + [v])[..|pieces|] == pieces;
  }

  lemma {:induction false} JoinMore(parts: seq<string>, last: string)
    ensures Join(parts + [last], "") == Join(parts, "") + last
  {
    if |parts| <= 1 {
      assert |parts| == 0 ==> parts + [last] == [last];
      assert |parts| == 1 ==> (parts + [last])[1..] == [last];
    } else {
      assert (parts + [last])[1..] == parts[1..] + [last];
      JoinMore(parts[1..], last);
    }
  }

  // Joining the texts of the pieces gives their texts in order.
  lemma {:induction false} CombinedText(pieces: seq<Value>, show: Value -> string)
    ensures Join(seq(|pieces|, i requires 0 <= i < |pieces| => JsonToString(pieces[i], show)), "") == Joined(pieces, show)
    decreases |pieces|
  {
    var texts := seq(|pieces|, i requires 0 <= i < |pieces| => JsonToString(pieces[i], show));
    if pieces != [] {
      var n := |pieces| - 1;
      var init := seq(n, i requires 0 <= i < n => JsonToString(pieces[..n][i], show));
      CombinedText(pieces[..n], show);
      assert texts == init + [JsonToString(pieces[n], show)];
      JoinMore(init, JsonToString(pieces[n], show));
    }
  }

  lemma LiteralText(so: seq<Value>, literal: string, show: Value -> string)
    ensures Joined(WithLiteral(so, literal), show) == Joined(so, show) + literal
    ensures |WithLiteral(so, literal)| == |so| + if literal == "" then 0 else 1
  {
    JoinedMore(so, String(literal), show);
  }

  lemma ValueText(so: seq<Value>, key: string, resolve: Resolver, show: Value -> string, text: string)
    requires key != "" ==> resolve(key).Some? && IsTextOf(resolve(key).value, text, show)
    ensures Joined(WithValue(so, key, resolve), show) == Joined(so, show) + if key == "" then "" else text
    ensures |WithValue(so, key, resolve)| == |so| + if key == "" then 0 else 1
  {
    if key != "" {
      JoinedMore(so, resolve(key).value, show);
    }
  }

  lemma KeyHasText(t: Template, resolve: Resolver, show: Value -> string, texts: Texts)
    requires t.Expression? && HasTexts(t, resolve, show, texts)
    ensures t.key != "" ==> resolve(t.key).Some? && IsTextOf(resolve(t.key).value, texts(t.key), show)
    ensures HasTexts(t.rest, resolve, show, texts)
  {
    assert t.key in Keys(t) && Keys(t.rest) <= Keys(t);
  }

  lemma FourTexts(a: string, b: string, c: string, d: string)
    ensures ((a + b) + c) + d == a + (b + c + d)
  {
    Associate(a + b, c, d);
    Associate(a, b, c + d);
    Associate(b, c, d);
  }

  lemma {:induction false} PiecesText(so: seq<Value>, t: Template, resolve: Resolver, show: Value -> string, texts: Texts)
    requires HasTexts(t, resolve, show, texts)
    ensures Joined(PiecesAfter(so, t, resolve), show) == Joined(so, show) + Filled(t, texts)
    ensures |PiecesAfter(so, t, resolve)| == |so| + Parts(t)
    decreases t
  {
    match t
    case Expression(literal, key, rest) =>
      var next := WithLiteral(so, literal);
      KeyHasText(t, resolve, show, texts);
      LiteralText(so, literal, show);
      ValueText(next, key, resolve, show, texts(key));
      PiecesText(WithValue(next, key, resolve), rest, resolve, show, texts);
      FourTexts(Joined(so, show), literal, if key == "" then "" else texts(key), Filled(rest, texts));
    case _ =>
      LiteralText(so, t.text, show);
  }

  // Pieces are only added at the end.
  lemma {:induction false} PiecesStart(so: seq<Value>, t: Template, resolve: Resolver)
    ensures so <= PiecesAfter(so, t, resolve)
    decreases t
  {
    if t.Expression? {
      PiecesStart(WithValue(WithLiteral(so, t.literal), t.key, resolve), t.rest, resolve);
    }
  }

  lemma {:induction false} PiecesFirst(t: Template, resolve: Resolver)
    requires forall key | key in Keys(t) && key != "" :: resolve(key).Some?
    ensures Parts(t) > 0 ==> Pieces(t, resolve) != [] && FirstPiece(t, resolve) == Some(Pieces(t, resolve)[0])
    decreases t
  {
    if t.Expression? {
      assert t.key in Keys(t);
      var next := WithValue(WithLiteral([], t.literal), t.key, resolve);
      PiecesStart(next, t.rest, resolve);
      if t.literal == "" && t.key == "" {
        PiecesFirst(t.rest, resolve);
      }
    }
  }

  // ---- What an evaluation gives

  /** A template with a value for every key evaluates to its filled text; unless it has a single part, which is given
    * as it is. */
  lemma FilledExactly(t: Template, resolve: Resolver, show: Value -> string, texts: Texts)
    requires WellFormed(t) && Ending(t).Plain? && HasTexts(t, resolve, show, texts)
    ensures var r := Evaluate(Parse(Render(t)), resolve, show);
      r.Ok? && if Parts(t) == 1 then FirstPiece(t, resolve) == Some(r.value) else r.value == String(Filled(t, texts))
  {
    EvaluatesExactly(t, resolve, show);
    PiecesText([], t, resolve, show, texts);
    PiecesFirst(t, resolve);
    CombinedText(Pieces(t, resolve), show);
  }

  /** If all the values are strings, the result is the string with each of them in place of its expression. */
  lemma StringsInPlace(t: Template, resolve: Resolver, show: Value -> string, texts: Texts)
    requires WellFormed(t) && Ending(t).Plain?
    requires forall key | key in Keys(t) && key != "" :: resolve(key) == Some(String(texts(key)))
    ensures Evaluate(Parse(Render(t)), resolve, show) == Ok(String(Filled(t, texts)))
  {
    FilledExactly(t, resolve, show, texts);
    if Parts(t) == 1 {
      LonePart(t, resolve, texts);
    }
  }

  lemma {:induction false} NoParts(t: Template, texts: Texts)
    requires Parts(t) == 0
    ensures Filled(t, texts) == ""
  {
    if t.Expression? {
      NoParts(t.rest, texts);
    }
  }

  lemma Alone(a: string, b: string, c: string)
    ensures a == "" && b == "" ==> a + b + c == c
    ensures a == "" && c == "" ==> a + b + c == b
    ensures b == "" && c == "" ==> a + b + c == a
  {
  }

  lemma {:induction false} LonePart(t: Template, resolve: Resolver, texts: Texts)
    requires Parts(t) == 1 && forall key | key in Keys(t) && key != "" :: resolve(key) == Some(String(texts(key)))
    ensures FirstPiece(t, resolve) == Some(String(Filled(t, texts)))
  {
    if t.Expression? {
      assert t.key in Keys(t) && Keys(t.rest) <= Keys(t);
      if t.literal == "" && t.key == "" {
        LonePart(t.rest, resolve, texts);
      } else {
        NoParts(t.rest, texts);
      }
      Alone(t.literal, if t.key == "" then "" else texts(t.key), Filled(t.rest, texts));
    }
  }
}
