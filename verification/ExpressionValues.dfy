/** What a string with `${key}` expressions evaluates to. */
module ExpressionValues {
  import opened Wrappers
  import opened Json
  import opened Text
  import opened Expressions

  // The result of an evaluation; a closing brace before its expression makes the slice panic.
  datatype Outcome = Ok(value: Value) | MissingBrace | NoValue(key: string) | Panic

  type Resolver = string -> Option<Value>

  // `json_to_string`; how other values than strings and nulls are printed is left to `show`.
  function JsonToString(v: Value, show: Value -> string): string {
    match v
    case String(s) => s
    case Null => ""
    case _ => show(v)
  }

  // A lone piece keeps its JSON type, several pieces are joined as text.
  function Combine(pieces: seq<Value>, show: Value -> string): Value {
    if |pieces| == 1 then pieces[0]
    else String(Join(seq(|pieces|, i requires 0 <= i < |pieces| => JsonToString(pieces[i], show)), ""))
  }

  // The pieces so far, and a literal unless it is empty.
  function WithLiteral(so: seq<Value>, text: string): seq<Value> {
    if text == "" then so else so + [String(text)]
  }

  // The pieces so far, and the value of a key if there is one.
  function WithValue(so: seq<Value>, key: string, resolve: Resolver): seq<Value> {
    if key == "" || resolve(key).None? then so else so + [resolve(key).value]
  }

  function FirstUnresolved(t: Template, resolve: Resolver): Option<string> {
    match t
    case Expression(_, key, rest) =>
      if key != "" && resolve(key).None? then Some(key) else FirstUnresolved(rest, resolve)
    case _ => None
  }

  function Ending(t: Template): Template {
    match t
    case Expression(_, _, rest) => Ending(rest)
    case _ => t
  }

  // The pieces so far, and the literals and the values found for the keys, in order.
  function PiecesAfter(so: seq<Value>, t: Template, resolve: Resolver): seq<Value>
    decreases t
  {
    match t
    case Expression(literal, key, rest) => PiecesAfter(WithValue(WithLiteral(so, literal), key, resolve), rest, resolve)
    case _ => WithLiteral(so, t.text)
  }

  function Pieces(t: Template, resolve: Resolver): seq<Value> {
    PiecesAfter([], t, resolve)
  }

  // The first key without a value decides; only then does the way the string ends matter.
  function Evaluate(t: Template, resolve: Resolver, show: Value -> string): Outcome {
    if FirstUnresolved(t, resolve).Some? then NoValue(FirstUnresolved(t, resolve).value)
    else
      match Ending(t)
      case Unclosed(_) => MissingBrace
      case Misplaced(_) => Panic
      case _ => Ok(Combine(Pieces(t, resolve), show))
  }

  // What is left to evaluate of a template, after the pieces already collected.
  ghost predicate Reached(all: Template, result: seq<Value>, left: Template, resolve: Resolver) {
    && FirstUnresolved(all, resolve) == FirstUnresolved(left, resolve)
    && Ending(all) == Ending(left)
    && Pieces(all, resolve) == PiecesAfter(result, left, resolve)
  }

  lemma ReachedEnd(all: Template, result: seq<Value>, left: Template, resolve: Resolver, show: Value -> string)
    requires Reached(all, result, left, resolve) && left.Plain?
    ensures Evaluate(all, resolve, show) == Ok(Combine(WithLiteral(result, left.text), show))
  {
  }

  // A string whose first `${` is never closed, or comes after a closing brace.
  lemma ReachedError(all: Template, result: seq<Value>, buffer: string, resolve: Resolver, show: Value -> string)
    requires Reached(all, result, Parse(buffer), resolve) && FindOpen(buffer).Some?
    requires IndexOf(buffer, '}').Some? ==> IndexOf(buffer, '}').value < FindOpen(buffer).value
    ensures Evaluate(all, resolve, show) == if IndexOf(buffer, '}').None? then MissingBrace else Panic
  {
  }

  // The first expression of a string, and what is left of it.
  lemma ParseNext(buffer: string, i: nat, e: nat)
    requires FindOpen(buffer) == Some(i) && IndexOf(buffer, '}') == Some(e) && i <= e
    ensures i + 2 <= e < |buffer|
    ensures Parse(buffer) == Expression(buffer[..i], buffer[i + 2..e], Parse(buffer[e + 1..]))
  {
    FirstPart(buffer, i, e);
  }

  /** One step of the scan: the literal before the expression and the value of its key are collected. */
  method ReplaceNext(ghost all: Template, ghost left: Template, result: seq<Value>, literal: string, key: string, resolve: Resolver)
    returns (missing: bool, more: seq<Value>)
    requires left.Expression? && left.literal == literal && left.key == key && Reached(all, result, left, resolve)
    ensures if missing then FirstUnresolved(all, resolve) == Some(key) else Reached(all, more, left.rest, resolve)
  {
    missing, more := false, WithLiteral(result, literal);
    if |key| > 0 {
      var lookup := resolve(key);
      if lookup.None? {
        missing := true;
      } else {
        more := more + [lookup.value];
      }
    }
  }

  /** The scan that keeps cutting the buffer after each expression. */
  method ReplaceExpressions(value: string, resolve: Resolver, show: Value -> string) returns (r: Outcome)
    ensures r == Evaluate(Parse(value), resolve, show)
  {
    var result: seq<Value> := [];
    var buffer := value;
    var position := FindOpen(buffer);
    ghost var all, left := Parse(value), Parse(value);
    while position.Some?
      invariant position == FindOpen(buffer) && left == Parse(buffer)
      invariant Reached(all, result, left, resolve)
      decreases |buffer|
    {
      var index := position.value;
      var close := IndexOf(buffer, '}');
      if close.None? || close.value < index {
        ReachedError(all, result, buffer, resolve, show);
        return if close.None? then MissingBrace else Panic;
      }
      ParseNext(buffer, index, close.value);
      var key := buffer[index + 2..close.value];
      var missing, more := ReplaceNext(all, left, result, buffer[..index], key, resolve);
      if missing {
        return NoValue(key);
      }
      result, buffer, left := more, buffer[close.value + 1..], left.rest;
      position := FindOpen(buffer);
    }
    ReachedEnd(all, result, left, resolve, show);
    r := Ok(Combine(WithLiteral(result, buffer), show));
  }

  /** Strings without an expression are passed through. */
  method ParseExpression(value: string, resolve: Resolver, show: Value -> string) returns (r: Outcome)
    ensures r == Evaluate(Parse(value), resolve, show)
    ensures FindOpen(value).None? ==> r == Ok(String(value))
  {
    if FindOpen(value).Some? {
      r := ReplaceExpressions(value, resolve, show);
    } else {
      r := Ok(String(value));
    }
  }

  ghost function Keys(t: Template): set<string> {
    match t
    case Expression(_, key, rest) => {key} + Keys(rest)
    case _ => {}
  }

  // A rendered template that ends in plain text evaluates exactly when all its keys have values.
  lemma EvaluatesExactly(t: Template, resolve: Resolver, show: Value -> string)
    requires WellFormed(t) && Ending(t).Plain?
    ensures var r := Evaluate(Parse(Render(t)), resolve, show);
      && (r.Ok? <==> forall key :: key in Keys(t) && key != "" ==> resolve(key).Some?)
      && (r.Ok? ==> r.value == Combine(Pieces(t, resolve), show))
      && (!r.Ok? ==> r.NoValue? && r.key in Keys(t) && resolve(r.key).None?)
  {
    ParseRendered(t);
    UnresolvedIsThere(t, resolve);
  }

  lemma {:induction false} UnresolvedIsThere(t: Template, resolve: Resolver)
    ensures var r := FirstUnresolved(t, resolve);
      && (r.None? <==> forall key :: key in Keys(t) && key != "" ==> resolve(key).Some?)
      && (r.Some? ==> r.value in Keys(t) && resolve(r.value).None?)
  {
    if t.Expression? {
      UnresolvedIsThere(t.rest, resolve);
    }
  }

  // The scan panics exactly when, all earlier keys having values, a `}` precedes the next `${`.
  lemma PanicsExactly(s: string, resolve: Resolver, show: Value -> string)
    ensures Evaluate(Parse(s), resolve, show).Panic? <==>
      exists t :: s == Render(t) && WellFormed(t) && Ending(t).Misplaced? &&
        forall key :: key in Keys(t) && key != "" ==> resolve(key).Some?
  {
    RenderParse(s);
    ParseWellFormed(s);
    UnresolvedIsThere(Parse(s), resolve);
    forall t | s == Render(t) && WellFormed(t) ensures t == Parse(s) {
      ParseRendered(t);
    }
  }

  // A closing brace in the text before an expression is such a string.
  lemma BraceBeforeExpressionPanics(resolve: Resolver, show: Value -> string)
    ensures Evaluate(Parse("}${a}"), resolve, show).Panic?
  {
    var s := "}${a}";
    assert OpensAt(s, 1) && !OpensAt(s, 0) && s[0] == '}';
  }
}
