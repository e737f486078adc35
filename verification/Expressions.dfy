/** `${key}` expressions inside strings (`parse_expression`, `replace_expressions`). */
module Expressions {
  import opened Wrappers
  import opened Text

  const OPEN := "${"
  const CLOSE := "}"

  predicate OpensAt(s: string, k: nat) {
    k + 1 < |s| && s[k] == '$' && s[k + 1] == '{'
  }

  // The position of the first `${`.
  function FindOpen(s: string): (r: Option<nat>)
    ensures r.Some? ==> r.value + 1 < |s|
  {
    FindOpenFrom(s, 0)
  }

  function FindOpenFrom(s: string, i: nat): (r: Option<nat>)
    requires i <= |s|
    ensures r.Some? ==> i <= r.value && r.value + 1 < |s|
    decreases |s| - i
  {
    if i == |s| then None else if OpensAt(s, i) then Some(i) else FindOpenFrom(s, i + 1)
  }

  lemma FindOpenFirst(s: string)
    ensures var r := FindOpen(s);
      && (r.Some? ==> OpensAt(s, r.value) && forall k: nat :: k < r.value ==> !OpensAt(s, k))
      && (r.None? ==> forall k: nat :: !OpensAt(s, k))
  {
    FindOpenFromFirst(s, 0);
  }

  lemma {:induction false} FindOpenFromFirst(s: string, i: nat)
    requires i <= |s|
    ensures var r := FindOpenFrom(s, i);
      && (r.Some? ==> OpensAt(s, r.value) && forall k: nat :: i <= k < r.value ==> !OpensAt(s, k))
      && (r.None? ==> forall k: nat :: i <= k ==> !OpensAt(s, k))
    decreases |s| - i
  {
    if i < |s| && !OpensAt(s, i) {
      FindOpenFromFirst(s, i + 1);
    }
  }

  // A string as literals followed by expressions. It ends in plain text, in an expression that is
  // never closed, or at a closing brace that comes before the next expression.
  datatype Template =
    | Plain(text: string)
    | Unclosed(text: string)
    | Misplaced(text: string)
    | Expression(literal: string, key: string, rest: Template)

  function RenderPart(literal: string, key: string): string {
    literal + OPEN + key + CLOSE
  }

  function Render(t: Template): string {
    match t
    case Expression(literal, key, rest) => RenderPart(literal, key) + Render(rest)
    case _ => t.text
  }

  predicate WellFormedPart(literal: string, key: string) {
    FindOpen(literal).None? && '}' !in literal && '}' !in key
  }

  predicate WellFormed(t: Template) {
    match t
    case Plain(s) => FindOpen(s).None?
    case Unclosed(s) => FindOpen(s).Some? && '}' !in s
    case Misplaced(s) => FindOpen(s).Some? && IndexOf(s, '}').Some? && IndexOf(s, '}').value < FindOpen(s).value
    case Expression(literal, key, rest) => WellFormedPart(literal, key) && WellFormed(rest)
  }

  // The template a string stands for, found by always taking the first `${` and the first `}`.
  function Parse(s: string): Template
    decreases |s|
  {
    var open, close := FindOpen(s), IndexOf(s, '}');
    if open.None? then Plain(s)
    else if close.None? then Unclosed(s)
    else if close.value < open.value then Misplaced(s)
    else
      FirstPart(s, open.value, close.value);
      Expression(s[..open.value], s[open.value + 2..close.value], Parse(s[close.value + 1..]))
  }

  // Where the first expression is found, exactly.
  lemma FirstPart(s: string, i: nat, e: nat)
    ensures (FindOpen(s) == Some(i) && IndexOf(s, '}') == Some(e) && i <= e) <==>
      (e < |s| && i + 2 <= e && OpensAt(s, i) && s[e] == '}' && WellFormedPart(s[..i], s[i + 2..e]))
  {
    FindOpenFirst(s);
    IndexOfFirst(s, '}');
    if e < |s| && i + 2 <= e && OpensAt(s, i) {
      FindOpenFirst(s[..i]);
      assert forall k: nat :: k + 1 < i ==> (OpensAt(s, k) <==> OpensAt(s[..i], k));
      assert forall k: nat :: k < i ==> s[k] == s[..i][k];
      assert forall k: nat :: i + 2 <= k < e ==> s[k] == s[i + 2..e][k - (i + 2)];
    }
  }

  lemma RenderFirstPart(s: string, i: nat, e: nat)
    requires OpensAt(s, i) && i + 2 <= e < |s| && s[e] == '}'
    ensures s == RenderPart(s[..i], s[i + 2..e]) + s[e + 1..]
  {
  }

  // Where the pieces of a rendered part are found in the string it starts.
  lemma PartSlices(literal: string, key: string, rest: string)
    ensures var s, i, e := RenderPart(literal, key) + rest, |literal|, |literal| + 2 + |key|;
      && |s| == e + 1 + |rest| && OpensAt(s, i) && s[e] == '}'
      && s[..i] == literal && s[i + 2..e] == key && s[e + 1..] == rest
  {
  }

  lemma {:induction false} ParseWellFormed(s: string)
    ensures WellFormed(Parse(s))
    decreases |s|
  {
    var open, close := FindOpen(s), IndexOf(s, '}');
    FindOpenFirst(s);
    IndexOfFirst(s, '}');
    if open.Some? && close.Some? && open.value <= close.value {
      FirstPart(s, open.value, close.value);
      ParseWellFormed(s[close.value + 1..]);
    }
  }

  // Parsing loses nothing of the string.
  lemma {:induction false} RenderParse(s: string)
    ensures Render(Parse(s)) == s
    decreases |s|
  {
    var open, close := FindOpen(s), IndexOf(s, '}');
    if open.Some? && close.Some? && open.value <= close.value {
      FirstPart(s, open.value, close.value);
      RenderParse(s[close.value + 1..]);
      RenderFirstPart(s, open.value, close.value);
    }
  }

  lemma ParseFirst(literal: string, key: string, rest: string)
    requires WellFormedPart(literal, key)
    ensures Parse(RenderPart(literal, key) + rest) == Expression(literal, key, Parse(rest))
  {
    PartSlices(literal, key, rest);
    FirstPart(RenderPart(literal, key) + rest, |literal|, |literal| + 2 + |key|);
  }

  lemma {:induction false} ParseRendered(t: Template)
    requires WellFormed(t)
    ensures Parse(Render(t)) == t
  {
    match t
    case Expression(literal, key, rest) =>
      ParseRendered(rest);
      ParseFirst(literal, key, Render(rest));
    case _ =>
      IndexOfFirst(t.text, '}');
  }

  // Parsing undoes rendering exactly for the well-formed templates.
  lemma ParseRender(t: Template)
    ensures Parse(Render(t)) == t <==> WellFormed(t)
  {
    ParseWellFormed(Render(t));
    if WellFormed(t) {
      ParseRendered(t);
    }
  }
}
