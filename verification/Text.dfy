/** The string operations of the Rust standard library that the parsers are built from. */
module Text {
  import opened Wrappers

  // The position of the first occurrence of a character (`str::find`).
  function IndexOf(s: string, c: char): (r: Option<nat>)
    ensures r.Some? ==> r.value < |s|
  {
    IndexFrom(s, c, 0)
  }

  function IndexFrom(s: string, c: char, i: nat): (r: Option<nat>)
    requires i <= |s|
    ensures r.Some? ==> i <= r.value < |s|
    decreases |s| - i
  {
    if i == |s| then None else if s[i] == c then Some(i) else IndexFrom(s, c, i + 1)
  }

  // It occurs there and nowhere before, or not at all.
  lemma IndexOfFirst(s: string, c: char)
    ensures var r := IndexOf(s, c);
      && (r.Some? ==> s[r.value] == c && forall k :: 0 <= k < r.value ==> s[k] != c)
      && (r.None? ==> c !in s)
  {
    IndexFromFirst(s, c, 0);
  }

  lemma {:induction false} IndexFromFirst(s: string, c: char, i: nat)
    requires i <= |s|
    ensures var r := IndexFrom(s, c, i);
      && (r.Some? ==> s[r.value] == c && forall k :: i <= k < r.value ==> s[k] != c)
      && (r.None? ==> forall k :: i <= k < |s| ==> s[k] != c)
    decreases |s| - i
  {
    if i < |s| && s[i] != c {
      IndexFromFirst(s, c, i + 1);
    }
  }

  // The pieces between occurrences of a separator (`str::split`).
  function Split(s: string, sep: char): (parts: seq<string>)
    ensures |parts| >= 1
  {
    if s == "" then [""] else
      var rest := Split(s[1..], sep);
      if s[0] == sep then [""] + rest else [[s[0]] + rest[0]] + rest[1..]
  }

  function Join(parts: seq<string>, sep: string): string {
    if |parts| == 0 then "" else if |parts| == 1 then parts[0] else parts[0] + sep + Join(parts[1..], sep)
  }

  lemma {:induction false} SplitAtFirst(a: string, sep: char, b: string)
    requires sep !in a
    ensures Split(a + [sep] + b, sep) == [a] + Split(b, sep)
  {
    var s := a + [sep] + b;
    if a == "" {
      assert s[1..] == b;
    } else {
      assert s[1..] == a[1..] + [sep] + b;
      SplitAtFirst(a[1..], sep, b);
      assert a == [a[0]] + a[1..];
    }
  }

  lemma {:induction false} SplitWhole(a: string, sep: char)
    requires sep !in a
    ensures Split(a, sep) == [a]
  {
    if a != "" {
      SplitWhole(a[1..], sep);
      assert a == [a[0]] + a[1..];
    }
  }

  lemma {:induction false} SplitJoin(parts: seq<string>, sep: char)
    requires parts != [] && forall p :: p in parts ==> sep !in p
    ensures Split(Join(parts, [sep]), sep) == parts
  {
    if |parts| == 1 {
      SplitWhole(parts[0], sep);
    } else {
      var first, rest := parts[0], parts[1..];
      assert parts == [first] + rest && first in parts && forall p :: p in rest ==> p in parts;
      SplitJoin(rest, sep);
      SplitAtFirst(first, sep, Join(rest, [sep]));
    }
  }

  // The pieces of two texts joined by the separator are the pieces of both.
  lemma {:induction false} SplitConcat(a: string, sep: char, b: string)
    ensures Split(a + [sep] + b, sep) == Split(a, sep) + Split(b, sep)
  {
    var s := a + [sep] + b;
    if a == "" {
      assert s[1..] == b;
    } else {
      assert s[1..] == a[1..] + [sep] + b;
      SplitConcat(a[1..], sep, b);
    }
  }

  lemma {:induction false} SplitSingle(s: string, sep: char)
    ensures |Split(s, sep)| == 1 <==> sep !in s
  {
    if s != "" {
      SplitSingle(s[1..], sep);
      assert s == [s[0]] + s[1..];
    }
  }

  // The characters with the Unicode property White_Space (`char::is_whitespace`).
  predicate IsWhitespace(c: char) {
    var n := c as int;
    9 <= n <= 13 || n == 0x20 || n == 0x85 || n == 0xA0 || n == 0x1680 || 0x2000 <= n <= 0x200A
      || n == 0x2028 || n == 0x2029 || n == 0x202F || n == 0x205F || n == 0x3000
  }

  function TrimStart(s: string): string {
    if s != "" && IsWhitespace(s[0]) then TrimStart(s[1..]) else s
  }

  function TrimEnd(s: string): string {
    if s != "" && IsWhitespace(s[|s| - 1]) then TrimEnd(s[..|s| - 1]) else s
  }

  // `str::trim`
  function Trim(s: string): string {
    TrimEnd(TrimStart(s))
  }

  predicate Trimmed(s: string) {
    s == "" || (!IsWhitespace(s[0]) && !IsWhitespace(s[|s| - 1]))
  }

  lemma {:induction false} TrimEndKeepsFront(s: string)
    ensures TrimEnd(s) <= s && (TrimEnd(s) != "" ==> !IsWhitespace(TrimEnd(s)[|TrimEnd(s)| - 1]))
  {
    if s != "" && IsWhitespace(s[|s| - 1]) {
      TrimEndKeepsFront(s[..|s| - 1]);
    }
  }

  lemma {:induction false} TrimStartClean(s: string)
    ensures TrimStart(s) != "" ==> !IsWhitespace(TrimStart(s)[0])
  {
    if s != "" && IsWhitespace(s[0]) {
      TrimStartClean(s[1..]);
    }
  }

  lemma TrimExactly(s: string)
    ensures Trimmed(Trim(s))
    ensures Trim(s) == s <==> Trimmed(s)
  {
    TrimStartClean(s);
    TrimEndKeepsFront(TrimStart(s));
  }

  predicate IsBlank(s: string) {
    forall i :: 0 <= i < |s| ==> IsWhitespace(s[i])
  }

  // The white space at the beginning, and at the end.
  function Leading(s: string): string {
    if s != "" && IsWhitespace(s[0]) then [s[0]] + Leading(s[1..]) else ""
  }

  function Trailing(s: string): string {
    if s != "" && IsWhitespace(s[|s| - 1]) then Trailing(s[..|s| - 1]) + [s[|s| - 1]] else ""
  }

  lemma {:induction false} TrimStartKeeps(s: string)
    ensures s == Leading(s) + TrimStart(s) && IsBlank(Leading(s))
  {
    if s != "" && IsWhitespace(s[0]) {
      TrimStartKeeps(s[1..]);
      assert s == [s[0]] + s[1..];
      assert [s[0]] + (Leading(s[1..]) + TrimStart(s[1..])) == [s[0]] + Leading(s[1..]) + TrimStart(s[1..]);
    }
  }

  lemma {:induction false} TrimEndKeeps(s: string)
    ensures s == TrimEnd(s) + Trailing(s) && IsBlank(Trailing(s))
  {
    if s != "" && IsWhitespace(s[|s| - 1]) {
      TrimEndKeeps(s[..|s| - 1]);
      assert s == s[..|s| - 1] + [s[|s| - 1]];
    }
  }

  ghost predicate IsPadded(s: string, t: string) {
    exists a, b :: s == a + t + b && IsBlank(a) && IsBlank(b)
  }

  // Nothing but white space is taken off the ends.
  lemma TrimKeeps(s: string)
    ensures IsPadded(s, Trim(s))
  {
    TrimStartKeeps(s);
    TrimEndKeeps(TrimStart(s));
    assert s == Leading(s) + Trim(s) + Trailing(TrimStart(s));
  }
}
