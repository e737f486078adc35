/** Document paths (`DocPath`) as lists of tokens. */
module Paths {
  import opened Wrappers

  datatype PathToken = Root | Field(name: string) | Index(index: nat) | Star | StarIndex

  type Path = seq<PathToken>

  function Digit(n: nat): char
    requires n < 10
  {
    '0' + n as char
  }

  // The decimal digits of a number.
  function ShowNat(n: nat): string {
    if n < 10 then [Digit(n)] else ShowNat(n / 10) + [Digit(n % 10)]
  }

  // The text of a token, which rules are compared with.
  function ShowToken(t: PathToken): string {
    match t
    case Root => "$"
    case Field(name) => name
    case Index(n) => ShowNat(n)
    case Star => "*"
    case StarIndex => "[*]"
  }

  const USIZE_LIMIT := 0x1_0000_0000_0000_0000

  // The number the first `i` characters stand for, if they are digits.
  function ParseDigits(s: string, i: nat): Option<nat>
    requires i <= |s|
  {
    if i == 0 then Some(0) else
      var high := ParseDigits(s, i - 1);
      if high.Some? && '0' <= s[i - 1] <= '9' then Some(high.value * 10 + (s[i - 1] as int - '0' as int)) else None
  }

  // `str::parse::<usize>`: digits, perhaps after a plus sign, for a number below the limit.
  function ParseUsize(s: string): Option<nat> {
    var digits := if s != "" && s[0] == '+' then s[1..] else s;
    var n := ParseDigits(digits, |digits|);
    if digits != "" && n.Some? && n.value < USIZE_LIMIT then n else None
  }

  // The token a part of a path becomes.
  function TokenOf(part: string): PathToken {
    if part == "*" then Star
    else if part == "[*]" then StarIndex
    else if ParseUsize(part).Some? then Index(ParseUsize(part).value)
    else Field(part)
  }

  // `DocPath::join`
  function JoinPath(path: Path, part: string): Path {
    path + [TokenOf(part)]
  }

  lemma {:induction false} ParseShownDigits(n: nat)
    ensures |ShowNat(n)| >= 1 && ShowNat(n)[0] != '+'
    ensures ParseDigits(ShowNat(n), |ShowNat(n)|) == Some(n)
  {
    if n >= 10 {
      var high := ShowNat(n / 10);
      ParseShownDigits(n / 10);
      ParseDigitsPrefix(high, [Digit(n % 10)], |high|);
    } else {
      assert ParseDigits(ShowNat(n), 0) == Some(0);
    }
  }

  lemma {:induction false} ParseDigitsPrefix(a: string, b: string, i: nat)
    requires i <= |a|
    ensures ParseDigits(a + b, i) == ParseDigits(a, i)
  {
    if i > 0 {
      ParseDigitsPrefix(a, b, i - 1);
    }
  }

  // An index is read back from its text.
  lemma ParseShownNat(n: nat)
    requires n < USIZE_LIMIT
    ensures ParseUsize(ShowNat(n)) == Some(n)
  {
    ParseShownDigits(n);
  }
}
