/** Percent-encoding of query string values (`decode_query`, `encode_query`). */
module QueryEncoding {
  import opened Wrappers
  import opened Utf8

  // The low byte of a character (`c as u8`).
  function LowByte(c: char): Byte {
    c as int % 256
  }

  // The value of a hexadecimal digit of either case.
  function HexValue(c: char): Option<int> {
    if '0' <= c <= '9' then Some(c as int - '0' as int)
    else if 'a' <= c <= 'f' then Some(c as int - 'a' as int + 10)
    else if 'A' <= c <= 'F' then Some(c as int - 'A' as int + 10)
    else None
  }

  function HexByte(c1: char, c2: char): (r: Option<Byte>)
    ensures r.Some? <==> HexValue(c1).Some? && HexValue(c2).Some?
  {
    var h1, h2 := HexValue(c1), HexValue(c2);
    if h1.Some? && h2.Some? then Some(16 * h1.value + h2.value) else None
  }

  // The bytes the text from position `i` on stands for, and the position after the first of them.
  function DecodeStep(q: string, i: nat): (r: (seq<Byte>, nat))
    requires i < |q|
    ensures i < r.1 <= |q|
  {
    if q[i] == '%' then
      if i + 2 < |q| then
        (match HexByte(q[i + 1], q[i + 2])
         case Some(b) => [b]
         case None => [LowByte('%'), LowByte(q[i + 1]), LowByte(q[i + 2])], i + 3)
      else if i + 1 < |q| then ([LowByte('%'), LowByte(q[i + 1])], i + 2)
      else ([LowByte('%')], i + 1)
    else if q[i] == '+' then ([LowByte(' ')], i + 1)
    else ([LowByte(q[i])], i + 1)
  }

  function DecodedBytes(q: string, i: nat): seq<Byte>
    requires i <= |q|
    decreases |q| - i
  {
    if i == |q| then [] else
      var (bytes, next) := DecodeStep(q, i);
      bytes + DecodedBytes(q, next)
  }

  // The decoded text, or nothing when it is not valid UTF-8.
  function Decoded(q: string): Option<string> {
    FromUtf8(DecodedBytes(q, 0))
  }

  /** The loop over the characters, pushing bytes into a buffer. */
  method DecodeQuery(query: string) returns (r: Option<string>)
    ensures r == Decoded(query)
  {
    var buffer: seq<Byte> := [];
    var i := 0;
    while i < |query|
      invariant i <= |query|
      invariant DecodedBytes(query, 0) == buffer + DecodedBytes(query, i)
    {
      var c := query[i];
      ghost var (bytes, next) := DecodeStep(query, i);
      assert DecodedBytes(query, 0) == buffer + bytes + DecodedBytes(query, next);
      if c == '%' {
        if i + 2 < |query| {
          var decoded := HexByte(query[i + 1], query[i + 2]);
          if decoded.Some? {
            buffer := buffer + [decoded.value];
          } else {
            buffer := buffer + [LowByte('%'), LowByte(query[i + 1]), LowByte(query[i + 2])];
          }
          i := i + 3;
        } else if i + 1 < |query| {
          buffer := buffer + [LowByte('%'), LowByte(query[i + 1])];
          i := i + 2;
        } else {
          buffer := buffer + [LowByte('%')];
          i := i + 1;
        }
      } else {
        buffer := buffer + [if c == '+' then LowByte(' ') else LowByte(c)];
        i := i + 1;
      }
    }
    assert buffer + [] == buffer;
    r := FromUtf8(buffer);
  }

  // ---- Encoding

  predicate IsUnreserved(c: char) {
    c == '-' || 'a' <= c <= 'z' || 'A' <= c <= 'Z' || '0' <= c <= '9'
  }

  function HexDigit(n: nat): (c: char)
    requires n < 16
    ensures HexValue(c) == Some(n)
  {
    if n < 10 then '0' + n as char else 'a' + (n - 10) as char
  }

  // The hexadecimal digits of a code point, without leading zeros.
  function HexDigits(n: nat): string {
    if n < 16 then [HexDigit(n)] else HexDigits(n / 16) + [HexDigit(n % 16)]
  }

  // The digits in pairs; a digit left over makes the iterator panic.
  function Percents(digits: string): Option<string> {
    if digits == "" then Some("")
    else if |digits| == 1 then None
    else
      var rest := Percents(digits[2..]);
      if rest.None? then None else Some(['%', digits[0], digits[1]] + rest.value)
  }

  function EncodedChar(c: char): Option<string> {
    if c == ' ' then Some("+")
    else if IsUnreserved(c) then Some([c])
    else Percents(HexDigits(c as int))
  }

  // `encode_query`; it panics on characters with an odd number of hexadecimal digits.
  function EncodeQuery(s: string): Option<string> {
    if s == "" then Some("") else
      var first, rest := EncodedChar(s[0]), EncodeQuery(s[1..]);
      if first.None? || rest.None? then None else Some(first.value + rest.value)
  }
}
