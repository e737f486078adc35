/** UTF-8 as in RFC 3629: the encoding of a string and its strict inverse (`str::from_utf8`). */
module Utf8 {
  import opened Wrappers

  type Byte = b: int | 0 <= b < 256

  function EncodeChar(c: char): seq<Byte> {
    var n := c as int;
    if n < 0x80 then [n]
    else if n < 0x800 then [0xC0 + n / 64, 0x80 + n % 64]
    else if n < 0x10000 then [0xE0 + n / 64 / 64, 0x80 + n / 64 % 64, 0x80 + n % 64]
    else [0xF0 + n / 64 / 64 / 64, 0x80 + n / 64 / 64 % 64, 0x80 + n / 64 % 64, 0x80 + n % 64]
  }

  function Encode(s: string): seq<Byte> {
    if s == "" then [] else EncodeChar(s[0]) + Encode(s[1..])
  }

  predicate IsContinuation(b: Byte) {
    0x80 <= b < 0xC0
  }

  // The bits a continuation byte, or a lead byte starting at `base`, carries.
  function Bits(b: Byte, base: int): int {
    b as int - base
  }

  // The code point at the front and the number of bytes it takes.
  function DecodePoint(b: seq<Byte>): Option<(int, nat)> {
    if b == [] then None
    else if b[0] < 0x80 then Some((b[0] as int, 1))
    else if 0xC0 <= b[0] < 0xE0 && |b| >= 2 && IsContinuation(b[1]) then
      Some((Bits(b[0], 0xC0) * 64 + Bits(b[1], 0x80), 2))
    else if 0xE0 <= b[0] < 0xF0 && |b| >= 3 && IsContinuation(b[1]) && IsContinuation(b[2]) then
      Some(((Bits(b[0], 0xE0) * 64 + Bits(b[1], 0x80)) * 64 + Bits(b[2], 0x80), 3))
    else if 0xF0 <= b[0] < 0xF8 && |b| >= 4 && IsContinuation(b[1]) && IsContinuation(b[2]) && IsContinuation(b[3]) then
      Some((((Bits(b[0], 0xF0) * 64 + Bits(b[1], 0x80)) * 64 + Bits(b[2], 0x80)) * 64 + Bits(b[3], 0x80), 4))
    else None
  }

  // The least code point that needs this many bytes.
  function Least(size: nat): int {
    if size <= 1 then 0 else if size == 2 then 0x80 else if size == 3 then 0x800 else 0x10000
  }

  // The character at the front: not overlong, not a surrogate and not past the last code point.
  function DecodeChar(b: seq<Byte>): Option<(char, nat)> {
    var p := DecodePoint(b);
    if p.Some? && Least(p.value.1) <= p.value.0 && (p.value.0 < 0xD800 || 0xE000 <= p.value.0 < 0x110000) then
      Some((p.value.0 as char, p.value.1))
    else None
  }

  lemma DecodeEncoded(b: seq<Byte>, c: char)
    requires EncodeChar(c) <= b
    ensures DecodeChar(b) == Some((c, |EncodeChar(c)|))
  {
    var n, e := c as int, EncodeChar(c);
    assert forall k :: 0 <= k < |e| ==> e[k] == b[k];
    assert n == n / 64 * 64 + n % 64;
  }

  lemma SixBits(high: int, low: int)
    requires 0 <= low < 64
    ensures (high * 64 + low) / 64 == high && (high * 64 + low) % 64 == low
  {
  }

  lemma EncodeDecoded(b: seq<Byte>)
    requires DecodeChar(b).Some?
    ensures EncodeChar(DecodeChar(b).value.0) <= b
    ensures DecodeChar(b).value.1 == |EncodeChar(DecodeChar(b).value.0)|
  {
    if b[0] >= 0x80 {
      var base := if b[0] < 0xE0 then 0xC0 else if b[0] < 0xF0 then 0xE0 else 0xF0;
      var two := Bits(b[0], base) * 64 + Bits(b[1], 0x80);
      SixBits(Bits(b[0], base), Bits(b[1], 0x80));
      if b[0] >= 0xE0 {
        SixBits(two, Bits(b[2], 0x80));
        if b[0] >= 0xF0 {
          SixBits(two * 64 + Bits(b[2], 0x80), Bits(b[3], 0x80));
        }
      }
    }
  }

  function FromUtf8(b: seq<Byte>): (r: Option<string>)
    decreases |b|
  {
    if b == [] then Some("") else
      var first := DecodeChar(b);
      if first.None? then None else
        EncodeDecoded(b);
        var rest := FromUtf8(b[first.value.1..]);
        if rest.None? then None else Some([first.value.0] + rest.value)
  }

  lemma {:induction false} FromUtf8Encode(s: string)
    ensures FromUtf8(Encode(s)) == Some(s)
  {
    if s != "" {
      var b, n := Encode(s), |EncodeChar(s[0])|;
      DecodeEncoded(b, s[0]);
      assert b[n..] == Encode(s[1..]);
      FromUtf8Encode(s[1..]);
      assert [s[0]] + s[1..] == s;
    }
  }

  lemma EncodeCons(c: char, rest: string)
    ensures Encode([c] + rest) == EncodeChar(c) + Encode(rest)
  {
    assert ([c] + rest)[1..] == rest;
  }

  lemma {:induction false} EncodeFromUtf8(b: seq<Byte>)
    ensures FromUtf8(b).Some? ==> Encode(FromUtf8(b).value) == b
    decreases |b|
  {
    if FromUtf8(b).Some? && b != [] {
      EncodeDecoded(b);
      var (c, n) := DecodeChar(b).value;
      EncodeFromUtf8(b[n..]);
      EncodeCons(c, FromUtf8(b[n..]).value);
      assert b[..n] == EncodeChar(c) && b == b[..n] + b[n..];
    }
  }

  // Decoding accepts exactly the encodings of strings, and recovers the string.
  lemma FromUtf8Exactly(b: seq<Byte>, s: string)
    ensures FromUtf8(b) == Some(s) <==> Encode(s) == b
  {
    FromUtf8Encode(s);
    EncodeFromUtf8(b);
  }
}
