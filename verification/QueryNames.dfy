/** Which names mean themselves in a query string, where names are decoded but never encoded. */
module QueryNames {
  import opened Wrappers
  import opened Utf8
  import opened QueryEncoding
  import opened QueryStrings

  // A name that is read as it is written.
  predicate MeansItself(name: string) {
    '&' !in name && '=' !in name && DecodedOr(name) == name
  }

  // ---- A measure that decoding never raises

  // More than any code point, so that a character less always counts.
  const HEAVY := 0x110000

  function Weight(s: string): nat {
    if s == "" then 0 else HEAVY + s[0] as int + Weight(s[1..])
  }

  function BytesWeight(b: seq<Byte>): nat {
    if b == [] then 0 else HEAVY + b[0] + BytesWeight(b[1..])
  }

  lemma {:induction false} WeightConcat(s: string, t: string)
    ensures Weight(s + t) == Weight(s) + Weight(t)
  {
    if s == "" {
      assert s + t == t;
    } else {
      assert (s + t)[1..] == s[1..] + t;
      WeightConcat(s[1..], t);
    }
  }

  lemma {:induction false} BytesWeightConcat(b: seq<Byte>, d: seq<Byte>)
    ensures BytesWeight(b + d) == BytesWeight(b) + BytesWeight(d)
  {
    if b == [] {
      assert b + d == d;
    } else {
      assert (b + d)[1..] == b[1..] + d;
      BytesWeightConcat(b[1..], d);
    }
  }

  // Character by character the bytes are the code points.
  predicate SameBytes(s: string, b: seq<Byte>) {
    |s| == |b| && forall i | 0 <= i < |s| :: s[i] as int == b[i]
  }

  lemma SameBytesConcat(s: string, t: string, b: seq<Byte>, d: seq<Byte>)
    requires SameBytes(s, b) && SameBytes(t, d)
    ensures SameBytes(s + t, b + d)
  {
  }

  lemma BytesWeightFront(b: seq<Byte>, n: nat)
    requires n <= |b|
    ensures BytesWeight(b) >= n * HEAVY + BytesWeight(b[n..])
    ensures n > 0 ==> BytesWeight(b[..n]) + BytesWeight(b[n..]) == BytesWeight(b)
  {
    assert b == b[..n] + b[n..];
    BytesWeightConcat(b[..n], b[n..]);
    BytesWeightAtLeast(b[..n]);
  }

  lemma {:induction false} BytesWeightAtLeast(b: seq<Byte>)
    ensures BytesWeight(b) >= |b| * HEAVY
  {
    if b != [] {
      BytesWeightAtLeast(b[1..]);
    }
  }

  // The text of some bytes is no heavier than they are, and as heavy only if it is their ASCII text.
  lemma {:induction false} TextIsLighter(b: seq<Byte>)
    requires FromUtf8(b).Some?
    ensures var s := FromUtf8(b).value;
      Weight(s) <= BytesWeight(b) && (Weight(s) == BytesWeight(b) ==> SameBytes(s, b) && forall i :: 0 <= i < |s| ==> s[i] as int < 0x80)
    decreases |b|
  {
    if b != [] {
      EncodeDecoded(b);
      var (c, n) := DecodeChar(b).value;
      var rest := FromUtf8(b[n..]).value;
      TextIsLighter(b[n..]);
      assert FromUtf8(b).value == [c] + rest && ([c] + rest)[1..] == rest;
      BytesWeightFront(b, n);
      if n == 1 {
        assert c as int == b[0] as int;
        SameBytesFront(c, rest, b);
      }
    }
  }

  lemma SameBytesFront(c: char, rest: string, b: seq<Byte>)
    requires b != [] && c as int == b[0]
    ensures SameBytes([c] + rest, b) <==> SameBytes(rest, b[1..])
  {
    if SameBytes(rest, b[1..]) {
      forall i | 0 <= i < |b| ensures i < |[c] + rest| && ([c] + rest)[i] as int == b[i] {
        assert i > 0 ==> b[1..][i - 1] == b[i];
      }
    } else if SameBytes([c] + rest, b) {
      forall i | 0 <= i < |rest| ensures rest[i] as int == b[1..][i] {
        assert ([c] + rest)[i + 1] == rest[i];
      }
    }
  }

  // ---- Decoding a name

  predicate IsEscapeAt(q: string, i: nat)
    requires i < |q|
  {
    q[i] == '%' && i + 2 < |q| && HexByte(q[i + 1], q[i + 2]).Some?
  }

  // The scan from a position on meets neither a plus sign nor an escape that it decodes.
  predicate Unescaped(q: string, i: nat)
    requires i <= |q|
    decreases |q| - i
  {
    i == |q| || (q[i] != '+' && !IsEscapeAt(q, i) && Unescaped(q, DecodeStep(q, i).1))
  }

  function LowBytes(s: string): seq<Byte> {
    seq(|s|, i requires 0 <= i < |s| => LowByte(s[i]))
  }

  // A step that decodes nothing gives the low bytes of its characters.
  lemma PlainStep(q: string, i: nat)
    requires i < |q| && q[i] != '+' && !IsEscapeAt(q, i)
    ensures var (bytes, next) := DecodeStep(q, i); bytes == LowBytes(q[i..next])
  {
  }

  lemma {:induction false} LowBytesAreLighter(s: string)
    ensures BytesWeight(LowBytes(s)) <= Weight(s)
    ensures BytesWeight(LowBytes(s)) == Weight(s) ==> SameBytes(s, LowBytes(s))
  {
    if s != "" {
      assert LowBytes(s)[1..] == LowBytes(s[1..]);
      LowBytesAreLighter(s[1..]);
      assert [s[0]] + s[1..] == s;
      if BytesWeight(LowBytes(s)) == Weight(s) {
        SameBytesFront(s[0], s[1..], LowBytes(s));
      }
    }
  }

  lemma OneByteWeight(b: Byte)
    ensures BytesWeight([b]) == HEAVY + b
  {
    assert BytesWeight([b][1..]) == 0;
  }

  lemma {:induction false} WeightAtLeast(s: string)
    ensures Weight(s) >= |s| * HEAVY
  {
    if s != "" {
      WeightAtLeast(s[1..]);
    }
  }

  // A step that decodes something is lighter than what it reads.
  lemma StepIsLighter(q: string, i: nat)
    requires i < |q| && (q[i] == '+' || IsEscapeAt(q, i))
    ensures var (bytes, next) := DecodeStep(q, i); BytesWeight(bytes) < Weight(q[i..next])
  {
    var (bytes, next) := DecodeStep(q, i);
    OneByteWeight(bytes[0]);
    assert bytes == [bytes[0]];
    if q[i] == '+' {
      assert q[i..next] == "+" && Weight("+"[1..]) == 0;
    } else {
      WeightAtLeast(q[i..next]);
    }
  }

  // The bytes of a text are no heavier than it is, and as heavy only if nothing was decoded.
  lemma {:induction false} BytesAreLighter(q: string, i: nat)
    requires i <= |q|
    ensures BytesWeight(DecodedBytes(q, i)) <= Weight(q[i..])
    ensures BytesWeight(DecodedBytes(q, i)) == Weight(q[i..]) ==> SameBytes(q[i..], DecodedBytes(q, i)) && Unescaped(q, i)
    decreases |q| - i
  {
    if i < |q| {
      var (bytes, next) := DecodeStep(q, i);
      var later := DecodedBytes(q, next);
      BytesAreLighter(q, next);
      BytesWeightConcat(bytes, later);
      assert q[i..] == q[i..next] + q[next..];
      WeightConcat(q[i..next], q[next..]);
      if q[i] == '+' || IsEscapeAt(q, i) {
        StepIsLighter(q, i);
      } else {
        PlainStep(q, i);
        LowBytesAreLighter(q[i..next]);
        if BytesWeight(bytes) == Weight(q[i..next]) && BytesWeight(later) == Weight(q[next..]) {
          SameBytesConcat(q[i..next], q[next..], bytes, later);
        }
      }
    }
  }

  /** Decoding never makes a name heavier, and keeps its weight only if it keeps the name. */
  lemma DecodedIsLighter(name: string)
    ensures Weight(DecodedOr(name)) <= Weight(name)
    ensures Weight(DecodedOr(name)) == Weight(name) ==> DecodedOr(name) == name
    ensures Decoded(name) == Some(name) ==> Unescaped(name, 0) && forall i :: 0 <= i < |name| ==> name[i] as int < 0x80
  {
    assert name[0..] == name;
    BytesAreLighter(name, 0);
    if Decoded(name).Some? {
      TextIsLighter(DecodedBytes(name, 0));
    }
  }

  predicate IsAscii(s: string) {
    forall i | 0 <= i < |s| :: s[i] as int < 0x80
  }

  lemma {:induction false} AsciiBytes(s: string)
    requires IsAscii(s)
    ensures LowBytes(s) == Encode(s)
  {
    if s != "" {
      assert LowBytes(s) == [LowByte(s[0])] + LowBytes(s[1..]);
      AsciiBytes(s[1..]);
    }
  }

  lemma {:induction false} UnescapedBytes(q: string, i: nat)
    requires i <= |q| && Unescaped(q, i)
    ensures DecodedBytes(q, i) == LowBytes(q[i..])
    decreases |q| - i
  {
    if i < |q| {
      var (bytes, next) := DecodeStep(q, i);
      PlainStep(q, i);
      UnescapedBytes(q, next);
      assert LowBytes(q[i..]) == LowBytes(q[i..next]) + LowBytes(q[next..]);
    }
  }

  /** A name is read as it is written exactly when it does not decode, or is ASCII and the scan meets
    * neither a plus sign nor an escape. */
  lemma DecodedToItselfExactly(name: string)
    ensures DecodedOr(name) == name <==> Decoded(name).None? || (IsAscii(name) && Unescaped(name, 0))
  {
    DecodedIsLighter(name);
    if IsAscii(name) && Unescaped(name, 0) {
      UnescapedBytes(name, 0);
      assert name[0..] == name;
      AsciiBytes(name);
      FromUtf8Exactly(Encode(name), name);
    }
  }

  // ASCII without the four special characters.
  predicate PlainName(name: string) {
    IsAscii(name) && '&' !in name && '=' !in name && '%' !in name && '+' !in name
  }

  lemma {:induction false} PlainIsUnescaped(name: string, i: nat)
    requires PlainName(name) && i <= |name|
    ensures Unescaped(name, i)
    decreases |name| - i
  {
    if i < |name| {
      PlainIsUnescaped(name, i + 1);
    }
  }

  lemma PlainMeansItself(name: string)
    requires PlainName(name)
    ensures MeansItself(name)
  {
    PlainIsUnescaped(name, 0);
    DecodedToItselfExactly(name);
  }
}
