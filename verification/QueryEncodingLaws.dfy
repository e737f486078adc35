/** Exactly which strings survive percent-encoding and decoding. */
module QueryEncodingLaws {
  import opened Wrappers
  import opened Utf8
  import opened Sequences
  import opened QueryEncoding

  lemma StepSuffix(a: string, b: string, i: nat)
    requires i < |b|
    ensures DecodeStep(a + b, |a| + i) == (DecodeStep(b, i).0, |a| + DecodeStep(b, i).1)
  {
    assert forall k :: 0 <= k < |b| ==> (a + b)[|a| + k] == b[k];
  }

  // Decoding a suffix does not depend on what precedes it.
  lemma {:induction false} DecodeSuffix(a: string, b: string, i: nat)
    requires i <= |b|
    ensures DecodedBytes(a + b, |a| + i) == DecodedBytes(b, i)
    decreases |b| - i
  {
    if i < |b| {
      StepSuffix(a, b, i);
      var (bytes, next) := DecodeStep(b, i);
      DecodeSuffix(a, b, next);
      assert DecodedBytes(a + b, |a| + i) == bytes + DecodedBytes(a + b, |a| + next);
    }
  }

  lemma DecodeFront(a: string, rest: string)
    requires a != "" && DecodeStep(a + rest, 0).1 == |a|
    ensures DecodedBytes(a + rest, 0) == DecodeStep(a + rest, 0).0 + DecodedBytes(rest, 0)
  {
    DecodeSuffix(a, rest, 0);
    assert DecodedBytes(a + rest, 0) == DecodeStep(a + rest, 0).0 + DecodedBytes(a + rest, |a| + 0);
  }

  predicate AllHex(digits: string) {
    forall i :: 0 <= i < |digits| ==> HexValue(digits[i]).Some?
  }

  // The bytes an even number of hexadecimal digits spells.
  function DigitBytes(digits: string): seq<Byte>
    requires |digits| % 2 == 0 && AllHex(digits)
  {
    if digits == "" then [] else [HexByte(digits[0], digits[1]).value] + DigitBytes(digits[2..])
  }

  lemma {:induction false} PercentsPair(digits: string)
    ensures Percents(digits).Some? <==> |digits| % 2 == 0
    decreases |digits|
  {
    if |digits| > 1 {
      PercentsPair(digits[2..]);
    }
  }

  lemma DecodeEscape(c1: char, c2: char, later: string)
    requires HexValue(c1).Some? && HexValue(c2).Some?
    ensures DecodedBytes(['%', c1, c2] + later, 0) == [HexByte(c1, c2).value] + DecodedBytes(later, 0)
  {
    var first := ['%', c1, c2];
    var q := first + later;
    assert q[0] == '%' && q[1] == c1 && q[2] == c2;
    assert DecodeStep(q, 0) == ([HexByte(c1, c2).value], 3);
    DecodeFront(first, later);
  }

  lemma {:induction false} DecodePercents(digits: string, rest: string)
    requires AllHex(digits)
    ensures Percents(digits).Some? <==> |digits| % 2 == 0
    ensures |digits| % 2 == 0 ==>
      DecodedBytes(Percents(digits).value + rest, 0) == DigitBytes(digits) + DecodedBytes(rest, 0)
    decreases |digits|
  {
    PercentsPair(digits);
    if digits == "" {
      assert Percents(digits).value + rest == rest;
    } else if |digits| % 2 == 0 {
      DecodePercents(digits[2..], rest);
      DecodeEscape(digits[0], digits[1], Percents(digits[2..]).value + rest);
      Associate(['%', digits[0], digits[1]], Percents(digits[2..]).value, rest);
    }
  }

  lemma {:induction false} HexDigitsHex(n: nat)
    ensures AllHex(HexDigits(n))
  {
    if n >= 16 {
      HexDigitsHex(n / 16);
    }
  }

  // The bytes that come back for an encoded character: its code point in big-endian order.
  function CodeBytes(c: char): seq<Byte>
    requires EncodedChar(c).Some?
  {
    if c == ' ' || IsUnreserved(c) then [LowByte(c)]
    else HexDigitsHex(c as int); DecodePercents(HexDigits(c as int), ""); DigitBytes(HexDigits(c as int))
  }

  lemma DecodeEncodedChar(c: char, rest: string)
    requires EncodedChar(c).Some?
    ensures DecodedBytes(EncodedChar(c).value + rest, 0) == CodeBytes(c) + DecodedBytes(rest, 0)
  {
    if c == ' ' || IsUnreserved(c) {
      DecodeFront(EncodedChar(c).value, rest);
    } else {
      HexDigitsHex(c as int);
      DecodePercents(HexDigits(c as int), rest);
    }
  }

  // The number of hexadecimal digits of a code point.
  lemma HexDigitCount(n: nat)
    requires n < 0x110000
    ensures |HexDigits(n)| == if n < 0x10 then 1 else if n < 0x100 then 2 else if n < 0x1000 then 3
      else if n < 0x10000 then 4 else if n < 0x100000 then 5 else 6
  {
    var a := HexDigits(n / 16 / 16 / 16 / 16);
    var b := HexDigits(n / 16 / 16);
  }

  // One byte below U+0080, and fewer bytes than UTF-8 takes from there on.
  lemma CodeBytesShort(c: char)
    ensures c as int < 0x10 ==> EncodedChar(c).None?
    ensures 0x10 <= c as int < 0x80 ==> EncodedChar(c).Some? && CodeBytes(c) == EncodeChar(c)
    ensures c as int >= 0x80 && EncodedChar(c).Some? ==> |CodeBytes(c)| < |EncodeChar(c)|
  {
    var n := c as int;
    var digits := HexDigits(n);
    HexDigitsHex(n);
    HexDigitCount(n);
    DecodePercents(digits, "");
    if 0x10 <= n < 0x80 {
      assert HexDigits(n / 16) == [HexDigit(n / 16)];
      assert digits == [HexDigit(n / 16), HexDigit(n % 16)];
      assert digits[2..] == "";
    } else if n >= 0x80 && |digits| % 2 == 0 {
      DigitBytesCount(digits);
    }
  }

  lemma {:induction false} DigitBytesCount(digits: string)
    requires |digits| % 2 == 0 && AllHex(digits)
    ensures |DigitBytes(digits)| == |digits| / 2
  {
    if digits != "" {
      DigitBytesCount(digits[2..]);
    }
  }

  predicate InRange(s: string) {
    forall i | 0 <= i < |s| :: 0x10 <= s[i] as int < 0x80
  }

  // The bytes that come back for an encoded string.
  lemma {:induction false} DecodeEncoded(s: string)
    ensures InRange(s) ==> EncodeQuery(s).Some?
    ensures EncodeQuery(s).Some? ==>
      var back := DecodedBytes(EncodeQuery(s).value, 0);
      if InRange(s) then back == Encode(s) else |back| < |Encode(s)|
  {
    if s != "" {
      assert InRange(s[1..]) ==> forall i :: 1 <= i < |s| ==> s[i] == s[1..][i - 1];
      assert InRange(s) <==> 0x10 <= s[0] as int < 0x80 && InRange(s[1..]);
      CodeBytesShort(s[0]);
      DecodeEncoded(s[1..]);
      if EncodeQuery(s).Some? {
        DecodeEncodedChar(s[0], EncodeQuery(s[1..]).value);
      }
    }
  }

  // Decoding undoes encoding exactly for the strings over U+0010..U+007F.
  lemma EncodingRoundTripExactly(s: string)
    ensures EncodeQuery(s).Some? && Decoded(EncodeQuery(s).value) == Some(s) <==> InRange(s)
  {
    DecodeEncoded(s);
    if EncodeQuery(s).Some? {
      FromUtf8Exactly(DecodedBytes(EncodeQuery(s).value, 0), s);
    }
  }

  // What an encoded string is made of: unreserved characters, `+`, and `%` with two digits.
  predicate IsEncoded(q: string) {
    q == "" ||
    if q[0] == '%' then |q| >= 3 && HexValue(q[1]).Some? && HexValue(q[2]).Some? && IsEncoded(q[3..])
    else (IsUnreserved(q[0]) || q[0] == '+') && IsEncoded(q[1..])
  }

  lemma EscapeEncoded(c1: char, c2: char, rest: string)
    requires HexValue(c1).Some? && HexValue(c2).Some? && IsEncoded(rest)
    ensures IsEncoded(['%', c1, c2] + rest)
  {
    assert (['%', c1, c2] + rest)[3..] == rest;
  }

  // The first escape, and what follows it.
  lemma PercentsFirst(digits: string, rest: string)
    requires digits != "" && Percents(digits).Some?
    ensures |digits| >= 2 && Percents(digits[2..]).Some?
    ensures Percents(digits).value + rest == ['%', digits[0], digits[1]] + (Percents(digits[2..]).value + rest)
  {
    Associate(['%', digits[0], digits[1]], Percents(digits[2..]).value, rest);
  }

  lemma {:induction false} PercentsEncoded(digits: string, rest: string)
    requires AllHex(digits) && Percents(digits).Some? && IsEncoded(rest)
    ensures IsEncoded(Percents(digits).value + rest)
  {
    if digits == "" {
      assert Percents(digits).value + rest == rest;
    } else {
      PercentsFirst(digits, rest);
      PercentsEncoded(digits[2..], rest);
      EscapeEncoded(digits[0], digits[1], Percents(digits[2..]).value + rest);
    }
  }

  lemma {:induction false} EncodeQueryAlphabet(s: string)
    ensures EncodeQuery(s).Some? ==> IsEncoded(EncodeQuery(s).value)
  {
    if s != "" && EncodeQuery(s).Some? {
      var c, rest := s[0], EncodeQuery(s[1..]).value;
      EncodeQueryAlphabet(s[1..]);
      if c == ' ' || IsUnreserved(c) {
        assert (EncodedChar(c).value + rest)[1..] == rest;
      } else {
        HexDigitsHex(c as int);
        PercentsEncoded(HexDigits(c as int), rest);
      }
    }
  }

  // ---- What each character becomes

  // The value of a hexadecimal digit in lower case.
  function LowerValue(c: char): Option<int> {
    if '0' <= c <= '9' then Some(c as int - '0' as int)
    else if 'a' <= c <= 'f' then Some(c as int - 'a' as int + 10)
    else None
  }

  predicate AllLower(digits: string) {
    forall i :: 0 <= i < |digits| ==> LowerValue(digits[i]).Some?
  }

  // The number that escapes spell, two digits at a time, after what was read so far.
  function ReadEscapes(e: string, so: nat): Option<nat> {
    if e == "" then Some(so)
    else if |e| >= 3 && e[0] == '%' && LowerValue(e[1]).Some? && LowerValue(e[2]).Some?
    then ReadEscapes(e[3..], (so * 16 + LowerValue(e[1]).value) * 16 + LowerValue(e[2]).value)
    else None
  }

  function ReadDigits(digits: string, so: nat): nat
    requires AllLower(digits)
  {
    if digits == "" then so else ReadDigits(digits[1..], so * 16 + LowerValue(digits[0]).value)
  }

  lemma {:induction false} ReadOneMore(digits: string, d: char, so: nat)
    requires AllLower(digits) && LowerValue(d).Some?
    ensures AllLower(digits + [d]) && ReadDigits(digits + [d], so) == ReadDigits(digits, so) * 16 + LowerValue(d).value
    decreases |digits|
  {
    if digits == "" {
      assert ([d])[1..] == "" && digits + [d] == [d];
    } else {
      ReadOneMore(digits[1..], d, so * 16 + LowerValue(digits[0]).value);
      assert (digits + [d])[1..] == digits[1..] + [d];
    }
  }

  lemma {:induction false} ReadHexDigits(n: nat)
    ensures AllLower(HexDigits(n)) && ReadDigits(HexDigits(n), 0) == n
    ensures n > 0 ==> HexDigits(n)[0] != '0'
  {
    if n >= 16 {
      ReadHexDigits(n / 16);
      ReadOneMore(HexDigits(n / 16), HexDigit(n % 16), 0);
    } else {
      assert [HexDigit(n)][1..] == "";
    }
  }

  lemma {:induction false} ReadPercents(digits: string, so: nat)
    requires AllLower(digits) && Percents(digits).Some?
    ensures ReadEscapes(Percents(digits).value, so) == Some(ReadDigits(digits, so))
    decreases |digits|
  {
    if digits != "" {
      var rest := Percents(digits[2..]).value;
      var e := ['%', digits[0], digits[1]] + rest;
      assert e[3..] == rest && e[0] == '%' && e[1] == digits[0] && e[2] == digits[1];
      ReadPercents(digits[2..], (so * 16 + LowerValue(digits[0]).value) * 16 + LowerValue(digits[1]).value);
      assert digits[1..][1..] == digits[2..];
    }
  }

  // What stands for a character: a space is a plus sign, letters, digits and the hyphen stand for themselves, and any
  // other character is its number in escapes, without a leading zero.
  predicate StandsFor(e: string, c: char) {
    if c == ' ' then e == "+"
    else if c == '-' || 'a' <= c <= 'z' || 'A' <= c <= 'Z' || '0' <= c <= '9' then e == [c]
    else |e| > 1 && e[1] != '0' && ReadEscapes(e, 0) == Some(c as int)
  }

  // Characters with an odd number of hexadecimal digits cannot be encoded.
  predicate HasEvenDigits(c: char) {
    var n := c as int;
    0x10 <= n && !(0x100 <= n < 0x1000) && !(0x10000 <= n < 0x100000)
  }

  /** A character is encoded exactly when its digits come in pairs, and then by what stands for it. */
  lemma EncodedCharExactly(c: char)
    ensures EncodedChar(c).Some? <==> HasEvenDigits(c)
    ensures EncodedChar(c).Some? ==> StandsFor(EncodedChar(c).value, c)
  {
    var digits := HexDigits(c as int);
    HexDigitCount(c as int);
    HexDigitsHex(c as int);
    ReadHexDigits(c as int);
    DecodePercents(digits, "");
    if !(c == ' ' || IsUnreserved(c)) && Percents(digits).Some? {
      ReadPercents(digits, 0);
      PercentsFirst(digits, "");
      assert Percents(digits).value + "" == Percents(digits).value;
      assert (['%', digits[0], digits[1]] + (Percents(digits[2..]).value + ""))[1] == digits[0];
    }
  }

  /** A string is encoded character by character. */
  lemma {:induction false} EncodedOneByOne(s: string, t: string)
    ensures EncodeQuery(s + t) ==
      if EncodeQuery(s).Some? && EncodeQuery(t).Some? then Some(EncodeQuery(s).value + EncodeQuery(t).value) else None
    ensures |s| == 1 ==> EncodeQuery(s) == EncodedChar(s[0])
  {
    if s == "" {
      assert s + t == t;
      assert EncodeQuery(t).Some? ==> "" + EncodeQuery(t).value == EncodeQuery(t).value;
    } else {
      EncodedOneByOne(s[1..], t);
      assert (s + t)[1..] == s[1..] + t;
      if EncodeQuery(s).Some? && EncodeQuery(t).Some? {
        Associate(EncodedChar(s[0]).value, EncodeQuery(s[1..]).value, EncodeQuery(t).value);
      }
      if |s| == 1 && EncodedChar(s[0]).Some? {
        assert s[1..] == "" && EncodedChar(s[0]).value + "" == EncodedChar(s[0]).value;
      }
    }
  }
}
