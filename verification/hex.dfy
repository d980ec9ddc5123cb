/** Lower-case hexadecimal rendering of a byte sequence, as done by
    `Array.from(bytes).map((b) => b.toString(16).padStart(2, '0')).join('')`,
    together with its decoder, which serves as the reference the encoder is
    checked against. */
module HexEncoding {
  import opened Wrappers

  /** An octet, as held in a `Uint8Array`. */
  type byte = x: int | 0 <= x < 256

  /** The characters `Number.prototype.toString(16)` can produce for a
      non-negative integer: `0-9a-f`. */
  predicate IsHexChar(c: char) {
    '0' <= c <= '9' || 'a' <= c <= 'f'
  }

  /** A string made only of lower-case hexadecimal digits, read one
      character at a time. */
  predicate IsLowerHex(s: string) {
    |s| == 0 || (IsHexChar(s[0]) && IsLowerHex(s[1..]))
  }

  /** `IsLowerHex` says exactly that every character is in `0-9a-f`. */
  lemma {:induction false} IsLowerHexEveryChar(s: string)
    ensures IsLowerHex(s) <==> forall i :: 0 <= i < |s| ==> IsHexChar(s[i])
  {
    if |s| > 0 {
      IsLowerHexEveryChar(s[1..]);
      assert forall i :: 1 <= i < |s| ==> s[1..][i - 1] == s[i];
    }
  }

  /** Concatenating two lower-case hexadecimal strings gives another. */
  lemma {:induction false} IsLowerHexAppend(a: string, b: string)
    requires IsLowerHex(a) && IsLowerHex(b)
    ensures IsLowerHex(a + b)
  {
    if |a| > 0 {
      IsLowerHexAppend(a[1..], b);
      assert (a + b)[0] == a[0];
      assert (a + b)[1..] == a[1..] + b;
    } else {
      assert a + b == b;
    }
  }

  /** The value of a hexadecimal digit; None for any other character. */
  function DigitValue(c: char): (r: Option<nat>)
    ensures r.Some? <==> IsHexChar(c)
    ensures r.Some? ==> r.value < 16
  {
    if '0' <= c <= '9' then Some(c as int - '0' as int)
    else if 'a' <= c <= 'f' then Some(c as int - 'a' as int + 10)
    else None
  }

  /** The lower-case digit for a value below sixteen. */
  function Digit(d: nat): (c: char)
    requires d < 16
    ensures IsHexChar(c)
    ensures DigitValue(c) == Some(d)
  {
    if d < 10 then ('0' as int + d) as char else ('a' as int + (d - 10)) as char
  }

  /** Every hexadecimal digit is the rendering of its own value. */
  lemma DigitRoundTrip(c: char)
    requires IsHexChar(c)
    ensures Digit(DigitValue(c).value) == c
  {
  }

  /** Reads a string of hexadecimal digits as a number, most significant
      first; None when some character is not a digit. */
  function DigitsValue(s: string): Option<nat>
  {
    if |s| == 0 then Some(0)
    else
      match (DigitsValue(s[..|s| - 1]), DigitValue(s[|s| - 1]))
      case (Some(high), Some(low)) => Some(high * 16 + low)
      case _ => None
  }

  /** `n.toString(16)` for a non-negative integer: its base-16 numeral,
      without leading zeros, and "0" for zero. */
  function ToRadix16(n: nat): (s: string)
    ensures 1 <= |s|
    ensures IsLowerHex(s)
    ensures DigitsValue(s) == Some(n)
    ensures n > 0 ==> s[0] != '0'
    ensures n < 16 <==> |s| == 1
    ensures n < 256 ==> |s| <= 2
    decreases n
  {
    if n < 16 then [Digit(n)]
    else
      var high, low := ToRadix16(n / 16), [Digit(n % 16)];
      IsLowerHexAppend(high, low);
      assert (high + low)[..|high + low| - 1] == high;
      high + low
  }

  /** `s.padStart(len, [pad])`: prefixes copies of `pad` until the string is
      `len` characters long; a string already that long is returned as is. */
  function PadStart(s: string, len: nat, pad: char): (r: string)
    ensures |r| == if |s| < len then len else |s|
    ensures r[|r| - |s|..] == s
    ensures forall i :: 0 <= i < |r| - |s| ==> r[i] == pad
  {
    if |s| < len then seq(len - |s|, _ => pad) + s else s
  }

  /** One byte as `b.toString(16).padStart(2, '0')`: always exactly two
      digits, the high nibble first. */
  function ByteToHex(b: byte): (s: string)
    ensures s == [Digit(b / 16), Digit(b % 16)]
  {
    var digits := ToRadix16(b);
    var s := PadStart(digits, 2, '0');
    if b < 16 then
      assert digits == [Digit(b)];
      assert s == [s[0]] + s[1..] && s[1..] == digits;
      s
    else
      assert digits == ToRadix16(b / 16) + [Digit(b % 16)];
      assert ToRadix16(b / 16) == [Digit(b / 16)];
      s
  }

  /** The whole `map(...).join('')` pipeline: each byte becomes two digits,
      concatenated in byte order. */
  function Encode(bytes: seq<byte>): (s: string)
    ensures |s| == 2 * |bytes|
    ensures IsLowerHex(s)
  {
    if |bytes| == 0 then ""
    else ByteToHex(bytes[0]) + Encode(bytes[1..])
  }

  /** Byte `i` is rendered at positions `2i` and `2i+1`, so the encoding keeps
      byte order. */
  lemma {:induction false} EncodeAt(bytes: seq<byte>, i: nat)
    requires i < |bytes|
    ensures Encode(bytes)[2 * i] == Digit(bytes[i] / 16)
    ensures Encode(bytes)[2 * i + 1] == Digit(bytes[i] % 16)
  {
    var head, tail := ByteToHex(bytes[0]), Encode(bytes[1..]);
    assert Encode(bytes) == head + tail && |head| == 2;
    if i == 0 {
      assert Encode(bytes)[1] == head[1];
    } else {
      EncodeAt(bytes[1..], i - 1);
      assert bytes[1..][i - 1] == bytes[i];
      assert Encode(bytes)[2 * i] == tail[2 * (i - 1)] by {
        assert 2 * i == 2 * (i - 1) + |head|;
      }
      assert Encode(bytes)[2 * i + 1] == tail[2 * (i - 1) + 1] by {
        assert 2 * i + 1 == 2 * (i - 1) + 1 + |head|;
      }
    }
  }

  /** The byte written by two hexadecimal digits, high nibble first. */
  function PairValue(high: char, low: char): (r: Option<byte>)
    ensures r.Some? <==> IsHexChar(high) && IsHexChar(low)
    ensures r.Some? ==> r.value / 16 == DigitValue(high).value && r.value % 16 == DigitValue(low).value
  {
    if IsHexChar(high) && IsHexChar(low) then
      Some(DigitValue(high).value * 16 + DigitValue(low).value)
    else None
  }

  /** Reads a hexadecimal string two digits per byte; None when the length is
      odd or some character is not a lower-case hexadecimal digit. */
  function Decode(s: string): (r: Option<seq<byte>>)
    ensures r.Some? <==> |s| % 2 == 0 && IsLowerHex(s)
    ensures r.Some? ==> 2 * |r.value| == |s|
  {
    if |s| == 0 then Some([])
    else if |s| == 1 then None
    else
      match PairValue(s[0], s[1])
      case None => None
      case Some(b) =>
        match Decode(s[2..])
        case None => None
        case Some(rest) => Some([b] + rest)
  }

  /** Two digits in front of a decodable string decode to one more byte. */
  lemma DecodePair(b: byte, t: string)
    requires Decode(t).Some?
    ensures Decode([Digit(b / 16), Digit(b % 16)] + t) == Some([b] + Decode(t).value)
  {
    var s := [Digit(b / 16), Digit(b % 16)] + t;
    assert s[0] == Digit(b / 16) && s[1] == Digit(b % 16) && s[2..] == t;
    assert PairValue(s[0], s[1]) == Some(b);
  }

  /** Decoding undoes encoding. */
  lemma {:induction false} DecodeEncode(bytes: seq<byte>)
    ensures Decode(Encode(bytes)) == Some(bytes)
  {
    if |bytes| > 0 {
      var b, rest := bytes[0], bytes[1..];
      DecodeEncode(rest);
      DecodePair(b, Encode(rest));
      assert Encode(bytes) == [Digit(b / 16), Digit(b % 16)] + Encode(rest);
      SplitFirst(bytes);
    }
  }

  /** A non-empty sequence is its first element followed by the rest. */
  lemma SplitFirst(bytes: seq<byte>)
    requires |bytes| > 0
    ensures [bytes[0]] + bytes[1..] == bytes
  {
  }

  /** A string of two or more characters is its first two followed by the rest. */
  lemma SplitFirstTwo(s: string)
    requires |s| >= 2
    ensures s == [s[0], s[1]] + s[2..]
  {
  }

  /** Encoding undoes decoding: every well-formed hexadecimal string is the
      encoding of exactly the bytes it decodes to. */
  lemma {:induction false} EncodeDecode(s: string)
    requires Decode(s).Some?
    ensures Encode(Decode(s).value) == s
  {
    if |s| > 0 {
      var b := PairValue(s[0], s[1]).value;
      var rest := Decode(s[2..]).value;
      EncodeDecode(s[2..]);
      DigitRoundTrip(s[0]);
      DigitRoundTrip(s[1]);
      assert Decode(s).value == [b] + rest;
      assert ([b] + rest)[1..] == rest;
      assert ByteToHex(b) == [s[0], s[1]];
      SplitFirstTwo(s);
    }
  }

  /** Distinct byte sequences render as distinct strings. */
  lemma EncodeInjective(a: seq<byte>, b: seq<byte>)
    ensures Encode(a) == Encode(b) <==> a == b
  {
    DecodeEncode(a);
    DecodeEncode(b);
  }
}
