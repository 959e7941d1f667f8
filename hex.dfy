/** The hex "encryption" strategy (HEXEncryption, the only implementation of
    the IEncryption interface): Base 16 as in section 8 of RFC 4648, with
    upper-case output and case-insensitive input. */
module HexE {
  import opened Text

  const HexDigits: Str := "0123456789ABCDEF"

  predicate IsDecimalDigit(c: char) { '0' <= c <= '9' }

  /** A character the decoder gives a 4-bit value: a digit, or A-F in either case. */
  predicate IsHexDigit(c: char)
  {
    IsDecimalDigit(c) || 'A' <= c <= 'F' || 'a' <= c <= 'f'
  }

  /** A character of the encoder's output alphabet 0-9A-F. */
  predicate IsUpperHexDigit(c: char) { IsDecimalDigit(c) || 'A' <= c <= 'F' }

  /** What the decoder accepts: an even number of hex digits. */
  predicate IsHexText(s: Str)
  {
    |s| % 2 == 0 && forall i :: 0 <= i < |s| ==> IsHexDigit(s[i])
  }

  /** std::toupper in the "C" locale: lower-case letters become upper case,
      every other character stays as it is. */
  function ToUpper(c: Char8): (r: Char8)
    ensures !('a' <= r <= 'z')
    ensures 'a' <= c <= 'z' ==> r as int - 'A' as int == c as int - 'a' as int
    ensures r != c <==> 'a' <= c <= 'z'
    ensures 'A' <= r <= 'Z' <==> 'A' <= c <= 'Z' || 'a' <= c <= 'z'
  {
    if 'a' <= c <= 'z' then (c as int - 32) as char else c
  }

  function UpperCase(s: Str): (r: Str)
    ensures |r| == |s|
    ensures forall i :: 0 <= i < |s| ==> r[i] == ToUpper(s[i])
  {
    if s == [] then [] else [ToUpper(s[0])] + UpperCase(s[1..])
  }

  /** The two output characters of one byte. `c >> 4` and `c & 0x0F` of an
      unsigned char are its quotient and remainder by 16. */
  function EncodeByte(c: Char8): Str
  {
    [HexDigits[c as int / 16], HexDigits[c as int % 16]]
  }

  /** The value of `encrypt(s)`. */
  function HexEncode(s: Str): (r: Str)
    ensures |r| == 2 * |s|
  {
    if s == [] then [] else EncodeByte(s[0]) + HexEncode(s[1..])
  }

  /** The 4-bit value `decrypt` computes for one character: the digit's value
      for 0-9, otherwise toupper(c) - 'A' + 10. */
  function HexValue(c: Char8): (v: nat)
    requires IsHexDigit(c)
    ensures v < 16
    ensures HexDigits[v] == ToUpper(c)
  {
    if IsDecimalDigit(c) then c as int - '0' as int else ToUpper(c) as int - 'A' as int + 10
  }

  /** One decoded byte, `(highValue << 4) | lowValue`; with lowValue below 16
      the shift-and-or is a multiply-and-add. */
  function DecodePair(high: Char8, low: Char8): Char8
    requires IsHexDigit(high) && IsHexDigit(low)
  {
    (HexValue(high) * 16 + HexValue(low)) as char
  }

  /** The value of `decrypt(s)` on the inputs it is defined for. */
  function HexDecode(s: Str): (r: Str)
    requires IsHexText(s)
    ensures |r| == |s| / 2
  {
    if s == [] then [] else [DecodePair(s[0], s[1])] + HexDecode(s[2..])
  }

  lemma HexDigitsAreUpperHex(n: nat)
    requires n < 16
    ensures IsUpperHexDigit(HexDigits[n])
  {
  }

  /** Encoded text contains only upper-case hex digits, so neither the record
      delimiter '|' nor a line break. */
  lemma {:induction false} HexEncodeAlphabet(s: Str)
    ensures forall i :: 0 <= i < |HexEncode(s)| ==> IsUpperHexDigit(HexEncode(s)[i])
    ensures IsHexText(HexEncode(s))
    ensures '|' !in HexEncode(s) && '\n' !in HexEncode(s)
    ensures UpperCase(HexEncode(s)) == HexEncode(s)
  {
    if s != [] {
      HexEncodeAlphabet(s[1..]);
      var r := HexEncode(s);
      var c := s[0];
      HexDigitsAreUpperHex(c as int / 16);
      HexDigitsAreUpperHex(c as int % 16);
      assert r == EncodeByte(c) + HexEncode(s[1..]);
      forall i | 0 <= i < |r| ensures IsUpperHexDigit(r[i]) {
        if i >= 2 { assert r[i] == HexEncode(s[1..])[i - 2]; }
      }
    }
  }

  /** Positions 2i and 2i+1 hold the high and the low nibble of byte i. */
  lemma {:induction false} HexEncodeAt(s: Str, i: nat)
    requires i < |s|
    ensures HexEncode(s)[2 * i] == HexDigits[s[i] as int / 16]
    ensures HexEncode(s)[2 * i + 1] == HexDigits[s[i] as int % 16]
  {
    if i > 0 {
      HexEncodeAt(s[1..], i - 1);
    }
  }

  /** Encoding distributes over concatenation. */
  lemma {:induction false} HexEncodeConcat(a: Str, b: Str)
    ensures HexEncode(a + b) == HexEncode(a) + HexEncode(b)
  {
    if a == [] {
      assert a + b == b;
    } else {
      assert (a + b)[1..] == a[1..] + b;
      HexEncodeConcat(a[1..], b);
    }
  }

  lemma HexTextTail(s: Str)
    requires IsHexText(s) && s != []
    ensures IsHexText(s[2..])
  {
    var t := s[2..];
    forall i | 0 <= i < |t| ensures IsHexDigit(t[i]) { assert t[i] == s[i + 2]; }
  }

  /** Output byte j is decoded from input positions 2j and 2j+1. */
  lemma {:induction false} HexDecodeAt(s: Str, j: nat)
    requires IsHexText(s)
    requires j < |s| / 2
    ensures HexDecode(s)[j] == DecodePair(s[2 * j], s[2 * j + 1])
  {
    if j > 0 {
      var t := s[2..];
      HexTextTail(s);
      HexDecodeAt(t, j - 1);
      assert HexDecode(s) == [DecodePair(s[0], s[1])] + HexDecode(t);
      assert 2 * (j - 1) + 2 == 2 * j;
      assert t[2 * (j - 1)] == s[2 * j] && t[2 * (j - 1) + 1] == s[2 * j + 1];
    }
  }

  /** Decoding a digit that encoding produced gives back the nibble. */
  lemma HexValueOfDigit(n: nat)
    requires n < 16
    ensures IsHexDigit(HexDigits[n]) && HexValue(HexDigits[n]) == n
  {
  }

  /** The two digits of one byte are upper-case hex digits, and decoding
      them gives the byte back. */
  lemma EncodeByteDecodes(c: Char8)
    ensures |EncodeByte(c)| == 2
    ensures IsUpperHexDigit(EncodeByte(c)[0]) && IsUpperHexDigit(EncodeByte(c)[1])
    ensures DecodePair(EncodeByte(c)[0], EncodeByte(c)[1]) == c
  {
    HexDigitsAreUpperHex(c as int / 16);
    HexDigitsAreUpperHex(c as int % 16);
    HexValueOfDigit(c as int / 16);
    HexValueOfDigit(c as int % 16);
  }

  /** A decoded byte's high and low nibble are the values of the two digits,
      so encoding it gives the two digits in upper case. */
  lemma DecodePairEncodes(high: Char8, low: Char8)
    requires IsHexDigit(high) && IsHexDigit(low)
    ensures DecodePair(high, low) as int / 16 == HexValue(high)
    ensures DecodePair(high, low) as int % 16 == HexValue(low)
    ensures EncodeByte(DecodePair(high, low)) == [ToUpper(high), ToUpper(low)]
  {
  }

  /** Round trip: decrypt(encrypt(s)) == s for every byte string, the empty one included. */
  lemma {:induction false} DecodeEncode(s: Str)
    ensures IsHexText(HexEncode(s))
    ensures HexDecode(HexEncode(s)) == s
  {
    HexEncodeAlphabet(s);
    if s != [] {
      EncodeByteDecodes(s[0]);
      var e := HexEncode(s);
      assert e[2..] == HexEncode(s[1..]);
      DecodeEncode(s[1..]);
    }
  }

  /** The other direction: encoding what was decoded gives the input back up
      to case, so decoding loses nothing but the case of a-f. */
  lemma {:induction false} EncodeDecode(t: Str)
    requires IsHexText(t)
    ensures HexEncode(HexDecode(t)) == UpperCase(t)
  {
    if t != [] {
      DecodePairEncodes(t[0], t[1]);
      assert UpperCase(t) == [ToUpper(t[0]), ToUpper(t[1])] + UpperCase(t[2..]);
      EncodeDecode(t[2..]);
    }
  }

  /** Case-insensitivity: a-f decode exactly like A-F. */
  lemma {:induction false} DecodeCaseInsensitive(t: Str)
    requires IsHexText(t)
    ensures IsHexText(UpperCase(t))
    ensures HexDecode(UpperCase(t)) == HexDecode(t)
  {
    EncodeDecode(t);
    DecodeEncode(HexDecode(t));
  }

  /** The C++ class. It has no state; both operations are pure. */
  class HexEncryption {

    constructor ()
    {
    }

    /** encrypt: fills a buffer of twice the input length, two digits per byte. */
    method Encrypt(input: Str) returns (r: Str)
      ensures r == HexEncode(input)
    {
      var buffer := new Char8[|input| * 2](_ => '0');
      var index := 0;
      for i := 0 to |input|
        invariant index == 2 * i
        invariant buffer[..index] == HexEncode(input[..i])
      {
        var c := input[i];
        ghost var done := buffer[..index];
        buffer[index] := HexDigits[c as int / 16];
        index := index + 1;
        buffer[index] := HexDigits[c as int % 16];
        index := index + 1;
        assert buffer[..index] == done + EncodeByte(c);
        assert input[..i + 1] == input[..i] + [c];
        HexEncodeConcat(input[..i], [c]);
      }
      assert input[..|input|] == input;
      r := buffer[..];
    }

    /** decrypt: reads two characters per output byte, stepping by 2. */
    method Decrypt(input: Str) returns (r: Str)
      requires IsHexText(input)
      ensures r == HexDecode(input)
    {
      var buffer := new Char8[|input| / 2](_ => '0');
      var index := 0;
      var i := 0;
      while i < |input|
        invariant 0 <= i <= |input| && i % 2 == 0
        invariant index == i / 2
        invariant forall j :: 0 <= j < index ==> buffer[j] == DecodePair(input[2 * j], input[2 * j + 1])
      {
        var high := input[i];
        var low := input[i + 1];
        var highValue := HexValue(high);
        var lowValue := HexValue(low);
        buffer[index] := (highValue * 16 + lowValue) as char;
        index := index + 1;
        i := i + 2;
      }
      forall j | 0 <= j < buffer.Length ensures buffer[j] == HexDecode(input)[j] {
        HexDecodeAt(input, j);
      }
      r := buffer[..];
    }
  }
}
