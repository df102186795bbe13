/** Hexadecimal digits: the pair decoding of Buffer.from(hex, "hex") on well-formed
    input, and the lowercase encoding of Buffer's toString("hex"). */
module Hex {
  import opened Bytes

  /** One character of the class [0-9a-fA-F]. */
  predicate IsHexDigit(c: char) {
    '0' <= c <= '9' || 'a' <= c <= 'f' || 'A' <= c <= 'F'
  }

  predicate AllHexDigits(s: string) {
    forall i | 0 <= i < |s| :: IsHexDigit(s[i])
  }

  /** A lowercase hex digit, as toString("hex") writes them. */
  predicate IsLowerHexDigit(c: char) {
    '0' <= c <= '9' || 'a' <= c <= 'f'
  }

  function DigitValue(c: char): (d: nat)
    requires IsHexDigit(c)
    ensures d < 16
  {
    if '0' <= c <= '9' then c as int - '0' as int
    else if 'a' <= c <= 'f' then c as int - 'a' as int + 10
    else c as int - 'A' as int + 10
  }

  function LowerDigit(d: nat): (c: char)
    requires d < 16
    ensures IsLowerHexDigit(c) && IsHexDigit(c) && DigitValue(c) == d
  {
    if d < 10 then ('0' as int + d) as char else ('a' as int + d - 10) as char
  }

  /** Consecutive digit pairs as bytes, the high nibble first. */
  function DecodePairs(s: string): (r: seq<byte>)
    requires |s| % 2 == 0 && AllHexDigits(s)
    ensures |r| == |s| / 2
  {
    if s == [] then []
    else
      assert IsHexDigit(s[0]) && IsHexDigit(s[1]);
      [(16 * DigitValue(s[0]) + DigitValue(s[1])) as byte] + DecodePairs(s[2..])
  }

  /** Byte i of the decoding is digit pair i. */
  lemma {:induction false} DecodePairsAt(s: string)
    requires |s| % 2 == 0 && AllHexDigits(s)
    ensures forall i | 0 <= i < |s| / 2 ::
      DecodePairs(s)[i] as int == 16 * DigitValue(s[2 * i]) + DigitValue(s[2 * i + 1])
  {
    if s != [] {
      DecodePairsAt(s[2..]);
      forall i | 1 <= i < |s| / 2
        ensures DecodePairs(s)[i] as int == 16 * DigitValue(s[2 * i]) + DigitValue(s[2 * i + 1])
      {
        assert DecodePairs(s)[i] == DecodePairs(s[2..])[i - 1];
        assert s[2..][2 * (i - 1)] == s[2 * i] && s[2..][2 * (i - 1) + 1] == s[2 * i + 1];
      }
    }
  }

  /** Two lowercase digits per byte, the high nibble first. */
  function EncodeLower(b: seq<byte>): (s: string)
    ensures |s| == 2 * |b|
    ensures forall i | 0 <= i < |b| ::
      s[2 * i] == LowerDigit(b[i] as int / 16) && s[2 * i + 1] == LowerDigit(b[i] as int % 16)
  {
    if b == [] then []
    else [LowerDigit(b[0] as int / 16), LowerDigit(b[0] as int % 16)] + EncodeLower(b[1..])
  }

  lemma EncodeLowerDigits(b: seq<byte>)
    ensures AllHexDigits(EncodeLower(b))
    ensures forall j | 0 <= j < |EncodeLower(b)| :: IsLowerHexDigit(EncodeLower(b)[j])
  {
    var s := EncodeLower(b);
    forall j | 0 <= j < |s| ensures IsLowerHexDigit(s[j]) && IsHexDigit(s[j]) {
      var i := j / 2;
      assert s[2 * i] == LowerDigit(b[i] as int / 16) && s[2 * i + 1] == LowerDigit(b[i] as int % 16);
      assert j == 2 * i || j == 2 * i + 1;
    }
  }

  /** Decoding the lowercase encoding recovers every byte. */
  lemma DecodeEncodeLower(b: seq<byte>)
    ensures AllHexDigits(EncodeLower(b))
    ensures DecodePairs(EncodeLower(b)) == b
  {
    EncodeLowerDigits(b);
    DecodePairsAt(EncodeLower(b));
    var r := DecodePairs(EncodeLower(b));
    forall i | 0 <= i < |b| ensures r[i] == b[i] {
      assert r[i] as int == 16 * (b[i] as int / 16) + b[i] as int % 16;
    }
  }
}
