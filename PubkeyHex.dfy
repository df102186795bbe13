/** pubkeyToBytes32 of utils/pubkeyToBytes32.ts: a Solana key as "0x" followed by
    the lowercase hex of its 32 bytes, the form an EVM bytes32 argument takes. */
module PubkeyHex {
  import opened Bytes
  import opened Hex
  import opened Keys

  function PubkeyToBytes32(key: PublicKey): string {
    "0x" + EncodeLower(key)
  }

  /** "0x", then for every key byte its high and its low nibble as a lowercase
      digit: 66 characters, no padding added or removed. */
  lemma PubkeyToBytes32Layout(key: PublicKey)
    ensures var r := PubkeyToBytes32(key);
      |r| == 66 && r[..2] == "0x" &&
      (forall i | 0 <= i < 32 ::
        r[2 + 2 * i] == LowerDigit(key[i] as int / 16) && r[3 + 2 * i] == LowerDigit(key[i] as int % 16)) &&
      (forall j | 2 <= j < 66 :: IsLowerHexDigit(r[j]))
  {
    var r := PubkeyToBytes32(key);
    var h := EncodeLower(key);
    assert r[2..] == h;
    EncodeLowerDigits(key);
    forall j | 2 <= j < 66 ensures IsLowerHexDigit(r[j]) {
      assert r[j] == h[j - 2];
    }
    forall i | 0 <= i < 32
      ensures r[2 + 2 * i] == LowerDigit(key[i] as int / 16) && r[3 + 2 * i] == LowerDigit(key[i] as int % 16)
    {
      assert r[2 + 2 * i] == h[2 * i] && r[3 + 2 * i] == h[2 * i + 1];
    }
  }

  /** Dropping "0x" and decoding the hex pairs gives back the 32 key bytes. */
  lemma PubkeyToBytes32RoundTrip(key: PublicKey)
    ensures var r := PubkeyToBytes32(key);
      |r[2..]| == 64 && AllHexDigits(r[2..]) && DecodePairs(r[2..]) == key
  {
    var r := PubkeyToBytes32(key);
    assert r[2..] == EncodeLower(key);
    DecodeEncodeLower(key);
  }
}
