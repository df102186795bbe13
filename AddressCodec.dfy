/** EVM addresses as text and as raw bytes: addressToBytes20 and addressToBytes32
    of solanaBridge.ts. */
module AddressCodec {
  import opened Wrappers
  import opened Bytes
  import opened Hex
  import opened BridgeErrors

  /** The text after one leading lowercase "0x", as startsWith('0x') then slice(2). */
  function StripHexPrefix(address: string): string {
    if |address| >= 2 && address[..2] == "0x" then address[2..] else address
  }

  /** The pattern ^(0x)?[0-9a-fA-F]{40}$ stated on its own: either 40 hex digits,
      or "0x" followed by 40 hex digits. */
  predicate IsBaseAddress(address: string) {
    (|address| == 40 && AllHexDigits(address)) ||
    (|address| == 42 && address[..2] == "0x" && AllHexDigits(address[2..]))
  }

  /** Strict hex parse of an EVM address into its 20 bytes. */
  function AddressToBytes20(address: string): (r: Result<seq<byte>, BridgeError>)
    ensures r.Success? ==> |r.value| == 20
    ensures r.Failure? ==> r.error == InvalidEthereumAddress(address)
  {
    var hex := StripHexPrefix(address);
    if |hex| == 40 && AllHexDigits(hex) then Success(DecodePairs(hex))
    else Failure(InvalidEthereumAddress(address))
  }

  /** addressToBytes20 accepts exactly the strings the pattern ^(0x)?[0-9a-fA-F]{40}$
      accepts, and byte i is hex pair i of the 40 digits. */
  lemma AddressToBytes20Accepts(address: string)
    ensures AddressToBytes20(address).Success? <==> IsBaseAddress(address)
    ensures AddressToBytes20(address).Success? ==>
      var digits := address[|address| - 40..];
      forall i | 0 <= i < 20 ::
        AddressToBytes20(address).value[i] as int == 16 * DigitValue(digits[2 * i]) + DigitValue(digits[2 * i + 1])
  {
    var hex := StripHexPrefix(address);
    if |address| == 40 && AllHexDigits(address) && |address| >= 2 {
      // a hex digit is never 'x', so no 40-digit string starts with "0x"
      assert IsHexDigit(address[1]);
      assert address[..2] != "0x" by { assert address[..2][1] == address[1]; }
    }
    if AddressToBytes20(address).Success? {
      assert address[|address| - 40..] == hex;
      DecodePairsAt(hex);
    }
  }

  /** addressToBytes20 written into a zeroed 32-byte array at offset 12. */
  method AddressToBytes32(address: string) returns (r: Result<seq<byte>, BridgeError>)
    ensures r.Success? <==> IsBaseAddress(address)
    ensures r.Failure? ==> r == Failure(InvalidEthereumAddress(address))
    ensures r.Success? ==>
      AddressToBytes20(address).Success? && |r.value| == 32 &&
      (forall i | 0 <= i < 12 :: r.value[i] == 0) &&
      r.value[12..] == AddressToBytes20(address).value
  {
    AddressToBytes20Accepts(address);
    var bytes20 :- AddressToBytes20(address);
    var bytes32 := new byte[32](_ => 0);
    forall i | 0 <= i < 20 {
      bytes32[12 + i] := bytes20[i];
    }
    r := Success(bytes32[..]);
  }
}
