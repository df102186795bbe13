# Solana-side bridge instruction encoder, in Dafny

This project models the part of the tip-jar bridge that sends SOL or SPL tokens
from Solana to Base and proves facts about it. It covers:

- the EVM address codecs (`addressToBytes20` and `addressToBytes32`);
- the seed lists that `findBridgePda`, `findSolVaultPda`, `findTokenVaultPda`
  and `deriveOutgoingMessagePda` hand to `PublicKey.findProgramAddressSync`;
- the two instruction builders, `createBridgeSolInstruction` and
  `createBridgeSplInstruction`: their input checks, their data bytes and their
  ordered account metas;
- `pubkeyToBytes32`, which writes a Solana key as `0x` plus lowercase hex.

Files, one module each:

- `Wrappers.dfy`: `Option` and `Result`.
- `Bytes.dfy`: the `byte` type, the little-endian encoding `LittleEndian(v, n)`,
  the decoding `FromLittleEndian`, and their round trips.
- `Hex.dfy`: hex digits, the pair decoding that `Buffer.from(hex, 'hex')` does on
  well-formed input, and the lowercase encoding of `toString('hex')`.
- `Keys.dfy`: a `PublicKey` is its 32 raw bytes. The fixed keys are byte constants.
  They are the base58 texts of `solanaBridge.ts` (program id, gas fee receivers)
  and of the Solana libraries (system program, token program), decoded to bytes.
- `BridgeErrors.dfy`: one error constructor per `throw` in the source.
  `writeBigUInt64LE` and `writeUInt32LE` each throw a RangeError, and each also
  gets a constructor.
- `AddressCodec.dfy`: `addressToBytes20`, and also the pattern
  `^(0x)?[0-9a-fA-F]{40}$` stated on its own. `addressToBytes32` is a method that
  fills a zeroed 32-byte array, as the source does.
- `ProgramAddress.dfy`: the seed lists, and the PDA helpers over a derivation
  function.
- `BridgeInstruction.dfy`: the call encoding and both builders. The loop that
  fills the 16-byte call value is a method, `EncodeCallValue`, proved equal to
  `LittleEndian(value, 16)`. The builder functions use that function.
- `PubkeyHex.dfy`: `pubkeyToBytes32`.

A builder that refuses its input returns `Failure(error)`. A failure carries no
instruction and no bytes, so nothing partial is ever produced.

The call value is a BigInt and may be negative. The source computes
`val & 0xff` and then `val >>= 8`. On any integer these equal Dafny's Euclidean
`val % 256` and `val / 256`. So the 16 bytes are the low 128 bits of the value,
in two's complement for a negative one, and they decode to `value % 2^128`.

Facts of the code the model follows:

- The native payload's amount is at bytes 60..67, after the 8-byte
  discriminator, the 32-byte salt and the 20-byte `to`.
- The SPL builder does not check the salt length. Its data is 57 + |salt| bytes,
  89 for a 32-byte salt, with the amount at bytes 80..87.
- The SPL builder ignores `call`. Its call encoding is always the one byte `0`.
- The only address check of the SPL builder is `addressToBytes20`. It throws
  "Invalid Ethereum address", not the native builder's "Invalid Base address".
- An amount of 2^64 or more is refused by `writeBigUInt64LE` only after every
  other check. That includes the checks of the call's target and data length.

## Model

| member | source | states |
|---|---|---|
| `AddressCodec.AddressToBytes20` | src/lib/solanaBridge.ts:24-30 | a success is 20 bytes; a failure is "Invalid Ethereum address" naming the input |
| `AddressCodec.AddressToBytes20Accepts` | src/lib/solanaBridge.ts:24-30 | succeeds iff the input, after one optional leading `0x`, is exactly 40 hex digits in either case; byte i is then hex pair i |
| `AddressCodec.AddressToBytes32` | src/lib/solanaBridge.ts:32-37 | fails exactly when addressToBytes20 fails; otherwise 32 bytes, the first 12 zero, the last 20 the 20-byte address |
| `Hex.DecodePairsAt` | src/lib/solanaBridge.ts:29 | on even-length hex text, byte i of the decoding is 16·digit(2i) + digit(2i+1) |
| `ProgramAddress.PdaSeeds` | src/lib/solanaBridge.ts:43-82 | the derivation receives exactly the seeds ["bridge"], ["sol_vault"], ["token_vault", mint, remoteToken] and ["outgoing_message", bridge PDA, salt] as ASCII bytes; an omitted program id means the bridge program; the outgoing-message helper keeps only the address |
| `ProgramAddress.SeedListsDistinct` | src/lib/solanaBridge.ts:48-82 | the four seed lists are pairwise different, whatever the mint, remote token, bridge PDA and salt |
| `ProgramAddress.OutgoingMessagePdaBySalt` | src/lib/solanaBridge.ts:43-57 | the outgoing-message address is the same for a re-used salt, for every derivation function; two different salts always give two different seed lists |
| `BridgeInstruction.WriteBigUInt64LE` | src/lib/solanaBridge.ts:137-141 | succeeds iff 0 ≤ amount < 2^64, giving 8 bytes that decode little-endian to the amount; otherwise a range error |
| `BridgeInstruction.WriteUInt32LE` | src/lib/solanaBridge.ts:118-119 | succeeds iff the length is below 2^32, giving 4 bytes that decode little-endian to it; otherwise a range error |
| `BridgeInstruction.EncodeCallValue` | src/lib/solanaBridge.ts:111-116 | the loop fills 16 bytes equal to the little-endian encoding of the value, which decode to value mod 2^128 |
| `BridgeInstruction.CallValueDecodes` | src/lib/solanaBridge.ts:111-116 | only value mod 2^128 reaches the 16 call value bytes, and they decode little-endian to value mod 2^128, for negative values too |
| `BridgeInstruction.EncodeCallFailures` | src/lib/solanaBridge.ts:106-130 | no call encodes as [0]; an attached call fails iff its target is malformed (checked first) or its data length does not fit a u32 |
| `BridgeInstruction.EncodeCallFields` | src/lib/solanaBridge.ts:106-130 | an encoded call is 42 + \|data\| bytes: 1, 0, the 20 target bytes, 16 bytes decoding to value mod 2^128, 4 bytes decoding to \|data\|, then the data |
| `BridgeInstruction.CreateBridgeSolFailures` | src/lib/solanaBridge.ts:98-143 | fails iff amount ≤ 0, salt length ≠ 32, `to` does not match the pattern, the call's target is malformed or its data too long, or amount ≥ 2^64; the first check to fail in source order names the error |
| `BridgeInstruction.CreateBridgeSolPayload` | src/lib/solanaBridge.ts:132-143 | data = discriminator [190,190,32,158,75,153,32,86] at 0..7, salt at 8..39, `to` bytes at 40..59, amount as u64 LE at 60..67 decoding back to the amount, then the call encoding; program id is the bridge program; keys are the native account list |
| `BridgeInstruction.CreateBridgeSolWithoutCall` | src/lib/solanaBridge.ts:130-143 | without a call the data is 69 bytes, ends in 0, and bytes 60..67 decode to the amount |
| `BridgeInstruction.BridgeSolAccounts` | src/lib/solanaBridge.ts:145-155 | 7 metas: payer, from, gas fee receiver (devnet receiver when none is given), sol vault, bridge, outgoing message, system program; only the payer signs; all but the system program are writable |
| `BridgeInstruction.CreateBridgeSplFailures` | src/lib/solanaBridge.ts:179-196 | fails iff amount ≤ 0, `to` or `remoteToken` is malformed, or amount ≥ 2^64, and in that order of precedence; the salt is never checked |
| `BridgeInstruction.CreateBridgeSplPayload` | src/lib/solanaBridge.ts:183-196 | data = discriminator [87,109,172,103,8,187,223,126], salt, `to` bytes, remote token bytes, amount as u64 LE, then 0: 57 + \|salt\| bytes; program id is the bridge program; keys are the SPL account list |
| `BridgeInstruction.CreateBridgeSplWithSalt32` | src/lib/solanaBridge.ts:185-196 | with a 32-byte salt the data is 89 bytes, bytes 80..87 decode to the amount and byte 88 is 0 |
| `BridgeInstruction.CreateBridgeSplIgnoresCall` | src/lib/solanaBridge.ts:176-183 | the SPL instruction is the same whether or not a call is supplied |
| `BridgeInstruction.BridgeSplAccounts` | src/lib/solanaBridge.ts:198-211 | 10 metas: payer, from, gas fee receiver (devnet default), mint, source token account, bridge, token vault, outgoing message, token program, system program; `from` signs iff it equals the payer, otherwise only the payer signs; all but the two programs are writable |
| `BridgeInstruction.BridgeSolExample` | src/lib/solanaBridge.ts:132-143 | 1_500_000_000 lamports, zero salt, no call: 69 bytes, bytes 60..67 = [0,47,104,89,0,0,0,0], last byte 0 |
| `BridgeInstruction.BridgeSplExample` | src/lib/solanaBridge.ts:185-196 | 10_000_000 units, 32-byte salt: 89 bytes, bytes 80..87 = [128,150,152,0,0,0,0,0] |
| `PubkeyHex.PubkeyToBytes32Layout` | src/lib/utils/pubkeyToBytes32.ts:3-6 | the output is 66 characters: "0x", then for each key byte i, characters 2+2i and 3+2i are its high and low nibble as lowercase hex digits |
| `PubkeyHex.PubkeyToBytes32RoundTrip` | src/lib/utils/pubkeyToBytes32.ts:5 | dropping "0x" and decoding the hex pairs gives back the 32 key bytes |
| `Hex.DecodeEncodeLower` | src/lib/utils/pubkeyToBytes32.ts:5 | for any bytes, decoding their lowercase hex gives them back |

## Left out

- `bridgeSolToBase` and `bridgeSplToBase` (solanaBridge.ts:228-324) are left out. They fetch a blockhash, have a wallet sign and send, wait for confirmation, and convert a floating-point amount with `Math.floor`.
- `createSaltBundle` (solanaBridge.ts:39-41) is left out because it draws random bytes. The salt is an arbitrary input of any length.
- The off-curve bump search of `PublicKey.findProgramAddressSync` is not modelled. Any function of (seeds, program id) stands in for it. Such a function is deterministic by construction, and nothing else is assumed about it. So the model does not claim that two different salts give two different outgoing-message addresses, only two different seed lists.
- Base58 parsing (`new PublicKey(string)`) is not modelled. That includes the string branch of `pubkeyToBytes32`. Keys are their 32 bytes, and the fixed keys are their decoded bytes.
- `TransactionInstruction` construction is not modelled beyond its `keys`, `programId` and `data`.
- `Buffer.from(hex, 'hex')` is modelled only on input that is already validated, because `addressToBytes20` never passes it anything else. How it treats malformed text is not modelled.
- Error messages are constructors with the offending address where the source puts the address in the text. The wording itself is not modelled.
- `PublicKey.equals`, used for the SPL `from` signer flag, is equality of the 32 key bytes.
- The UI, the wallet provider wiring, the price service, the Base-side constants and the build configuration are not part of this model. So are a CCIP extraArgs builder, fee estimation and a transfer status state machine, none of which exists in the modelled source.
