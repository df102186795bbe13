/** Program-derived addresses of the bridge: the ordered seed lists that
    deriveOutgoingMessagePda, findBridgePda, findSolVaultPda and findTokenVaultPda
    pass to PublicKey.findProgramAddressSync. The off-curve search itself is a
    parameter: any function of (seeds, program id), hence deterministic. */
module ProgramAddress {
  import opened Wrappers
  import opened Bytes
  import opened Keys

  type Seed = seq<byte>

  /** The [address, bump] pair findProgramAddressSync returns. */
  datatype ProgramDerivedAddress = ProgramDerivedAddress(address: PublicKey, bump: byte)

  type FindProgramAddress = (seq<Seed>, PublicKey) -> ProgramDerivedAddress

  predicate IsAscii(s: string) {
    forall i | 0 <= i < |s| :: s[i] as int < 128
  }

  /** Buffer.from(s) of an ASCII string: one byte per character. */
  function AsciiBytes(s: string): (r: seq<byte>)
    requires IsAscii(s)
    ensures |r| == |s| && forall i | 0 <= i < |s| :: r[i] as int == s[i] as int
  {
    seq(|s|, i requires 0 <= i < |s| => s[i] as int as byte)
  }

  function BridgeSeeds(): seq<Seed> {
    [AsciiBytes("bridge")]
  }

  function SolVaultSeeds(): seq<Seed> {
    [AsciiBytes("sol_vault")]
  }

  function TokenVaultSeeds(mint: PublicKey, remoteToken: seq<byte>): seq<Seed> {
    [AsciiBytes("token_vault"), mint, remoteToken]
  }

  function OutgoingMessageSeeds(bridgePda: PublicKey, salt: seq<byte>): seq<Seed> {
    [AsciiBytes("outgoing_message"), bridgePda, salt]
  }

  /** The program id argument, which defaults to SOLANA_BRIDGE_PROGRAM_ID. */
  function ProgramIdOrDefault(programId: Option<PublicKey>): PublicKey {
    programId.GetOr(BridgeProgramId)
  }

  function FindBridgePda(find: FindProgramAddress, programId: Option<PublicKey>): ProgramDerivedAddress {
    find(BridgeSeeds(), ProgramIdOrDefault(programId))
  }

  function FindSolVaultPda(find: FindProgramAddress, programId: Option<PublicKey>): ProgramDerivedAddress {
    find(SolVaultSeeds(), ProgramIdOrDefault(programId))
  }

  function FindTokenVaultPda(find: FindProgramAddress, mint: PublicKey, remoteToken: seq<byte>,
                             programId: Option<PublicKey>): ProgramDerivedAddress {
    find(TokenVaultSeeds(mint, remoteToken), ProgramIdOrDefault(programId))
  }

  /** Only the address is kept; the bump is dropped. */
  function DeriveOutgoingMessagePda(find: FindProgramAddress, bridgeProgramId: PublicKey,
                                    bridgePda: PublicKey, salt: seq<byte>): PublicKey {
    find(OutgoingMessageSeeds(bridgePda, salt), bridgeProgramId).address
  }

  lemma AsciiBytesAre(s: string, b: seq<byte>)
    requires IsAscii(s) && |s| == |b| && forall i | 0 <= i < |s| :: s[i] as int == b[i] as int
    ensures AsciiBytes(s) == b
  {
  }

  /** Each helper hands the derivation exactly these seed bytes, in this order, with
      SOLANA_BRIDGE_PROGRAM_ID standing in for an omitted program id. */
  lemma PdaSeeds(find: FindProgramAddress, programId: Option<PublicKey>, mint: PublicKey,
                 remoteToken: seq<byte>, bridgeProgramId: PublicKey, bridgePda: PublicKey, salt: seq<byte>)
    ensures var id := if programId.Some? then programId.value else BridgeProgramId;
      FindBridgePda(find, programId) == find([[98, 114, 105, 100, 103, 101]], id) &&
      FindSolVaultPda(find, programId) == find([[115, 111, 108, 95, 118, 97, 117, 108, 116]], id) &&
      FindTokenVaultPda(find, mint, remoteToken, programId) ==
        find([[116, 111, 107, 101, 110, 95, 118, 97, 117, 108, 116], mint, remoteToken], id)
    ensures DeriveOutgoingMessagePda(find, bridgeProgramId, bridgePda, salt) ==
      find([[111, 117, 116, 103, 111, 105, 110, 103, 95, 109, 101, 115, 115, 97, 103, 101], bridgePda, salt],
           bridgeProgramId).address
  {
    AsciiBytesAre("bridge", [98, 114, 105, 100, 103, 101]);
    AsciiBytesAre("sol_vault", [115, 111, 108, 95, 118, 97, 117, 108, 116]);
    AsciiBytesAre("token_vault", [116, 111, 107, 101, 110, 95, 118, 97, 117, 108, 116]);
    AsciiBytesAre("outgoing_message", [111, 117, 116, 103, 111, 105, 110, 103, 95, 109, 101, 115, 115, 97, 103, 101]);
  }

  /** No two kinds of address share a seed list: their first seeds differ. */
  lemma SeedListsDistinct(mint: PublicKey, remoteToken: seq<byte>, bridgePda: PublicKey, salt: seq<byte>)
    ensures var lists := [BridgeSeeds(), SolVaultSeeds(), TokenVaultSeeds(mint, remoteToken),
                          OutgoingMessageSeeds(bridgePda, salt)];
      forall i, j | 0 <= i < j < 4 :: lists[i] != lists[j]
  {
    var lists := [BridgeSeeds(), SolVaultSeeds(), TokenVaultSeeds(mint, remoteToken),
                  OutgoingMessageSeeds(bridgePda, salt)];
    forall i, j | 0 <= i < j < 4 ensures lists[i] != lists[j] {
      assert |lists[i][0]| != |lists[j][0]|;
    }
  }

  /** The outgoing-message address is a function of the program id, the bridge
      address and the salt alone: re-using a salt gives the same address. A different
      salt always gives a different seed list; whether the derivation then yields a
      different address is up to findProgramAddressSync. */
  lemma OutgoingMessagePdaBySalt(find: FindProgramAddress, bridgeProgramId: PublicKey,
                                 bridgePda: PublicKey, salt1: seq<byte>, salt2: seq<byte>)
    ensures salt1 == salt2 ==>
      DeriveOutgoingMessagePda(find, bridgeProgramId, bridgePda, salt1) ==
      DeriveOutgoingMessagePda(find, bridgeProgramId, bridgePda, salt2)
    ensures salt1 != salt2 ==> OutgoingMessageSeeds(bridgePda, salt1) != OutgoingMessageSeeds(bridgePda, salt2)
  {
    if OutgoingMessageSeeds(bridgePda, salt1) == OutgoingMessageSeeds(bridgePda, salt2) {
      assert OutgoingMessageSeeds(bridgePda, salt1)[2] == OutgoingMessageSeeds(bridgePda, salt2)[2];
    }
  }
}
