/** Solana public keys as their 32 raw bytes, and the fixed keys the bridge uses.
    The constants are the base58 texts of solanaBridge.ts and of the Solana
    libraries, decoded to bytes. */
module Keys {
  import opened Bytes

  type PublicKey = k: seq<byte> | |k| == 32 witness SystemProgramBytes()

  function SystemProgramBytes(): seq<byte> {
    [0, 0, 0, 0, 0, 0, 0, 0, 0, 0, 0, 0, 0, 0, 0, 0,
     0, 0, 0, 0, 0, 0, 0, 0, 0, 0, 0, 0, 0, 0, 0, 0]
  }

  /** "11111111111111111111111111111111", SystemProgram.programId. */
  const SystemProgramId: PublicKey := SystemProgramBytes()

  /** "7c6mteAcTXaQ1MFBCrnuzoZVTTAEfZwa6wgy4bqX3KXC", SOLANA_BRIDGE_PROGRAM_ID. */
  const BridgeProgramId: PublicKey :=
    [98, 35, 250, 128, 179, 248, 5, 73, 169, 172, 79, 29, 238, 165, 78, 57,
     167, 74, 168, 250, 143, 116, 166, 33, 49, 70, 7, 22, 81, 157, 79, 143]

  /** "AFs1LCbodhvwpgX3u3URLsud6R1XMSaMiQ5LtXw4GKYT", GAS_FEE_RECEIVERS.devnet, the builders'
      default. GAS_FEE_RECEIVERS.mainnet is the same key; only the wrappers that are
      not part of this model choose between the two. */
  const DevnetGasFeeReceiver: PublicKey :=
    [137, 135, 218, 244, 206, 73, 129, 229, 186, 41, 166, 207, 6, 53, 8, 1,
     57, 200, 37, 235, 89, 38, 209, 84, 203, 183, 121, 228, 12, 219, 132, 240]

  /** "TokenkegQfeZyiNwAJbNbGKPFXCWuBvf9Ss623VQ5DA", TOKEN_PROGRAM_ID of the SPL token library. */
  const TokenProgramId: PublicKey :=
    [6, 221, 246, 225, 215, 101, 161, 147, 217, 203, 225, 70, 206, 235, 121, 172,
     28, 180, 133, 237, 95, 91, 55, 145, 58, 140, 245, 133, 126, 255, 0, 169]
}
