/** createBridgeSolInstruction and createBridgeSplInstruction of solanaBridge.ts:
    input checks, the instruction data bytes, and the ordered account metas. */
module BridgeInstruction {
  import opened Wrappers
  import opened Bytes
  import opened Keys
  import opened BridgeErrors
  import opened Hex
  import opened AddressCodec

  datatype AccountMeta = AccountMeta(pubkey: PublicKey, isSigner: bool, isWritable: bool)

  /** The parts of a TransactionInstruction the builders fix. */
  datatype Instruction = Instruction(keys: seq<AccountMeta>, programId: PublicKey, data: seq<byte>)

  /** A contract call to run on Base; the value is a BigInt and may be any integer. */
  datatype ContractCall = ContractCall(target: string, value: int, data: seq<byte>)

  datatype BridgeSolParams = BridgeSolParams(
    payer: PublicKey, from: PublicKey, solVault: PublicKey, bridge: PublicKey,
    outgoingMessage: PublicKey, salt: seq<byte>, to: string, amount: int,
    call: Option<ContractCall>, gasFeeReceiver: Option<PublicKey>)

  datatype BridgeSplParams = BridgeSplParams(
    payer: PublicKey, from: PublicKey, fromTokenAccount: PublicKey, mint: PublicKey,
    tokenVault: PublicKey, bridge: PublicKey, outgoingMessage: PublicKey, salt: seq<byte>,
    to: string, remoteToken: string, amount: int,
    call: Option<ContractCall>, gasFeeReceiver: Option<PublicKey>)

  const BridgeSolDiscriminator: seq<byte> := [190, 190, 32, 158, 75, 153, 32, 86]
  const BridgeSplDiscriminator: seq<byte> := [87, 109, 172, 103, 8, 187, 223, 126]

  /** writeBigUInt64LE into a fresh 8-byte buffer: a RangeError outside [0, 2^64). */
  function WriteBigUInt64LE(v: int): (r: Result<seq<byte>, BridgeError>)
    ensures r.Success? <==> 0 <= v < TwoTo64
    ensures r.Success? ==> |r.value| == 8 && FromLittleEndian(r.value) == v
    ensures r.Failure? ==> r.error == AmountOutOfRange
  {
    if 0 <= v < TwoTo64 then
      Pow256Widths();
      LittleEndianRoundTrip(v, 8);
      Success(LittleEndian(v, 8))
    else
      Failure(AmountOutOfRange)
  }

  /** writeUInt32LE into a fresh 4-byte buffer: a RangeError at 2^32 and above. */
  function WriteUInt32LE(v: nat): (r: Result<seq<byte>, BridgeError>)
    ensures r.Success? <==> v < TwoTo32
    ensures r.Success? ==> |r.value| == 4 && FromLittleEndian(r.value) == v
    ensures r.Failure? ==> r.error == DataLengthOutOfRange
  {
    if v < TwoTo32 then
      Pow256Widths();
      LittleEndianRoundTrip(v, 4);
      Success(LittleEndian(v, 4))
    else
      Failure(DataLengthOutOfRange)
  }

  /** The loop that fills the 16-byte call value buffer: byte i takes `val & 0xff`,
      then `val >>= 8`. Only the low 128 bits of the value survive. */
  method EncodeCallValue(value: int) returns (valueBuf: seq<byte>)
    ensures valueBuf == LittleEndian(value, 16)
    ensures |valueBuf| == 16 && FromLittleEndian(valueBuf) == value % TwoTo128
  {
    var buf := new byte[16];
    var val := value;
    for i := 0 to 16
      invariant buf[..i] + LittleEndian(val, 16 - i) == LittleEndian(value, 16)
    {
      ghost var done, rest := buf[..i], LittleEndian(val / 256, 16 - i - 1);
      assert done + [(val % 256) as byte] + rest == LittleEndian(value, 16);
      buf[i] := (val % 256) as byte;
      assert buf[..i + 1] == done + [(val % 256) as byte];
      val := val / 256;
    }
    assert buf[..] == buf[..16];
    valueBuf := buf[..];
    CallValueDecodes(value);
  }

  /** Only the low 128 bits of the value reach the 16 bytes, and the bytes decode
      to the value modulo 2^128. */
  lemma CallValueDecodes(value: int)
    ensures LittleEndian(value, 16) == LittleEndian(value % TwoTo128, 16)
    ensures FromLittleEndian(LittleEndian(value, 16)) == value % TwoTo128
  {
    FromLittleEndianOfLittleEndian(value, 16);
    LittleEndianModulo(value, 16);
    Pow256Widths();
  }

  /** The Option-style call encoding: [0] when there is no call, otherwise
      Some (1), CallType Call (0), the target, the value, the data length, the data. */
  function EncodeCall(call: Option<ContractCall>): Result<seq<byte>, BridgeError> {
    match call
    case None => Success([0])
    case Some(c) =>
      var target := AddressToBytes20(c.target);
      var dataLen := WriteUInt32LE(|c.data|);
      if target.Failure? then Failure(target.error)
      else if dataLen.Failure? then Failure(dataLen.error)
      else Success([1, 0] + target.value + LittleEndian(c.value, 16) + dataLen.value + c.data)
  }

  /** `params.gasFeeReceiver || GAS_FEE_RECEIVERS.devnet` */
  function GasFeeReceiver(given: Option<PublicKey>): PublicKey {
    if given.Some? then given.value else DevnetGasFeeReceiver
  }

  function BridgeSolKeys(p: BridgeSolParams): seq<AccountMeta> {
    [ AccountMeta(p.payer, true, true),
      AccountMeta(p.from, false, true),
      AccountMeta(GasFeeReceiver(p.gasFeeReceiver), false, true),
      AccountMeta(p.solVault, false, true),
      AccountMeta(p.bridge, false, true),
      AccountMeta(p.outgoingMessage, false, true),
      AccountMeta(SystemProgramId, false, false) ]
  }

  function CreateBridgeSolInstruction(p: BridgeSolParams): Result<Instruction, BridgeError> {
    if p.amount <= 0 then Failure(AmountNotPositive)
    else if |p.salt| != 32 then Failure(SaltNotThirtyTwoBytes)
    else if !IsBaseAddress(p.to) then Failure(InvalidBaseAddress(p.to))
    else
      var toBytes := AddressToBytes20(p.to);
      var callBuffer := EncodeCall(p.call);
      var amountBytes := WriteBigUInt64LE(p.amount);
      if toBytes.Failure? then Failure(toBytes.error)
      else if callBuffer.Failure? then Failure(callBuffer.error)
      else if amountBytes.Failure? then Failure(amountBytes.error)
      else
        var data := BridgeSolDiscriminator + p.salt + toBytes.value + amountBytes.value + callBuffer.value;
        Success(Instruction(BridgeSolKeys(p), BridgeProgramId, data))
  }

  function BridgeSplKeys(p: BridgeSplParams): seq<AccountMeta> {
    [ AccountMeta(p.payer, true, true),
      AccountMeta(p.from, p.from == p.payer, true),
      AccountMeta(GasFeeReceiver(p.gasFeeReceiver), false, true),
      AccountMeta(p.mint, false, true),
      AccountMeta(p.fromTokenAccount, false, true),
      AccountMeta(p.bridge, false, true),
      AccountMeta(p.tokenVault, false, true),
      AccountMeta(p.outgoingMessage, false, true),
      AccountMeta(TokenProgramId, false, false),
      AccountMeta(SystemProgramId, false, false) ]
  }

  /** The salt length is not checked and any call is ignored: the encoding is always None. */
  function CreateBridgeSplInstruction(p: BridgeSplParams): Result<Instruction, BridgeError> {
    if p.amount <= 0 then Failure(AmountNotPositive)
    else
      var toBytes := AddressToBytes20(p.to);
      var remoteTokenBytes := AddressToBytes20(p.remoteToken);
      var callBuffer: seq<byte> := [0];
      var amountBytes := WriteBigUInt64LE(p.amount);
      if toBytes.Failure? then Failure(toBytes.error)
      else if remoteTokenBytes.Failure? then Failure(remoteTokenBytes.error)
      else if amountBytes.Failure? then Failure(amountBytes.error)
      else
        var data := BridgeSplDiscriminator + p.salt + toBytes.value + remoteTokenBytes.value + amountBytes.value + callBuffer;
        Success(Instruction(BridgeSplKeys(p), BridgeProgramId, data))
  }

  // ----- the call encoding -----

  /** An attached call fails only on a malformed target or a data length that does not
      fit a u32, the target being checked first. No call is the single byte 0. */
  lemma EncodeCallFailures(call: Option<ContractCall>)
    ensures call.None? ==> EncodeCall(call) == Success([0])
    ensures call.Some? ==>
      (EncodeCall(call).Success? <==> IsBaseAddress(call.value.target) && |call.value.data| < TwoTo32)
    ensures call.Some? && !IsBaseAddress(call.value.target) ==>
      EncodeCall(call) == Failure(InvalidEthereumAddress(call.value.target))
    ensures call.Some? && IsBaseAddress(call.value.target) && |call.value.data| >= TwoTo32 ==>
      EncodeCall(call) == Failure(DataLengthOutOfRange)
  {
    if call.Some? {
      AddressToBytes20Accepts(call.value.target);
    }
  }

  /** An encoded call is 42 + |data| bytes whose fields decode back to the call:
      Some, CallType Call, the target, the value modulo 2^128, the data length, the data. */
  lemma EncodeCallFields(c: ContractCall)
    ensures EncodeCall(Some(c)).Success? ==>
      var b := EncodeCall(Some(c)).value;
      |b| == 42 + |c.data| &&
      b[0] == 1 && b[1] == 0 &&
      b[2..22] == AddressToBytes20(c.target).value &&
      FromLittleEndian(b[22..38]) == c.value % TwoTo128 &&
      FromLittleEndian(b[38..42]) == |c.data| &&
      b[42..] == c.data
  {
    if EncodeCall(Some(c)).Success? {
      var target := AddressToBytes20(c.target).value;
      var value := LittleEndian(c.value, 16);
      var dataLen := WriteUInt32LE(|c.data|).value;
      assert EncodeCall(Some(c)).value == [1, 0] + target + value + dataLen + c.data;
      ConcatPieces([1, 0], target, value, dataLen, c.data);
      FromLittleEndianOfLittleEndian(c.value, 16);
      Pow256Widths();
    }
  }

  // ----- the native (SOL) instruction -----

  /** Exactly these inputs are refused, and the checks run in source order, so the
      first failing one names the error. A refusal carries no instruction bytes. */
  lemma CreateBridgeSolFailures(p: BridgeSolParams)
    ensures CreateBridgeSolInstruction(p).Failure? <==>
      p.amount <= 0 || |p.salt| != 32 || !IsBaseAddress(p.to) ||
      (p.call.Some? && (!IsBaseAddress(p.call.value.target) || |p.call.value.data| >= TwoTo32)) ||
      p.amount >= TwoTo64
    ensures p.amount <= 0 ==> CreateBridgeSolInstruction(p) == Failure(AmountNotPositive)
    ensures p.amount > 0 && |p.salt| != 32 ==> CreateBridgeSolInstruction(p) == Failure(SaltNotThirtyTwoBytes)
    ensures p.amount > 0 && |p.salt| == 32 && !IsBaseAddress(p.to) ==>
      CreateBridgeSolInstruction(p) == Failure(InvalidBaseAddress(p.to))
    ensures (p.amount > 0 && |p.salt| == 32 && IsBaseAddress(p.to) && p.call.Some? &&
             !IsBaseAddress(p.call.value.target)) ==>
      CreateBridgeSolInstruction(p) == Failure(InvalidEthereumAddress(p.call.value.target))
    ensures (p.amount > 0 && |p.salt| == 32 && IsBaseAddress(p.to) && p.call.Some? &&
             IsBaseAddress(p.call.value.target) && |p.call.value.data| >= TwoTo32) ==>
      CreateBridgeSolInstruction(p) == Failure(DataLengthOutOfRange)
    ensures (p.amount >= TwoTo64 && |p.salt| == 32 && IsBaseAddress(p.to) &&
             (p.call.Some? ==> IsBaseAddress(p.call.value.target) && |p.call.value.data| < TwoTo32)) ==>
      CreateBridgeSolInstruction(p) == Failure(AmountOutOfRange)
  {
    AddressToBytes20Accepts(p.to);
    EncodeCallFailures(p.call);
  }

  /** The data is discriminator, salt, `to`, amount and call encoding, in that order:
      the amount is the little-endian u64 at bytes 60..67. */
  lemma CreateBridgeSolPayload(p: BridgeSolParams)
    ensures CreateBridgeSolInstruction(p).Success? ==>
      var ix := CreateBridgeSolInstruction(p).value;
      var d := ix.data;
      ix.programId == BridgeProgramId && ix.keys == BridgeSolKeys(p) &&
      EncodeCall(p.call).Success? && |d| == 68 + |EncodeCall(p.call).value| &&
      d[..8] == BridgeSolDiscriminator &&
      d[8..40] == p.salt &&
      d[40..60] == AddressToBytes20(p.to).value &&
      d[60..68] == LittleEndian(p.amount, 8) &&
      FromLittleEndian(d[60..68]) == p.amount &&
      d[68..] == EncodeCall(p.call).value
  {
    if CreateBridgeSolInstruction(p).Success? {
      var d := CreateBridgeSolInstruction(p).value.data;
      var toBytes := AddressToBytes20(p.to).value;
      var amountBytes := WriteBigUInt64LE(p.amount).value;
      var callBuffer := EncodeCall(p.call).value;
      assert d == BridgeSolDiscriminator + p.salt + toBytes + amountBytes + callBuffer;
      ConcatPieces(BridgeSolDiscriminator, p.salt, toBytes, amountBytes, callBuffer);
      Pow256Widths();
      LittleEndianRoundTrip(p.amount, 8);
    }
  }

  /** With no call the data is 69 bytes and ends in the None byte. */
  lemma CreateBridgeSolWithoutCall(p: BridgeSolParams)
    requires p.call.None?
    ensures CreateBridgeSolInstruction(p).Success? ==>
      var d := CreateBridgeSolInstruction(p).value.data;
      |d| == 69 && d[68] == 0 && FromLittleEndian(d[60..68]) == p.amount
  {
    CreateBridgeSolPayload(p);
    EncodeCallFailures(p.call);
  }

  /** Seven metas: payer, from, fee receiver, vault, bridge, outgoing message, system
      program. Only the payer signs; all but the system program are writable. */
  lemma BridgeSolAccounts(p: BridgeSolParams)
    ensures var keys := BridgeSolKeys(p);
      |keys| == 7 &&
      keys[0].pubkey == p.payer && keys[1].pubkey == p.from &&
      keys[2].pubkey == (if p.gasFeeReceiver.Some? then p.gasFeeReceiver.value else DevnetGasFeeReceiver) &&
      keys[3].pubkey == p.solVault && keys[4].pubkey == p.bridge &&
      keys[5].pubkey == p.outgoingMessage && keys[6].pubkey == SystemProgramId &&
      (forall i | 0 <= i < 7 :: keys[i].isSigner <==> i == 0) &&
      (forall i | 0 <= i < 7 :: keys[i].isWritable <==> i < 6)
  {
  }

  // ----- the fungible (SPL) instruction -----

  /** Refused exactly for a non-positive or too large amount and a malformed `to`
      or `remoteToken`; the salt is never checked. */
  lemma CreateBridgeSplFailures(p: BridgeSplParams)
    ensures CreateBridgeSplInstruction(p).Failure? <==>
      p.amount <= 0 || !IsBaseAddress(p.to) || !IsBaseAddress(p.remoteToken) || p.amount >= TwoTo64
    ensures p.amount <= 0 ==> CreateBridgeSplInstruction(p) == Failure(AmountNotPositive)
    ensures p.amount > 0 && !IsBaseAddress(p.to) ==>
      CreateBridgeSplInstruction(p) == Failure(InvalidEthereumAddress(p.to))
    ensures p.amount > 0 && IsBaseAddress(p.to) && !IsBaseAddress(p.remoteToken) ==>
      CreateBridgeSplInstruction(p) == Failure(InvalidEthereumAddress(p.remoteToken))
    ensures p.amount >= TwoTo64 && IsBaseAddress(p.to) && IsBaseAddress(p.remoteToken) ==>
      CreateBridgeSplInstruction(p) == Failure(AmountOutOfRange)
  {
    AddressToBytes20Accepts(p.to);
    AddressToBytes20Accepts(p.remoteToken);
  }

  /** The data is discriminator, salt, `to`, remote token, amount and a None byte:
      57 + |salt| bytes, the amount right after the two addresses. */
  lemma CreateBridgeSplPayload(p: BridgeSplParams)
    ensures CreateBridgeSplInstruction(p).Success? ==>
      var ix := CreateBridgeSplInstruction(p).value;
      var d, s := ix.data, |p.salt|;
      ix.programId == BridgeProgramId && ix.keys == BridgeSplKeys(p) &&
      |d| == 57 + s &&
      d[..8] == BridgeSplDiscriminator &&
      d[8..8 + s] == p.salt &&
      d[8 + s..28 + s] == AddressToBytes20(p.to).value &&
      d[28 + s..48 + s] == AddressToBytes20(p.remoteToken).value &&
      d[48 + s..56 + s] == LittleEndian(p.amount, 8) &&
      FromLittleEndian(d[48 + s..56 + s]) == p.amount &&
      d[56 + s] == 0
  {
    if CreateBridgeSplInstruction(p).Success? {
      var d, s := CreateBridgeSplInstruction(p).value.data, |p.salt|;
      var toBytes := AddressToBytes20(p.to).value;
      var remoteTokenBytes := AddressToBytes20(p.remoteToken).value;
      var amountBytes := WriteBigUInt64LE(p.amount).value;
      var head := BridgeSplDiscriminator + p.salt;
      assert d == head + toBytes + remoteTokenBytes + amountBytes + [0];
      ConcatPieces(head, toBytes, remoteTokenBytes, amountBytes, [0]);
      assert d[..8 + s] == head;
      assert d[8..8 + s] == head[8..] == p.salt;
    }
  }

  /** With the usual 32-byte salt the data is 89 bytes with the amount at bytes 80..87. */
  lemma CreateBridgeSplWithSalt32(p: BridgeSplParams)
    requires |p.salt| == 32
    ensures CreateBridgeSplInstruction(p).Success? ==>
      var d := CreateBridgeSplInstruction(p).value.data;
      |d| == 89 && FromLittleEndian(d[80..88]) == p.amount && d[88] == 0
  {
    CreateBridgeSplPayload(p);
  }

  /** An attached call changes nothing: the same instruction as without one. */
  lemma CreateBridgeSplIgnoresCall(p: BridgeSplParams)
    ensures CreateBridgeSplInstruction(p) == CreateBridgeSplInstruction(p.(call := None))
  {
  }

  /** Ten metas: payer, from, fee receiver, mint, source token account, bridge, token
      vault, outgoing message, token program, system program. `from` signs exactly when
      it is the payer; all but the two programs are writable. */
  lemma BridgeSplAccounts(p: BridgeSplParams)
    ensures var keys := BridgeSplKeys(p);
      |keys| == 10 &&
      keys[0].pubkey == p.payer && keys[1].pubkey == p.from &&
      keys[2].pubkey == (if p.gasFeeReceiver.Some? then p.gasFeeReceiver.value else DevnetGasFeeReceiver) &&
      keys[3].pubkey == p.mint && keys[4].pubkey == p.fromTokenAccount &&
      keys[5].pubkey == p.bridge && keys[6].pubkey == p.tokenVault &&
      keys[7].pubkey == p.outgoingMessage && keys[8].pubkey == TokenProgramId &&
      keys[9].pubkey == SystemProgramId &&
      (keys[1].isSigner <==> p.from == p.payer) &&
      (forall i | 0 <= i < 10 && i != 1 :: keys[i].isSigner <==> i == 0) &&
      (forall i | 0 <= i < 10 :: keys[i].isWritable <==> i < 8)
  {
  }

  // ----- end-to-end examples -----

  lemma RepeatedDigitAddress(c: char)
    requires IsHexDigit(c)
    ensures IsBaseAddress("0x" + seq(40, _ => c))
  {
    assert ("0x" + seq(40, _ => c))[2..] == seq(40, _ => c);
  }

  /** A native transfer of 1_500_000_000 lamports with a zero salt and no call:
      69 bytes, the amount at bytes 60..67, the None byte last. */
  lemma BridgeSolExample(payer: PublicKey, solVault: PublicKey, bridge: PublicKey, outgoingMessage: PublicKey)
    ensures var p := BridgeSolParams(payer, payer, solVault, bridge, outgoingMessage, seq(32, _ => 0),
                                     "0x" + seq(40, _ => '1'), 1_500_000_000, None, None);
      var r := CreateBridgeSolInstruction(p);
      r.Success? && |r.value.data| == 69 &&
      r.value.data[60..68] == [0, 47, 104, 89, 0, 0, 0, 0] && r.value.data[68] == 0
  {
    var p := BridgeSolParams(payer, payer, solVault, bridge, outgoingMessage, seq(32, _ => 0),
                             "0x" + seq(40, _ => '1'), 1_500_000_000, None, None);
    RepeatedDigitAddress('1');
    assert LittleEndian(1_500_000_000, 8) == [0, 47, 104, 89, 0, 0, 0, 0];
    CreateBridgeSolFailures(p);
    CreateBridgeSolPayload(p);
    CreateBridgeSolWithoutCall(p);
  }

  /** A fungible transfer of 10_000_000 raw units with a 32-byte salt: 89 bytes,
      the amount at bytes 80..87. */
  lemma BridgeSplExample(p: BridgeSplParams)
    requires |p.salt| == 32 && p.amount == 10_000_000
    requires p.to == "0x" + seq(40, _ => '1')
    requires p.remoteToken == "0x" + seq(40, _ => '2')
    ensures var r := CreateBridgeSplInstruction(p);
      r.Success? && |r.value.data| == 89 && r.value.data[80..88] == [128, 150, 152, 0, 0, 0, 0, 0]
  {
    RepeatedDigitAddress('1');
    RepeatedDigitAddress('2');
    assert LittleEndian(10_000_000, 8) == [128, 150, 152, 0, 0, 0, 0, 0];
    CreateBridgeSplFailures(p);
    CreateBridgeSplPayload(p);
  }
}
