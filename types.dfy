/** Data model of the BTC-checkpoint monitor: the fixed-width integers of the
    Go code, raw checkpoints and the records kept for liveness checking,
    validator sets, epoch information, BTC block headers, the error kinds the
    monitor distinguishes, and the external collaborators it calls but does not
    implement (BLS verification, header hashing, address decoding and the
    Babylon querier). */
module MonitorTypes {

  newtype uint64 = x: int | 0 <= x < 0x1_0000_0000_0000_0000
  newtype uint32 = x: int | 0 <= x < 0x1_0000_0000
  newtype int32 = x: int | -0x8000_0000 <= x < 0x8000_0000
  newtype byte = x: int | 0 <= x < 0x100

  const MaxUint64: uint64 := 0xFFFF_FFFF_FFFF_FFFF

  /** Go's `x + 1` on a uint64: it wraps around to 0 after the largest value. */
  function Succ(x: uint64): (r: uint64)
    ensures r as int == (x as int + 1) % 0x1_0000_0000_0000_0000
  {
    if x == MaxUint64 then 0 else x + 1
  }

  datatype Option<T> = None | Some(value: T)

  /** A query to Babylon either answers or fails (transport or RPC error). */
  datatype Reply<T> = Ok(value: T) | Failed

  /** A checkpoint of one Babylon epoch, as found on BTC or as kept by Babylon. */
  datatype RawCheckpoint = RawCheckpoint(
    epochNum: uint64,
    lastCommitHash: seq<byte>,
    bitmap: seq<byte>,
    blsMultiSig: seq<byte>)

  /** A checkpoint together with the BTC height at which it was first seen. */
  datatype CheckpointRecord = CheckpointRecord(
    rawCheckpoint: RawCheckpoint,
    firstSeenBtcHeight: uint64)

  datatype ValidatorWithBlsKey = ValidatorWithBlsKey(
    validatorAddress: string,
    blsPubKey: seq<byte>,
    votingPower: uint64)

  /** The epoch number and the validator set that signs that epoch's checkpoint. */
  datatype EpochInfo = EpochInfo(
    epochNumber: uint64,
    valSet: seq<ValidatorWithBlsKey>)

  datatype BlockHeader = BlockHeader(
    version: int32,
    prevBlock: seq<byte>,
    merkleRoot: seq<byte>,
    timestamp: uint32,
    bits: uint32,
    nonce: uint32)

  /** The kinds of error the monitor tells apart; message texts are not modelled. */
  datatype Error =
    | InvalidEpochNum              // checkpoint epoch is not the current epoch
    | InvalidBtcCheckpointSig      // BLS multi-signature of the BTC copy rejected
    | QueryRawCheckpointFailed     // Babylon could not be asked for its checkpoint
    | InvalidBabylonCheckpointSig  // BLS multi-signature of the Babylon copy rejected
    | InconsistentLastCommitHash   // both copies are well signed but disagree
    | QueryEpochInfoFailed         // Babylon could not be asked for the next epoch
    | QueryBtcHeaderFailed         // Babylon could not be asked about a BTC header
    | BtcHeaderNotOnBabylon        // Babylon's BTC light client lacks the header

  /** BLS aggregate-signature and quorum check of a checkpoint against the
      validator set of an epoch: a cryptographic primitive, left abstract. */
  type MultiSigVerifier = (EpochInfo, RawCheckpoint) -> bool

  /** The double-SHA256 hash of a BTC block header, left abstract. */
  type HeaderHasher = BlockHeader -> seq<byte>

  /** Bech32 decoding of a validator address followed by reading it as a
      big-endian uint64; None when the address does not parse. */
  type AddressKey = string -> Option<uint64>

  /** What the Babylon querier answers at the moment of one call into the
      monitor; the answers may differ from one call to the next. */
  datatype BabylonView = BabylonView(
    queryRawCheckpoint: uint64 -> Reply<RawCheckpoint>,
    queryInfoForNextEpoch: uint64 -> Reply<EpochInfo>,
    containsBtcHeader: seq<byte> -> Reply<bool>)
}
