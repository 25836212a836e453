/** The monitor object: it holds the current epoch and the checklist of
    checkpoints awaiting liveness resolution, and updates them as confirmed
    BTC checkpoints are handled. */
module Monitor {
  import opened MonitorTypes
  import opened ValSet
  import opened MonitorSpec

  class Monitor {
    /** Whether liveness checking is configured; it gates every checklist write. */
    const livenessChecker: bool
    /** The BLS multi-signature check used for every epoch. */
    const verifyMultiSig: MultiSigVerifier

    /** The epoch, and its validator set, that checkpoints are verified against. */
    var curEpoch: EpochInfo
    /** Checkpoint records not yet reported back, in the order they were added. */
    var checkpointChecklist: seq<CheckpointRecord>

    function State(): (s: MonitorState)
      reads this
    {
      MonitorState(curEpoch, checkpointChecklist)
    }

    /** Builds the monitor at epoch 0 with the genesis validator set, sorted in
        place into signing order, and an empty checklist. */
    constructor New(livenessChecker: bool, verifyMultiSig: MultiSigVerifier, addressKey: AddressKey, genesisValSet: array<ValidatorWithBlsKey>)
      requires genesisValSet.Length <= 1 || AllAddressesParse(genesisValSet[..], addressKey)
      modifies genesisValSet
      ensures this.livenessChecker == livenessChecker
      ensures this.verifyMultiSig == verifyMultiSig
      ensures curEpoch.epochNumber == 0
      ensures curEpoch.valSet == genesisValSet[..]
      ensures SortedByKey(curEpoch.valSet, addressKey)
      ensures multiset(curEpoch.valSet) == multiset(old(genesisValSet[..]))
      ensures checkpointChecklist == []
    {
      GetSortedValSet(genesisValSet, addressKey);
      this.livenessChecker := livenessChecker;
      this.verifyMultiSig := verifyMultiSig;
      curEpoch := EpochInfo(0, genesisValSet[..]);
      checkpointChecklist := [];
    }

    function GetCurrentEpoch(): (e: uint64)
      reads this
      ensures e == curEpoch.epochNumber
    {
      curEpoch.epochNumber
    }

    /** Verifies the checkpoint against the current epoch, then records it or
        advances the epoch as the outcome requires. */
    method HandleNewConfirmedCheckpoint(ckpt: CheckpointRecord, bbn: BabylonView) returns (err: Option<Error>)
      modifies this
      ensures var h := CheckpointStep(old(State()), livenessChecker, verifyMultiSig, bbn, ckpt);
        State() == h.state && err == h.err
    {
      var v := VerifyCheckpoint(curEpoch, verifyMultiSig, bbn, ckpt.rawCheckpoint);
      if v.err.Some? {
        if v.err.value == InconsistentLastCommitHash {
          // A well-signed but conflicting checkpoint is still tracked, so that
          // an alarm follows if it stays censored.
          if livenessChecker {
            AddCheckpointToCheckList(ckpt);
          }
          return Some(InconsistentLastCommitHash);
        }
        return None;
      }
      if livenessChecker {
        AddCheckpointToCheckList(ckpt);
      }
      var nextEpochNum := Succ(GetCurrentEpoch());
      err := UpdateEpochInfo(nextEpochNum, bbn);
    }

    method AddCheckpointToCheckList(ckpt: CheckpointRecord)
      modifies this`checkpointChecklist
      ensures checkpointChecklist == old(checkpointChecklist) + [CheckpointRecord(ckpt.rawCheckpoint, ckpt.firstSeenBtcHeight)]
    {
      var record := CheckpointRecord(ckpt.rawCheckpoint, ckpt.firstSeenBtcHeight);
      checkpointChecklist := checkpointChecklist + [record];
    }

    /** Replaces the current epoch by Babylon's description of the given epoch,
        or leaves it as it is when the query fails. */
    method UpdateEpochInfo(epoch: uint64, bbn: BabylonView) returns (err: Option<Error>)
      modifies this`curEpoch
      ensures bbn.queryInfoForNextEpoch(epoch).Ok? ==>
        curEpoch == bbn.queryInfoForNextEpoch(epoch).value && err == None
      ensures bbn.queryInfoForNextEpoch(epoch).Failed? ==>
        curEpoch == old(curEpoch) && err == Some(QueryEpochInfoFailed)
    {
      match bbn.queryInfoForNextEpoch(epoch)
      case Failed =>
        return Some(QueryEpochInfoFailed);
      case Ok(ei) =>
        curEpoch := ei;
        return None;
    }
  }
}
