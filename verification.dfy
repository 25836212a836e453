/** What the monitor decides about each BTC checkpoint and header, as pure
    functions of the monitor's state and of the answers of its collaborators,
    and what a sequence of checkpoint events does to that state. */
module MonitorSpec {
  import opened MonitorTypes

  /** An interaction with a collaborator made while verifying a checkpoint. */
  datatype Call =
    | VerifyMultiSig(ckpt: RawCheckpoint)
    | QueryRawCheckpoint(epoch: uint64)

  /** The outcome of verifying a checkpoint (None means it passed) and the
      interactions it made, in order. */
  datatype Verdict = Verdict(err: Option<Error>, calls: seq<Call>)

  /** The part of the monitor that its handlers change. */
  datatype MonitorState = MonitorState(curEpoch: EpochInfo, checklist: seq<CheckpointRecord>)

  /** A new state, and the error handed back to the run loop (None for nil). */
  datatype Handled = Handled(state: MonitorState, err: Option<Error>)

  /** The BTC copy is for the current epoch and is signed by its validators. */
  predicate SignedForEpoch(cur: EpochInfo, verify: MultiSigVerifier, btcCkpt: RawCheckpoint)
  {
    btcCkpt.epochNum == cur.epochNumber && verify(cur, btcCkpt)
  }

  /** Every check before the comparison of the two copies passes: the BTC copy
      is for the current epoch and well signed, Babylon returns its own copy,
      and that copy is well signed too. */
  predicate BothCopiesValid(cur: EpochInfo, verify: MultiSigVerifier, bbn: BabylonView, btcCkpt: RawCheckpoint)
  {
    && SignedForEpoch(cur, verify, btcCkpt)
    && bbn.queryRawCheckpoint(btcCkpt.epochNum).Ok?
    && verify(cur, bbn.queryRawCheckpoint(btcCkpt.epochNum).value)
  }

  /** Both copies are valid and agree on the last commit hash. */
  predicate Agrees(cur: EpochInfo, verify: MultiSigVerifier, bbn: BabylonView, btcCkpt: RawCheckpoint)
  {
    && BothCopiesValid(cur, verify, bbn, btcCkpt)
    && bbn.queryRawCheckpoint(btcCkpt.epochNum).value.lastCommitHash == btcCkpt.lastCommitHash
  }

  /** Both copies are valid but assert different ledger states: a fork. */
  predicate Conflicts(cur: EpochInfo, verify: MultiSigVerifier, bbn: BabylonView, btcCkpt: RawCheckpoint)
  {
    && BothCopiesValid(cur, verify, bbn, btcCkpt)
    && bbn.queryRawCheckpoint(btcCkpt.epochNum).value.lastCommitHash != btcCkpt.lastCommitHash
  }

  /** The verification cascade of a BTC checkpoint against its Babylon
      counterpart: epoch, own signature, query, signature of the Babylon copy,
      equality of the last commit hashes. The first failing check decides. */
  function VerifyCheckpoint(cur: EpochInfo, verify: MultiSigVerifier, bbn: BabylonView, btcCkpt: RawCheckpoint): (v: Verdict)
    // Each error kind, exactly under the condition of its stage.
    ensures v.err == Some(InvalidEpochNum) <==> btcCkpt.epochNum != cur.epochNumber
    ensures v.err == Some(InvalidBtcCheckpointSig)
        <==> btcCkpt.epochNum == cur.epochNumber && !verify(cur, btcCkpt)
    ensures v.err == Some(QueryRawCheckpointFailed)
        <==> SignedForEpoch(cur, verify, btcCkpt) && bbn.queryRawCheckpoint(btcCkpt.epochNum).Failed?
    ensures v.err == Some(InvalidBabylonCheckpointSig)
        <==> && SignedForEpoch(cur, verify, btcCkpt)
             && bbn.queryRawCheckpoint(btcCkpt.epochNum).Ok?
             && !verify(cur, bbn.queryRawCheckpoint(btcCkpt.epochNum).value)
    ensures v.err == Some(InconsistentLastCommitHash) <==> Conflicts(cur, verify, bbn, btcCkpt)
    ensures v.err == None <==> Agrees(cur, verify, bbn, btcCkpt)
    // The interactions: a later stage is reached only when every earlier one passed.
    ensures |v.calls| <= 3
    ensures |v.calls| >= 1 <==> btcCkpt.epochNum == cur.epochNumber
    ensures |v.calls| >= 1 ==> v.calls[0] == VerifyMultiSig(btcCkpt)
    ensures |v.calls| >= 2 <==> SignedForEpoch(cur, verify, btcCkpt)
    ensures |v.calls| >= 2 ==> v.calls[1] == QueryRawCheckpoint(btcCkpt.epochNum)
    ensures |v.calls| == 3
        <==> SignedForEpoch(cur, verify, btcCkpt) && bbn.queryRawCheckpoint(btcCkpt.epochNum).Ok?
    ensures |v.calls| == 3 ==> v.calls[2] == VerifyMultiSig(bbn.queryRawCheckpoint(btcCkpt.epochNum).value)
  {
    if cur.epochNumber != btcCkpt.epochNum then
      Verdict(Some(InvalidEpochNum), [])
    else if !verify(cur, btcCkpt) then
      Verdict(Some(InvalidBtcCheckpointSig), [VerifyMultiSig(btcCkpt)])
    else
      match bbn.queryRawCheckpoint(btcCkpt.epochNum)
      case Failed =>
        Verdict(Some(QueryRawCheckpointFailed), [VerifyMultiSig(btcCkpt), QueryRawCheckpoint(btcCkpt.epochNum)])
      case Ok(bbnCkpt) =>
        var calls := [VerifyMultiSig(btcCkpt), QueryRawCheckpoint(btcCkpt.epochNum), VerifyMultiSig(bbnCkpt)];
        if !verify(cur, bbnCkpt) then
          Verdict(Some(InvalidBabylonCheckpointSig), calls)
        else if bbnCkpt.lastCommitHash != btcCkpt.lastCommitHash then
          Verdict(Some(InconsistentLastCommitHash), calls)
        else
          Verdict(None, calls)
  }

  /** A BTC header is consistent when Babylon's BTC light client is known to
      contain its hash. */
  function CheckHeaderConsistency(blockHash: HeaderHasher, bbn: BabylonView, header: BlockHeader): (err: Option<Error>)
    ensures err == None <==> bbn.containsBtcHeader(blockHash(header)) == Ok(true)
    ensures err == Some(QueryBtcHeaderFailed) <==> bbn.containsBtcHeader(blockHash(header)).Failed?
    ensures err == Some(BtcHeaderNotOnBabylon) <==> bbn.containsBtcHeader(blockHash(header)) == Ok(false)
  {
    match bbn.containsBtcHeader(blockHash(header))
    case Failed => Some(QueryBtcHeaderFailed)
    case Ok(contains) => if !contains then Some(BtcHeaderNotOnBabylon) else None
  }

  /** Babylon's answer for the next epoch carries the epoch number asked for. */
  predicate AnswersRequestedEpoch(bbn: BabylonView)
  {
    forall e :: bbn.queryInfoForNextEpoch(e).Ok? ==> bbn.queryInfoForNextEpoch(e).value.epochNumber == e
  }

  /** What handling one confirmed BTC checkpoint does to the monitor's state.
      A conflicting checkpoint is recorded (with liveness checking on) and
      reported; any other failed verification is swallowed with no effect; a
      verified checkpoint is recorded (with liveness checking on) and the
      monitor moves to the next epoch if Babylon describes it. */
  function CheckpointStep(s: MonitorState, livenessChecker: bool, verify: MultiSigVerifier, bbn: BabylonView, ckpt: CheckpointRecord): (h: Handled)
    // The checklist only grows, by this record, and only when both copies were valid.
    ensures h.state.checklist
         == if livenessChecker && BothCopiesValid(s.curEpoch, verify, bbn, ckpt.rawCheckpoint)
            then s.checklist + [ckpt] else s.checklist
    // The epoch changes only after a successful verification and a successful query.
    ensures h.state.curEpoch
         == if Agrees(s.curEpoch, verify, bbn, ckpt.rawCheckpoint)
               && bbn.queryInfoForNextEpoch(Succ(s.curEpoch.epochNumber)).Ok?
            then bbn.queryInfoForNextEpoch(Succ(s.curEpoch.epochNumber)).value
            else s.curEpoch
    ensures AnswersRequestedEpoch(bbn) ==>
      h.state.curEpoch.epochNumber
        == if Agrees(s.curEpoch, verify, bbn, ckpt.rawCheckpoint)
              && bbn.queryInfoForNextEpoch(Succ(s.curEpoch.epochNumber)).Ok?
           then Succ(s.curEpoch.epochNumber) else s.curEpoch.epochNumber
    // Skippable failures: no effect, no error.
    ensures !BothCopiesValid(s.curEpoch, verify, bbn, ckpt.rawCheckpoint) ==> h == Handled(s, None)
    // Errors reach the caller exactly for a fork and for a failed epoch update.
    ensures h.err == Some(InconsistentLastCommitHash) <==> Conflicts(s.curEpoch, verify, bbn, ckpt.rawCheckpoint)
    ensures h.err == Some(QueryEpochInfoFailed)
        <==> Agrees(s.curEpoch, verify, bbn, ckpt.rawCheckpoint)
             && bbn.queryInfoForNextEpoch(Succ(s.curEpoch.epochNumber)).Failed?
    ensures h.err in {None, Some(InconsistentLastCommitHash), Some(QueryEpochInfoFailed)}
  {
    var v := VerifyCheckpoint(s.curEpoch, verify, bbn, ckpt.rawCheckpoint);
    if v.err.Some? then
      if v.err.value == InconsistentLastCommitHash then
        var checklist := if livenessChecker then s.checklist + [ckpt] else s.checklist;
        Handled(MonitorState(s.curEpoch, checklist), Some(InconsistentLastCommitHash))
      else
        Handled(s, None)
    else
      var checklist := if livenessChecker then s.checklist + [ckpt] else s.checklist;
      match bbn.queryInfoForNextEpoch(Succ(s.curEpoch.epochNumber))
      case Failed => Handled(MonitorState(s.curEpoch, checklist), Some(QueryEpochInfoFailed))
      case Ok(next) => Handled(MonitorState(next, checklist), None)
  }

  /** A checkpoint event reaching the monitor, with what Babylon answers while
      it is handled. */
  datatype Arrival = Arrival(bbn: BabylonView, record: CheckpointRecord)

  /** Handling a sequence of checkpoint events one after the other. The run
      loop logs the error of each event and carries on, so errors do not stop
      the sequence and never take a record off the checklist. */
  function CheckpointSteps(s: MonitorState, livenessChecker: bool, verify: MultiSigVerifier, arrivals: seq<Arrival>): (r: MonitorState)
    ensures s.checklist <= r.checklist
    ensures |r.checklist| <= |s.checklist| + |arrivals|
    decreases |arrivals|
  {
    if arrivals == [] then s
    else
      var next := CheckpointStep(s, livenessChecker, verify, arrivals[0].bbn, arrivals[0].record).state;
      CheckpointSteps(next, livenessChecker, verify, arrivals[1..])
  }

  /** One more event after a run is one more CheckpointStep on the state the
      run left, whatever errors came before. */
  lemma {:induction false} CheckpointStepsSnoc(s: MonitorState, livenessChecker: bool, verify: MultiSigVerifier, arrivals: seq<Arrival>, last: Arrival)
    ensures CheckpointSteps(s, livenessChecker, verify, arrivals + [last])
         == CheckpointStep(CheckpointSteps(s, livenessChecker, verify, arrivals), livenessChecker, verify, last.bbn, last.record).state
    decreases |arrivals|
  {
    if arrivals == [] {
      assert ([] + [last])[1..] == [];
    } else {
      var next := CheckpointStep(s, livenessChecker, verify, arrivals[0].bbn, arrivals[0].record).state;
      assert (arrivals + [last])[0] == arrivals[0];
      assert (arrivals + [last])[1..] == arrivals[1..] + [last];
      CheckpointStepsSnoc(next, livenessChecker, verify, arrivals[1..], last);
    }
  }

  /** When the BTC copy fails the epoch or signature check, the verdict does
      not depend on anything Babylon would answer. */
  lemma VerdictIgnoresBabylonBeforeQuery(cur: EpochInfo, verify: MultiSigVerifier, b1: BabylonView, b2: BabylonView, btcCkpt: RawCheckpoint)
    requires !SignedForEpoch(cur, verify, btcCkpt)
    ensures VerifyCheckpoint(cur, verify, b1, btcCkpt) == VerifyCheckpoint(cur, verify, b2, btcCkpt)
  {
  }

  /** On an epoch mismatch the verdict does not depend on the signature
      check either: the check is never consulted. */
  lemma VerdictIgnoresVerifierOnEpochMismatch(cur: EpochInfo, v1: MultiSigVerifier, v2: MultiSigVerifier, bbn: BabylonView, btcCkpt: RawCheckpoint)
    requires btcCkpt.epochNum != cur.epochNumber
    ensures VerifyCheckpoint(cur, v1, bbn, btcCkpt) == VerifyCheckpoint(cur, v2, bbn, btcCkpt)
  {
  }

  predicate AllAnswerRequestedEpoch(arrivals: seq<Arrival>)
  {
    forall i :: 0 <= i < |arrivals| ==> AnswersRequestedEpoch(arrivals[i].bbn)
  }

  /** Beyond growing by at most one record per event (the contract of
      CheckpointSteps), the checklist gains only records that arrived, and
      none when liveness checking is off. */
  lemma {:induction false} ChecklistIsAppendOnly(s: MonitorState, livenessChecker: bool, verify: MultiSigVerifier, arrivals: seq<Arrival>)
    ensures var r := CheckpointSteps(s, livenessChecker, verify, arrivals);
      && (!livenessChecker ==> r.checklist == s.checklist)
      && forall i :: |s.checklist| <= i < |r.checklist| ==>
           exists k :: 0 <= k < |arrivals| && arrivals[k].record == r.checklist[i]
    decreases |arrivals|
  {
    if arrivals != [] {
      var next := CheckpointStep(s, livenessChecker, verify, arrivals[0].bbn, arrivals[0].record).state;
      ChecklistIsAppendOnly(next, livenessChecker, verify, arrivals[1..]);
      var r := CheckpointSteps(s, livenessChecker, verify, arrivals);
      assert r == CheckpointSteps(next, livenessChecker, verify, arrivals[1..]);
      forall i | |s.checklist| <= i < |r.checklist|
        ensures exists k :: 0 <= k < |arrivals| && arrivals[k].record == r.checklist[i]
      {
        if i < |next.checklist| {
          assert next.checklist == s.checklist + [arrivals[0].record];
          assert arrivals[0].record == r.checklist[i];
        } else {
          var k :| 0 <= k < |arrivals[1..]| && arrivals[1..][k].record == r.checklist[i];
          assert arrivals[k + 1].record == r.checklist[i];
        }
      }
    }
  }

  /** The epoch never skips: with Babylon describing the epoch asked for and
      no uint64 wrap-around within the sequence, each event moves the epoch
      forward by at most one, and with liveness checking on every advance is
      matched by a recorded checkpoint. */
  lemma {:induction false} EpochAdvancesByAtMostOnePerCheckpoint(s: MonitorState, livenessChecker: bool, verify: MultiSigVerifier, arrivals: seq<Arrival>)
    requires AllAnswerRequestedEpoch(arrivals)
    requires s.curEpoch.epochNumber as int + |arrivals| <= MaxUint64 as int
    ensures var r := CheckpointSteps(s, livenessChecker, verify, arrivals);
      && s.curEpoch.epochNumber <= r.curEpoch.epochNumber
      && r.curEpoch.epochNumber as int <= s.curEpoch.epochNumber as int + |arrivals|
      && (livenessChecker ==>
            r.curEpoch.epochNumber as int - s.curEpoch.epochNumber as int <= |r.checklist| - |s.checklist|)
    decreases |arrivals|
  {
    if arrivals != [] {
      var h := CheckpointStep(s, livenessChecker, verify, arrivals[0].bbn, arrivals[0].record);
      assert AnswersRequestedEpoch(arrivals[0].bbn);
      assert h.state.curEpoch.epochNumber as int <= s.curEpoch.epochNumber as int + 1;
      assert livenessChecker ==>
        h.state.curEpoch.epochNumber as int - s.curEpoch.epochNumber as int <= |h.state.checklist| - |s.checklist|;
      assert AllAnswerRequestedEpoch(arrivals[1..]) by {
        forall i | 0 <= i < |arrivals[1..]| ensures AnswersRequestedEpoch(arrivals[1..][i].bbn) {
          assert arrivals[1..][i] == arrivals[i + 1];
        }
      }
      EpochAdvancesByAtMostOnePerCheckpoint(h.state, livenessChecker, verify, arrivals[1..]);
    }
  }

  /** The checklist holds records in non-decreasing epoch order, none of them
      ahead of the current epoch. */
  predicate ChecklistBehindEpoch(s: MonitorState)
  {
    && (forall i, j :: 0 <= i < j < |s.checklist| ==>
          s.checklist[i].rawCheckpoint.epochNum <= s.checklist[j].rawCheckpoint.epochNum)
    && (forall i :: 0 <= i < |s.checklist| ==> s.checklist[i].rawCheckpoint.epochNum <= s.curEpoch.epochNumber)
  }

  /** Each record a step adds carries the epoch current at that moment, so the
      order of the checklist is kept. */
  lemma CheckpointStepKeepsChecklistOrder(s: MonitorState, livenessChecker: bool, verify: MultiSigVerifier, bbn: BabylonView, ckpt: CheckpointRecord)
    requires ChecklistBehindEpoch(s)
    requires AnswersRequestedEpoch(bbn)
    requires s.curEpoch.epochNumber < MaxUint64
    ensures ChecklistBehindEpoch(CheckpointStep(s, livenessChecker, verify, bbn, ckpt).state)
  {
  }

  lemma {:induction false} ChecklistStaysOrdered(s: MonitorState, livenessChecker: bool, verify: MultiSigVerifier, arrivals: seq<Arrival>)
    requires ChecklistBehindEpoch(s)
    requires AllAnswerRequestedEpoch(arrivals)
    requires s.curEpoch.epochNumber as int + |arrivals| <= MaxUint64 as int
    ensures ChecklistBehindEpoch(CheckpointSteps(s, livenessChecker, verify, arrivals))
    decreases |arrivals|
  {
    if arrivals != [] {
      var h := CheckpointStep(s, livenessChecker, verify, arrivals[0].bbn, arrivals[0].record);
      assert AnswersRequestedEpoch(arrivals[0].bbn);
      CheckpointStepKeepsChecklistOrder(s, livenessChecker, verify, arrivals[0].bbn, arrivals[0].record);
      assert AllAnswerRequestedEpoch(arrivals[1..]) by {
        forall i | 0 <= i < |arrivals[1..]| ensures AnswersRequestedEpoch(arrivals[1..][i].bbn) {
          assert arrivals[1..][i] == arrivals[i + 1];
        }
      }
      assert h.state.curEpoch.epochNumber as int <= s.curEpoch.epochNumber as int + 1;
      ChecklistStaysOrdered(h.state, livenessChecker, verify, arrivals[1..]);
    }
  }
}
