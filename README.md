# Monitor of BTC checkpoints against Babylon — a Dafny model

This project models the verification core of the vigilante monitor. The
monitor watches Bitcoin for checkpoints of Babylon epochs. Each checkpoint
found on BTC is checked against the current epoch's validator set and against
Babylon's own copy of the same checkpoint. The model covers:

- the monitor's state: the current epoch (`curEpoch`: an epoch number and its
  validator set), the append-only checklist of `(RawCheckpoint,
  FirstSeenBtcHeight)` records kept for the liveness checker, and the
  `LivenessChecker` flag;
- the five-stage verification cascade `VerifyCheckpoint`: epoch match, BLS
  multi-signature of the BTC copy, query of Babylon's copy, BLS
  multi-signature of Babylon's copy, equality of `LastCommitHash`;
- `handleNewConfirmedCheckpoint`, which turns each outcome into an effect on
  the checklist and the epoch, and into an error returned or swallowed;
- `UpdateEpochInfo`, `addCheckpointToCheckList`, `GetCurrentEpoch`, the
  constructor `New`, and the header check `checkHeaderConsistency`;
- `GetSortedValSet`, which sorts a validator set in place by the numeric key of
  each address.

Files:

- `types.dfy` (module `MonitorTypes`) holds the data model. It has the Go
  integer widths as newtypes, the checkpoint, record, validator, epoch and
  header datatypes, and the error kinds. It also gives the types of the
  external collaborators.
- `valset.dfy` (module `ValSet`) holds the in-place sort on an `array` and
  the lemmas that the sorted order is canonical.
- `verification.dfy` (module `MonitorSpec`) holds the verification cascade and
  the header check as pure functions. It also holds `CheckpointStep`, which
  specifies the checkpoint handler as a function of the old state, and
  `CheckpointSteps`, a sequence of handled checkpoints, with lemmas about it.
- `monitor.dfy` (module `Monitor`) holds the class `Monitor`. Its fields
  `curEpoch` and `checkpointChecklist` are updated by methods. Each method is
  proved against `CheckpointStep` or states its new state directly.

External collaborators are parameters:

- BLS aggregate-signature verification is a function value
  `MultiSigVerifier`. The monitor fixes it at construction.
- The BTC header hash is a function value `HeaderHasher`.
- Decoding a Bech32 address to a big-endian uint64 is a function value
  `AddressKey`. It returns `None` when the address does not parse.
- The Babylon querier is a `BabylonView`: three function values that answer a
  value or fail. One view is passed to each handler call, because Babylon's
  answers can change between events. Each lemma holds for every view, except
  that the three epoch-ordering lemmas assume that the next-epoch answer
  carries the epoch asked for (see "## Left out").

`VerifyCheckpoint` returns a `Verdict`. It holds the error (or `None`) and
the ordered list of calls made to collaborators. This list makes "no query is
made" something the contract can state.

Points where the model follows the code's exact behaviour:

- When an inconsistent `LastCommitHash` is found (a fork), the handler only
  returns an error (monitor/monitor.go:120-122). The run loop logs that error
  and keeps going (monitor/monitor.go:90-94). So the model has no halting or
  faulted state. `CheckpointSteps` carries on after every error.
- The code sorts with `sort.Slice`, which is not stable, so validators with equal keys may come out in either
  order. The model proves only what holds for any such sort:
  - every sorted arrangement has the same key sequence
    (`SortedPermutationsHaveSameKeys`);
  - when all keys are distinct, the whole sequence is fixed
    (`StrictlySortedIsUnique`).
- The code computes the next epoch as `GetCurrentEpoch() + 1` on a uint64
  (monitor/monitor.go:135). This wraps to 0 after `2^64 - 1`. `Succ` models
  the wrap. The lemmas about epochs advancing assume no wrap-around occurs.
- `sort.Slice` never calls its comparison for fewer than two elements. So a
  roster of zero or one validators never panics, even with an unparseable
  address. The precondition of `GetSortedValSet` (and of `New`) asks for
  parseable addresses only when there are at least two validators.

## Model

| member | source | states |
|---|---|---|
| `MonitorTypes.Succ` | monitor/monitor.go:135 | The next epoch number is the current one plus 1, modulo 2^64 (Go uint64 arithmetic). |
| `ValSet.GetSortedValSet` | monitor/monitor.go:207-222 | Sorts the array in place. The result is a permutation of the input, and address keys are non-decreasing along it. Addresses must parse whenever there are two or more validators, since the comparison panics otherwise. |
| `ValSet.SortedPermutationsHaveSameKeys` | monitor/monitor.go:207-222 | Any two sorted arrangements of the same validator set have identical key sequences. The sort is canonical up to validators with equal keys. |
| `ValSet.StrictlySortedIsUnique` | monitor/monitor.go:207-222 | With pairwise distinct keys, the sorted arrangement is unique. Sorting the same set twice gives the same sequence. |
| `MonitorSpec.VerifyCheckpoint` | monitor/monitor.go:149-176 | Each error kind is returned exactly when every earlier stage passed and its own stage fails. `InvalidEpochNum` iff the epochs differ. Success iff the epoch matches, both signatures verify, and the two `LastCommitHash` values are equal. `InconsistentLastCommitHash` iff both copies are valid and the hashes differ. Calls happen in stage order. No call is made on an epoch mismatch. No query is made if the local signature fails. The Babylon copy is not checked if the query fails. |
| `MonitorSpec.VerdictIgnoresBabylonBeforeQuery` | monitor/monitor.go:149-160 | When the checkpoint's epoch is not the current one or its signature fails, the verdict is the same whatever Babylon would answer. |
| `MonitorSpec.VerdictIgnoresVerifierOnEpochMismatch` | monitor/monitor.go:151-154 | When the checkpoint's epoch is not the current one, the verdict is the same whatever the signature check would answer. |
| `MonitorSpec.CheckHeaderConsistency` | monitor/monitor.go:193-205 | Gives no error iff Babylon answers that it contains the header's hash. It gives a query error iff the query fails, and a not-found error iff Babylon answers false. |
| `MonitorSpec.CheckpointStep` | monitor/monitor.go:111-142 | Appends exactly the record iff liveness checking is on and both copies are valid (success or inconsistent hash). The append happens even when the epoch update then fails. Replaces the epoch by Babylon's next-epoch answer iff verification succeeded and that query answered. Any other verification failure is swallowed: state unchanged, nil returned. An error reaches the caller exactly for an inconsistent hash and for a failed epoch query. With a Babylon that answers the epoch asked for, the epoch number becomes `Succ` of the old one exactly then. |
| `MonitorSpec.CheckpointSteps` | monitor/monitor.go:90-94 | Applies `CheckpointStep` to each arrival in order; a handler error does not stop the run. Over the whole run the old checklist stays a prefix of the new one, and at most one record is added per event. |
| `MonitorSpec.CheckpointStepsSnoc` | monitor/monitor.go:90-94 | Handling one more event after a run is exactly one more `CheckpointStep` on the state the run left, whatever errors the earlier events returned. |
| `MonitorSpec.ChecklistIsAppendOnly` | monitor/monitor.go:178-181 | Over any sequence of handled checkpoints, every added record is one that arrived. Nothing is added with liveness checking off. |
| `MonitorSpec.EpochAdvancesByAtMostOnePerCheckpoint` | monitor/monitor.go:129-141 | Over any sequence of handled checkpoints, the epoch never decreases and rises by at most the number of events. With liveness checking on, it rises by at most the number of records added. This assumes Babylon answers the epoch asked for and no uint64 wrap-around occurs. |
| `MonitorSpec.CheckpointStepKeepsChecklistOrder` | monitor/monitor.go:114-131 | A handled checkpoint keeps the checklist in non-decreasing epoch order, with no record ahead of the current epoch. This holds because a record can be added only when its epoch is the current one. It assumes Babylon answers the epoch asked for and the current epoch is below the largest uint64, so the next epoch does not wrap to 0. |
| `MonitorSpec.ChecklistStaysOrdered` | monitor/monitor.go:90-94 | The checklist order invariant holds across a whole run of checkpoint events. The run loop keeps going after every handler error. It assumes Babylon answers the epoch asked for at every event and no uint64 wrap-around occurs within the run. |
| `Monitor.Monitor.New` | monitor/monitor.go:40-57 | Sorts the genesis validator set in place. Starts at epoch 0 with that sorted set and an empty checklist, and keeps the configured liveness flag. |
| `Monitor.Monitor.GetCurrentEpoch` | monitor/monitor.go:144-146 | Gives the number of the current epoch. |
| `Monitor.Monitor.HandleNewConfirmedCheckpoint` | monitor/monitor.go:111-142 | The new epoch, the new checklist and the returned error are exactly those of `CheckpointStep` applied to the old state. |
| `Monitor.Monitor.AddCheckpointToCheckList` | monitor/monitor.go:178-181 | Appends exactly one copy of the record to the checklist. Changes nothing else. |
| `Monitor.Monitor.UpdateEpochInfo` | monitor/monitor.go:183-191 | If Babylon answers the query for the epoch, the current epoch becomes the answer and no error is returned. Otherwise the current epoch is unchanged and a query error is returned. The checklist is untouched. |

## Left out

- `Start`, `Stop`, `runBTCScanner`, `runLivenessChecker`, the `select` over channels, the `sync.WaitGroup`, the `atomic.Bool` `started` flag and the `quit` channel are left out. Their job is concurrency and shutdown. `CheckpointSteps` covers only how the loop chains checkpoint events and ignores their errors. The guard at monitor/monitor.go:61-64 makes a second `Start` log and return without effect. It is not modelled.
- `handleNewConfirmedHeader` (monitor/monitor.go:107-109) only delegates to `checkHeaderConsistency`. It is modelled as `CheckHeaderConsistency`, a function, so no monitor state can change.
- BLS aggregate-signature and quorum verification (`VerifyMultiSig`) is an uninterpreted `MultiSigVerifier`. Its source is not part of this model.
- The Babylon querier's RPCs are `BabylonView` function values that answer or fail: `QueryRawCheckpoint`, `QueryInfoForNextEpoch` and `ContainsBTCHeader`. The metadata around Babylon's raw checkpoint is dropped. The model assumes that errors from the querier and from BLS verification never wrap `ErrInconsistentLastCommitHash`. Under that assumption, the `sdkerrors.IsOf` test at monitor/monitor.go:114 holds only for the hash-mismatch stage.
- Bech32 address decoding and `sdk.BigEndianToUint64` are one opaque `AddressKey`. The header's double-SHA256 `BlockHash` is an opaque `HeaderHasher`.
- Log calls and error-message texts are left out. Errors are a datatype of kinds. Each error is the kind of the place that returns or wraps it.
- The internals of `CheckpointsBookkeeper` are not part of this model. The checklist is an append-only sequence.
- `GetSortedValSet` is an insertion sort, not Go's pattern-defeating quicksort. Only the promises of `sort.Slice` are stated: a permutation, non-decreasing keys, and no order among equal keys.
- `GetSortedValSet` in the source returns the same set it sorted. The model modifies the array and returns nothing. The aliasing in `New` shows as the genesis array ending up sorted.
- `MonitorSpec.EpochAdvancesByAtMostOnePerCheckpoint`: this is stated only for a Babylon that answers the epoch it is asked for, and without uint64 wrap-around. The code itself enforces neither.
- `MonitorSpec.CheckpointStepKeepsChecklistOrder`: this is stated only for a Babylon that answers the epoch it is asked for, and for a current epoch below the largest uint64. The code enforces neither: monitor/monitor.go:188 stores whatever `QueryInfoForNextEpoch` returns, and monitor/monitor.go:135 wraps to 0.
- `MonitorSpec.ChecklistStaysOrdered`: this is stated only for a Babylon that answers the epoch it is asked for at every event, and without uint64 wrap-around within the run. The code enforces neither, for the same reasons.
