# Shred reassembly, modelled and proved

This project models the part of the shredstream proxy that turns a stream of shreds back
into ledger entries, and two smaller state machines beside it, in Dafny 4.11. Run
`dafny verify dfyconfig.toml` here to check all of it.

**The reassembler** (`proxy/src/deshred.rs`) takes batches of packets in any order. Per slot
it keeps four parallel vectors (status, shred, finished FEC sets, emitted positions) and the
shreds held per FEC set. Each call ingests a batch, recovers FEC sets by erasure coding, emits
every segment that is complete, and prunes old slots. The reconstructor thread
(`proxy/src/forwarder.rs`) owns one reassembler and drives it; a run is the sequence of batches
that thread takes from its channel.

The model has two layers.

- *Values.* `Trackers`, `FecSets` and `Reassembly` give each operation as a function of values:
  `Update`, `Scan`, `Mark`, `Accept`, `RecoverSet`, `Ingest`, `RecoverAll`, `EmitAll`, `Prune`,
  `Step`, `Run`. What the program promises is proved about these.
- *Objects.* `StateTracker.ShredsStateTracker` (four arrays), `Reassembler.ShredReassembler`
  (a map of entries with trackers, a work list, an output vector, the highest slot) and
  `Reconstructor.ReconstructorLoop` are the imperative code, with its loops and in-place
  updates. Every method is proved to compute the value-level operation.

Everything the reassembler does not decide itself is a parameter. `Codec` holds the library
calls (erasure recovery, deshredding, bincode decoding) as arbitrary functions. `Order` is the
order in which a hash set happens to be iterated during one batch; it may differ in every batch.

Results come in two strengths.

- *Whatever arrives and whatever the libraries return* (`Safety`, `Emissions`, `Bookkeeping`,
  `Conservation`): the redundant structures agree, no position is emitted twice over a whole run
  even across eviction of its slot, each call emits in order, the slot map is bounded, the highest
  slot is the largest that ever arrived, and shreds are conserved.
- *For a slot whose leader is honest* (`Truth`, `HonestSlots`, `HonestRecovery`, `HonestEmission`,
  `HonestRuns`, `Completeness`), with arbitrary traffic for all other slots: as long as the slot
  is in the lookback window, exactly the positions that could be known are known, exactly the
  complete segments have been emitted, each once and with its true content, no useful shred was
  dropped, and arrival order, batching and hash order make no difference.

`SlotInvariants` is an induction principle for what one slot keeps at every moment of every run, and
`Soundness` uses it for results that need neither the window nor all of the hypotheses below: no scan
crosses a segment boundary, every emission is a true segment, only what the arrivals determine is
known, every recovery attempt succeeds, and no data shred is wrongly dropped. Each of them names the
hypotheses it uses; in particular none of them restricts the indexes of coding shreds.

The hypotheses of the second kind are `Truth.Honest` (FEC sets tile the data positions; a shred
closes a segment only as the last of its FEC set; coding headers agree; recovery returns the
missing data when given `k` distinct shreds, data first and each kind by index, with a coding
shred among them; decoding succeeds on
a whole segment and fails on a proper suffix of one that still holds its last FEC set) and
`Completeness.HonestRun` (what arrives for the slot is genuine). Two of them are real restrictions,
and each is shown to be exact:

- The ingest check looks a coding shred's index up among the *data* positions already emitted, so a
  coding shred whose index falls in a foreign segment can be dropped although it is needed.
  `IndexSpaces` proves that every run knows all it could know if and only if no coding index does
  so, and builds the losing run otherwise.
- While the start of a segment is missing, the scan guesses one and relies on the decoder to reject
  the guess. `SuffixDecoding` proves that every run emits every fully determined segment if and only
  if decoding fails on every such suffix, and otherwise builds the run that emits the suffix and
  never the segment.

`Example` shows the hypotheses met together on a slot with a lost shred.

**The counters** (`Counters`, `Watchdog`): forwarder threads add to the current counters, the accessory thread
moves each into its cumulative counter by a swap and an add, and the heartbeat thread restarts its
client when the cumulative count of received packets stands still. Any sequence of atomic steps is
an interleaving.

**The token renewal loop** (`TokenRenewal`), over time in milliseconds.

Where code and comments disagree the model follows the code. `recovered_count` is described as the
number of data shreds recovered (`proxy/src/forwarder.rs:518`), but recovered coding shreds are
counted too: `Example.CodingInflatesCount` is a call that gains one position by recovery and reports
two, and `CountIsDataUnlessCoding`, `CountIsDataUnlessCodeAnswered` and `MetricIsDataUnlessCoding`
say exactly which answers of the library keep the description true, for one call and for a run. The
heartbeat warning "No shreds received recently" can be raised although packets were received
(`RestartDespiteTraffic`); `SilentUntilSwap` says how far back it can be trusted, and
`Watchdog.WarningRightIffAllMoved` for which orders of steps it is always right. The comment on `get_indexes` says that a segment starts after the previous
`DataComplete` or at 0 and that unknown positions are allowed towards the left; what the code does
with one is to start right after it and flag the start as a guess.

`MAX_DATA_SHREDS_PER_SLOT` (32768) and `MAX_PROCESSING_AGE` (150) are constants of the ledger and
SDK crates, which are not part of this model.

## Model

| member | source | states |
|---|---|---|
| `StateTracker.ShredsStateTracker.constructor` | proxy/src/deshred.rs:43-52 | a new tracker has full-length vectors, all unknown and unmarked, shared with no other tracker |
| `StateTracker.ShredsStateTracker.UpdateStateTracker` | proxy/src/deshred.rs:424-444 | the in-place update is the write-once `Update`; it answers the index exactly when the shred was taken, and a data shred taken is stored and closes a segment exactly when it is flagged data-complete or last-in-slot |
| `StateTracker.ShredsStateTracker.AbsorbRecovered` | proxy/src/deshred.rs:158-173 | offering recovered shreds one by one leaves the tracker `Absorb` describes and counts those that were new |
| `StateTracker.ShredsStateTracker.GetIndexes` | proxy/src/deshred.rs:366-392 | the two-way walk terminates and finds the range of the declarative rule, or None exactly when there is none |
| `StateTracker.ShredsStateTracker.FindStart` | proxy/src/deshred.rs:394-420 | the left walk, without underflow, finds the maximal left extension and whether the start is a guess |
| `StateTracker.ShredsStateTracker.MarkDeshredded` | proxy/src/deshred.rs:247-253 | the marking loop marks the indexes and FEC sets of exactly the shreds stored at the range |
| `Trackers.UpdateKeeps` | proxy/src/deshred.rs:424-444 | taking a shred keeps the four vectors in agreement and emitted positions closed to the right |
| `Trackers.TakenStatus` | proxy/src/deshred.rs:435-442 | a data shred that is taken is stored, and its two flags alone decide its status |
| `Trackers.AbsorbKeeps` | proxy/src/deshred.rs:159-173 | any sequence of offered shreds keeps agreement, and entries are write-once |
| `Trackers.RangesCoincide` | proxy/src/deshred.rs:360-420 | the scan rule is unambiguous: two ranges that share a position are equal |
| `Trackers.SegmentCoherence` | proxy/src/deshred.rs:360-420 | every position of a scanned range scans to that same range |
| `Trackers.ScansEqualOrDisjoint` | proxy/src/deshred.rs:360-420 | two successful scans of one tracker are equal or disjoint |
| `Trackers.ScanFailsOnlyRight` | proxy/src/deshred.rs:401-409 | in a closed tracker a scan fails only by its right walk |
| `Trackers.ScanMonotone` | proxy/src/deshred.rs:366-444 | taking more shreds keeps a certain range and only extends a guessed one to the left |
| `Trackers.MarkExactly` | proxy/src/deshred.rs:247-253 | marking an open range marks exactly its positions and finishes every FEC set in it |
| `Trackers.MarkKeeps` | proxy/src/deshred.rs:247-253 | marking keeps agreement and right-closure |
| `FecSets.GetDataShredInfo` | proxy/src/deshred.rs:449-483 | the loop computes the 16-bit fold over the iteration order it meets |
| `FecSets.InfoIgnoresOrder` | proxy/src/deshred.rs:449-483 | for genuine members of one FEC set the order-sensitive fold gives one order-free answer |
| `FecSets.InfoCounts` | proxy/src/deshred.rs:459-471 | on any shreds whatever, each is counted as data or as coding, modulo the counter width |
| `FecSets.LastCodeDecides` | proxy/src/deshred.rs:464-468 | on any shreds whatever, the coding shred met last decides both expected sizes |
| `FecSets.FirstCloserDecides` | proxy/src/deshred.rs:469-473 | without coding shreds, the data-complete or last-in-slot shred met first decides the number of data shreds |
| `FecSets.NothingDecides` | proxy/src/deshred.rs:454-471 | without either the number of data shreds stays unknown |
| `FecSets.CountsAddUp` | proxy/src/deshred.rs:459-482 | data and coding counts make up the held set |
| `FecSets.SortForRecoveryKeeps` | proxy/src/deshred.rs:143-147 | recovery is handed exactly the held shreds, every data shred before every coding shred, each kind by rising index |
| `Reassembly.SortDedupKeeps` | proxy/src/deshred.rs:117-118 | the prepared work list is strictly ascending and holds exactly the collected items |
| `Safety.RunOk` | proxy/src/deshred.rs:59-314 | after every run the vectors of every slot agree and are closed to the right |
| `Safety.StatusFollowsFlags` | proxy/src/deshred.rs:435-442 | in every reachable state a position is DataComplete exactly when the shred stored there is flagged data-complete or last-in-slot, and Unknown exactly when none is stored |
| `Safety.FreshSlotAccepts` | proxy/src/deshred.rs:85-107 | a slot without history takes any shred |
| `Safety.LookbackExact` | proxy/src/deshred.rs:86-91 | a shred more than 50 slots behind the highest is dropped, and one up to 50 behind is taken by a slot without history |
| `Safety.IngestWindow` | proxy/src/deshred.rs:85-107 | the highest slot never decreases, no key exceeds it, and only slots inside the window get work |
| `Safety.SlotMapBounded` | proxy/src/deshred.rs:256-289 | after every run the slot map holds at most max(MAX_PROCESSING_AGE, SLOT_LOOKBACK + 1) = 150 slots |
| `Emissions.WriteOnce` | proxy/src/deshred.rs:424-444 | over any continuation of a run, a stored shred stays at its position as long as its slot stays in the window |
| `Emissions.AtMostOnce` | proxy/src/deshred.rs:85-107 | over every run, eviction and re-creation of slots included, no data position is emitted twice |
| `Emissions.RunCovered` | proxy/src/deshred.rs:183-289 | every emission stays marked in its slot until the slot can receive nothing any more |
| `Emissions.CallEmitsInOrder` | proxy/src/deshred.rs:183-254 | each call of every run emits in strictly increasing order of slot and start |
| `Emissions.EmittedPositionsFilled` | proxy/src/deshred.rs:196-200 | in every state a call emits from, each unwrapped position holds the data shred of that index |
| `Emissions.LeftWalkNeverBlocked` | proxy/src/deshred.rs:401-409 | the left walk's exit at an already emitted position is unreachable |
| `Emissions.KnowledgeMonotone` | proxy/src/deshred.rs:366-444 | in every state a call scans, later shreds never take a scan result back |
| `Emissions.ScanSurvivesCall` | proxy/src/deshred.rs:74-180 | what a scan finds after a run is still found, or grown to the left, once the next call has ingested and recovered, whatever arrives |
| `Emissions.ScanKeptOrEmitted` | proxy/src/deshred.rs:183-254 | over every continuation of a run that leaves the slot in the window, what a scan found has been emitted or is still found |
| `Emissions.EmittedFromCall` | proxy/src/deshred.rs:183-254 | every emission of a run is what the scan for a work item of one of its calls found, in the state reached there |
| `Emissions.EveryEmissionDecoded` | proxy/src/deshred.rs:196-246 | whatever arrives and whatever the libraries return, each emission hands out all the bytes that deshredding makes of the payloads stored at its range and all the entries these deserialize to |
| `Bookkeeping.HighestIsLargestReceived` | proxy/src/deshred.rs:85-107 | the highest slot seen is the largest slot that ever arrived, whatever was rejected |
| `Bookkeeping.SlotsAfterCall` | proxy/src/deshred.rs:256-289 | a call leaves exactly the slots that were there or arrived, dropped shreds included, and of these only those within 50 of the highest once there are more than 150 |
| `Bookkeeping.RepresentationAgrees` | proxy/src/deshred.rs:98-106 | in every reachable state, for each unfinished FEC set the held data shreds are exactly the stored ones |
| `Conservation.CallConserves` | proxy/src/deshred.rs:122-180 | a call's new known positions are the data shreds ingested plus those recovered; its result adds the coding shreds recovered |
| `Conservation.CountIsDataUnlessCoding` | proxy/src/forwarder.rs:518-519 | the returned count is the number of recovered data positions if and only if at no work item where recovery is tried the library answers with a coding shred of a FEC set not finished by then |
| `Conservation.CountIsDataUnlessCodeAnswered` | proxy/src/deshred.rs:122-180 | when the library answers only for the FEC set it is given, in every reachable state the same holds with a condition on the shreds held once the batch is ingested: no answer has a coding shred in it |
| `Conservation.MetricIsDataUnlessCoding` | proxy/src/deshred.rs:307-313 | over a whole run the metric is the number of positions gained by recovery if and only if no call got such an answer |
| `Conservation.AbsorbedCodeExact` | proxy/src/deshred.rs:159-167 | each offered coding shred of an unfinished FEC set is counted once |
| `Conservation.AttemptOutcome` | proxy/src/deshred.rs:122-180 | a recovery attempt finishes its FEC set and lets go of its held shreds exactly when the answer holds something new; a failed attempt changes nothing |
| `Conservation.RunConserves` | proxy/src/deshred.rs:307-313 | over a run the metric makes up the difference between positions gained and data ingested |
| `HonestSlots.RejectedIsRedundant` | proxy/src/deshred.rs:92-100 | a genuine shred is turned away only when its FEC set is finished or it was received before |
| `HonestRecovery.AccountingExact` | proxy/src/deshred.rs:123-140 | in every iteration order the accounting names the set's true size or nothing, counts every held shred, and tries recovery only with a coding shred for each missing data shred |
| `HonestRecovery.AttemptSucceeds` | proxy/src/deshred.rs:142-173 | in a tiled slot, every attempt on an unfinished FEC set with genuine held shreds succeeds and makes the whole set known |
| `HonestRecovery.RecoverSetSettles` | proxy/src/deshred.rs:123-180 | after an attempt nothing more can be recovered for the FEC set |
| `HonestEmission.RangeWithinSegment` | proxy/src/deshred.rs:366-420 | a scanned range is a suffix of one true segment, the whole of it when the start is certain |
| `HonestEmission.EmitsTrueSegment` | proxy/src/deshred.rs:196-246 | whatever is emitted is one whole true segment, with all the bytes its true payloads deshred to and all their entries |
| `HonestEmission.KnownSegmentIsEmittable` | proxy/src/deshred.rs:183-246 | a fully known segment not yet emitted is emitted by scanning any of its positions, if whole segments decode |
| `Completeness.RunEmerging` | proxy/src/deshred.rs:59-314 | after every run a live slot has no recovery and no emission outstanding |
| `Completeness.KnownExactly` | proxy/src/deshred.rs:77-180 | the known positions of a live slot are exactly those that arrived and those of FEC sets with `k` distinct shreds arrived |
| `Completeness.EmittedExactly` | proxy/src/deshred.rs:183-254 | the emissions of a live slot are exactly its fully determined true segments, each with the bytes its payloads deshred to and their entries |
| `Completeness.ExactlyOnce` | proxy/src/deshred.rs:117-254 | each such segment stands at one place of the output, with those bytes and entries, and no other emission overlaps it |
| `Completeness.FullRescanEmitsNothing` | proxy/src/deshred.rs:183-254 | the incremental scan misses nothing: scanning all FEC sets of the slot again would emit nothing |
| `Completeness.BatchingIndependence` | proxy/src/forwarder.rs:108-129 | two runs that received the same shreds agree on the window, the known positions and the emissions |
| `Completeness.NoCodingShredWronglyDropped` | proxy/src/deshred.rs:92-100 | at every moment of every run a coding shred of a live slot that is turned away was received before or belongs to a fully known FEC set |
| `IndexSpaces.StrayIndexLosesPosition` | proxy/src/deshred.rs:92-97 | when a coding index falls in a foreign segment, some run of genuine shreds loses a position it could know |
| `IndexSpaces.KnowsDeterminedIffIndexesFit` | proxy/src/deshred.rs:92-97 | every run knows exactly what it could know if and only if no coding index falls in a foreign segment |
| `SuffixDecoding.SuffixLosesSegment` | proxy/src/deshred.rs:401-419 | when a suffix that keeps the last FEC set decodes, a run that receives the suffix first gets the whole segment and never emits it |
| `SuffixDecoding.EmitsDeterminedIffSuffixesFail` | proxy/src/deshred.rs:190-246 | every run emits every fully determined segment if and only if decoding fails on those suffixes |
| `SlotInvariants.RunKeeps` | proxy/src/deshred.rs:59-314 | a property of one slot's state that a fresh slot has and that survives a received shred, a recovery attempt and an emission holds after every run, eviction and re-creation included |
| `SlotInvariants.DuringRecoveryKeeps` | proxy/src/deshred.rs:74-180 | such a property holds at every work item of the recovery phase of the next call |
| `SlotInvariants.DuringEmissionKeeps` | proxy/src/deshred.rs:183-254 | such a property holds at every work item of the emission phase of the next call |
| `Soundness.RunTrue` | proxy/src/deshred.rs:98-106 | when what arrives for a slot is genuine and so are the library's answers to genuine shreds of one FEC set, then after every run all the slot stores and holds is genuine, under its own FEC set |
| `Soundness.EveryScanWithinSegment` | proxy/src/deshred.rs:183-200 | in every state a call scans, under those hypotheses alone, the range found is a suffix of one true segment, the whole of it when the start is certain |
| `Soundness.EveryEmissionTrue` | proxy/src/deshred.rs:196-246 | in every run of genuine shreds, live or not, each emission of a tiled slot is a whole true segment with the bytes its payloads deshred to and their entries, if suffixes fail to decode and answers are genuine |
| `Soundness.EveryEmissionDetermined` | proxy/src/deshred.rs:122-254 | each emission of a tiled slot lies within its data and what arrived determines every position of it, if the library answers with genuine shreds of the FEC set it was given |
| `Soundness.OnlyDeterminedKnown` | proxy/src/deshred.rs:77-180 | after every run, live or not, a known position arrived or lies in a FEC set of which `k` distinct shreds arrived |
| `Soundness.WorkingRecoveryAnswers` | proxy/src/deshred.rs:123-156 | in a tiled slot the calls made on genuine shreds meet the library's conditions, so a library that works answers them with genuine shreds of the set |
| `Soundness.EveryAttemptSucceeds` | proxy/src/deshred.rs:123-173 | at every recovery attempt of every run, live or not and wherever coding indexes fall, the accounting is exact, the library call has a coding shred for each missing data shred and succeeds, and its answer completes the FEC set |
| `Soundness.NoDataShredWronglyDropped` | proxy/src/deshred.rs:92-100 | at every moment of every run, wherever coding indexes fall, a data shred that is turned away while its slot is in the window is already stored |
| `Example.LostShredIsNoLoss` | proxy/src/deshred.rs:122-254 | the hypotheses of the run theorems hold together on a concrete slot, and its segment is emitted although a data shred was lost |
| `Example.CodingInflatesCount` | proxy/src/deshred.rs:158-180 | a call that ingests one data shred, comes to know two positions and returns a count of two recovered shreds |
| `Example.StrayPositionLost` | proxy/src/deshred.rs:92-97 | a concrete slot with a stray coding index, on which some run loses a position |
| `Example.SplitSegmentLost` | proxy/src/deshred.rs:401-419 | a concrete slot with a suffix that decodes, on which some run never emits the segment |
| `Reassembler.OfferTo` | proxy/src/deshred.rs:92-105 | offering a shred to a slot's entry is `Accept` on its value |
| `Reassembler.RecoverIn` | proxy/src/deshred.rs:124-179 | one recovery attempt on an entry is `RecoverSet` on its value |
| `Reassembler.EmitFrom` | proxy/src/deshred.rs:184-253 | one scan of an entry emits and marks what the value-level scan emits and marks, never unwraps a missing shred, and outputs the entries its bytes deserialize to |
| `Reassembler.ShredReassembler.constructor` | proxy/src/forwarder.rs:95-106 | a new reassembler has the initial state |
| `Reassembler.ShredReassembler.EnsureEntry` | proxy/src/deshred.rs:85 | the entry of a slot, created when missing, leaves every other slot as it was |
| `Reassembler.ShredReassembler.IngestPacket` | proxy/src/deshred.rs:77-116 | one packet changes state and work list as `IngestOne` |
| `Reassembler.ShredReassembler.IngestBatch` | proxy/src/deshred.rs:74-118 | the ingest phase is `Ingest`, and the work list is sorted without repeats |
| `Reassembler.ShredReassembler.RecoverPhase` | proxy/src/deshred.rs:122-180 | the recovery phase is `RecoverAll`, state and count |
| `Reassembler.ShredReassembler.EmitPhase` | proxy/src/deshred.rs:183-254 | the emission phase is `EmitAll`, state and appended output |
| `Reassembler.ShredReassembler.PruneOld` | proxy/src/deshred.rs:256-289 | pruning keeps exactly the slots of the window once the map is too large |
| `Reassembler.ShredReassembler.ReconstructShreds` | proxy/src/deshred.rs:59-314 | one call computes `Step`: next state, returned count added to the metric, and an output vector with slot, entries and bytes of each emission |
| `Reconstructor.ReconstructorLoop` | proxy/src/forwarder.rs:95-133 | the thread sends, one for one and in order, the slot and bytes of every emission of the run over the delivered batches |
| `Counters.HandOffConserves` | proxy/src/forwarder.rs:689-701 | in every interleaving, the cumulative, current and in-flight counts add up to all that was added, modulo the counter width |
| `Counters.HandOffExact` | proxy/src/forwarder.rs:689-701 | without overflow the cumulative, current and in-flight counts add up exactly |
| `Counters.StageByResets` | proxy/src/forwarder.rs:689-701 | the accessory thread goes through the four counters in turn, a swap and an add for each |
| `Counters.EveryCounterMoved` | proxy/src/forwarder.rs:689-701 | whatever was added to any counter is in its cumulative count once the accessory thread has taken nine more steps, in every interleaving without overflow |
| `Counters.CumulativeNeverDecreases` | proxy/src/forwarder.rs:689-701 | without overflow cumulative counters never decrease |
| `Counters.RestartsIffNothingMoved` | proxy/src/heartbeat.rs:165-176 | a tick restarts the client exactly when nothing was moved since the previous tick |
| `Counters.RestartsIffMovedWraps` | proxy/src/heartbeat.rs:165-176 | without any bound on the counts, a tick restarts exactly when what was moved since the last one is a multiple of the counter width |
| `Counters.FirstTickRestarts` | proxy/src/heartbeat.rs:77-176 | the first tick restarts exactly when nothing has been moved at all |
| `Counters.RestartDespiteTraffic` | proxy/src/heartbeat.rs:164-167 | a run in which a packet was received and the tick restarts all the same |
| `Counters.RestartJustified` | proxy/src/heartbeat.rs:164-167 | at a restart, nothing was received since the last tick exactly when the unmoved count, in-flight packets included, is unchanged |
| `Counters.SilentUntilSwap` | proxy/src/heartbeat.rs:164-167 | if the received count was swapped out and added between two ticks and the second restarts, nothing was received from the first tick to the swap, and the first tick had seen everything |
| `Watchdog.WarningRightIffAllMoved` | proxy/src/heartbeat.rs:164-176 | for an order of steps, the warning is right whatever amounts are received if and only if every step since the last tick that counts received packets is followed by a swap of that count and its add |
| `Watchdog.CountersDoNotTell` | proxy/src/heartbeat.rs:164-167 | two runs that agree on every counter at a tick that restarts, of which only one received a packet since the previous tick |
| `TokenRenewal.RefreshLoop` | proxy/src/token_authenticator.rs:129-199 | the loop computes the run of iterations and ends with the bearer, expiry and refresh token handed out last |
| `TokenRenewal.TokensAreLatest` | proxy/src/token_authenticator.rs:145-180 | after every run the bearer and its expiry are those of the last successful renewal, the refresh token that of the last successful full authentication, and the initial ones before that |
| `TokenRenewal.TimePasses` | proxy/src/token_authenticator.rs:132-199 | an iteration lasts 5 s when nothing is to be renewed and otherwise as long as its request |
| `TokenRenewal.RenewsBelowFiveMinutes` | proxy/src/token_authenticator.rs:135-165 | each token is renewed exactly when it has less than 5 minutes left, the refresh token first |
| `TokenRenewal.BearerNeverExpires` | proxy/src/token_authenticator.rs:132-199 | with renewals, retries included, below 295 s and tokens that outlast one, at every instant the bearer is the access token handed out last and that token is valid |
| `TokenRenewal.RefreshTokenOutlivesRequest` | proxy/src/token_authenticator.rs:135-177 | each refresh request uses the refresh token handed out last, with 5 minutes left at its clock sample, which outlives the request |
| `TokenRenewal.LimitIsExact` | proxy/src/token_authenticator.rs:132-199 | 295 s is exact: with any larger bound a timely run lets the token run out |

## Left out

- RestartJustified: its condition includes the amount in flight, which only the accessory thread sees, because no counter the heartbeat thread can read decides the question (`Watchdog.CountersDoNotTell`); `Watchdog.WarningRightIffAllMoved` gives the exact condition on the order of steps.
- Reed-Solomon arithmetic, Merkle proofs, shred byte parsing, deshredding and bincode are in other crates: they are arbitrary functions here, and hypotheses where a theorem needs them.
- Shreds whose index or FEC set index is out of the vectors' range: the ledger crate's parser rejects them, and the code would panic; the type `Index` excludes them.
- `ComparableShred` equality ignores some payload bytes; held shreds are compared by identity here.
- 16-bit counter overflow in `get_data_shred_info` wraps as in a release build; a debug build would panic.
- The incomplete-FEC report while pruning, `debug_remaining_shreds`, logs and datapoints: reporting only.
- The error, entry and transaction counters of a call, and the per-address packet counts: they would only add easy members.
- Atomic steps of `Counters` interleave in one order; the effects of relaxed memory ordering between different counters are not modelled.
- `TokenRenewal` has no missing tokens or expiration times in replies; the code unwraps them and would panic.
- The exit flag ends the modelled loops where their input sequence ends.
- UDP, multicast, packet forwarding, the deduper, gRPC, discovery, Prometheus, command line, signal handling and the broadcast relay: plumbing around the modelled core.
- Heartbeat sending, interval changes and reconnection: only the restart decision at a metrics tick is modelled.
