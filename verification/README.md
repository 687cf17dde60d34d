# Verified model of the Lobby nonce relay

A relay accepts transactions, gives each a nonce of its sender, signs, broadcasts and
validates it. Four database tables coordinate this. The project models the nonce ledger,
the pipeline of one execution over the sign, broadcast and validation tables, the
RLP / EIP-1559 encoder, and two smaller algorithms, and proves what they guarantee.

**The ledger** (`Ledger*.dfy`, `NonceActor.dfy`) is a map from (execution, revision) to rows.
Every SQL statement of reserve, sync, resolve and the sweeper is one atomic event, stamped by
a monotone clock; a statement that would violate `uniq_active_nonce` or overflow a BIGINT has
no effect. Guarantees are lemmas over all finite runs, hence over all interleavings. The class
`NonceEngine` runs the same statements imperatively: each handler says which events it and
others committed, between its own statements too, and that its table is the run of those events.

**The lease tables** (`LeaseTable.dfy`, `Signing.dfy`, `Broadcast*.dfy`, `Validation.dfy`) share one
shape: a pending row is claimed, then settled or freed. Each statement sent to the database may
run, fail, or commit and lose its reply, and a transaction sent to the node may be answered Ok,
refused, or taken while the caller gets an error.

**The pipeline** has two parts. `Protocol*.dfy` says, as a function, what the pipeline does next
and which statuses it shows, from the log of its calls and of the replies to every attempt; what
holds of every log is proved there. `Pipelines.dfy` is the program over the four engines. It sends
every request through an actor's handle (`Channels.dfy`), which may lose the request or the reply
and records both; its log must match those records, and it is proved to follow the protocol and to
leave the tables where the protocol says (`NonceDisposition.dfy`, `Agreement.dfy`). The RPC, the
database, the fate of each request and the schedule of other executions are adversarial.
`NonceReuse.dfy` joins ledger runs and sends of several executions, and `RecoveryScenario.dfy`
exhibits a recovery on all the tables at once.

**The encoder** (`Rlp.dfy`, `RlpStreams.dfy`, `Eip1559*.dfy`) is proved against a strict decoder
written from the Yellow Paper, Appendix B, and from the "Specification" sections of EIP-1559,
EIP-2718 and EIP-2930.

**Where the code and what is said of it differ**, the model follows the code:

- A blocked reserve still consumes a released nonce, which is then handed to nobody
  (`BlockedReserveSpendsNonce`); this is why `GapFreeStepIff` has the exception it has.
- Consumed nonces are described as not recycled. In a gap-free ledger the next unguarded reserve
  is given the consumed nonce exactly if the sender has no released row and no live row above it
  (`ConsumedIsReissuedIff`, exhibited by `ConsumedTopIsReissued`). Below a finalized nonce it stays
  retired until a sync to it (`RetiredRun`).
- A send whose reply is lost is recorded as rejected, although the node may have taken it. "At most
  once" therefore holds of Ok answers (`OkAtMostOnce`). The node can be given a second, different
  transaction of an execution exactly if a reply was lost (`ExposedIff`, `DoubleSubmission`), and
  the pipeline gives it one only after the recovery from a nonce too low
  (`TwoTransactionsMeanRecovery`).
- The sweeper releases a reservation after 2 min 5 s, before the 300 s validation timeout
  (`SweptWhileValidating`); comments in the pipeline speak of a lease of five minutes.
- Sync can finalize a nonce that an older row still holds as released (`SenderClogs`). The
  sender then gets no nonce at or above it from reserve, until a reserve blocked by its guard
  happens to consume the released row (`ClogRun`).
- A resolve changes the latest reserved row, but when there is none it looks at the latest row of
  all. Asked for again it is told Ok if it had hit the latest row and nobody took that over
  (`RetryIsTold`), and refused if the row it had settled was an older one
  (`RetryOfOlderRowRefused`).
- In the sign, broadcast and validation tables an expired active row is never taken over: the
  two-minute guard lets the insert through and the unique index then aborts it
  (`ClaimSucceedsIff`).
- A signature component of zero is written as a zero byte, which is not a canonical scalar
  (`SignedRoundTripIff`); storage keys are trimmed like scalars, where EIP-2930 wants 32 bytes
  (`KeysFixedWidthIff`).
- Statuses are described as monotone. They are exactly in the runs in which no sync reported a
  nonce; in the others no ranking of the statuses makes them advance (`MonotoneIff`), and such a
  run exists (`RecoveryExists`, `RecoveryHappens`).

## Model

| member | source | states |
|---|---|---|
| Ledger.MaxNonce | crate/actors/src/nonce/engine.rs:95-101 | the highest nonce among the sender's reserved and finalized rows, -1 when there is none; consumed and released rows do not count |
| Ledger.Existing | crate/actors/src/nonce/engine.rs:135-152 | the row a guarded reserve or sync reports: the latest reserved or finalized row of the execution, if any |
| Ledger.Target | crate/actors/src/nonce/engine.rs:300-313 | the row a resolve changes: the latest reserved row of the execution, if any |
| LedgerInvariants.InvStep | database/migrations/20260128093012_nonce.sql:24-47 | every statement keeps one active row per (chain, sender, nonce), revisions exactly 1..k, and timestamps that never run ahead of the clock |
| LedgerInvariants.InvRun | crate/actors/src/nonce/engine.rs:61-367 | the same over every run of reserve, sync, resolve and sweep |
| LedgerInvariants.AuditRun | crate/actors/src/nonce/engine.rs:77-133 | no run deletes a row or changes its nonce or owner; states move only from reserved, or from released to consumed |
| LedgerInvariants.TwoChangesAtMost | crate/actors/src/nonce/engine.rs:88-93 | in every run a row changes state at most twice |
| LedgerInvariants.LeaseRun | lobby/src/bots/sweeper.rs:50-64 | until its execution is resolved or it is older than 2 min 5 s, a reserved row stays as it is and no statement hands its nonce to anyone, nor is another execution told it |
| LedgerInvariants.GrantIsExclusive | crate/actors/src/nonce/engine.rs:77-133 | the same, counted from the reserve or sync that grants the nonce |
| LedgerInvariants.NonceHeldTwice | database/migrations/20260128093012_nonce.sql:24-47 | if two rows hold the same nonce of a sender at two moments of a run, the first was released or consumed by its own execution in between, or swept when older than 2 min 5 s |
| NonceReuse.NonceAnsweredTwice | crate/cortex/src/pipeline.rs:263-579 | over a ledger run and the sends of many executions, each held while sending unless swept before: two Ok answers for transactions of one sender with one nonce are of two executions, and one of them outlived its lease, or released or consumed the nonce after its Ok answer |
| LedgerInvariants.ReserveIsIdempotent | crate/actors/src/nonce/engine.rs:117-156 | within its two-minute lease an unresolved execution that asks again adds no row and is told the same nonce at every point of the run |
| LedgerInvariants.SyncIsExact | crate/actors/src/nonce/engine.rs:185-283 | after its only active row was consumed, an execution's sync answers the on-chain nonce or an error, whatever others commit before and between its two statements |
| LedgerInvariants.SweepShrinks | lobby/src/bots/sweeper.rs:50-64 | a tick of the sweeper releases stale reservations and nothing else, and at least one if there is any |
| LedgerInvariants.SweepIsFirstHundred | lobby/src/bots/sweeper.rs:50-64 | a tick takes reservations older than 2 min 5 s only, a hundred at most, and leaves an execution that has one out only after a hundred lower ones |
| LedgerInvariants.SweeperDrains | lobby/src/bots/sweeper.rs:20-43 | over a run in which no new row goes stale, the stale rows left plus the ticks made are at most the stale rows at the start, or none is left, whatever else is committed between ticks |
| LedgerAllocation.UniqueLiveStepIff | crate/actors/src/nonce/engine.rs:185-223 | a statement breaks "one reserved, finalized or released row per nonce" exactly when it is a sync that inserts over a released row of the on-chain nonce |
| LedgerAllocation.ReserveConflictIff | crate/actors/src/nonce/engine.rs:95-115 | a reserve that passes its guard meets the unique index exactly when the lowest released nonce is also held by an active row |
| LedgerAllocation.SyncFreeRun | crate/actors/src/nonce/engine.rs:79-115 | in a run without sync that uniqueness holds throughout and the index aborts no reserve |
| LedgerAllocation.GapFreeStepIff | crate/actors/src/nonce/engine.rs:79-124 | a statement other than sync keeps every sender's live nonces exactly 0..m-1 if and only if it does not retire a nonce below the highest, by consuming it or by a blocked reserve |
| LedgerAllocation.GapFreeRun | crate/actors/src/nonce/engine.rs:79-124 | a run that never does so keeps allocation gap-free |
| LedgerAllocation.AllocationIsGapFree | crate/actors/src/nonce/engine.rs:79-124 | with no sync, no consuming resolve and no reserve by an execution that is still guarded, each sender's live rows carry exactly 0..m-1, each once |
| LedgerAllocation.ConsumedIsReissuedIff | crate/actors/src/nonce/engine.rs:79-124 | after an execution consumed its nonce in a gap-free ledger, a reserve that its guard lets through is given that nonce if and only if the sender has no released row and no live row above it |
| LedgerAllocation.RetiredStepIff | crate/actors/src/nonce/engine.rs:95-115 | a nonce below a finalized one, in no reserved or released row, is handed out by a statement, and comes back into use, exactly when that is a sync to it |
| LedgerAllocation.RetiredRun | crate/actors/src/nonce/engine.rs:95-115 | until such a sync no reserve of any run hands it out |
| LedgerAllocation.HolesComeFromSync | crate/actors/src/nonce/engine.rs:185-223 | in every run each nonce below an assigned one was itself assigned or lies below a synced one |
| LedgerAllocation.ClogRun | crate/actors/src/nonce/engine.rs:79-115 | while a nonce of a sender is finalized in one row and released in another, every reserve of that sender is given a lower nonce or none, until a reserve blocked by its guard consumes the released row |
| LedgerScenarios.BlockedReserveSpendsNonce | crate/actors/src/nonce/engine.rs:79-124 | a run from the empty ledger in which a guarded reserve consumes a released nonce and inserts nothing |
| LedgerScenarios.ConsumedTopIsReissued | crate/actors/src/nonce/engine.rs:95-101 | the run that shows a consumed nonce handed out again, as ConsumedIsReissuedIff allows |
| LedgerScenarios.SweptWhileValidating | lobby/src/bots/sweeper.rs:50-64 | runs of the ledger, the broadcast table and the validation table in which an execution's transaction with nonce 0 was answered Ok and its validation is pending, well inside the 300 s, when nonce 0 is swept and given to another execution |
| LedgerScenarios.SenderClogs | crate/actors/src/nonce/engine.rs:163-286 | a run from the empty ledger that brings a sender into that state |
| LedgerScenarios.RetryOfOlderRowRefused | crate/actors/src/nonce/engine.rs:300-352 | a run from the empty ledger in which a resolve finalizes a row that is not its execution's latest, and the same resolve asked for again is told an internal error |
| LedgerSharding.EventFollows | crate/actors/src/nonce/engine.rs:61-367 | a statement, projected onto one address, does to that address's rows and answers exactly what it does alone; statements of other addresses do nothing to them |
| LedgerSharding.NonInterference | crate/cortex/src/artifacts/pool.rs:53-70 | when each execution belongs to one sender, projecting any run onto one address gives the rows of running only that address's statements, and the replies to commands whose two statements run back to back |
| LedgerSharding.LateAnswersProject | crate/actors/src/nonce/engine.rs:135-152 | the same reply when any statements, sweeps too, come between the two statements of the command: it is the one of the projected run at the projected positions |
| LedgerSharding.InterleavingsAgree | crate/cortex/src/artifacts/pool.rs:53-70 | two runs with the same projections end in the same ledger, and give the same replies to commands whose two statements run back to back |
| LedgerSharding.LateAnswersAgree | crate/cortex/src/artifacts/pool.rs:53-70 | a command whose two statements follow the same of its own address's statements in two runs is told the same in both |
| LedgerSharding.ShardsAreTransparent | crate/cortex/src/artifacts/pool.rs:53-89 | however many shards there are and whatever the hash, runs without sweeps whose mailboxes hold the same commands in the same order and at the same times agree on every row and reply |
| NonceActor.NonceEngine.HandleReserve | crate/actors/src/nonce/engine.rs:61-158 | the reply and the new table for every database outcome of its two statements, with arbitrary statements of others in between; an Ok names a nonce just inserted or the latest active row |
| NonceActor.NonceEngine.HandleSync | crate/actors/src/nonce/engine.rs:163-286 | the same for sync, with its two range checks and its two guards; `SyncCallTells` and `SyncAnyIsTold` say what the reply means |
| NonceActor.NonceEngine.HandleResolve | crate/actors/src/nonce/engine.rs:291-367 | the same for resolve, which refuses the reserved state; `ResolveCallTells` says what the reply means |
| LedgerReplies.ReserveInsertsIff | crate/actors/src/nonce/engine.rs:79-124 | a reserve inserts exactly if its execution has no finalized row and no reserved one younger than two minutes, no reserved or finalized row of the sender carries the nonce, and the row fits the columns |
| LedgerReplies.SyncInsertsIff | crate/actors/src/nonce/engine.rs:185-223 | a sync inserts the on-chain nonce exactly if its execution has no finalized row and no reserved one younger than five minutes, no reserved or finalized row of the sender carries the nonce, and the row fits the columns |
| LedgerReplies.ReserveIsTold | crate/actors/src/nonce/engine.rs:117-156 | the reply to any reserve: held back by its execution's own row, the nonce of the latest active row at the time of the read, or a database error if there is none; else the nonce, or a database error exactly if the insert is aborted |
| LedgerReplies.SyncAnyIsTold | crate/actors/src/nonce/engine.rs:226-283 | the same for any sync, with a rejection instead of the database error when held back |
| NonceActor.SyncCallTells | crate/actors/src/nonce/engine.rs:163-286 | a sync whose statements run, of an execution without an active row, is told the on-chain nonce exactly if no active row of the sender carries it and it fits, a rejection exactly if it was reserved less than five minutes ago, and a database error otherwise, whatever others commit in between |
| NonceActor.ResolveCallTells | crate/actors/src/nonce/engine.rs:325-360 | a resolve whose statements run is told Ok exactly if its execution had a reserved row or its latest row, as read, is in the wanted state; an invariant error exactly if it has no row; an internal error otherwise |
| NonceDisposition.RetryIsTold | crate/actors/src/nonce/engine.rs:340-352 | after a resolve that hit its execution's latest row, whatever its caller heard, the same resolve asked for again after any statements of others is told Ok, unless the row was released and then consumed by a reserve of another execution, with no other row still reserved: then it is told an internal error |
| NonceActor.NonceEngine.SendReserve | crate/actors/src/nonce/handle.rs:52-74 | a request that is not delivered changes nothing, one that is does what the handler does; the caller hears the handler's reply or, if either was lost, an internal error, and the exchange is recorded |
| NonceActor.NonceEngine.SendSync | crate/actors/src/nonce/handle.rs:98-122 | the same for sync |
| NonceActor.NonceEngine.SendResolve | crate/actors/src/nonce/handle.rs:76-96 | the same for resolve |
| NonceActor.NonceEngine.ExpireStates | lobby/src/bots/sweeper.rs:49-77 | releases the first hundred stale heads by execution, reports as many executions as rows, and makes progress |
| NonceActor.TakeLowest | lobby/src/bots/sweeper.rs:58-64 | the batch is the lowest executions: whatever is left out comes after a full batch |
| NonceDisposition.TellsHeld | crate/actors/src/nonce/engine.rs:117-156 | while no row of the execution is finalized, a reserve or sync that reports a nonce leaves the execution's latest reserved row carrying that nonce |
| NonceDisposition.ResolveCallEnds | crate/actors/src/nonce/engine.rs:291-367 | a resolve whose statement was committed, first or as a retry, whatever it replied, leaves the held row in the wanted state at the end of the call; only a released row may have gone on to consumed, through a reserve of another execution |
| NonceDisposition.TakenIff | crate/actors/src/nonce/engine.rs:79-93 | a row counts as taken over by others exactly when some reserve of another execution in the run picked it and consumed it |
| NonceDisposition.LeaseKeepsSweeperOut | lobby/src/bots/sweeper.rs:58-61 | in a run that ends within 2 min 5 s of an execution's oldest row no sweep touches the execution |
| LeaseTable.InvClaim | database/migrations/20260203055307_broadcast.sql:24-26 | a claim keeps one active row per execution, always its latest |
| LeaseTable.ClaimSucceedsIff | database/migrations/20260203062332_sign.sql:23-25 | a claim succeeds exactly when the execution has no active row, however old it is |
| LeaseTable.ClaimByLatest | crate/actors/src/sign/engine.rs:102-126 | a claim is refused by a settled latest row or a pending one younger than two minutes, aborted by an older pending one, and made otherwise |
| Signing.SignedRowsStep | crate/actors/src/sign/engine.rs:102-226 | a statement changes the number of signed rows of an execution only by signing or by reverting |
| Signing.SignaturesAndRevertsAlternate | crate/actors/src/sign/engine.rs:102-226 | in every run transitions into signed equal transitions out by revert, plus one if a signed row remains |
| Signing.SignEngine.HandleSign | crate/actors/src/sign/engine.rs:82-204 | an Ok exactly if the key is there and signs the payload, the chain fits, both statements run, no row of the execution is reserved or signed, and the signature is ready within five minutes; it is the wire bytes of the given transaction under that key's signature, and the latest row holds them; for every other outcome the exact error and the phase the row is left in |
| Signing.SignEngine.HandleRevert | crate/actors/src/sign/engine.rs:206-262 | an Ok exactly if a signed row was there and the update was heard of; no active row is then left; the exact error and table otherwise |
| Broadcast.OkAtMostOnce | crate/actors/src/broadcast/engine.rs:101-213 | under any interleaving, failure and retry schedule at most one send per execution is answered Ok |
| Broadcast.ClosedForever | crate/actors/src/broadcast/engine.rs:141-177 | once a row is submitted, or pending and abandoned, no later call claims or sends, and each is answered the submitted hash, or a database error for ever |
| Broadcast.FreeMeansNoOk | crate/actors/src/broadcast/engine.rs:101-136 | no send of an execution that can still claim was answered Ok |
| Broadcast.SecondTransactionIff | crate/actors/src/broadcast/engine.rs:182-274 | a send gives the node a second, different transaction of the execution exactly when the node takes it and the reply to an earlier, different one was lost |
| Broadcast.ExposedIff | crate/actors/src/broadcast/engine.rs:101-274 | an execution that can still claim can give the node a second transaction if and only if the reply to one of its sends was lost |
| Broadcast.DoubleSubmission | crate/actors/src/broadcast/engine.rs:216-274 | a run from the empty table in which the node takes two different transactions of one execution |
| BroadcastActor.BroadcastEngine.HandleBroadcast | crate/actors/src/broadcast/engine.rs:81-277 | the reply, the rows and the sends for every outcome of the claim, the read and the update and every answer of the node, told from the execution's latest row; at most one send, of the given bytes |
| BroadcastActor.AnsweredOkIff | crate/actors/src/broadcast/engine.rs:141-234 | a call is answered Ok with a hash exactly if the chain fits, the claim runs, and either the execution's row was submitted with that hash and the read runs, or no row was active, the node answers that hash and the update runs; the row is then submitted with it |
| BroadcastActor.RetoldForever | crate/actors/src/broadcast/engine.rs:141-177 | after a row is submitted, and whatever steps follow, a later call whose statements run is answered its hash, and none sends or changes anything |
| BroadcastActor.ServedError | crate/actors/src/broadcast/engine.rs:216-274 | every error but a database, invariant or internal one means that no send of the execution was answered Ok |
| Validation.PendingIndexSuffices | database/migrations/20260225203657_validate.sql:29-31 | with the index on pending rows only, a claim has the outcome it has when settled rows are indexed too |
| Validation.VerdictIsFinal | crate/actors/src/validator/engine.rs:174-252 | an included or not_included row never changes, stays the execution's only verdict and its latest row, and no later request adds a row |
| Validation.ValidatorEngine.HandleValidation | crate/actors/src/validator/engine.rs:75-168 | the reply and the new table for every outcome of its statements and every script of receipts, heads and times; a recorded verdict is returned without any RPC, otherwise at most timeout / interval + 1 receipts are asked for |
| Validation.ReplyIff | crate/actors/src/validator/engine.rs:97-166 | with the request recorded and no verdict before: Included(b, n) exactly if the first deciding poll due before the timeout is a success mined in block b with n = head - b (not below zero) confirmations, enough of them; reverted exactly if that poll's receipt has status 0; an RPC error exactly if its receipt or its head could not be had; Timeout exactly if no such poll decides; a database error exactly if the outcome had to be recorded and was not heard to be |
| Validation.ServedVerdict | crate/actors/src/validator/engine.rs:97-166 | after an Included, a Timeout, a NotIncluded or a reverted the latest row records it, and a Timeout comes after the timeout |
| Validation.ValidatorEngine.RecordOutcome | crate/actors/src/validator/engine.rs:255-326 | the latest row takes the outcome exactly if it was pending and the update ran; Ok exactly if that was heard, an internal error if no row was pending |
| Protocol.StatusLanguage | crate/cortex/src/pipeline.rs:85-588 | every run shows a prefix of one of two paths, followed by one terminal status exactly when it has ended; it is on the second path exactly after a first nonce too low, and past the mismatch exactly after a sync that reported a nonce |
| ProtocolResults.OneTerminal | crate/primitives/src/types.rs:276-309 | at most nine statuses, one of them terminal and last exactly when the run has ended, and a run that did not fail was broadcast just before |
| ProtocolResults.FinalStatusIff | crate/cortex/src/pipeline.rs:106-579 | a run ends with a given status if and only if some reply is the reason for it: confirmed iff validation replied Included, timed out iff it replied Timeout, nonce sync failed iff the sync's last reply was an error, and so for each stage |
| ProtocolResults.MonotoneIff | crate/primitives/src/types.rs:269-273 | the statuses of a run only advance if and only if no sync in it reported a nonce; where one did, no ranking of the statuses makes them advance |
| ProtocolResults.RecoveryExists | crate/cortex/src/pipeline.rs:306-432 | a log whose first broadcast is answered nonce too low, and which recovers, is confirmed, and shows a status twice |
| RecoveryScenario.RecoveryHappens | crate/cortex/src/pipeline.rs:306-579 | runs of the ledger, sign, broadcast and validation tables from empty that give the replies of that log |
| ProtocolResults.SignaturesAreCurrent | crate/cortex/src/pipeline.rs:349-432 | every broadcast carries the submitted transaction with the nonce granted most recently, under the sender's own signature over it, and a nonce too low names that nonce |
| ProtocolResults.BytesAreSigned | crate/cortex/src/pipeline.rs:200-432 | the same of all bytes handed to the node in a run |
| ProtocolResults.AttemptsBounded | crate/cortex/src/pipeline.rs:263-303 | a run makes at most 2 * (max_attempts + 1) broadcast calls |
| ProtocolResults.OneTransactionUnlessResynced | crate/cortex/src/pipeline.rs:263-466 | a run in which no sync reported a nonce broadcasts one transaction at most |
| ProtocolResults.GivenBackIff | crate/cortex/src/pipeline.rs:509-579 | after a broadcast answered Ok, the nonce is to be released or consumed if and only if validation timed out, was told not included or reverted, or failed on the RPC |
| Pipelines.Pipeline.RunPipeline | crate/cortex/src/pipeline.rs:85-588 | every run ends; its log of calls and replies is one of the protocol's and is what the handles recorded; the statuses shown are the ones that log leads to; the execution's own row, the sends and the validator's latest row stand where the final status says |
| Pipelines.Pipeline.Recover | crate/cortex/src/pipeline.rs:349-406 | after a first nonce too low, consume, revert and sync are requested and recorded, attempt by attempt; no active sign row is left if the revert answered Ok; a failed sync ends the run without a release |
| Pipelines.Pipeline.BroadcastTransaction | crate/cortex/src/pipeline.rs:263-303 | at most max_attempts + 1 calls, retried on every error but nonce too low and missing provider, all with the same bytes; no other bytes are answered Ok; every error but an internal, database or invariant one means that no send was |
| Pipelines.Pipeline.ResolveNonce | crate/cortex/src/pipeline.rs:595-710 | an Ok, unless the sweeper took the held row, means that it is in the wanted state, or was released and then consumed by a reserve of another execution |
| Pipelines.Pipeline.Judge | crate/cortex/src/pipeline.rs:509-579 | the validation reply decides: the row is finalized and the hash confirmed exactly on Included, released, consumed or kept on the others as the protocol says |
| Pipelines.Pipeline.FinalStatus | crate/cortex/src/pipeline.rs:85-588 | the status that a finished run shows last is the one its replies decide, and the transaction of a broadcast answered Ok carries the nonce granted last |
| Pipelines.Pipeline.DispositionWithinLease | crate/cortex/src/pipeline.rs:200-579 | inside the lease and with every resolve answered Ok in the end, the execution's own row, of its own sender, with the nonce granted last is finalized iff the run is confirmed, reserved iff broadcast or validation failed internally, consumed by this run iff validation timed out or the sync failed, and released, or taken over by another execution's reserve, iff the run failed otherwise |
| Pipelines.Pipeline.AnsweredCarriesGrant | crate/cortex/src/pipeline.rs:263-466 | when a broadcast was answered Ok exactly one send was; its bytes are the submitted transaction with the nonce granted last, under the sender's signature, and a confirmation shows the hash it was answered with |
| Pipelines.Pipeline.SendsAreSubmitted | crate/cortex/src/pipeline.rs:200-466 | every send of the execution is the submitted transaction with the nonce granted last before that broadcast, under the sender's signature |
| Pipelines.Pipeline.AnsweredWhileHolding | crate/cortex/src/pipeline.rs:263-466 | when the broadcast was answered Ok the execution held the row of the nonce on the wire, as its own sender, unless a sweep had touched it before |
| Pipelines.Pipeline.LogIsServed | crate/cortex/src/pipeline.rs:106-588 | the handles recorded the calls of the log, attempt by attempt, and nothing else; what each attempt heard is its actor's reply, or the channel's error exactly if the request or the reply was lost |
| Pipelines.Pipeline.ReleasedMeansUnanswered | crate/cortex/src/pipeline.rs:306-466 | when a run gives up without an Ok answer and without an internal failure, no send of the execution was answered Ok, and the node holds a transaction of it exactly if a reply was lost |
| Pipelines.Pipeline.TwoTransactionsMeanRecovery | crate/cortex/src/pipeline.rs:349-466 | if the node holds two different transactions of the execution, a send's reply was lost and a sync reported a nonce in the run |
| Rlp.DecodeEncode | crate/primitives/src/traits.rs:116-150 | the strict RLP decoder recovers any item, of any nesting and length below 2^64, from its encoding |
| Rlp.EncodeDecode | crate/primitives/src/traits.rs:116-150 | bytes that it accepts re-encode to themselves, so encodings are canonical |
| Eip1559.EthRlpAppendU256 | crate/primitives/src/traits.rs:116-131 | appends the minimal big-endian scalar, none for zero, to the stream |
| Eip1559.StripLeadingZeros | crate/utils/src/eip1559/sign.rs:155-166 | minimal bytes of the same value, and a single zero byte for zero |
| Eip1559.EncodeUnsigned | crate/utils/src/eip1559/sign.rs:68-101 | the loops over the stream produce the RLP list of the nine fields in order |
| Eip1559.EncodeSigned | crate/utils/src/eip1559/sign.rs:105-150 | the same with yParity, r and s after them |
| Eip1559Wire.DecodeOfPayload | crate/utils/src/eip1559/sign.rs:68-101 | a strict decoder recovers every field of any transaction that fits in memory from its signing payload |
| Eip1559Wire.PayloadOfDecode | crate/utils/src/eip1559/sign.rs:68-101 | any bytes it accepts are the signing payload of what it returns |
| Eip1559Wire.PayloadIsInjective | crate/utils/src/eip1559/sign.rs:16-63 | two transactions with the same signing payload are equal |
| Eip1559Wire.SignedExtendsUnsigned | crate/utils/src/eip1559/sign.rs:105-150 | the signed list's content is the unsigned list's content followed by yParity, r and s |
| Eip1559Wire.WireBindsPayload | crate/utils/src/eip1559/sign.rs:16-63 | the exact signing payload is recomputable from the wire bytes |
| Eip1559Wire.SignedByOne | crate/utils/src/eip1559/sign.rs:16-63 | signed bytes are of one transaction only, whatever the keys |
| Eip1559Wire.SignedRoundTripIff | crate/utils/src/eip1559/sign.rs:105-166 | a strict decoder recovers the transaction and the values of yParity, r and s exactly when r and s are nonzero |
| Eip1559Wire.SignEip1559Transaction | crate/utils/src/eip1559/sign.rs:16-63 | the signature is over the payload of this transaction, and the reported nonce is the one on the wire |
| Eip1559Wire.KeysFixedWidthIff | crate/utils/src/eip1559/sign.rs:88-98 | storage keys are written in 32 bytes exactly when none starts with a zero byte |
| Retry.WindowIsExact | crate/cortex/src/artifacts/retry.rs:154-168 | saturation and the capped shift do not show: the window is min(max, base * 2^min(attempt - 1, 10)) |
| Retry.WindowsGrow | crate/cortex/src/artifacts/retry.rs:154-168 | windows never shrink from one attempt to a later one |
| Retry.SleepsGeometric | crate/cortex/src/artifacts/retry.rs:154-168 | n sleeps take at most base * (2^n - 1) |
| Retry.RetryWithBackoff | crate/cortex/src/artifacts/retry.rs:87-145 | returns the first result that is not transient, or the last error after max_attempts + 1 calls; it sleeps the draws, each cut to its window, one per retry, and at most min(max_attempts * max, base * (2^max_attempts - 1)) in all |
| Selection.ScoreSign | crate/utils/src/rpc/metrics.rs:236-247 | an endpoint has weight exactly when it is available |
| Selection.DegradedWeighsHalf | crate/utils/src/rpc/metrics.rs:236-247 | a degraded endpoint weighs half of an equally fast healthy one |
| Selection.WeightIsInverse | crate/utils/src/rpc/metrics.rs:236-247 | among endpoints of the same health weight is inverse to response time from 1 ms up, and the same below |
| Selection.SelectsOne | crate/utils/src/rpc/pool.rs:318-369 | a threshold selects at most one endpoint |
| Selection.IntervalIsScore | crate/utils/src/rpc/pool.rs:345-358 | the positive thresholds that select an endpoint form an interval as long as its score, inside the total |
| Selection.Spin | crate/utils/src/rpc/pool.rs:345-362 | the loop stops at the endpoint its threshold selects, and the last-entry fallback is dead |
| Selection.SelectByWeightedScore | crate/utils/src/rpc/pool.rs:318-369 | chooses from every non-empty pool, the endpoint that the draw selects by weight when any is available, else the one for recovery |
| Selection.SelectCircuitBreakerRecovery | crate/utils/src/rpc/pool.rs:410-431 | the first endpoint whose breaker expired, else the first endpoint |
| Selection.SelectBySticky | crate/utils/src/rpc/pool.rs:380-402 | keeps the given endpoint while it is available, else chooses as the draw does, and never picks an unavailable one while another is available |

## Left out

- RlpStreams.RlpStream: models the encoder's buffer as the items appended and the lists still open, not as bytes with length fix-ups, because the `rlp` crate is not part of this model.
- NonceActor.NonceEngine.SelectRelease: leaves ties on nonce and revision to the database, and FOR UPDATE SKIP LOCKED is not modelled beyond statements being atomic.
- Signing.SignEngine.HandleSign: runs its statements without others in between; interleavings are covered by the lemmas on the machine of the same table. The same holds of the broadcast and validation handlers.
- LeaseTable.InvClaim: does not model the overflow of revisions in the lease tables; the ledger's BIGINT columns are range-checked.
- Retry.RetryWithBackoff: excludes max_attempts = 2^32 - 1, where max_attempts + 1 overflows in the source.
- Validation.ValidatorEngine.HandleValidation: requires a positive poll interval, without which the source may ask for any number of receipts.
- Pipelines.Pipeline.RunPipeline: the relay host and the endpoint pool answer from arbitrary scripts, the permit of `submit` has been obtained, and its retry loops do not sleep by the backoff of `Retry`; other executions act before every ledger call instead.
- Pipelines.Pipeline.DispositionWithinLease: says nothing of a row that the sweeper released under a run that outlived its lease, or of a nonce none of whose resolves was answered Ok.
- Pipelines.Pipeline.SyncNonce: an insert whose reply was lost may leave a second reserved row, which only the sweeper frees; the pipeline's guarantees are about the row granted last.
- Protocol.StatusLanguage: a run cut short by a crash of the process is a prefix of a log, and no restart is modelled.
- secp256k1, Keccak-256, low-s normalisation and key custody: the key is a partial function from payloads to signatures, and refuses with an internal error.
- Text of rejection reasons, error messages, status messages and log lines.
- `StatusRegistry` persistence in Redis, which is written without ordering; only the in-memory status is modelled.
- Tokio channels, semaphores and actor start-up: mailboxes are FIFO, and the fate of each request, lost, served unheard or answered, is an arbitrary script.
- Rounding of f64 scores and thresholds, the sampled average response time, circuit-breaker timing and cache freshness.
- `update_health_status`, `record_success`, `record_failure`, `add_endpoint`: their counters only feed the health snapshot that selection takes as given.
- The relay host's own table, HTTP handlers, authentication, configuration loading, the scanner bot (which may later confirm a transaction that timed out), linting and normalising of requests, and the benchmark crate.
