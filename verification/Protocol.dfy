/** What the pipeline does, as a function of the replies it gets: every stage's call with the
    replies to its attempts, the point this leads to, and the statuses it shows. */
module Protocol {
  import opened Types
  import opened Eip1559
  import opened Eip1559Wire
  import L = Ledger
  import B = Broadcast
  import V = Validation

  // ---- statuses ------------------------------------------------------------

  datatype Cause =
    | RelayHostFailed | NonceReservationFailed | SignFailed | NoHealthyProvider | EndpointPoolFailed
    | BroadcastFailed(broadcast: B.BroadcastError) | NonceSyncFailed | ReSignFailed
    | ValidatorFailed(validator: V.ValidatorError) | NotIncludedOnChain

  datatype Status =
    | PermitAquired | Accepted | NonceReserved | Signed | NonceMismatchDetected(onChain: nat, attempted: nat)
    | Broadcasted(txHash: Hash) | ConfirmedOnChain(txHash: Hash) | Failed(cause: Cause) | ValidatorTimedOut

  predicate Terminal(s: Status) {
    s.ConfirmedOnChain? || s.Failed? || s.ValidatorTimedOut?
  }

  // ---- calls and replies ---------------------------------------------------

  /** One stage: its arguments, and the replies to its attempts in order. */
  datatype Call =
    | Register(tries: seq<Result<(), LocalError>>)
    | Reserve(nonces: seq<Result<nat, LocalError>>)
    | Sign(again: bool, nonce: nat, signatures: seq<Result<SignedTransaction, LocalError>>)
    | Acquire(endpoint: Result<Option<nat>, ()>)
    | Broadcast(again: bool, txn: SignedTransaction, hashes: seq<Result<Hash, B.BroadcastError>>)
    | Resolve(to: L.NonceState, tries: seq<Result<(), LocalError>>)
    | Revert(tries: seq<Result<(), LocalError>>)
    | Sync(onChain: nat, nonces: seq<Result<nat, LocalError>>)
    | Validate(hash: Hash, outcome: Result<V.ValidatorOutcome, V.ValidatorError>)

  predicate Never(e: LocalError) {
    false
  }

  /** Broadcast errors that are not retried. */
  predicate Fatal(e: B.BroadcastError) {
    e.NonceTooLow? || e.MissingProvider?
  }

  /** What a retry loop of at most `limit` attempts can have seen: it goes on after an error
      that may be retried, and only then. */
  predicate Tried<T, E>(tries: seq<Result<T, E>>, limit: nat, fatal: E -> bool) {
    && 1 <= |tries| <= limit
    && (forall i | 0 <= i < |tries| - 1 :: tries[i].Err? && !fatal(tries[i].error))
    && (|tries| == limit || tries[|tries| - 1].Ok? || fatal(tries[|tries| - 1].error))
  }

  function LastReply<T, E>(tries: seq<Result<T, E>>): Result<T, E>
    requires tries != []
  {
    tries[|tries| - 1]
  }

  predicate TooLow(hashes: seq<Result<Hash, B.BroadcastError>>) {
    hashes != [] && LastReply(hashes).Err? && LastReply(hashes).error.NonceTooLow?
  }

  /** What a run is about: the submitted transaction, the sender's key, the attempts a retry
      loop makes, and what the relay host and the endpoint pool answer. */
  datatype Job = Job(tx: Transaction, key: Option<seq<byte> -> Option<Signature>>, limit: nat,
                     relay: nat -> Result<(), LocalError>, endpoint: Result<Option<nat>, ()>)

  /** The submitted transaction with a granted nonce. */
  function WithNonce(job: Job, n: nat): Transaction {
    if n < U256_SIZE then job.tx.(nonce := n) else job.tx
  }

  /** The submitted transaction with nonce `n`, under the sender's own signature over it; the
      trigger keeps the encoding folded. */
  predicate SignedOver(txn: SignedTransaction, job: Job, n: nat) {
    && txn.withNonce == n && job.key.Some?
    && forall tx {:trigger SignedBy(txn.rlp, tx, job.key.value)} | tx == WithNonce(job, n) ::
         SignedBy(txn.rlp, tx, job.key.value)
  }

  // ---- points of a run -----------------------------------------------------

  /** What the pipeline does next. From Signing on, `nonce` is the one granted last; `last` is
      the final status and `sent` the transaction whose broadcast was answered Ok. */
  datatype Point =
    | Registering
    | Reserving
    | Signing(nonce: nat, again: bool)
    | Acquiring(nonce: nat, signed: SignedTransaction)
    | Broadcasting(nonce: nat, signed: SignedTransaction, again: bool)
    | Consuming(nonce: nat, onChain: nat)
    | Reverting(nonce: nat, onChain: nat)
    | Syncing(nonce: nat, onChain: nat)
    | Validating(nonce: nat, signed: SignedTransaction, hash: Hash)
    | Disposing(nonce: nat, to: L.NonceState, last: Status, sent: Option<SignedTransaction>)
    | Ended(granted: Option<nat>, last: Status, sent: Option<SignedTransaction>)

  /** The call is the one that the point demands, and the replies are ones it can get. */
  predicate Fits(p: Point, c: Call, job: Job) {
    match p
    case Registering =>
      c.Register? && Tried(c.tries, job.limit, Never) && forall i: nat | i < |c.tries| :: c.tries[i] == job.relay(i)
    case Reserving => c.Reserve? && Tried(c.nonces, job.limit, Never)
    case Signing(n, again) =>
      c.Sign? && c.again == again && c.nonce == n && Tried(c.signatures, job.limit, Never)
      && (LastReply(c.signatures).Ok? ==> SignedOver(LastReply(c.signatures).value, job, n))
    case Acquiring(_, _) => c.Acquire? && c.endpoint == job.endpoint
    case Broadcasting(_, signed, again) =>
      c.Broadcast? && c.again == again && c.txn == signed && Tried(c.hashes, job.limit, Fatal)
      && (TooLow(c.hashes) ==> LastReply(c.hashes).error.attempted == signed.withNonce)
    case Consuming(_, _) => c.Resolve? && c.to == L.Consumed && Tried(c.tries, job.limit, Never)
    case Reverting(_, _) => c.Revert? && Tried(c.tries, job.limit, Never)
    case Syncing(_, onChain) => c.Sync? && c.onChain == onChain && Tried(c.nonces, job.limit, Never)
    case Validating(_, _, hash) => c.Validate? && c.hash == hash
    case Disposing(_, to, _, _) => c.Resolve? && c.to == to && Tried(c.tries, job.limit, Never)
    case Ended(_, _, _) => false
  }

  function Release(n: nat, cause: Cause, sent: Option<SignedTransaction>): (Point, seq<Status>) {
    (Disposing(n, L.Released, Failed(cause), sent), [])
  }

  /** The run ends without a resolve. */
  function End(granted: Option<nat>, cause: Cause, sent: Option<SignedTransaction>): (Point, seq<Status>) {
    (Ended(granted, Failed(cause), sent), [Failed(cause)])
  }

  /** Where a call leads, and the status it shows. */
  function Move(p: Point, c: Call, job: Job): (Point, seq<Status>)
    requires Fits(p, c, job)
  {
    match p
    case Registering =>
      if LastReply(c.tries).Ok? then (Reserving, [Accepted]) else End(None, RelayHostFailed, None)
    case Reserving =>
      if LastReply(c.nonces).Ok? then (Signing(LastReply(c.nonces).value, false), [NonceReserved])
      else End(None, NonceReservationFailed, None)
    case Signing(n, again) =>
      if LastReply(c.signatures).Err? then Release(n, if again then ReSignFailed else SignFailed, None)
      else
        var txn := LastReply(c.signatures).value;
        (if again then Broadcasting(n, txn, true) else Acquiring(n, txn), [Status.Signed])
    case Acquiring(n, txn) =>
      if c.endpoint.Err? then Release(n, EndpointPoolFailed, None)
      else if c.endpoint.value.None? then Release(n, NoHealthyProvider, None)
      else (Broadcasting(n, txn, false), [])
    case Broadcasting(n, txn, again) =>
      if LastReply(c.hashes).Ok? then
        var hash := LastReply(c.hashes).value;
        (Validating(n, txn, hash), [Broadcasted(hash)])
      else
        var err := LastReply(c.hashes).error;
        if err.NonceTooLow? && !again then
          (Consuming(n, err.onChain), [NonceMismatchDetected(err.onChain, err.attempted)])
        else if B.KeepsNonce(err) then End(Some(n), BroadcastFailed(err), None)
        else Release(n, BroadcastFailed(err), None)
    case Consuming(n, onChain) => (Reverting(n, onChain), [])
    case Reverting(n, onChain) => (Syncing(n, onChain), [])
    case Syncing(n, _) =>
      if LastReply(c.nonces).Ok? then (Signing(LastReply(c.nonces).value, true), [NonceReserved])
      else End(Some(n), NonceSyncFailed, None)
    case Validating(n, txn, hash) =>
      (match c.outcome
       case Ok(Included(_, _)) => (Disposing(n, L.Finalized, ConfirmedOnChain(hash), Some(txn)), [])
       case Ok(NotIncluded) => Release(n, NotIncludedOnChain, Some(txn))
       case Ok(Timeout) => (Disposing(n, L.Consumed, ValidatorTimedOut, Some(txn)), [])
       case Err(err) =>
         if err.Database? || err.Internal? then End(Some(n), ValidatorFailed(err), Some(txn))
         else Release(n, ValidatorFailed(err), Some(txn)))
    case Disposing(n, _, last, sent) => (Ended(Some(n), last, sent), [last])
  }

  // ---- runs ----------------------------------------------------------------

  datatype Run = Run(point: Point, shown: seq<Status>)

  /** Replays a log of calls; None when it is not one the pipeline makes. */
  function Replay(log: seq<Call>, job: Job): Option<Run> {
    if log == [] then Some(Run(Registering, [PermitAquired]))
    else
      match Replay(log[..|log| - 1], job)
      case None => None
      case Some(r) =>
        var c := log[|log| - 1];
        if !Fits(r.point, c, job) then None
        else
          var (p, more) := Move(r.point, c, job);
          Some(Run(p, r.shown + more))
  }

  lemma ReplayAppend(log: seq<Call>, c: Call, job: Job)
    requires Replay(log, job).Some? && Fits(Replay(log, job).value.point, c, job)
    ensures var r := Replay(log, job).value;
            Replay(log + [c], job)
            == Some(Run(Move(r.point, c, job).0, r.shown + Move(r.point, c, job).1))
  {
    assert (log + [c])[..|log|] == log;
  }

  // ---- retry loops ---------------------------------------------------------

  /** The attempts of a loop that is still going, or has just stopped. */
  predicate Trying<T, E>(tries: seq<Result<T, E>>, fatal: E -> bool) {
    tries != [] && forall i | 0 <= i < |tries| - 1 :: tries[i].Err? && !fatal(tries[i].error)
  }

  lemma TryAgain<T, E>(tries: seq<Result<T, E>>, r: Result<T, E>, fatal: E -> bool)
    requires Trying(tries, fatal) && LastReply(tries).Err? && !fatal(LastReply(tries).error)
    ensures Trying(tries + [r], fatal) && LastReply(tries + [r]) == r
  {
  }

  lemma {:induction false} ReplayPrefix(log: seq<Call>, job: Job, i: nat)
    requires Replay(log, job).Some? && i < |log|
    ensures Replay(log[..i], job).Some? && Fits(Replay(log[..i], job).value.point, log[i], job)
    decreases log
  {
    var n := |log| - 1;
    if i < n {
      ReplayPrefix(log[..n], job, i);
      assert log[..n][..i] == log[..i];
    }
  }

  // ---- the status language -------------------------------------------------

  datatype Kind =
    | KPermit | KAccepted | KReserved | KSigned | KMismatch | KBroadcasted | KConfirmed | KFailed | KTimedOut

  function KindOf(s: Status): Kind {
    match s
    case PermitAquired => KPermit
    case Accepted => KAccepted
    case NonceReserved => KReserved
    case Signed => KSigned
    case NonceMismatchDetected(_, _) => KMismatch
    case Broadcasted(_) => KBroadcasted
    case ConfirmedOnChain(_) => KConfirmed
    case Failed(_) => KFailed
    case ValidatorTimedOut => KTimedOut
  }

  /** The statuses of a run that gets through, with or without the recovery. */
  function Path(recovered: bool): seq<Kind> {
    [KPermit, KAccepted, KReserved, KSigned]
    + (if recovered then [KMismatch, KReserved, KSigned] else [])
    + [KBroadcasted]
  }

  /** The first `n` statuses of a path. */
  predicate Along(h: seq<Status>, recovered: bool, n: nat) {
    n == |h| <= |Path(recovered)| && forall i: nat | i < n :: KindOf(h[i]) == Path(recovered)[i]
  }

  /** A prefix of a path and one terminal status; only the whole path ends well. */
  predicate Finished(h: seq<Status>, recovered: bool, n: nat) {
    && |h| == n + 1 && Along(h[..n], recovered, n)
    && Terminal(h[n]) && (!h[n].Failed? ==> n == |Path(recovered)|)
  }

  /** Where on its path a run stands. */
  predicate Stands(p: Point, h: seq<Status>, recovered: bool, n: nat) {
    match p
    case Registering => !recovered && n == 1 && Along(h, false, 1)
    case Reserving => !recovered && n == 2 && Along(h, false, 2)
    case Signing(_, again) => recovered == again && n == |Path(again)| - 2 && Along(h, again, n)
    case Acquiring(_, _) => !recovered && n == 4 && Along(h, false, 4)
    case Broadcasting(_, _, again) => recovered == again && n == |Path(again)| - 1 && Along(h, again, n)
    case Consuming(_, _) => recovered && n == 5 && Along(h, true, 5)
    case Reverting(_, _) => recovered && n == 5 && Along(h, true, 5)
    case Syncing(_, _) => recovered && n == 5 && Along(h, true, 5)
    case Validating(_, _, _) => n == |Path(recovered)| && Along(h, recovered, n)
    case Disposing(_, _, last, _) =>
      Along(h, recovered, n) && Terminal(last) && (!last.Failed? ==> n == |Path(recovered)|)
    case Ended(_, last, _) => Finished(h, recovered, n) && last == h[n]
  }

  lemma AlongAppend(h: seq<Status>, s: Status, recovered: bool, n: nat)
    requires Along(h, recovered, n)
    ensures n < |Path(recovered)| && KindOf(s) == Path(recovered)[n] ==> Along(h + [s], recovered, n + 1)
    ensures Terminal(s) && (!s.Failed? ==> n == |Path(recovered)|) ==> Finished(h + [s], recovered, n)
  {
    assert (h + [s])[..n] == h;
  }

  /** A sync that reported a nonce, which puts the run through the recovery. */
  predicate Resynced(log: seq<Call>) {
    exists i | 0 <= i < |log| :: Resyncs(log[i])
  }

  predicate FirstTooLow(log: seq<Call>) {
    exists i | 0 <= i < |log| :: StartsRecovery(log[i])
  }

  /** Whether a call starts the recovery, and whether it takes it past the mismatch. */
  predicate StartsRecovery(c: Call) {
    c.Broadcast? && !c.again && TooLow(c.hashes)
  }

  predicate Resyncs(c: Call) {
    c.Sync? && c.nonces != [] && LastReply(c.nonces).Ok?
  }

  lemma RecoveryAppend(before: seq<Call>, c: Call)
    ensures Resynced(before + [c]) <==> Resynced(before) || Resyncs(c)
    ensures FirstTooLow(before + [c]) <==> FirstTooLow(before) || StartsRecovery(c)
  {
    var log := before + [c];
    assert log[|before|] == c && forall i | 0 <= i < |before| :: log[i] == before[i];
  }

  /** A call that ends the run. */
  lemma StandsEnd(p: Point, h: seq<Status>, recovered: bool, n: nat, c: Call, job: Job)
    requires Stands(p, h, recovered, n) && Fits(p, c, job) && Move(p, c, job).0.Ended?
    ensures Stands(Move(p, c, job).0, h + Move(p, c, job).1, recovered, n)
    ensures !StartsRecovery(c) && !Resyncs(c)
  {
    AlongAppend(h, Move(p, c, job).1[0], recovered, n);
  }

  /** A call that shows nothing. */
  lemma StandsStill(p: Point, h: seq<Status>, recovered: bool, n: nat, c: Call, job: Job)
    requires Stands(p, h, recovered, n) && Fits(p, c, job) && Move(p, c, job).1 == []
    ensures Stands(Move(p, c, job).0, h, recovered, n)
    ensures !StartsRecovery(c) && !Resyncs(c)
  {
  }

  /** A call that shows the next status of the path. */
  lemma StandsNext(p: Point, h: seq<Status>, recovered: bool, n: nat, c: Call, job: Job)
    requires Stands(p, h, recovered, n) && Fits(p, c, job)
    requires Move(p, c, job).1 != [] && !Move(p, c, job).0.Ended?
    ensures Stands(Move(p, c, job).0, h + Move(p, c, job).1, recovered || StartsRecovery(c), n + 1)
    ensures Resyncs(c) <==> recovered && n == 5
  {
    if StartsRecovery(c) { assert Along(h, true, 4); }
    AlongAppend(h, Move(p, c, job).1[0], recovered || StartsRecovery(c), n);
  }

  lemma StandsStep(p: Point, h: seq<Status>, recovered: bool, n: nat, c: Call, job: Job)
    returns (recovered': bool, n': nat)
    requires Stands(p, h, recovered, n) && Fits(p, c, job)
    ensures Stands(Move(p, c, job).0, h + Move(p, c, job).1, recovered', n')
    ensures recovered' && n' >= 6 <==> (recovered && n >= 6) || Resyncs(c)
    ensures recovered' <==> recovered || StartsRecovery(c)
  {
    var (q, more) := Move(p, c, job);
    if q.Ended? {
      StandsEnd(p, h, recovered, n, c, job);
      recovered', n' := recovered, n;
    } else if more == [] {
      StandsStill(p, h, recovered, n, c, job);
      assert h + [] == h;
      recovered', n' := recovered, n;
    } else {
      StandsNext(p, h, recovered, n, c, job);
      recovered', n' := recovered || StartsRecovery(c), n + 1;
      if StartsRecovery(c) { assert n == 4; }
    }
  }

  /** Every run shows a prefix of one of the two paths, and one terminal status exactly when
      it has ended; it is on the second path from a first nonce too low on, and beyond the
      mismatch exactly when a sync reported a nonce. */
  lemma {:induction false} StatusLanguage(log: seq<Call>, job: Job) returns (recovered: bool, n: nat)
    requires Replay(log, job).Some?
    ensures Stands(Replay(log, job).value.point, Replay(log, job).value.shown, recovered, n)
    ensures recovered && n >= 6 <==> Resynced(log)
    ensures recovered <==> FirstTooLow(log)
    decreases log
  {
    if log == [] {
      recovered, n := false, 1;
    } else {
      var m := |log| - 1;
      var c, before := log[m], log[..m];
      recovered, n := StatusLanguage(before, job);
      var r := Replay(before, job).value;
      recovered, n := StandsStep(r.point, r.shown, recovered, n, c, job);
      RecoveryAppend(before, c);
      assert log == before + [c];
    }
  }
}
