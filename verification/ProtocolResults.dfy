/** What holds of every run of the pipeline, whatever replies it gets. */
module ProtocolResults {
  import opened Types
  import opened Eip1559
  import opened Protocol
  import opened Channels
  import L = Ledger
  import B = Broadcast
  import V = Validation

  // ---- the end of a run ----------------------------------------------------

  /** One terminal status at the end exactly when the run has ended, and none before. */
  predicate WellEnded(h: seq<Status>, ended: bool) {
    && 1 <= |h| <= 9
    && (ended <==> Terminal(h[|h| - 1]))
    && (forall i: nat | i < |h| - 1 :: !Terminal(h[i]))
    && (ended && !h[|h| - 1].Failed? ==> |h| > 1 && h[|h| - 2].Broadcasted?)
  }

  lemma NotTerminal(recovered: bool, i: nat)
    requires i < |Path(recovered)|
    ensures Path(recovered)[i] !in {KConfirmed, KFailed, KTimedOut} && |Path(recovered)| <= 8
    ensures i == |Path(recovered)| - 1 ==> Path(recovered)[i] == KBroadcasted
  {
  }

  lemma AlongNotTerminal(h: seq<Status>, recovered: bool, n: nat)
    requires Along(h, recovered, n)
    ensures n <= 8 && forall i: nat | i < n :: !Terminal(h[i])
    ensures n == |Path(recovered)| ==> h[n - 1].Broadcasted?
  {
    forall i: nat | i < n ensures !Terminal(h[i]) { NotTerminal(recovered, i); }
    NotTerminal(recovered, |Path(recovered)| - 1);
  }

  lemma FinishedWellEnded(h: seq<Status>, recovered: bool, n: nat)
    requires Finished(h, recovered, n)
    ensures WellEnded(h, true)
  {
    AlongNotTerminal(h[..n], recovered, n);
    assert forall i: nat | i < n :: h[i] == h[..n][i];
  }

  /** Every run has at most one terminal status, the last, and Broadcasted comes just before
      it unless the run failed. */
  lemma OneTerminal(log: seq<Call>, job: Job)
    requires Replay(log, job).Some?
    ensures var r := Replay(log, job).value; WellEnded(r.shown, r.point.Ended?)
  {
    var recovered, n := StatusLanguage(log, job);
    var r := Replay(log, job).value;
    if r.point.Ended? {
      FinishedWellEnded(r.shown, recovered, n);
    } else {
      ShownGrows(log, job);
      assert Along(r.shown, recovered, n);
      AlongNotTerminal(r.shown, recovered, n);
    }
  }

  lemma {:induction false} ShownGrows(log: seq<Call>, job: Job)
    requires Replay(log, job).Some?
    ensures Replay(log, job).value.shown != []
    decreases log
  {
    if log != [] { ShownGrows(log[..|log| - 1], job); }
  }

  /** The reply of this call is the reason why a run ends with this status. */
  predicate Decides(c: Call, s: Status) {
    match c
    case Register(tries) => tries != [] && LastReply(tries).Err? && s == Failed(RelayHostFailed)
    case Reserve(nonces) => nonces != [] && LastReply(nonces).Err? && s == Failed(NonceReservationFailed)
    case Sign(again, _, signatures) =>
      signatures != [] && LastReply(signatures).Err? && s == Failed(if again then ReSignFailed else SignFailed)
    case Acquire(Err(_)) => s == Failed(EndpointPoolFailed)
    case Acquire(Ok(index)) => index.None? && s == Failed(NoHealthyProvider)
    case Broadcast(again, _, hashes) =>
      hashes != [] && LastReply(hashes).Err? && (TooLow(hashes) ==> again)
      && s == Failed(BroadcastFailed(LastReply(hashes).error))
    case Sync(_, nonces) => nonces != [] && LastReply(nonces).Err? && s == Failed(NonceSyncFailed)
    case Validate(hash, Ok(Included(_, _))) => s == ConfirmedOnChain(hash)
    case Validate(_, Ok(NotIncluded)) => s == Failed(NotIncludedOnChain)
    case Validate(_, Ok(Timeout)) => s == ValidatorTimedOut
    case Validate(_, Err(err)) => s == Failed(ValidatorFailed(err))
    case Resolve(_, _) => false
    case Revert(_) => false
  }

  ghost predicate Decided(log: seq<Call>, s: Status) {
    exists i | 0 <= i < |log| :: Decides(log[i], s)
  }

  /** The status that a run has come to, shown or about to be. */
  predicate Settles(p: Point, s: Status) {
    (p.Disposing? || p.Ended?) && p.last == s
  }

  lemma EarlyCallSettles(p: Point, c: Call, job: Job, s: Status)
    requires Fits(p, c, job) && (p.Registering? || p.Reserving? || p.Signing? || p.Acquiring?)
    ensures Settles(Move(p, c, job).0, s) <==> Decides(c, s)
  {
  }

  lemma LateCallSettles(p: Point, c: Call, job: Job, s: Status)
    requires Fits(p, c, job) && (p.Broadcasting? || p.Syncing? || p.Validating?)
    ensures Settles(Move(p, c, job).0, s) <==> Decides(c, s)
  {
  }

  /** A call settles the final status exactly if its reply is the reason. */
  lemma SettlesStep(p: Point, c: Call, job: Job, s: Status)
    requires Fits(p, c, job)
    ensures Settles(Move(p, c, job).0, s) <==> Settles(p, s) || Decides(c, s)
  {
    match p
    case Disposing(_, _, _, _) =>
    case Consuming(_, _) =>
    case Reverting(_, _) =>
    case Broadcasting(_, _, _) => LateCallSettles(p, c, job, s);
    case Syncing(_, _) => LateCallSettles(p, c, job, s);
    case Validating(_, _, _) => LateCallSettles(p, c, job, s);
    case _ => EarlyCallSettles(p, c, job, s);
  }

  lemma DecidedAppend(before: seq<Call>, c: Call, s: Status)
    ensures Decided(before + [c], s) <==> Decided(before, s) || Decides(c, s)
  {
    var log := before + [c];
    assert log[|before|] == c && forall i | 0 <= i < |before| :: log[i] == before[i];
  }

  lemma {:induction false} SettledIffDecided(log: seq<Call>, job: Job, s: Status)
    requires Replay(log, job).Some?
    ensures Settles(Replay(log, job).value.point, s) <==> Decided(log, s)
    decreases log
  {
    if log != [] {
      var n := |log| - 1;
      var before, c := log[..n], log[n];
      SettledIffDecided(before, job, s);
      SettlesStep(Replay(before, job).value.point, c, job, s);
      DecidedAppend(before, c, s);
      assert log == before + [c];
    }
  }

  /** A run ends with a status if and only if some reply is the reason for it. */
  lemma FinalStatusIff(log: seq<Call>, job: Job, s: Status)
    requires Replay(log, job).Some? && Replay(log, job).value.point.Ended?
    ensures var r := Replay(log, job).value;
            && r.shown != [] && r.shown[|r.shown| - 1] == r.point.last
            && (r.point.last == s <==> Decided(log, s))
  {
    var recovered, n := StatusLanguage(log, job);
    SettledIffDecided(log, job, s);
  }

  // ---- monotone statuses ---------------------------------------------------

  function KindRank(k: Kind): nat {
    match k
    case KPermit => 0
    case KAccepted => 1
    case KReserved => 2
    case KSigned => 3
    case KMismatch => 4
    case KBroadcasted => 5
    case _ => 6
  }

  ghost predicate NeverGoesBack(h: seq<Status>, rank: Kind -> int) {
    forall i, j | 0 <= i < j < |h| :: rank(KindOf(h[i])) < rank(KindOf(h[j]))
  }

  lemma RepeatGoesBack(h: seq<Status>, i: nat, j: nat, rank: Kind -> int)
    requires i < j < |h| && KindOf(h[i]) == KindOf(h[j])
    ensures !NeverGoesBack(h, rank)
  {
    assert rank(KindOf(h[i])) == rank(KindOf(h[j]));
  }

  lemma PathAdvances(recovered: bool, n: nat, i: nat, j: nat)
    requires n <= |Path(recovered)| && (recovered ==> n <= 5) && i < j < n
    ensures KindRank(Path(recovered)[i]) < KindRank(Path(recovered)[j]) < 6
  {
  }

  /** `n` statuses along a path, and perhaps a terminal one. */
  predicate OnPath(h: seq<Status>, recovered: bool, n: nat) {
    && n <= |h| <= n + 1 && n <= |Path(recovered)| && (|h| > n ==> Terminal(h[n]))
    && forall i: nat | i < n :: KindOf(h[i]) == Path(recovered)[i]
  }

  lemma StandsOnPath(p: Point, h: seq<Status>, recovered: bool, n: nat)
    requires Stands(p, h, recovered, n)
    ensures OnPath(h, recovered, n)
  {
    if p.Ended? {
      assert forall i: nat | i < n :: h[i] == h[..n][i];
    } else {
      assert Along(h, recovered, n);
    }
  }

  lemma EarlyAdvances(h: seq<Status>, recovered: bool, n: nat)
    requires OnPath(h, recovered, n) && (recovered ==> n <= 5)
    ensures NeverGoesBack(h, k => KindRank(k))
  {
    forall i, j | 0 <= i < j < |h| ensures KindRank(KindOf(h[i])) < KindRank(KindOf(h[j])) {
      if j < n {
        PathAdvances(recovered, n, i, j);
      } else {
        NotTerminal(recovered, i);
      }
    }
  }

  /** Statuses only advance if and only if no sync reported a nonce. Where one did, no
      ranking of the statuses makes them advance. */
  lemma MonotoneIff(log: seq<Call>, job: Job, rank: Kind -> int)
    requires Replay(log, job).Some?
    ensures NeverGoesBack(Replay(log, job).value.shown, k => KindRank(k)) <==> !Resynced(log)
    ensures Resynced(log) ==> !NeverGoesBack(Replay(log, job).value.shown, rank)
  {
    var recovered, n := StatusLanguage(log, job);
    var h := Replay(log, job).value.shown;
    StandsOnPath(Replay(log, job).value.point, h, recovered, n);
    if Resynced(log) {
      RecoveryRepeats(h, n, rank);
      RecoveryRepeats(h, n, k => KindRank(k));
    } else {
      EarlyAdvances(h, recovered, n);
    }
  }

  lemma RecoveryRepeats(h: seq<Status>, n: nat, rank: Kind -> int)
    requires OnPath(h, true, n) && n >= 6
    ensures !NeverGoesBack(h, rank)
  {
    assert KindOf(h[2]) == Path(true)[2] == KReserved == Path(true)[5] == KindOf(h[5]);
    RepeatGoesBack(h, 2, 5, rank);
  }

  // ---- nonces and signatures -----------------------------------------------

  function GrantedBy(c: Call, before: Option<nat>): Option<nat> {
    if (c.Reserve? || c.Sync?) && c.nonces != [] && LastReply(c.nonces).Ok? then Some(LastReply(c.nonces).value)
    else before
  }

  /** The nonce that reserve or sync reported last. */
  function Granted(log: seq<Call>): Option<nat> {
    if log == [] then None else GrantedBy(log[|log| - 1], Granted(log[..|log| - 1]))
  }

  predicate Knows(p: Point, granted: Option<nat>, job: Job) {
    match p
    case Registering => granted.None?
    case Reserving => granted.None?
    case Acquiring(n, signed) => granted == Some(n) && SignedOver(signed, job, n)
    case Broadcasting(n, signed, _) => granted == Some(n) && SignedOver(signed, job, n)
    case Validating(n, signed, _) => granted == Some(n) && SignedOver(signed, job, n)
    case Disposing(n, _, _, sent) => granted == Some(n) && (sent.Some? ==> SignedOver(sent.value, job, n))
    case Ended(g, _, sent) => granted == g && (sent.Some? ==> g.Some? && SignedOver(sent.value, job, g.value))
    case _ => granted == Some(p.nonce)
  }

  lemma EarlyKnows(p: Point, granted: Option<nat>, c: Call, job: Job)
    requires Fits(p, c, job) && Knows(p, granted, job)
    requires p.Registering? || p.Reserving? || p.Signing? || p.Acquiring?
    ensures Knows(Move(p, c, job).0, GrantedBy(c, granted), job)
  {
  }

  lemma LateKnows(p: Point, granted: Option<nat>, c: Call, job: Job)
    requires Fits(p, c, job) && Knows(p, granted, job) && (p.Syncing? || p.Validating?)
    ensures Knows(Move(p, c, job).0, GrantedBy(c, granted), job)
  {
  }

  lemma BroadcastKnows(p: Point, granted: Option<nat>, c: Call, job: Job)
    requires Fits(p, c, job) && Knows(p, granted, job) && p.Broadcasting?
    ensures Knows(Move(p, c, job).0, GrantedBy(c, granted), job)
  {
  }

  lemma KnowsStep(p: Point, granted: Option<nat>, c: Call, job: Job)
    requires Fits(p, c, job) && Knows(p, granted, job)
    ensures Knows(Move(p, c, job).0, GrantedBy(c, granted), job)
  {
    match p
    case Broadcasting(_, _, _) => BroadcastKnows(p, granted, c, job);
    case Syncing(_, _) => LateKnows(p, granted, c, job);
    case Validating(_, _, _) => LateKnows(p, granted, c, job);
    case Consuming(_, _) =>
    case Reverting(_, _) =>
    case Disposing(_, _, _, _) =>
    case _ => EarlyKnows(p, granted, c, job);
  }

  lemma {:induction false} PointKnows(log: seq<Call>, job: Job)
    requires Replay(log, job).Some?
    ensures Knows(Replay(log, job).value.point, Granted(log), job)
    decreases log
  {
    if log != [] {
      var n := |log| - 1;
      PointKnows(log[..n], job);
      KnowsStep(Replay(log[..n], job).value.point, Granted(log[..n]), log[n], job);
    }
  }

  /** Every broadcast carries a signature over the nonce granted most recently. */
  lemma SignaturesAreCurrent(log: seq<Call>, job: Job, i: nat)
    requires Replay(log, job).Some? && i < |log| && log[i].Broadcast?
    ensures Granted(log[..i]).Some? && SignedOver(log[i].txn, job, Granted(log[..i]).value)
    ensures TooLow(log[i].hashes) ==> LastReply(log[i].hashes).error.attempted == Granted(log[..i]).value
  {
    ReplayPrefix(log, job, i);
    PointKnows(log[..i], job);
  }

  function Attempts(log: seq<Call>): nat {
    if log == [] then 0
    else
      var c := log[|log| - 1];
      Attempts(log[..|log| - 1]) + if c.Broadcast? then |c.hashes| else 0
  }

  function Budget(p: Point, job: Job): nat {
    match p
    case Registering => 0
    case Reserving => 0
    case Signing(_, again) => if again then job.limit else 0
    case Acquiring(_, _) => 0
    case Broadcasting(_, _, again) => if again then job.limit else 0
    case Consuming(_, _) => job.limit
    case Reverting(_, _) => job.limit
    case Syncing(_, _) => job.limit
    case _ => 2 * job.limit
  }

  lemma BudgetStep(p: Point, c: Call, job: Job)
    requires Fits(p, c, job)
    ensures Budget(p, job) + (if c.Broadcast? then |c.hashes| else 0) <= Budget(Move(p, c, job).0, job)
  {
  }

  /** A run makes at most `2 * job.limit` broadcast calls. */
  lemma {:induction false} AttemptsBounded(log: seq<Call>, job: Job)
    requires Replay(log, job).Some?
    ensures Attempts(log) <= Budget(Replay(log, job).value.point, job) <= 2 * job.limit
    decreases log
  {
    if log != [] {
      var n := |log| - 1;
      AttemptsBounded(log[..n], job);
      BudgetStep(Replay(log[..n], job).value.point, log[n], job);
    }
  }

  /** Some broadcast was answered Ok. */
  predicate Answers(c: Call) {
    c.Broadcast? && c.hashes != [] && LastReply(c.hashes).Ok?
  }

  ghost predicate Answered(log: seq<Call>) {
    exists i | 0 <= i < |log| :: Answers(log[i])
  }

  /** The transaction that was answered Ok is remembered to the end. */
  predicate Remembers(p: Point, answered: bool) {
    match p
    case Validating(_, _, _) => answered
    case Disposing(_, _, _, sent) => answered <==> sent.Some?
    case Ended(_, _, sent) => answered <==> sent.Some?
    case _ => !answered
  }

  lemma RemembersStep(p: Point, answered: bool, c: Call, job: Job)
    requires Fits(p, c, job) && Remembers(p, answered)
    ensures Remembers(Move(p, c, job).0, answered || Answers(c))
  {
  }

  lemma {:induction false} SentIffAnswered(log: seq<Call>, job: Job)
    requires Replay(log, job).Some?
    ensures Remembers(Replay(log, job).value.point, Answered(log))
    decreases log
  {
    if log != [] {
      var n := |log| - 1;
      var before, c := log[..n], log[n];
      SentIffAnswered(before, job);
      RemembersStep(Replay(before, job).value.point, Answered(before), c, job);
      assert Answered(log) <==> Answered(before) || Answers(c) by { assert log == before + [c]; }
    }
  }

  // ---- what becomes of the nonce -------------------------------------------

  predicate LeavesReserved(s: Status) {
    s.Failed?
    && ((s.cause.BroadcastFailed? && B.KeepsNonce(s.cause.broadcast))
        || (s.cause.ValidatorFailed? && (s.cause.validator.Database? || s.cause.validator.Internal?)))
  }

  predicate SpendsNonce(s: Status) {
    s.ValidatorTimedOut? || s == Failed(NonceSyncFailed)
  }

  /** The state that a final status promises for the nonce granted last. */
  function Disposition(s: Status): L.NonceState {
    if s.ConfirmedOnChain? then L.Finalized
    else if SpendsNonce(s) then L.Consumed
    else if LeavesReserved(s) then L.Reserved
    else L.Released
  }

  /** The point resolves, or ends without having to, as the final status promises. */
  predicate Promises(p: Point) {
    && (p.Disposing? ==> p.to == Disposition(p.last) != L.Reserved && p.last != Failed(NonceSyncFailed))
    && (p.Ended? && p.granted.None? ==> Disposition(p.last) == L.Released && p.sent.None?)
  }

  lemma PromisesStep(p: Point, c: Call, job: Job)
    requires Fits(p, c, job)
    ensures Promises(Move(p, c, job).0)
    ensures var q := Move(p, c, job).0;
            q.Ended? && q.granted.Some? ==>
              (p.Disposing? && q.last == p.last) || LeavesReserved(q.last) || q.last == Failed(NonceSyncFailed)
  {
  }

  /** Some resolve never answered Ok. */
  function Lapsed(log: seq<Call>): bool {
    log != [] && (Lapsed(log[..|log| - 1]) || Lapses(log[|log| - 1]))
  }

  predicate Lapses(c: Call) {
    c.Resolve? && c.tries != [] && LastReply(c.tries).Err?
  }

  /** The latest revert answered Ok. */
  function Reverted(log: seq<Call>): bool {
    log != [] && if log[|log| - 1].Revert? then RevertsOk(log[|log| - 1]) else Reverted(log[..|log| - 1])
  }

  predicate RevertsOk(c: Call) {
    c.Revert? && c.tries != [] && LastReply(c.tries).Ok?
  }

  /** The validator said that the transaction is not in, or not in yet. */
  predicate Disowns(c: Call) {
    c.Validate? && match c.outcome
                   case Ok(Included(_, _)) => false
                   case Ok(_) => true
                   case Err(err) => !err.Database? && !err.Internal?
  }

  ghost predicate Disowned(log: seq<Call>) {
    exists i | 0 <= i < |log| :: Disowns(log[i])
  }

  /** A run whose transaction was answered Ok gives the nonce up exactly when disowned. */
  predicate GivesBack(p: Point, disowned: bool) {
    if (p.Disposing? || p.Ended?) && p.sent.Some?
    then disowned <==> Disposition(p.last) == L.Released || Disposition(p.last) == L.Consumed
    else !disowned
  }

  lemma GivesBackStep(p: Point, disowned: bool, c: Call, job: Job)
    requires Fits(p, c, job) && GivesBack(p, disowned)
    ensures GivesBack(Move(p, c, job).0, disowned || Disowns(c))
  {
  }

  /** After an Ok answer, the nonce is released or consumed if and only if the validator timed
      out, found the transaction missing or reverted, or could not reach the RPC. */
  lemma {:induction false} GivenBackIff(log: seq<Call>, job: Job)
    requires Replay(log, job).Some?
    ensures GivesBack(Replay(log, job).value.point, Disowned(log))
    decreases log
  {
    if log != [] {
      var n := |log| - 1;
      var before, c := log[..n], log[n];
      GivenBackIff(before, job);
      GivesBackStep(Replay(before, job).value.point, Disowned(before), c, job);
      assert Disowned(log) <==> Disowned(before) || Disowns(c) by { assert log == before + [c]; }
    }
  }

  // ---- what the handles record ---------------------------------------------

  /** The exchanges on the four actors' handles. */
  datatype Record = Record(nonces: seq<Exchange<NonceRequest, NonceReply>>,
                           signs: seq<Exchange<SignRequest, SignReply>>,
                           broadcasts: seq<Exchange<SignedTransaction, Result<Hash, B.BroadcastError>>>,
                           verdicts: seq<Exchange<Hash, Result<V.ValidatorOutcome, V.ValidatorError>>>)

  /** What a call, made attempt by attempt, adds. */
  function Recorded(was: Record, e: ExecutionId, job: Job, c: Call): Record {
    match c
    case Register(_) => was
    case Reserve(nonces) => was.(nonces := was.nonces + Asks(e, AskReserve, nonces, NonceHeard))
    case Sign(_, n, signatures) => was.(signs := was.signs + Asks(e, AskSign(WithNonce(job, n)), signatures, SignHeard))
    case Acquire(_) => was
    case Broadcast(_, txn, hashes) => was.(broadcasts := was.broadcasts + Asks(e, txn, hashes, BroadcastHeard))
    case Resolve(to, tries) => was.(nonces := was.nonces + Asks(e, AskResolve(to), tries, ResolveHeard))
    case Revert(tries) => was.(signs := was.signs + Asks(e, AskRevert, tries, RevertHeard))
    case Sync(onChain, nonces) => was.(nonces := was.nonces + Asks(e, AskSync(onChain), nonces, NonceHeard))
    case Validate(hash, outcome) => was.(verdicts := was.verdicts + [Exchange(e, hash, outcome)])
  }

  function BroadcastHeard(r: Result<Hash, B.BroadcastError>): Result<Hash, B.BroadcastError> {
    r
  }

  /** What the calls of a log add to what was recorded before. */
  function RecordOf(was: Record, e: ExecutionId, job: Job, log: seq<Call>): Record {
    if log == [] then was else Recorded(RecordOf(was, e, job, log[..|log| - 1]), e, job, log[|log| - 1])
  }

  // ---- what is handed to the node ------------------------------------------

  /** The transactions of the broadcast calls. */
  function BytesOf(log: seq<Call>): set<seq<byte>> {
    if log == [] then {}
    else
      var c := log[|log| - 1];
      var before := BytesOf(log[..|log| - 1]);
      if c.Broadcast? then before + {c.txn.rlp} else before
  }

  lemma {:induction false} BytesAreBroadcast(log: seq<Call>, b: seq<byte>) returns (i: nat)
    requires b in BytesOf(log)
    ensures i < |log| && log[i].Broadcast? && log[i].txn.rlp == b
    decreases log
  {
    var n := |log| - 1;
    if log[n].Broadcast? && log[n].txn.rlp == b {
      i := n;
    } else {
      i := BytesAreBroadcast(log[..n], b);
    }
  }

  /** All that is handed to the node is the submitted transaction, with the nonce granted last
      before the call and the sender's own signature over it. */
  lemma BytesAreSigned(log: seq<Call>, job: Job, b: seq<byte>) returns (i: nat)
    requires Replay(log, job).Some? && b in BytesOf(log)
    ensures i < |log| && log[i].Broadcast? && log[i].txn.rlp == b
    ensures Granted(log[..i]).Some? && SignedOver(log[i].txn, job, Granted(log[..i]).value)
  {
    i := BytesAreBroadcast(log, b);
    SignaturesAreCurrent(log, job, i);
  }

  predicate BeforeBroadcast(p: Point) {
    || p.Registering? || p.Reserving? || p.Acquiring?
    || ((p.Signing? || p.Broadcasting?) && !p.again)
  }

  lemma BeforeStep(p: Point, c: Call, job: Job)
    requires Fits(p, c, job)
    ensures BeforeBroadcast(Move(p, c, job).0) ==> BeforeBroadcast(p) && !c.Broadcast?
    ensures c.Broadcast? ==> BeforeBroadcast(p) || c.again
    ensures p.Broadcasting? && p.again ==> c.Broadcast?
  {
  }

  lemma {:induction false} NothingBeforeBroadcast(log: seq<Call>, job: Job)
    requires Replay(log, job).Some? && BeforeBroadcast(Replay(log, job).value.point)
    ensures BytesOf(log) == {}
    decreases log
  {
    if log != [] {
      var n := |log| - 1;
      BeforeStep(Replay(log[..n], job).value.point, log[n], job);
      NothingBeforeBroadcast(log[..n], job);
    }
  }

  /** A run that no sync took through the recovery broadcasts one transaction at most. */
  lemma {:induction false} OneTransactionUnlessResynced(log: seq<Call>, job: Job)
    requires Replay(log, job).Some? && !Resynced(log)
    ensures forall a, b | a in BytesOf(log) && b in BytesOf(log) :: a == b
    decreases log
  {
    if log != [] {
      var n := |log| - 1;
      var before, c := log[..n], log[n];
      assert !Resynced(before) by {
        assert forall i | 0 <= i < |before| :: before[i] == log[i];
      }
      OneTransactionUnlessResynced(before, job);
      var p := Replay(before, job).value.point;
      BeforeStep(p, c, job);
      if c.Broadcast? {
        if BeforeBroadcast(p) {
          NothingBeforeBroadcast(before, job);
        } else {
          var recovered, m := StatusLanguage(before, job);
          assert false;
        }
      }
    }
  }

  // ---- a run that recovers -------------------------------------------------

  /** At least one attempt is made, the relay host accepts at once, and there is an endpoint. */
  predicate Welcomes(job: Job) {
    job.limit >= 1 && job.relay(0) == Ok(()) && job.endpoint.Ok? && job.endpoint.value.Some?
  }

  /** The calls of a run that recovers, each answered at its first attempt. */
  function RecoveryLog(a: SignedTransaction, b: SignedTransaction, m: nat, n: nat, hash: Hash, job: Job): seq<Call> {
    [Call.Register([Ok(())]), Call.Reserve([Ok(m)]), Call.Sign(false, m, [Ok(a)]), Call.Acquire(job.endpoint),
     Call.Broadcast(false, a, [Err(B.NonceTooLow(n, m))]),
     Call.Resolve(L.Consumed, [Ok(())]), Call.Revert([Ok(())]), Call.Sync(n, [Ok(n)]), Call.Sign(true, n, [Ok(b)]),
     Call.Broadcast(true, b, [Ok(hash)]), Call.Validate(hash, Ok(V.Included(0, 0))),
     Call.Resolve(L.Finalized, [Ok(())])]
  }

  /** The first broadcast is answered nonce too low, and the run recovers and is confirmed:
      statuses go back, and the second broadcast carries the synced nonce. */
  lemma RecoveryExists(a: SignedTransaction, b: SignedTransaction, m: nat, n: nat, hash: Hash, job: Job)
    requires SignedOver(a, job, m) && SignedOver(b, job, n) && Welcomes(job)
    ensures var log := RecoveryLog(a, b, m, n, hash, job);
            && Resynced(log) && FirstTooLow(log) && !Lapsed(log)
            && Replay(log, job)
               == Some(Run(Ended(Some(n), ConfirmedOnChain(hash), Some(b)),
                           [PermitAquired, Accepted, NonceReserved, Status.Signed, NonceMismatchDetected(n, m),
                            NonceReserved, Status.Signed, Broadcasted(hash), ConfirmedOnChain(hash)]))
  {
    var log := UpToMismatch(a, m, n, job);
    var h := [PermitAquired, Accepted, NonceReserved, Status.Signed, NonceMismatchDetected(n, m)];
    log := Revertible(log, m, n, job, h);
    log := Resigned(log, m, b, n, job, h);
    var g := h + [NonceReserved, Status.Signed];
    log := FromRebroadcast(log, b, n, hash, job, g);
    assert log == RecoveryLog(a, b, m, n, hash, job);
    assert g + [Broadcasted(hash), ConfirmedOnChain(hash)]
        == [PermitAquired, Accepted, NonceReserved, Status.Signed, NonceMismatchDetected(n, m),
            NonceReserved, Status.Signed, Broadcasted(hash), ConfirmedOnChain(hash)];
  }

  lemma UpToMismatch(a: SignedTransaction, m: nat, n: nat, job: Job) returns (log: seq<Call>)
    requires SignedOver(a, job, m) && Welcomes(job)
    ensures log == [Call.Register([Ok(())]), Call.Reserve([Ok(m)]), Call.Sign(false, m, [Ok(a)]),
                    Call.Acquire(job.endpoint), Call.Broadcast(false, a, [Err(B.NonceTooLow(n, m))])]
    ensures Replay(log, job) == Some(Run(Consuming(m, n), [PermitAquired, Accepted, NonceReserved, Status.Signed,
                                                             NonceMismatchDetected(n, m)]))
    ensures FirstTooLow(log) && !Lapsed(log)
  {
    log := UpToBroadcast(a, m, job);
    var h := [PermitAquired, Accepted, NonceReserved, Status.Signed];
    var g := [PermitAquired, Accepted, NonceReserved, Status.Signed, NonceMismatchDetected(n, m)];
    assert h + [NonceMismatchDetected(n, m)] == g;
    log := Goes(log, Call.Broadcast(false, a, [Err(B.NonceTooLow(n, m))]), job,
                Run(Broadcasting(m, a, false), h), Run(Consuming(m, n), g));
  }

  /** One call more. */
  lemma Goes(log: seq<Call>, c: Call, job: Job, r: Run, q: Run) returns (more: seq<Call>)
    requires Replay(log, job) == Some(r) && Fits(r.point, c, job)
    requires q.point == Move(r.point, c, job).0 && q.shown == r.shown + Move(r.point, c, job).1
    ensures Replay(more, job) == Some(q) && more == log + [c]
    ensures Resynced(log) || Resyncs(c) ==> Resynced(more)
    ensures FirstTooLow(log) || StartsRecovery(c) ==> FirstTooLow(more)
    ensures !Lapsed(log) && !Lapses(c) ==> !Lapsed(more)
  {
    more := log + [c];
    ReplayAppend(log, c, job);
    assert more[|log|] == c && forall i | 0 <= i < |log| :: more[i] == log[i];
  }

  lemma UpToBroadcast(a: SignedTransaction, m: nat, job: Job) returns (log: seq<Call>)
    requires SignedOver(a, job, m) && Welcomes(job)
    ensures log == [Call.Register([Ok(())]), Call.Reserve([Ok(m)]), Call.Sign(false, m, [Ok(a)]),
                    Call.Acquire(job.endpoint)]
    ensures Replay(log, job)
            == Some(Run(Broadcasting(m, a, false), [PermitAquired, Accepted, NonceReserved, Status.Signed]))
    ensures !Lapsed(log)
  {
    var h := [PermitAquired, Accepted, NonceReserved];
    log := UpToSigning(m, job);
    log := Goes(log, Call.Sign(false, m, [Ok(a)]), job,
                Run(Signing(m, false), h), Run(Acquiring(m, a), h + [Status.Signed]));
    log := Goes(log, Call.Acquire(job.endpoint), job,
                Run(Acquiring(m, a), h + [Status.Signed]), Run(Broadcasting(m, a, false), h + [Status.Signed]));
    assert h + [Status.Signed] == [PermitAquired, Accepted, NonceReserved, Status.Signed];
  }

  lemma UpToReserving(job: Job) returns (log: seq<Call>)
    requires Welcomes(job)
    ensures log == [Call.Register([Ok(())])]
    ensures Replay(log, job) == Some(Run(Reserving, [PermitAquired, Accepted])) && !Lapsed(log)
  {
    var none: seq<Call> := [];
    log := Goes(none, Call.Register([Ok(())]), job, Run(Registering, [PermitAquired]),
                Run(Reserving, [PermitAquired, Accepted]));
  }

  lemma UpToSigning(m: nat, job: Job) returns (log: seq<Call>)
    requires Welcomes(job)
    ensures log == [Call.Register([Ok(())]), Call.Reserve([Ok(m)])]
    ensures Replay(log, job) == Some(Run(Signing(m, false), [PermitAquired, Accepted, NonceReserved]))
    ensures !Lapsed(log)
  {
    var h := [PermitAquired, Accepted];
    log := UpToReserving(job);
    log := Goes(log, Call.Reserve([Ok(m)]), job, Run(Reserving, h), Run(Signing(m, false), h + [NonceReserved]));
    assert h + [NonceReserved] == [PermitAquired, Accepted, NonceReserved];
  }

  lemma Revertible(before: seq<Call>, m: nat, n: nat, job: Job, h: seq<Status>) returns (log: seq<Call>)
    requires Replay(before, job) == Some(Run(Consuming(m, n), h)) && Welcomes(job)
    requires FirstTooLow(before) && !Lapsed(before)
    ensures log == before + [Call.Resolve(L.Consumed, [Ok(())]), Call.Revert([Ok(())])]
    ensures Replay(log, job) == Some(Run(Syncing(m, n), h))
    ensures FirstTooLow(log) && !Lapsed(log)
  {
    log := Goes(before, Call.Resolve(L.Consumed, [Ok(())]), job, Run(Consuming(m, n), h), Run(Reverting(m, n), h));
    log := Goes(log, Call.Revert([Ok(())]), job, Run(Reverting(m, n), h), Run(Syncing(m, n), h));
  }

  lemma Resigned(before: seq<Call>, m: nat, b: SignedTransaction, n: nat, job: Job, h: seq<Status>)
    returns (log: seq<Call>)
    requires Replay(before, job) == Some(Run(Syncing(m, n), h)) && Welcomes(job) && SignedOver(b, job, n)
    requires FirstTooLow(before) && !Lapsed(before)
    ensures log == before + [Call.Sync(n, [Ok(n)]), Call.Sign(true, n, [Ok(b)])]
    ensures Replay(log, job) == Some(Run(Broadcasting(n, b, true), h + [NonceReserved, Status.Signed]))
    ensures Resynced(log) && FirstTooLow(log) && !Lapsed(log)
  {
    var g := h + [NonceReserved];
    log := Goes(before, Call.Sync(n, [Ok(n)]), job, Run(Syncing(m, n), h), Run(Signing(n, true), g));
    log := Goes(log, Call.Sign(true, n, [Ok(b)]), job,
                Run(Signing(n, true), g), Run(Broadcasting(n, b, true), g + [Status.Signed]));
    assert g + [Status.Signed] == h + [NonceReserved, Status.Signed];
  }

  lemma FromRebroadcast(before: seq<Call>, b: SignedTransaction, n: nat, hash: Hash, job: Job, h: seq<Status>)
    returns (log: seq<Call>)
    requires Replay(before, job) == Some(Run(Broadcasting(n, b, true), h)) && Welcomes(job)
    requires Resynced(before) && FirstTooLow(before) && !Lapsed(before)
    ensures log == before + [Call.Broadcast(true, b, [Ok(hash)]), Call.Validate(hash, Ok(V.Included(0, 0))),
                              Call.Resolve(L.Finalized, [Ok(())])]
    ensures Replay(log, job) == Some(Run(Ended(Some(n), ConfirmedOnChain(hash), Some(b)),
                                           h + [Broadcasted(hash), ConfirmedOnChain(hash)]))
    ensures Resynced(log) && FirstTooLow(log) && !Lapsed(log)
  {
    log := Goes(before, Call.Broadcast(true, b, [Ok(hash)]), job,
                Run(Broadcasting(n, b, true), h), Run(Validating(n, b, hash), h + [Broadcasted(hash)]));
    log := FromValidation(log, b, n, hash, job, h + [Broadcasted(hash)]);
    assert h + [Broadcasted(hash)] + [ConfirmedOnChain(hash)] == h + [Broadcasted(hash), ConfirmedOnChain(hash)];
  }

  lemma FromValidation(before: seq<Call>, b: SignedTransaction, n: nat, hash: Hash, job: Job, h: seq<Status>)
    returns (log: seq<Call>)
    requires Replay(before, job) == Some(Run(Validating(n, b, hash), h)) && Welcomes(job)
    requires Resynced(before) && FirstTooLow(before) && !Lapsed(before)
    ensures log == before + [Call.Validate(hash, Ok(V.Included(0, 0))), Call.Resolve(L.Finalized, [Ok(())])]
    ensures Replay(log, job)
            == Some(Run(Ended(Some(n), ConfirmedOnChain(hash), Some(b)), h + [ConfirmedOnChain(hash)]))
    ensures Resynced(log) && FirstTooLow(log) && !Lapsed(log)
  {
    var last := ConfirmedOnChain(hash);
    log := Goes(before, Call.Validate(hash, Ok(V.Included(0, 0))), job,
                Run(Validating(n, b, hash), h), Run(Disposing(n, L.Finalized, last, Some(b)), h));
    log := Goes(log, Call.Resolve(L.Finalized, [Ok(())]), job,
                Run(Disposing(n, L.Finalized, last, Some(b)), h), Run(Ended(Some(n), last, Some(b)), h + [last]));
  }
}
