/** Where the ledger, the wire and the other tables stand at each point of the protocol, and
    what the calls of the pipeline keep of it. */
module Agreement {
  import opened Types
  import opened Revisions
  import opened Ledger
  import opened LedgerInvariants
  import opened NonceActor
  import opened NonceDisposition
  import opened NonceReuse
  import opened Eip1559
  import opened Eip1559Wire
  import P = Protocol
  import Results = ProtocolResults
  import Rlp
  import B = Broadcast
  import BroadcastActor
  import LeaseTable
  import V = Validation

  /** The transaction fits in memory whatever nonce is put into it. */
  ghost predicate FitsAnyNonce(tx: Transaction) {
    forall n: U256 :: InMemory(tx.(nonce := n))
  }

  // ---- where the tables stand at a point of the protocol -------------------

  /** Send `i` was of the execution and of these bytes, and was answered Ok. */
  ghost predicate AcceptedAs(wire: B.State, i: nat, e: ExecutionId, rlp: Rlp.Bytes) {
    B.AcceptedFor(wire, i, e) && wire.sent[i].txn == rlp
  }

  /** No send with other bytes was answered Ok. */
  ghost predicate OnlyAccepted(wire: B.State, e: ExecutionId, rlp: Rlp.Bytes) {
    forall i | B.AcceptedFor(wire, i, e) :: wire.sent[i].txn == rlp
  }

  /** All sends of the execution are of these transactions. */
  ghost predicate OnlySent(wire: B.State, e: ExecutionId, bytes: set<Rlp.Bytes>) {
    forall i | 0 <= i < |wire.sent| && wire.sent[i].exec == e :: wire.sent[i].txn in bytes
  }

  /** The execution's row at `k` is held while its nonce is in use, unless the sweeper took it,
      and ends as the final status promises, unless a resolve ran out of attempts. */
  ghost predicate LedgerAgrees(p: P.Point, t: Table, taken: set<Key>, calm: bool, lapsed: bool,
                               e: ExecutionId, k: Key)
  {
    match p
    case Registering => NoFinal(t, e)
    case Reserving => NoFinal(t, e)
    case Reverting(n, _) => NoFinal(t, e) && (calm && !lapsed ==> k.exec == e && EndedAs(t, taken, k, n, Consumed))
    case Syncing(n, _) => NoFinal(t, e) && (calm && !lapsed ==> k.exec == e && EndedAs(t, taken, k, n, Consumed))
    case Ended(granted, last, _) =>
      granted.Some? && calm && !lapsed ==>
        k.exec == e && EndedAs(t, taken, k, granted.value, Results.Disposition(last))
    case _ => p.nonce <= I64_MAX && NoFinal(t, e) && (calm ==> HoldsRow(t, e, k, p.nonce))
  }

  /** From `t`, the statements `evs` led to `u`; no sweep among them touched `e` if `calm`,
      and reserves of other executions consumed the rows in `taken`. */
  ghost predicate Traced(t: Table, now: int, evs: seq<Event>, u: Table, at: int, e: ExecutionId,
                         calm: bool, taken: set<Key>)
  {
    && ValidRun(t, now, evs) && Run(t, now, evs) == u && Clock(now, evs) == at
    && (calm <==> NoneSweeps(evs, e)) && taken == TakenOver(t, now, evs, e)
  }

  lemma TracedMore(t: Table, now: int, evs: seq<Event>, u: Table, at: int, e: ExecutionId,
                   calm: bool, taken: set<Key>, more: seq<Event>)
    requires Traced(t, now, evs, u, at, e, calm, taken) && ValidRun(u, at, more)
    ensures Traced(t, now, evs + more, Run(u, at, more), Clock(at, more), e,
                   calm && NoneSweeps(more, e), taken + TakenOver(u, at, more, e))
  {
    RunAppend(t, now, evs, more);
    TakenAppend(t, now, evs, more, e);
    SweepsAppend(evs, more, e);
  }

  lemma SweepsAppend(a: seq<Event>, b: seq<Event>, e: ExecutionId)
    ensures NoneSweeps(a + b, e) <==> NoneSweeps(a, e) && NoneSweeps(b, e)
  {
    assert forall i | 0 <= i < |a| :: (a + b)[i] == a[i];
    assert forall i | 0 <= i < |b| :: (a + b)[|a| + i] == b[i];
  }

  function SentAt(p: P.Point): Option<SignedTransaction> {
    match p
    case Validating(_, signed, _) => Some(signed)
    case Disposing(_, _, _, sent) => sent
    case Ended(_, _, sent) => sent
    case _ => None
  }

  function SentNonce(p: P.Point): nat {
    match p
    case Validating(n, _, _) => n
    case Disposing(n, _, _, _) => n
    case Ended(granted, _, _) => if granted.Some? then granted.value else 0
    case _ => 0
  }

  /** What was answered Ok is the transaction the protocol went on with. Nothing was before,
      except that a run whose broadcast failed inside cannot tell. */
  ghost predicate WireAgrees(p: P.Point, wire: B.State, i: nat, e: ExecutionId) {
    && (SentAt(p).Some? ==> AcceptedAs(wire, i, e, SentAt(p).value.rlp))
    && (SentAt(p).None? && !(p.Ended? && Results.LeavesReserved(p.last)) ==> B.NoOkFor(wire, e))
    && (p.Validating? ==> wire.sent[i].reply.hash == p.hash)
    && ((p.Disposing? || p.Ended?) && p.last.ConfirmedOnChain? ==>
          SentAt(p).Some? && wire.sent[i].reply.hash == p.last.txHash)
  }

  /** Points at which a call changes neither the ledger nor the wire. */
  predicate Idles(p: P.Point) {
    p.Registering? || p.Signing? || p.Acquiring? || p.Reverting? || p.Validating?
  }

  /** Rows of `e` are its sender's and date from the run, and taken rows stay consumed. */
  ghost predicate Keeps(t: Table, taken: set<Key>, e: ExecutionId, s: Sender, since: int) {
    YoungRows(t, e, since) && OwnedBy(t, e, s) && AllConsumed(t, taken)
  }

  /** The same, folded. */
  ghost predicate Kept(t: Table, taken: set<Key>, e: ExecutionId, s: Sender, since: int) {
    forall u {:trigger Keeps(u, taken, e, s, since)} | u == t :: Keeps(u, taken, e, s, since)
  }

  /** The log is one of the protocol's, and leads to the point and to the statuses shown; the
      rest is what it says of the resolves, the revert, the bytes and the handles. */
  ghost predicate Logged(log: seq<P.Call>, job: P.Job, r: P.Run, lapsed: bool, reverted: bool, bytes: set<Rlp.Bytes>,
                         base: Results.Record, record: Results.Record, e: ExecutionId)
  {
    && P.Replay(log, job) == Some(r)
    && lapsed == Results.Lapsed(log) && reverted == Results.Reverted(log) && bytes == Results.BytesOf(log)
    && record == Results.RecordOf(base, e, job, log)
  }

  lemma LoggedMore(log: seq<P.Call>, job: P.Job, r: P.Run, lapsed: bool, reverted: bool, bytes: set<Rlp.Bytes>,
                   base: Results.Record, record: Results.Record, e: ExecutionId, c: P.Call)
    requires Logged(log, job, r, lapsed, reverted, bytes, base, record, e) && P.Fits(r.point, c, job)
    ensures Logged(log + [c], job, P.Run(P.Move(r.point, c, job).0, r.shown + P.Move(r.point, c, job).1),
                   lapsed || Results.Lapses(c), if c.Revert? then Results.RevertsOk(c) else reverted,
                   BytesAfter(bytes, c), base, Results.Recorded(record, e, job, c), e)
  {
    P.ReplayAppend(log, c, job);
    assert (log + [c])[..|log|] == log;
  }

  /** `evs` were committed before a send, and unless a sweep among them touched `e`, it held
      the row at `k` with nonce `n` then. */
  ghost predicate SentHolding(t: Table, now: int, evs: seq<Event>, e: ExecutionId, k: Key, n: nat) {
    ValidRun(t, now, evs) && (NoneSweeps(evs, e) ==> HoldsRow(Run(t, now, evs), e, k, n))
  }

  lemma HeldAsOwn(t: Table, now: int, evs: seq<Event>, i: nat, e: ExecutionId, k: Key, n: nat, s: Sender)
    requires ValidRun(t, now, evs) && i <= |evs| && OwnedBy(Run(t, now, evs), e, s)
    requires SentHolding(t, now, evs[..i], e, k, n)
    ensures SweptBefore(evs, i, e) || (k.exec == e && Reserves(TableAt(t, now, evs, i), k, s, n))
  {
    TablePrefix(t, now, evs, i);
    TablePrefix(t, now, evs, |evs|);
    assert evs[..|evs|] == evs;
    AuditAt(t, now, evs, i, |evs|);
    if !NoneSweeps(evs[..i], e) {
      var m :| 0 <= m < i && Sweeps(evs[..i][m], e);
      assert Sweeps(evs[m], e);
    }
  }

  /** What a final status says of the validator's latest row. */
  ghost predicate VerdictAgrees(last: P.Status, rows: LeaseTable.Table<V.Verdict>, e: ExecutionId) {
    && (last.ConfirmedOnChain? ==> V.Cached(rows, e) == Some(V.Included(0, 0)))
    && (last == P.Failed(P.NotIncludedOnChain) || last == P.Failed(P.ValidatorFailed(V.Reverted)) ==>
          V.Cached(rows, e) == Some(V.NotIncluded))
    && (last.ValidatorTimedOut? ==> LeaseTable.Latest(rows, e).Some? && LeaseTable.Latest(rows, e).value.phase.Freed?)
  }

  /** No row of the execution is reserved or signed. */
  ghost predicate Unsigned(rows: LeaseTable.Table<Rlp.Bytes>, e: ExecutionId) {
    forall k | k in rows && k.exec == e :: !LeaseTable.Active(rows[k])
  }

  // ---- one scene ------------------------------------------------------------

  /** What the pipeline sees of the tables: the ledger now and the statements since `origin`,
      the wire, the send that was answered Ok, and the statements before it. */
  datatype Scene = Scene(table: Table, taken: set<Key>, calm: bool, wire: B.State, accepted: nat,
                         origin: Table, since: int, events: seq<Event>, beforeSend: seq<Event>)

  /** The tables stand where a point of the protocol says. */
  ghost predicate AgreesIn(p: P.Point, lapsed: bool, bytes: set<Rlp.Bytes>, at: Scene, e: ExecutionId, k: Key) {
    && LedgerAgrees(p, at.table, at.taken, at.calm, lapsed, e, k)
    && WireAgrees(p, at.wire, at.accepted, e) && OnlySent(at.wire, e, bytes)
    && (SentAt(p).Some? ==>
          at.beforeSend <= at.events && SentHolding(at.origin, at.since, at.beforeSend, e, k, SentNonce(p)))
  }

  /** The same, folded: the trigger keeps whoever passes it on from unfolding it. */
  ghost predicate Agreed(p: P.Point, lapsed: bool, bytes: set<Rlp.Bytes>, at: Scene, e: ExecutionId, k: Key) {
    forall x {:trigger AgreesIn(p, lapsed, bytes, x, e, k)} | x == at :: AgreesIn(p, lapsed, bytes, x, e, k)
  }

  lemma AnswerHeld(p: P.Point, lapsed: bool, bytes: set<Rlp.Bytes>, at: Scene, now: int,
                   e: ExecutionId, k: Key, s: Sender)
    requires AgreesIn(p, lapsed, bytes, at, e, k) && p.Ended? && p.sent.Some? && p.granted.Some?
    requires Traced(at.origin, at.since, at.events, at.table, now, e, at.calm, at.taken) && OwnedBy(at.table, e, s)
    requires WireNonce(p.sent.value.rlp) == Some(p.granted.value)
    ensures |at.beforeSend| <= |at.events| && B.AcceptedFor(at.wire, at.accepted, e)
    ensures SendsFrom(at.origin, at.since, at.events, |at.beforeSend|, at.wire.sent[at.accepted], s)
  {
    var i := |at.beforeSend|;
    assert at.events[..i] == at.beforeSend;
    HeldAsOwn(at.origin, at.since, at.events, i, e, k, p.granted.value, s);
  }

  function BytesAfter(bytes: set<Rlp.Bytes>, c: P.Call): set<Rlp.Bytes> {
    if c.Broadcast? then bytes + {c.txn.rlp} else bytes
  }

  /** The same, where a call leads. */
  ghost predicate AgreesAfter(p: P.Point, c: P.Call, job: P.Job, lapsed: bool, bytes: set<Rlp.Bytes>, at: Scene,
                              e: ExecutionId, k: Key)
    requires P.Fits(p, c, job)
  {
    AgreesIn(P.Move(p, c, job).0, lapsed || Results.Lapses(c), BytesAfter(bytes, c), at, e, k)
  }

  lemma IdleLedger(p: P.Point, c: P.Call, job: P.Job, t: Table, taken: set<Key>, calm: bool, lapsed: bool,
                   e: ExecutionId, k: Key)
    requires P.Fits(p, c, job) && Idles(p) && LedgerAgrees(p, t, taken, calm, lapsed, e, k) && AllConsumed(t, taken)
    ensures LedgerAgrees(P.Move(p, c, job).0, t, taken, calm, lapsed, e, k) && !c.Resolve? && !c.Broadcast?
  {
  }

  lemma IdleWire(p: P.Point, c: P.Call, job: P.Job, wire: B.State, i: nat, e: ExecutionId)
    requires P.Fits(p, c, job) && Idles(p) && WireAgrees(p, wire, i, e)
    ensures WireAgrees(P.Move(p, c, job).0, wire, i, e)
    ensures SentAt(P.Move(p, c, job).0).Some? ==> SentAt(p).Some? && SentNonce(P.Move(p, c, job).0) == SentNonce(p)
  {
  }

  /** A call at such a point keeps everything. */
  lemma IdleAgrees(p: P.Point, c: P.Call, job: P.Job, lapsed: bool, bytes: set<Rlp.Bytes>, at: Scene,
                   e: ExecutionId, k: Key)
    requires P.Fits(p, c, job) && Idles(p) && AgreesIn(p, lapsed, bytes, at, e, k) && AllConsumed(at.table, at.taken)
    ensures AgreesAfter(p, c, job, lapsed, bytes, at, e, k)
  {
    IdleLedger(p, c, job, at.table, at.taken, at.calm, lapsed, e, k);
    IdleWire(p, c, job, at.wire, at.accepted, e);
  }

  /** The ledger moved on, and nothing else. */
  ghost predicate LedgerMoves(at: Scene, next: Scene) {
    && next.wire == at.wire && next.accepted == at.accepted && next.origin == at.origin && next.since == at.since
    && next.beforeSend == at.beforeSend && at.events <= next.events && (next.calm ==> at.calm)
  }

  lemma ReserveAgrees(c: P.Call, job: P.Job, lapsed: bool, bytes: set<Rlp.Bytes>, at: Scene, next: Scene,
                      e: ExecutionId, before: Key, k: Key)
    requires P.Fits(P.Reserving, c, job) && AgreesIn(P.Reserving, lapsed, bytes, at, e, before)
    requires LedgerMoves(at, next) && NoFinal(next.table, e)
    requires var r := P.LastReply(c.nonces); r.Ok? ==> r.value <= I64_MAX && HoldsRow(next.table, e, k, r.value)
    ensures AgreesAfter(P.Reserving, c, job, lapsed, bytes, next, e, k)
  {
  }

  lemma ResolveAgrees(p: P.Point, c: P.Call, job: P.Job, lapsed: bool, bytes: set<Rlp.Bytes>, at: Scene, next: Scene,
                      e: ExecutionId, k: Key)
    requires P.Fits(p, c, job) && (p.Consuming? || p.Disposing?) && Results.Promises(p)
    requires AgreesIn(p, lapsed, bytes, at, e, k) && LedgerMoves(at, next)
    requires c.to != Finalized && NoFinal(at.table, e) ==> NoFinal(next.table, e)
    requires next.calm && HoldsRow(at.table, e, k, p.nonce) && P.LastReply(c.tries).Ok? ==>
               EndedAs(next.table, next.taken, k, p.nonce, c.to)
    ensures AgreesAfter(p, c, job, lapsed, bytes, next, e, k)
  {
  }

  lemma SyncAgrees(p: P.Point, c: P.Call, job: P.Job, lapsed: bool, bytes: set<Rlp.Bytes>, at: Scene, next: Scene,
                   w: set<Key>, e: ExecutionId, before: Key, k: Key)
    requires P.Fits(p, c, job) && p.Syncing? && AgreesIn(p, lapsed, bytes, at, e, before)
    requires LedgerMoves(at, next) && NoFinal(next.table, e) && AllConsumed(at.table, at.taken)
    requires Passed(at.table, next.table, w) && next.taken == at.taken + w
    requires var r := P.LastReply(c.nonces);
             if r.Ok? then r.value <= I64_MAX && HoldsRow(next.table, e, k, r.value) else k == before
    ensures AgreesAfter(p, c, job, lapsed, bytes, next, e, k)
  {
    if next.calm && !lapsed { OthersKeepEnded(at.table, next.table, at.taken, w, before, p.nonce, Consumed); }
  }

  /** What one or more broadcast calls with the same transaction leave behind. */
  ghost predicate HandedOn(wire: B.State, e: ExecutionId, txn: SignedTransaction, r: Result<Hash, B.BroadcastError>,
                           sent: set<Rlp.Bytes>)
  {
    && OnlyAccepted(wire, e, txn.rlp) && OnlySent(wire, e, sent + {txn.rlp})
    && (r.Ok? ==> B.WasAccepted(wire, e, r.value))
    && (r.Err? && !B.KeepsNonce(r.error) ==> B.NoOkFor(wire, e))
    && (r.Err? && r.error.NonceTooLow? ==> r.error.attempted == txn.withNonce)
  }

  lemma RefusedAgrees(p: P.Point, c: P.Call, job: P.Job, lapsed: bool, bytes: set<Rlp.Bytes>, at: Scene, wire: B.State,
                      e: ExecutionId, k: Key)
    requires P.Fits(p, c, job) && p.Broadcasting?
    requires AgreesIn(p, lapsed, bytes, at, e, k) && AllConsumed(at.table, at.taken)
    requires HandedOn(wire, e, p.signed, P.LastReply(c.hashes), bytes) && P.LastReply(c.hashes).Err?
    ensures AgreesAfter(p, c, job, lapsed, bytes, at.(wire := wire), e, k)
  {
  }

  lemma AnsweredAgrees(p: P.Point, c: P.Call, job: P.Job, lapsed: bool, bytes: set<Rlp.Bytes>, at: Scene, wire: B.State,
                       now: int, i: nat, e: ExecutionId, k: Key)
    requires P.Fits(p, c, job) && p.Broadcasting? && AgreesIn(p, lapsed, bytes, at, e, k)
    requires Traced(at.origin, at.since, at.events, at.table, now, e, at.calm, at.taken)
    requires HandedOn(wire, e, p.signed, P.LastReply(c.hashes), bytes) && P.LastReply(c.hashes).Ok?
    requires B.AcceptedFor(wire, i, e) && wire.sent[i].reply.hash == P.LastReply(c.hashes).value
    ensures AgreesAfter(p, c, job, lapsed, bytes, at.(wire := wire, accepted := i, beforeSend := at.events), e, k)
  {
  }

  lemma SendKeeps(s: B.State, u: B.State, e: ExecutionId, txn: Rlp.Bytes, sent: set<Rlp.Bytes>)
    requires u.sent == s.sent || BroadcastActor.OneSend(s.sent, u.sent, e, txn)
    requires OnlyAccepted(s, e, txn) && OnlySent(s, e, sent + {txn})
    ensures OnlyAccepted(u, e, txn) && OnlySent(u, e, sent + {txn})
  {
    forall i | B.AcceptedFor(u, i, e) ensures u.sent[i].txn == txn {
      if i < |s.sent| { assert B.AcceptedFor(s, i, e); }
    }
  }
}
