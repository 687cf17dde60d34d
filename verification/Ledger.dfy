/** The nonce ledger: table `nonce.nonce_assignments` and the statements that
    change it. Every statement is atomic; one that would violate the unique
    index, or overflow a BIGINT, aborts and leaves the table as it was. */
module Ledger {
  import opened Types
  import opened Revisions

  datatype NonceState = Reserved | Finalized | Released | Consumed

  datatype Sender = Sender(chain: nat, from: Address)

  datatype Row = Row(sender: Sender, nonce: nat, state: NonceState, updatedAt: int)

  type Table = map<Key, Row>

  const RESERVE_LEASE := 2 * MINUTE
  const SYNC_LEASE := 5 * MINUTE
  const SWEEP_AGE := 2 * MINUTE + 5 * SECOND
  const SWEEP_LIMIT := 100

  /** The rows `uniq_active_nonce` covers. */
  predicate Active(r: Row) {
    r.state == Reserved || r.state == Finalized
  }

  predicate IndexFree(t: Table, s: Sender, n: int) {
    forall k | k in t :: !(Active(t[k]) && t[k].sender == s && t[k].nonce == n)
  }

  // ---- subqueries ----------------------------------------------------------

  ghost predicate IsMaxNonce(t: Table, s: Sender, m: int) {
    && -1 <= m
    && (m == -1 || exists k :: k in t && Active(t[k]) && t[k].sender == s && t[k].nonce == m)
    && forall k | k in t && Active(t[k]) && t[k].sender == s :: t[k].nonce <= m
  }

  /** `max_nonce`: COALESCE(MAX(nonce), -1) over reserved and finalized rows. */
  ghost function MaxNonce(t: Table, s: Sender): (m: int)
    ensures IsMaxNonce(t, s, m)
  {
    var ns := set k | k in t && Active(t[k]) && t[k].sender == s :: t[k].nonce as int;
    var m := MaxOf(ns, -1);
    assert forall k | k in t && Active(t[k]) && t[k].sender == s :: (t[k].nonce as int) in ns;
    m
  }

  predicate IsReleased(t: Table, s: Sender, k: Key)
    requires k in t
  {
    t[k].state == Released && t[k].sender == s
  }

  /** `target_release`: ORDER BY nonce ASC, revision DESC LIMIT 1. Rows that tie on
      both are a free choice of the database, so the choice is an argument. */
  predicate PickOk(t: Table, s: Sender, pick: Option<Key>) {
    match pick
    case None => forall k | k in t :: !IsReleased(t, s, k)
    case Some(p) =>
      && p in t && IsReleased(t, s, p)
      && forall k | k in t && IsReleased(t, s, k) ::
           t[p].nonce < t[k].nonce || (t[p].nonce == t[k].nonce && k.rev <= p.rev)
  }

  /** The latest active row of an execution, read when an insert did nothing. */
  predicate IsExisting(t: Table, e: ExecutionId, found: Option<Key>) {
    match found
    case None => forall k | k in t && k.exec == e :: !Active(t[k])
    case Some(f) =>
      && f in t && f.exec == e && Active(t[f])
      && forall k | k in t && k.exec == e && Active(t[k]) :: k.rev <= f.rev
  }

  /** The latest reserved row of an execution, the target of a resolve. */
  predicate IsTarget(t: Table, e: ExecutionId, found: Option<Key>) {
    match found
    case None => forall k | k in t && k.exec == e :: t[k].state != Reserved
    case Some(f) =>
      && f in t && f.exec == e && t[f].state == Reserved
      && forall k | k in t && k.exec == e && t[k].state == Reserved :: k.rev <= f.rev
  }

  ghost function Latest(t: Table, e: ExecutionId, p: Row -> bool): (found: Option<Key>)
    ensures match found
            case None => forall k | k in t && k.exec == e :: !p(t[k])
            case Some(f) => f in t && f.exec == e && p(t[f])
                            && forall k | k in t && k.exec == e && p(t[k]) :: k.rev <= f.rev
  {
    var revs := set k | k in t && k.exec == e && p(t[k]) :: k.rev as int;
    var m := MaxOf(revs, -1);
    assert forall k | k in t && k.exec == e && p(t[k]) :: (k.rev as int) in revs;
    if m == -1 then None else Some(Key(e, m))
  }

  ghost function Existing(t: Table, e: ExecutionId): (found: Option<Key>)
    ensures IsExisting(t, e, found)
  {
    Latest(t, e, r => Active(r))
  }

  ghost function Target(t: Table, e: ExecutionId): (found: Option<Key>)
    ensures IsTarget(t, e, found)
  {
    Latest(t, e, (r: Row) => r.state == Reserved)
  }

  // ---- statements ----------------------------------------------------------

  datatype Outcome = Aborted | Guarded | Inserted(nonce: nat)

  function SetState(t: Table, k: Key, st: NonceState, at: int): Table
    requires k in t
  {
    t[k := t[k].(state := st, updatedAt := at)]
  }

  /** The NOT EXISTS guard shared by reserve (2 minutes) and sync (5 minutes). */
  predicate Held(t: Table, at: int, e: ExecutionId, lease: int) {
    exists k | k in t :: k.exec == e
      && (t[k].state == Finalized || (t[k].state == Reserved && t[k].updatedAt > at - lease))
  }

  /** The second guard of sync: somebody holds a fresh reservation of the nonce. */
  predicate Taken(t: Table, at: int, s: Sender, n: int) {
    exists k | k in t :: t[k].sender == s && t[k].nonce == n
      && t[k].state == Reserved && t[k].updatedAt > at - SYNC_LEASE
  }

  /** INSERT of a reserved row that passed its guards. */
  ghost function InsertOutcome(t: Table, s: Sender, e: ExecutionId, n: nat): Outcome {
    if n > I64_MAX || MaxRev(t, e) + 1 > I64_MAX || !IndexFree(t, s, n) then Aborted
    else Inserted(n)
  }

  ghost function WithRow(t: Table, base: Table, s: Sender, e: ExecutionId, n: nat, at: int): Table {
    base[Key(e, MaxRev(t, e) + 1) := Row(s, n, Reserved, at)]
  }

  ghost function ReserveNonce(t: Table, s: Sender, pick: Option<Key>): nat
    requires PickOk(t, s, pick)
  {
    if pick.Some? then t[pick.value].nonce else MaxNonce(t, s) + 1
  }

  ghost function ReserveOutcome(t: Table, at: int, s: Sender, e: ExecutionId, pick: Option<Key>): Outcome
    requires PickOk(t, s, pick)
  {
    if Held(t, at, e, RESERVE_LEASE) then Guarded
    else InsertOutcome(t, s, e, ReserveNonce(t, s, pick))
  }

  /** The `consumed` CTE runs whether or not the INSERT's guard lets a row in. */
  function AfterConsume(t: Table, at: int, s: Sender, pick: Option<Key>): Table
    requires PickOk(t, s, pick)
  {
    if pick.Some? then SetState(t, pick.value, Consumed, at) else t
  }

  ghost function ReserveTable(t: Table, at: int, s: Sender, e: ExecutionId, pick: Option<Key>): Table
    requires PickOk(t, s, pick)
  {
    match ReserveOutcome(t, at, s, e, pick)
    case Aborted => t
    case Guarded => AfterConsume(t, at, s, pick)
    case Inserted(n) => WithRow(t, AfterConsume(t, at, s, pick), s, e, n, at)
  }

  ghost function SyncOutcome(t: Table, at: int, s: Sender, e: ExecutionId, n: nat): Outcome {
    if Held(t, at, e, SYNC_LEASE) || Taken(t, at, s, n) then Guarded
    else InsertOutcome(t, s, e, n)
  }

  ghost function SyncTable(t: Table, at: int, s: Sender, e: ExecutionId, n: nat): Table {
    if SyncOutcome(t, at, s, e, n).Inserted? then WithRow(t, t, s, e, n, at) else t
  }

  ghost function ResolveTable(t: Table, at: int, e: ExecutionId, to: NonceState): Table {
    match Target(t, e)
    case None => t
    case Some(k) => SetState(t, k, to, at)
  }

  predicate Stale(t: Table, at: int, k: Key)
    requires k in t
  {
    t[k].state == Reserved && t[k].updatedAt < at - SWEEP_AGE
  }

  /** DISTINCT ON (execution_id) ... ORDER BY execution_id, revision DESC. */
  predicate StaleHead(t: Table, at: int, k: Key) {
    k in t && Stale(t, at, k) && forall j | j in t && j.exec == k.exec && Stale(t, at, j) :: j.rev <= k.rev
  }

  function SweepTable(t: Table, at: int, keys: set<Key>): Table {
    map k | k in t :: if k in keys then t[k].(state := Released, updatedAt := at) else t[k]
  }

  /** What one sweeper statement picks: the first 100 stale heads by execution. */
  predicate SweepPick(t: Table, at: int, keys: set<Key>) {
    && (forall k | k in keys :: StaleHead(t, at, k))
    && |keys| <= SWEEP_LIMIT
    && (forall k | k in t && StaleHead(t, at, k) && k !in keys ::
          |keys| == SWEEP_LIMIT && forall j | j in keys :: j.exec < k.exec)
  }

  // ---- runs ----------------------------------------------------------------

  /** A committed statement, stamped by the database clock. */
  datatype Event =
    | Reserve(at: int, sender: Sender, exec: ExecutionId, pick: Option<Key>)
    | Sync(at: int, sender: Sender, exec: ExecutionId, onChain: nat)
    | Resolve(at: int, exec: ExecutionId, to: NonceState)
    | Sweep(at: int, keys: set<Key>)

  /** Runs admit a sweep of any set of stale heads, which covers the 100-row batch. */
  ghost predicate Enabled(t: Table, ev: Event) {
    match ev
    case Reserve(_, s, _, pick) => PickOk(t, s, pick)
    case Sync(_, _, _, _) => true
    case Resolve(_, _, to) => to != Reserved
    case Sweep(at, keys) => forall k | k in keys :: StaleHead(t, at, k)
  }

  ghost function Step(t: Table, ev: Event): Table
    requires Enabled(t, ev)
  {
    match ev
    case Reserve(at, s, e, pick) => ReserveTable(t, at, s, e, pick)
    case Sync(at, s, e, n) => SyncTable(t, at, s, e, n)
    case Resolve(at, e, to) => ResolveTable(t, at, e, to)
    case Sweep(at, keys) => SweepTable(t, at, keys)
  }

  /** `evs` can be committed one after the other from `t`, on a monotone clock. */
  ghost predicate ValidRun(t: Table, now: int, evs: seq<Event>)
    decreases evs
  {
    evs == [] ||
    (now <= evs[0].at && Enabled(t, evs[0]) && ValidRun(Step(t, evs[0]), evs[0].at, evs[1..]))
  }

  ghost function Run(t: Table, now: int, evs: seq<Event>): Table
    requires ValidRun(t, now, evs)
    decreases evs
  {
    if evs == [] then t else Run(Step(t, evs[0]), evs[0].at, evs[1..])
  }

  ghost function Clock(now: int, evs: seq<Event>): int {
    if evs == [] then now else evs[|evs| - 1].at
  }

  /** The nonce an insert committed by `ev` gives its execution. */
  ghost function Committed(t: Table, ev: Event): Option<nat>
    requires Enabled(t, ev)
  {
    match ev
    case Reserve(at, s, e, pick) =>
      var o := ReserveOutcome(t, at, s, e, pick); if o.Inserted? then Some(o.nonce) else None
    case Sync(at, s, e, n) =>
      var o := SyncOutcome(t, at, s, e, n); if o.Inserted? then Some(o.nonce) else None
    case Resolve(_, _, _) => None
    case Sweep(_, _) => None
  }

  // ---- replies -------------------------------------------------------------

  /** The reply to reserve or sync: the inserted nonce, or the latest active row found in
      `seen`, the table at the time of the second statement. `missing` is the error for
      finding none: a row-not-found database error for reserve, a rejection for sync. */
  ghost function Reply(o: Outcome, seen: Table, e: ExecutionId, missing: LocalError): Result<nat, LocalError> {
    match o
    case Aborted => Err(DatabaseError)
    case Inserted(n) => Ok(n)
    case Guarded =>
      match Existing(seen, e)
      case Some(k) => Ok(seen[k].nonce)
      case None => Err(missing)
  }

  /** The reply to resolve: fine if a row was hit, or if the latest row found in `seen`
      is already in the wanted state. */
  ghost function ResolveReply(hit: bool, seen: Table, e: ExecutionId, to: NonceState): Result<(), LocalError> {
    var m := MaxRev(seen, e);
    if hit then Ok(())
    else if Key(e, m) !in seen then Err(Invariant)
    else if seen[Key(e, m)].state == to then Ok(())
    else if seen[Key(e, m)].state == Reserved then Err(Invariant)
    else Err(Internal)
  }

  datatype Answer = Nonce(Result<nat, LocalError>) | Done(Result<(), LocalError>) | Silent

  /** What a client is told whose first statement ran on `t` and whose second reads `seen`. */
  ghost function AnswerSeeing(t: Table, ev: Event, seen: Table): Answer
    requires Enabled(t, ev)
  {
    match ev
    case Reserve(at, s, e, pick) => Nonce(Reply(ReserveOutcome(t, at, s, e, pick), seen, e, DatabaseError))
    case Sync(at, s, e, n) => Nonce(Reply(SyncOutcome(t, at, s, e, n), seen, e, Rejected))
    case Resolve(at, e, to) => Done(ResolveReply(Target(t, e).Some?, seen, e, to))
    case Sweep(_, _) => Silent
  }

  /** The same when both statements run back to back. */
  ghost function AnswerTo(t: Table, ev: Event): Answer
    requires Enabled(t, ev)
  {
    AnswerSeeing(t, ev, Step(t, ev))
  }
}
