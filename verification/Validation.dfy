/** Validation: a verdict row is written once and answers every later call; one call polls
    the RPC a bounded number of times. */
module Validation {
  import opened Types
  import opened Revisions
  import opened LeaseTable
  import opened Channels

  /** A settled row's state; a timed-out row is a freed one. */
  datatype Verdict = IncludedRow | NotIncludedRow

  /** Committed statements on `validator.validation_requests`. */
  datatype Step =
    | Request(at: int, exec: ExecutionId)
    | Outcome(at: int, exec: ExecutionId, verdict: Option<Verdict>)  // None for timed_out

  ghost function PendingKey(t: Table<Verdict>, e: ExecutionId): Option<Key> {
    if k :| k in t && k.exec == e && t[k].phase.Pending? then Some(k) else None
  }

  /** The index on this table covers pending rows only; since the guard stops at a verdict,
      claims come out as in the tables whose index covers settled rows too. */
  lemma PendingIndexSuffices(t: Table<Verdict>, at: int, e: ExecutionId)
    ensures ClaimOutcome(t, at, e) ==
            if Guard(t, at, e) then Guarded
            else if exists k | k in t :: k.exec == e && t[k].phase.Pending? then Aborted
            else Claimed(Key(e, MaxRev(t, e) + 1))
  {
    if !Guard(t, at, e) { assert forall k | k in t && k.exec == e :: !t[k].phase.Settled?; }
  }

  function PhaseOf(v: Option<Verdict>): Phase<Verdict> {
    if v.Some? then Settled(v.value) else Freed
  }

  ghost function Next(t: Table<Verdict>, step: Step): Table<Verdict> {
    match step
    case Request(at, e) => AfterClaim(t, at, e)
    case Outcome(at, e, v) =>
      var k := PendingKey(t, e);
      if k.Some? then Set(t, k.value, PhaseOf(v), at) else t
  }

  ghost function Run(t: Table<Verdict>, steps: seq<Step>): Table<Verdict>
    decreases steps
  {
    if steps == [] then t else Run(Next(t, steps[0]), steps[1..])
  }

  lemma InvNext(t: Table<Verdict>, step: Step)
    requires Inv(t)
    ensures Inv(Next(t, step))
  {
    match step
    case Request(at, e) => InvClaim(t, at, e);
    case Outcome(at, e, v) =>
      var k := PendingKey(t, e);
      if k.Some? { InvSet(t, k.value, PhaseOf(v), at); }
  }

  // ---- verdicts are final --------------------------------------------------

  lemma VerdictStays(t: Table<Verdict>, k: Key, step: Step)
    requires Inv(t) && k in t && t[k].phase.Settled?
    ensures k in Next(t, step) && Next(t, step)[k] == t[k]
  {
    FreshKey(t, step.exec);
    if step.Outcome? {
      var p := PendingKey(t, step.exec);
      assert p != Some(k);
    }
  }

  lemma VerdictIsLatest(t: Table<Verdict>, k: Key)
    requires Inv(t) && k in t && t[k].phase.Settled?
    ensures Latest(t, k.exec) == Some(t[k])
    ensures forall j | j in t && j.exec == k.exec && t[j].phase.Settled? :: j == k
    ensures forall at :: !ClaimOutcome(t, at, k.exec).Claimed?
  {
    ActiveIsLatest(t, k);
    forall j | j in t && j.exec == k.exec && t[j].phase.Settled? ensures j == k { ActiveIsLatest(t, j); }
  }

  /** A verdict row never changes, stays the execution's latest and only one, and no later
      request adds a row. */
  lemma {:induction false} VerdictIsFinal(t: Table<Verdict>, k: Key, steps: seq<Step>)
    requires Inv(t) && k in t && t[k].phase.Settled?
    ensures var u := Run(t, steps);
            && Inv(u) && Latest(u, k.exec) == Some(t[k])
            && (forall j | j in u && j.exec == k.exec && u[j].phase.Settled? :: j == k)
            && (forall at :: !ClaimOutcome(u, at, k.exec).Claimed?)
    decreases steps
  {
    if steps == [] {
      VerdictIsLatest(t, k);
    } else {
      InvNext(t, steps[0]);
      VerdictStays(t, k, steps[0]);
      VerdictIsFinal(Next(t, steps[0]), k, steps[1..]);
    }
  }

  // ---- the actor -----------------------------------------------------------

  datatype ValidatorOutcome = Included(block: nat, confirmations: nat) | NotIncluded | Timeout

  datatype ValidatorError = Rpc | Reverted | Database | Internal | RpcError

  datatype Config = Config(pollInterval: nat, timeout: nat, requiredConfirmations: nat)

  datatype Receipt = Missing | Failure | Mined(status: bool, block: Option<nat>)

  /** What one poll hears of the receipt and of the chain's head, and the time it takes. */
  datatype PollAnswer = PollAnswer(receipt: Receipt, head: Option<nat>, spent: nat)

  /** How the look-up of a verdict, the insert of the request and the update run. */
  datatype Statements = Statements(read: Db, insert: Db, update: Db)

  function SaturatingSub(a: nat, b: nat): nat {
    if a < b then 0 else a - b
  }

  /** What `check_cached_result` reads off the latest row. */
  ghost function Cached(t: Table<Verdict>, e: ExecutionId): Option<ValidatorOutcome> {
    var row := Latest(t, e);
    if row.None? || !row.value.phase.Settled? then None
    else if row.value.phase.data == IncludedRow then Some(Included(0, 0))
    else Some(NotIncluded)
  }

  // ---- what a request comes to ---------------------------------------------

  function BlockOf(a: PollAnswer): nat {
    if a.receipt.Mined? && a.receipt.block.Some? then a.receipt.block.value else 0
  }

  predicate Failed(a: PollAnswer) {
    a.receipt.Failure?
  }

  predicate Reverts(a: PollAnswer) {
    a.receipt.Mined? && !a.receipt.status
  }

  /** Mined, but the head could not be read. */
  predicate Headless(a: PollAnswer) {
    a.receipt.Mined? && a.receipt.status && a.head.None?
  }

  function Confirmations(a: PollAnswer): nat
    requires a.head.Some?
  {
    SaturatingSub(a.head.value, BlockOf(a))
  }

  /** Mined and confirmed often enough. */
  predicate Confirms(a: PollAnswer, required: nat) {
    a.receipt.Mined? && a.receipt.status && a.head.Some? && Confirmations(a) >= required
  }

  /** The poll ends the polling. */
  predicate Decides(a: PollAnswer, required: nat) {
    Failed(a) || Reverts(a) || Headless(a) || Confirms(a, required)
  }

  /** How long after the start the i-th poll is due. */
  function Elapsed(c: Config, polls: nat -> PollAnswer, i: nat): nat {
    if i == 0 then 0 else Elapsed(c, polls, i - 1) + polls(i - 1).spent + c.pollInterval
  }

  /** The i-th poll is due before the timeout and is the first that decides. */
  ghost predicate First(c: Config, polls: nat -> PollAnswer, i: nat) {
    && Elapsed(c, polls, i) <= c.timeout && Decides(polls(i), c.requiredConfirmations)
    && forall j: nat | j < i :: !Decides(polls(j), c.requiredConfirmations)
  }

  /** No poll that is due before the timeout decides. */
  ghost predicate RunsOut(c: Config, polls: nat -> PollAnswer) {
    forall i: nat | Elapsed(c, polls, i) <= c.timeout :: !Decides(polls(i), c.requiredConfirmations)
  }

  lemma FirstIsOne(c: Config, polls: nat -> PollAnswer, i: nat)
    requires First(c, polls, i)
    ensures !RunsOut(c, polls) && forall j | First(c, polls, j) :: j == i
  {
  }

  lemma {:induction false} ElapsedGrows(c: Config, polls: nat -> PollAnswer, i: nat, j: nat)
    requires i <= j
    ensures Elapsed(c, polls, i) <= Elapsed(c, polls, j)
  {
    if i < j { ElapsedGrows(c, polls, i, j - 1); }
  }

  /** What a deciding poll tells the caller: without the head nothing is recorded. */
  function ReplyTo(a: PollAnswer, update: Db): Result<ValidatorOutcome, ValidatorError> {
    if Headless(a) then Err(RpcError)
    else if !update.Up? then Err(Database)
    else if Failed(a) then Err(RpcError)
    else if Reverts(a) || a.head.None? then Err(Reverted)
    else Ok(Included(BlockOf(a), Confirmations(a)))
  }

  function VerdictOn(a: PollAnswer): Verdict {
    if Failed(a) || Reverts(a) then NotIncludedRow else IncludedRow
  }

  /** Polling from `t`, whose latest row of the execution is pending, to `u`; `hit` is the poll
      that decided, and without one the polling timed out. */
  ghost predicate Polled(t: Table<Verdict>, u: Table<Verdict>, c: Config, e: ExecutionId, start: int,
                         polls: nat -> PollAnswer, update: Db, r: Result<ValidatorOutcome, ValidatorError>, end: int,
                         hit: Option<nat>)
  {
    var k := Key(e, MaxRev(t, e));
    match hit
    case Some(i) =>
      && First(c, polls, i) && r == ReplyTo(polls(i), update) && end == start + Elapsed(c, polls, i) + polls(i).spent
      && u == if update.Down? || Headless(polls(i)) then t else t[k := Row(Settled(VerdictOn(polls(i))), end)]
    case None =>
      && RunsOut(c, polls) && r == (if update.Up? then Ok(Timeout) else Err(Database)) && end > start + c.timeout
      && u == if update.Down? then t else t[k := Row(Freed, end)]
  }

  /** The pending row that a request finds, or else adds. */
  ghost function Requested(t: Table<Verdict>, e: ExecutionId, at: int): Table<Verdict> {
    match Latest(t, e)
    case Some(Row(Pending, _)) => t
    case _ => t[Key(e, MaxRev(t, e) + 1) := Row(Pending, at)]
  }

  /** The reply to a validation request and the new table, for every outcome of the statements and
      every answer to the polls, told from the execution's latest row. */
  ghost predicate ValidationServed(t: Table<Verdict>, u: Table<Verdict>, c: Config, chain: nat, e: ExecutionId,
                                   start: int, db: Statements, polls: nat -> PollAnswer,
                                   r: Result<ValidatorOutcome, ValidatorError>, end: int)
  {
    if !db.read.Up? then u == t && r == Err(Database)
    else
      match Latest(t, e)
      case Some(Row(Settled(v), _)) => u == t && r == Ok(if v.IncludedRow? then Included(0, 0) else NotIncluded)
      case latest =>
        if chain > I64_MAX then u == t && r == Err(ValidatorError.Internal)
        else if db.insert.Down? then u == t && r == Err(Database)
        else if latest.Some? && latest.value.phase.Pending? && latest.value.updatedAt <= start - 2 * 60 * 1_000_000 then
          u == t && r == Err(Database)
        else if db.insert.Lost? then u == Requested(t, e, start) && r == Err(Database)
        else exists hit :: Polled(Requested(t, e, start), u, c, e, start, polls, db.update, r, end, hit)
  }

  /** The latest row of the execution is pending. */
  ghost predicate AwaitsVerdict(t: Table<Verdict>, e: ExecutionId) {
    Latest(t, e).Some? && Latest(t, e).value.phase.Pending?
  }

  lemma TimesOut(c: Config, polls: nat -> PollAnswer, n: nat)
    requires Elapsed(c, polls, n) > c.timeout && forall j: nat | j < n :: !Decides(polls(j), c.requiredConfirmations)
    ensures RunsOut(c, polls)
  {
    forall j: nat | Elapsed(c, polls, j) <= c.timeout ensures j < n {
      if n <= j { ElapsedGrows(c, polls, n, j); }
    }
  }

  /** The request reaches the polling: it is recorded, and no verdict was. */
  ghost predicate ReachesPolls(t: Table<Verdict>, chain: nat, e: ExecutionId, start: int, db: Statements) {
    && chain <= I64_MAX && db.read.Up? && db.insert.Up?
    && forall k | k in t && k.exec == e ::
         t[k].phase.Freed? || (t[k].phase.Pending? && t[k].updatedAt > start - 2 * 60 * 1_000_000)
  }

  /** The first poll that decides fixes the reply, unless the update does not run, and without
      one there is a timeout. */
  lemma ReplyIff(t: Table<Verdict>, u: Table<Verdict>, c: Config, chain: nat, e: ExecutionId, start: int,
                 db: Statements, polls: nat -> PollAnswer, r: Result<ValidatorOutcome, ValidatorError>, end: int)
    requires Inv(t) && ValidationServed(t, u, c, chain, e, start, db, polls, r, end)
    requires ReachesPolls(t, chain, e, start, db)
    ensures forall b, n :: r == Ok(Included(b, n)) <==>
              db.update.Up? && exists i :: First(c, polls, i) && Confirms(polls(i), c.requiredConfirmations)
                                           && b == BlockOf(polls(i)) && n == Confirmations(polls(i))
    ensures r == Err(Reverted) <==> db.update.Up? && exists i :: First(c, polls, i) && Reverts(polls(i))
    ensures r == Err(RpcError) <==>
            exists i :: First(c, polls, i) && (Headless(polls(i)) || (Failed(polls(i)) && db.update.Up?))
    ensures r == Ok(Timeout) <==> db.update.Up? && RunsOut(c, polls)
    ensures r == Err(Database) <==> !db.update.Up? && !exists i :: First(c, polls, i) && Headless(polls(i))
  {
    var v := Requested(t, e, start);
    LatestReaches(t, chain, e, start, db);
    var hit :| Polled(v, u, c, e, start, polls, db.update, r, end, hit);
    if hit.Some? { FirstIsOne(c, polls, hit.value); }
  }

  lemma LatestReaches(t: Table<Verdict>, chain: nat, e: ExecutionId, start: int, db: Statements)
    requires Inv(t) && ReachesPolls(t, chain, e, start, db)
    ensures match Latest(t, e)
            case Some(Row(Settled(_), _)) => false
            case Some(Row(Pending, since)) => since > start - 2 * 60 * 1_000_000
            case _ => true
  {
  }

  /** What the latest row says after a reply. */
  lemma ServedVerdict(t: Table<Verdict>, u: Table<Verdict>, c: Config, chain: nat, e: ExecutionId, start: int,
                      db: Statements, polls: nat -> PollAnswer, r: Result<ValidatorOutcome, ValidatorError>, end: int)
    requires Inv(t) && ValidationServed(t, u, c, chain, e, start, db, polls, r, end)
    ensures r.Ok? && r.value.Included? ==> Cached(u, e) == Some(Included(0, 0))
    ensures r == Ok(Timeout) ==> end > start + c.timeout && Latest(u, e) == Some(Row(Freed, end))
    ensures r == Ok(NotIncluded) || r == Err(Reverted) ==> Cached(u, e) == Some(NotIncluded)
  {
    var v := Requested(t, e, start);
    if hit :| Polled(v, u, c, e, start, polls, db.update, r, end, hit) {
      if Cached(t, e).None? {
        LatestAfterRequest(t, e, start);
        PolledVerdict(v, u, c, e, start, polls, db.update, r, end, hit);
      }
    }
  }

  lemma PolledVerdict(t: Table<Verdict>, u: Table<Verdict>, c: Config, e: ExecutionId, start: int,
                      polls: nat -> PollAnswer, update: Db, r: Result<ValidatorOutcome, ValidatorError>, end: int,
                      hit: Option<nat>)
    requires Inv(t) && AwaitsVerdict(t, e) && Polled(t, u, c, e, start, polls, update, r, end, hit)
    ensures r.Ok? && r.value.Included? ==> Cached(u, e) == Some(Included(0, 0))
    ensures r == Ok(Timeout) ==> end > start + c.timeout && Latest(u, e) == Some(Row(Freed, end))
    ensures r == Ok(NotIncluded) || r == Err(Reverted) ==> Cached(u, e) == Some(NotIncluded)
  {
    var k := Key(e, MaxRev(t, e));
    if u != t { LatestAfterSet(t, k, u[k].phase, end); }
  }

  lemma LatestAfterRequest(t: Table<Verdict>, e: ExecutionId, at: int)
    requires Inv(t) && Cached(t, e).None?
    ensures Inv(Requested(t, e, at)) && AwaitsVerdict(Requested(t, e, at), e)
  {
    var row := Latest(t, e);
    if !AwaitsVerdict(t, e) {
      FreeByLatest(t, e);
      ClaimSucceedsIff(t, at, e);
      InvClaim(t, at, e);
      ActiveIsLatest(Requested(t, e, at), Key(e, MaxRev(t, e) + 1));
    }
  }

  /** The channel's own error. */
  function LostVerdict(hash: Hash): Result<ValidatorOutcome, ValidatorError> {
    Err(ValidatorError.Internal)
  }

  class ValidatorEngine {
    var rows: Table<Verdict>
    const config: Config
    /** The handle's channel, its requests with what they heard, and the replies served. */
    const fate: nat -> Fate
    var asked: nat
    ghost var heard: seq<Exchange<Hash, Result<ValidatorOutcome, ValidatorError>>>
    ghost var served: seq<Option<Result<ValidatorOutcome, ValidatorError>>>

    /** What the schema and the channel guarantee; the triggers keep callers from unfolding it. */
    ghost predicate Valid()
      reads this
    {
      && (forall t {:trigger Inv(t)} | t == rows :: Inv(t))
      && asked == |heard|
      && (forall xs {:trigger Faithful(xs, served, fate, LostVerdict)} | xs == heard ::
            Faithful(xs, served, fate, LostVerdict))
    }

    constructor (c: Config, f: nat -> Fate)
      ensures Valid() && rows == map[] && config == c && fate == f && heard == []
    {
      config, rows := c, map[];
      fate, asked, heard, served := f, 0, [], [];
    }

    method CheckCachedResult(e: ExecutionId, read: Db) returns (r: Result<Option<ValidatorOutcome>, ValidatorError>)
      ensures r == if read.Up? then Ok(Cached(rows, e)) else Err(Database)
    {
      if !read.Up? { return Err(Database); }
      var m := SelectMaxRevision(rows, e);
      if Key(e, m) in rows && rows[Key(e, m)].phase.Settled? {
        var v := rows[Key(e, m)].phase.data;
        return Ok(Some(if v.IncludedRow? then Included(0, 0) else NotIncluded));
      }
      return Ok(None);
    }

    /** A guarded insert is not an error; only an aborted one is. */
    method RecordValidationRequest(chain: nat, e: ExecutionId, at: int, insert: Db)
      returns (r: Result<(), ValidatorError>, ghost steps: seq<Step>)
      requires Valid()
      modifies `rows
      ensures Valid() && rows == Run(old(rows), steps)
      ensures rows == if chain > I64_MAX || insert.Down? then old(rows) else AfterClaim(old(rows), at, e)
      ensures r == if chain > I64_MAX then Err(ValidatorError.Internal)
                   else if !insert.Up? || ClaimOutcome(old(rows), at, e).Aborted? then Err(Database)
                   else Ok(())
    {
      steps := [];
      if chain > I64_MAX { return Err(ValidatorError.Internal), []; }
      if insert.Down? { return Err(Database), []; }
      InvNext(rows, Request(at, e));
      RunOne(rows, Request(at, e));
      steps := [Request(at, e)];
      r := Ok(());
      if !Guard(rows, at, e) {
        if Clash(rows, e) {
          r := Err(Database);
        } else {
          var m := SelectMaxRevision(rows, e);
          rows := Set(rows, Key(e, m + 1), Pending, at);
        }
      }
      if insert.Lost? { r := Err(Database); }
    }

    /** The UPDATE of the latest pending row; tells whether there was one. */
    method UpdatePending(e: ExecutionId, v: Option<Verdict>, at: int) returns (affected: bool)
      requires Valid()
      modifies `rows
      ensures Valid() && rows == Next(old(rows), Outcome(at, e, v)) && affected == AwaitsVerdict(old(rows), e)
      ensures rows == if affected then Set(old(rows), Key(e, MaxRev(old(rows), e)), PhaseOf(v), at) else old(rows)
    {
      assert Inv(rows);
      InvNext(rows, Outcome(at, e, v));
      affected := exists k | k in rows :: k.exec == e && rows[k].phase.Pending?;
      if affected {
        var k :| k in rows && k.exec == e && rows[k].phase.Pending?;
        OnePending(rows, e, k);
        ActiveIsLatest(rows, k);
        rows := Set(rows, k, PhaseOf(v), at);
      }
    }

    /** The second statement only tells what an update without an effect found instead. */
    method RecordOutcome(e: ExecutionId, v: Option<Verdict>, at: int, update: Db, second: Db)
      returns (r: Result<(), ValidatorError>, ghost steps: seq<Step>)
      requires Valid()
      modifies `rows
      ensures Valid() && rows == Run(old(rows), steps)
      ensures rows == if update.Down? || !AwaitsVerdict(old(rows), e) then old(rows)
                      else old(rows)[Key(e, MaxRev(old(rows), e)) := Row(PhaseOf(v), at)]
      ensures r == if !update.Up? then Err(Database)
                   else if AwaitsVerdict(old(rows), e) then Ok(())
                   else Err(if second.Up? then ValidatorError.Internal else Database)
    {
      steps := [];
      if update.Down? { return Err(Database), []; }
      var affected := UpdatePending(e, v, at);
      RunOne(old(rows), Outcome(at, e, v));
      steps := [Outcome(at, e, v)];
      if update.Lost? { return Err(Database), steps; }
      r := if affected then Ok(()) else Err(if second.Up? then ValidatorError.Internal else Database);
    }

    /** One receipt request and what follows from it; no reply means keep polling. */
    method Poll(e: ExecutionId, now: int, a: PollAnswer, update: Db)
      returns (r: Option<Result<ValidatorOutcome, ValidatorError>>, end: int, ghost steps: seq<Step>)
      requires Valid() && AwaitsVerdict(rows, e)
      modifies `rows
      ensures Valid() && rows == Run(old(rows), steps) && end == now + a.spent
      ensures r.Some? <==> Decides(a, config.requiredConfirmations)
      ensures r.Some? ==>
                && r.value == ReplyTo(a, update)
                && rows == if update.Down? || Headless(a) then old(rows)
                           else old(rows)[Key(e, MaxRev(old(rows), e)) := Row(Settled(VerdictOn(a)), end)]
      ensures r.None? ==> rows == old(rows)
    {
      end, steps := now + a.spent, [];
      var done;
      match a.receipt {
        case Missing => r := None;
        case Failure =>
          done, steps := RecordOutcome(e, Some(NotIncludedRow), end, update, Up);
          r := Some(Err(if done.Ok? then RpcError else done.error));
        case Mined(status, block) =>
          if !status {
            done, steps := RecordOutcome(e, Some(NotIncludedRow), end, update, Up);
            return Some(Err(if done.Ok? then Reverted else done.error)), end, steps;
          }
          if a.head.None? { return Some(Err(RpcError)), end, []; }
          var txBlock := if block.Some? then block.value else 0;
          var confirmations := SaturatingSub(a.head.value, txBlock);
          if confirmations >= config.requiredConfirmations {
            done, steps := RecordOutcome(e, Some(IncludedRow), end, update, Up);
            r := Some(if done.Ok? then Ok(Included(txBlock, confirmations)) else Err(done.error));
          } else {
            r := None;
          }
      }
    }

    /** Poll until a verdict or the timeout; the poll interval is positive, without which the
        source may poll for ever. */
    method HandleValidation(chain: nat, e: ExecutionId, start: int, db: Statements, polls: nat -> PollAnswer)
      returns (r: Result<ValidatorOutcome, ValidatorError>, receipts: nat, end: int, ghost steps: seq<Step>)
      requires Valid() && config.pollInterval > 0
      modifies `rows
      ensures Valid() && start <= end && rows == Run(old(rows), steps)
      ensures ValidationServed(old(rows), rows, config, chain, e, start, db, polls, r, end)
      ensures receipts <= config.timeout / config.pollInterval + 1
      ensures Cached(old(rows), e).Some? ==> receipts == 0
    {
      receipts, end, steps := 0, start, [];
      assert Inv(rows);
      ClaimByLatest(rows, start, e);
      var cached := CheckCachedResult(e, db.read);
      if cached.Err? { return Err(cached.error), 0, start, []; }
      if cached.value.Some? { return Ok(cached.value.value), 0, start, []; }
      var recorded;
      recorded, steps := RecordValidationRequest(chain, e, start, db.insert);
      if !ClaimOutcome(old(rows), start, e).Aborted? { RequestedIsClaimed(old(rows), start, e); }
      if recorded.Err? { return Err(recorded.error), 0, start, steps; }
      ghost var more;
      ghost var hit;
      r, receipts, end, more, hit := PollUntilDone(e, start, polls, db.update);
      RunTwo(old(rows), steps, more);
      steps := steps + more;
    }

    method PollUntilDone(e: ExecutionId, start: int, polls: nat -> PollAnswer, update: Db)
      returns (r: Result<ValidatorOutcome, ValidatorError>, receipts: nat, end: int, ghost steps: seq<Step>,
               ghost hit: Option<nat>)
      requires Valid() && config.pollInterval > 0 && AwaitsVerdict(rows, e)
      modifies `rows
      ensures Valid() && start <= end && rows == Run(old(rows), steps)
      ensures Polled(old(rows), rows, config, e, start, polls, update, r, end, hit)
      ensures receipts <= config.timeout / config.pollInterval + 1 && (hit.Some? ==> receipts == hit.value + 1)
    {
      receipts, end, steps, hit := 0, start, [], None;
      ghost var waited := 0;
      var interval := config.pollInterval;
      while true
        invariant Valid() && rows == old(rows) && 0 <= waited <= end - start && waited == Waited(receipts, interval)
        invariant receipts <= config.timeout / interval + 1 && end == start + Elapsed(config, polls, receipts)
        invariant forall j: nat | j < receipts :: !Decides(polls(j), config.requiredConfirmations)
        decreases start + config.timeout + interval - end
      {
        if end - start > config.timeout {
          var done;
          done, steps := RecordOutcome(e, None, end, update, Up);
          r := if done.Ok? then Ok(Timeout) else Err(done.error);
          TimesOut(config, polls, receipts);
          return;
        }
        PollBudget(receipts, interval, config.timeout);
        var polled;
        polled, end, steps := Poll(e, end, polls(receipts), update);
        if polled.Some? {
          return polled.value, receipts + 1, end, steps, Some(receipts);
        }
        receipts, waited := receipts + 1, waited + interval;
        end := end + interval;
      }
    }

    // ---- the handle --------------------------------------------------------

    /** The next request has been made. */
    method NoteExchange(ghost x: Exchange<Hash, Result<ValidatorOutcome, ValidatorError>>,
                        ghost reply: Option<Result<ValidatorOutcome, ValidatorError>>)
      requires Valid() && Fair(x, reply, fate(asked), LostVerdict)
      modifies `asked, `heard, `served
      ensures Valid() && heard == old(heard) + [x] && served == old(served) + [reply]
    {
      FaithfulMore(heard, served, fate, LostVerdict, x, reply);
      asked, heard, served := asked + 1, heard + [x], served + [reply];
    }

    method SendValidate(chain: nat, e: ExecutionId, hash: Hash, start: int, db: Statements,
                        polls: nat -> PollAnswer)
      returns (r: Result<ValidatorOutcome, ValidatorError>, end: int, ghost steps: seq<Step>,
               ghost reply: Result<ValidatorOutcome, ValidatorError>)
      requires Valid() && config.pollInterval > 0
      modifies this
      ensures Valid() && start <= end && rows == Run(old(rows), steps)
      ensures if fate(old(asked)).Undelivered? then steps == []
              else ValidationServed(old(rows), rows, config, chain, e, start, db, polls, reply, end)
      ensures r == Hear(fate(old(asked)), reply, Err(ValidatorError.Internal))
      ensures r.Ok? && r.value.Included? ==> Cached(rows, e) == Some(Included(0, 0))
      ensures r == Ok(Timeout) ==> end - start > config.timeout && Latest(rows, e) == Some(Row(Freed, end))
      ensures r == Ok(NotIncluded) || r == Err(Reverted) ==> Cached(rows, e) == Some(NotIncluded)
      ensures heard == old(heard) + [Exchange(e, hash, r)]
    {
      var f := fate(asked);
      r, end, steps, reply := Err(ValidatorError.Internal), start, [], Err(ValidatorError.Internal);
      if f.Undelivered? {
        NoteExchange(Exchange(e, hash, r), None);
        return;
      }
      var receipts;
      ghost var was := rows;
      assert Inv(was);
      r, receipts, end, steps := HandleValidation(chain, e, start, db, polls);
      ServedVerdict(was, rows, config, chain, e, start, db, polls, r, end);
      reply := r;
      r := Hear(f, r, Err(ValidatorError.Internal));
      NoteExchange(Exchange(e, hash, r), Some(reply));
    }
  }

  /** The least time that polling takes. */
  function Waited(polls: nat, interval: nat): nat {
    if polls == 0 then 0 else Waited(polls - 1, interval) + interval
  }

  lemma {:induction false} WaitedIsProduct(polls: nat, interval: nat)
    ensures Waited(polls, interval) == polls * interval
  {
    if polls > 0 { WaitedIsProduct(polls - 1, interval); }
  }

  lemma PollBudget(polls: nat, interval: nat, timeout: nat)
    requires interval > 0 && Waited(polls, interval) <= timeout
    ensures polls <= timeout / interval
  {
    WaitedIsProduct(polls, interval);
    var q := timeout / interval;
    assert timeout < (q + 1) * interval;
    if q < polls { Monotone(q + 1, polls, interval); }
  }

  lemma Monotone(a: nat, b: nat, c: nat)
    requires a <= b
    ensures a * c <= b * c
  {
  }

  /** An insert that is not aborted leaves a pending row. */
  lemma RequestedIsClaimed(t: Table<Verdict>, at: int, e: ExecutionId)
    requires Inv(t) && !ClaimOutcome(t, at, e).Aborted? && Cached(t, e).None?
    ensures AfterClaim(t, at, e) == Requested(t, e, at) && AwaitsVerdict(Requested(t, e, at), e)
  {
    ClaimByLatest(t, at, e);
    LatestAfterRequest(t, e, at);
  }

  lemma OnePending(t: Table<Verdict>, e: ExecutionId, k: Key)
    requires Inv(t) && k in t && k.exec == e && t[k].phase.Pending?
    ensures PendingKey(t, e) == Some(k)
  {
    ActiveIsLatest(t, k);
    ActiveIsLatest(t, PendingKey(t, e).value);
  }

  lemma LatestAfterSet(t: Table<Verdict>, k: Key, p: Phase<Verdict>, at: int)
    requires Inv(t) && k in t && Active(t[k])
    ensures Latest(Set(t, k, p, at), k.exec) == Some(Row(p, at))
  {
    var u := Set(t, k, p, at);
    assert IsMaxRev(u, k.exec, MaxRev(u, k.exec)) && IsMaxRev(t, k.exec, k.rev);
    assert Key(k.exec, MaxRev(u, k.exec)) in u;
  }

  lemma RunOne(t: Table<Verdict>, step: Step)
    ensures Run(t, [step]) == Next(t, step)
  {
    assert [step][1..] == [];
  }

  lemma {:induction false} RunTwo(t: Table<Verdict>, a: seq<Step>, b: seq<Step>)
    ensures Run(t, a + b) == Run(Run(t, a), b)
    decreases a
  {
    if a == [] {
      assert a + b == b;
    } else {
      RunTwo(Next(t, a[0]), a[1..], b);
      assert (a + b)[1..] == a[1..] + b;
    }
  }
}
