/** The pipeline of one execution as a program over the nonce, sign, broadcast and validation
    engines. Every reply of a database, an RPC node or a channel is adversarial, and other
    executions commit ledger statements before each of its calls. It makes the calls that the
    protocol demands and shows the statuses they lead to. */
module Pipelines {
  import opened Types
  import opened Revisions
  import opened Ledger
  import opened LedgerInvariants
  import opened NonceActor
  import opened NonceDisposition
  import opened Agreement
  import opened Channels
  import opened Eip1559
  import opened Eip1559Wire
  import P = Protocol
  import Results = ProtocolResults
  import Rlp
  import B = Broadcast
  import BroadcastActor
  import opened NonceReuse
  import LeaseTable
  import Signing
  import V = Validation

  class Pipeline {
    const exec: ExecutionId
    const chain: nat
    const from: Address
    const txn: Transaction
    const key: Option<Rlp.Bytes -> Option<Signature>>
    const maxAttempts: nat
    /** What the relay host answers, attempt by attempt, and the endpoint pool. */
    const relay: nat -> Result<(), LocalError>
    const endpoint: Result<Option<nat>, ()>
    const ledger: NonceEngine
    const signer: Signing.SignEngine
    const broadcaster: BroadcastActor.BroadcastEngine
    const validator: V.ValidatorEngine
    var status: P.Status
    ghost var history: seq<P.Status>
    /** The calls made, and the point they lead to. */
    ghost var log: seq<P.Call>
    ghost var point: P.Point
    /** What the log says of the resolves, of the revert and of the transactions handed over. */
    ghost var lapsed: bool
    ghost var reverted: bool
    ghost var bytes: set<Rlp.Bytes>
    /** What the log puts on the actors' handles, after what was there before. */
    ghost const base: Results.Record
    ghost var record: Results.Record
    /** The send that was answered Ok, if one was. */
    ghost var accepted: nat
    ghost var beforeSend: seq<Event>
    ghost const origin: Table
    ghost const startTime: int
    /** The ledger statements committed since, by whomever. */
    ghost var events: seq<Event>
    /** No sweep has released a row of this execution. */
    ghost var calm: bool
    /** The rows that reserves of other executions consumed. */
    ghost var taken: set<Key>

    constructor (e: ExecutionId, c: nat, a: Address, tx: Transaction, k: Option<Rlp.Bytes -> Option<Signature>>,
                 attempts: nat, host: nat -> Result<(), LocalError>, pool: Result<Option<nat>, ()>,
                 nonces: NonceEngine, signs: Signing.SignEngine, broadcasts: BroadcastActor.BroadcastEngine,
                 validations: V.ValidatorEngine)
      requires nonces.Valid() && forall k | k in nonces.table :: k.exec != e
      requires signs.Valid() && broadcasts.Valid() && validations.Valid() && validations.config.pollInterval > 0
      requires OnlySent(broadcasts.Wire(), e, {}) && FitsAnyNonce(tx)
      ensures Paused(Key(e, 0)) && point.Registering? && log == []
      ensures status == P.PermitAquired && startTime == nonces.now && origin == nonces.table
      ensures exec == e && chain == c && from == a && txn == tx && key == k && maxAttempts == attempts
      ensures relay == host && endpoint == pool
      ensures ledger == nonces && signer == signs && broadcaster == broadcasts && validator == validations
    {
      exec, chain, from, txn, key, maxAttempts, relay, endpoint := e, c, a, tx, k, attempts, host, pool;
      ledger, signer, broadcaster, validator := nonces, signs, broadcasts, validations;
      status, history := P.PermitAquired, [P.PermitAquired];
      log, point, lapsed, reverted, bytes := [], P.Registering, false, false, {};
      origin, startTime, events, calm, taken := nonces.table, nonces.now, [], true, {};
      base := Results.Record(nonces.heard, signs.heard, broadcasts.heard, validations.heard);
      record := Results.Record(nonces.heard, signs.heard, broadcasts.heard, validations.heard);
    }

    // ---- the log -----------------------------------------------------------

    function Limit(): nat {
      maxAttempts + 1
    }

    function Job(): P.Job {
      P.Job(txn, key, Limit(), relay, endpoint)
    }

    /** The triggers here and in `Tracked` keep what they hold folded. */
    ghost predicate OnTrack()
      reads `log, `point, `history, `lapsed, `reverted, `bytes, `record
    {
      && Results.Promises(point)
      && forall xs {:trigger Logged(xs, Job(), P.Run(point, history), lapsed, reverted, bytes, base, record, exec)}
           | xs == log :: Logged(xs, Job(), P.Run(point, history), lapsed, reverted, bytes, base, record, exec)
    }

    /** A call has been made that shows nothing. */
    ghost method Pass(c: P.Call)
      requires OnTrack() && P.Fits(point, c, Job()) && P.Move(point, c, Job()).1 == []
      modifies `history, `log, `point, `lapsed, `reverted, `bytes, `record
      ensures OnTrack() && log == old(log) + [c] && point == P.Move(old(point), c, Job()).0
      ensures history == old(history)
      ensures lapsed == (old(lapsed) || Results.Lapses(c))
      ensures reverted == if c.Revert? then Results.RevertsOk(c) else old(reverted)
      ensures bytes == BytesAfter(old(bytes), c)
      ensures record == Results.Recorded(old(record), exec, Job(), c)
    {
      assert history + [] == history;
      Note(c, history);
    }

    /** A call has been made; the registry shows the status it leads to. */
    method Show(s: P.Status, ghost c: P.Call)
      requires OnTrack() && P.Fits(point, c, Job()) && P.Move(point, c, Job()).1 == [s]
      modifies `status, `history, `log, `point, `lapsed, `reverted, `bytes, `record
      ensures OnTrack() && log == old(log) + [c] && point == P.Move(old(point), c, Job()).0
      ensures status == s && history == old(history) + [s]
      ensures lapsed == (old(lapsed) || Results.Lapses(c))
      ensures reverted == if c.Revert? then Results.RevertsOk(c) else old(reverted)
      ensures bytes == BytesAfter(old(bytes), c)
      ensures record == Results.Recorded(old(record), exec, Job(), c)
    {
      Note(c, history + [s]);
      status := s;
    }

    ghost method Note(c: P.Call, shown: seq<P.Status>)
      requires OnTrack() && P.Fits(point, c, Job()) && shown == history + P.Move(point, c, Job()).1
      modifies `history, `log, `point, `lapsed, `reverted, `bytes, `record
      ensures OnTrack() && log == old(log) + [c] && point == P.Move(old(point), c, Job()).0 && history == shown
      ensures lapsed == (old(lapsed) || Results.Lapses(c))
      ensures reverted == if c.Revert? then Results.RevertsOk(c) else old(reverted)
      ensures bytes == BytesAfter(old(bytes), c)
      ensures record == Results.Recorded(old(record), exec, Job(), c)
    {
      LoggedMore(log, Job(), P.Run(point, history), lapsed, reverted, bytes, base, record, exec, c);
      Results.PromisesStep(point, c, Job());
      lapsed := lapsed || Results.Lapses(c);
      reverted := if c.Revert? then Results.RevertsOk(c) else reverted;
      record := Results.Recorded(record, exec, Job(), c);
      bytes := BytesAfter(bytes, c);
      history, log, point := shown, log + [c], P.Move(point, c, Job()).0;
    }

    // ---- ledger calls ------------------------------------------------------

    function Own(): Sender {
      Sender(chain, from)
    }

    /** While the run is inside the lease, the sweeper keeps out. */
    ghost predicate Tracked()
      reads `events, `calm, `taken, ledger
    {
      && (forall evs {:trigger Traced(origin, startTime, evs, ledger.table, ledger.now, exec, calm, taken)}
            | evs == events :: Traced(origin, startTime, evs, ledger.table, ledger.now, exec, calm, taken))
      && Kept(ledger.table, taken, exec, Own(), startTime)
      && ledger.Valid() && startTime <= ledger.now && (ledger.now <= startTime + SWEEP_AGE ==> calm)
    }

    /** Statements `more` have been committed. */
    ghost method Commit(t: Table, now: int, more: seq<Event>)
      requires startTime <= now && (now <= startTime + SWEEP_AGE ==> calm)
      requires Keeps(t, taken, exec, Own(), startTime) && AsksAs(more, exec, Own())
      requires Traced(origin, startTime, events, t, now, exec, calm, taken)
      requires ValidRun(t, now, more) && ledger.table == Run(t, now, more) && ledger.now == Clock(now, more)
      requires ledger.Valid()
      modifies `events, `calm, `taken
      ensures Tracked() && (calm <==> old(calm) && NoneSweeps(more, exec)) && old(events) <= events
      ensures taken == old(taken) + TakenOver(t, now, more, exec)
    {
      YoungRun(t, now, more, exec, startTime);
      OwnedByRun(t, now, more, exec, Own());
      TakenRun(t, now, more, exec, taken);
      if ledger.now <= startTime + SWEEP_AGE { LeaseKeepsSweeperOut(t, now, more, exec, startTime); }
      TracedMore(origin, startTime, events, t, now, exec, calm, taken, more);
      events := events + more;
      calm := calm && NoneSweeps(more, exec);
      taken := taken + TakenOver(t, now, more, exec);
    }

    /** Other executions and the sweeper go first. */
    method Wait() returns (ghost w: set<Key>)
      requires Tracked()
      modifies ledger`table, ledger`now, `events, `calm, `taken
      ensures Tracked() && Passed(old(ledger.table), ledger.table, w) && taken == old(taken) + w
      ensures NoFinal(old(ledger.table), exec) ==> NoFinal(ledger.table, exec)
      ensures calm ==> old(calm) && Undisturbed(old(ledger.table), ledger.table, exec)
      ensures old(events) <= events
    {
      ghost var more := ledger.Others(exec);
      ghost var t, now := old(ledger.table), old(ledger.now);
      w := TakenOver(t, now, more, exec);
      assert forall i | 0 <= i < |more| :: !Concerns(more[i], exec);
      PassedRun(t, now, more, exec);
      if NoFinal(t, exec) { NoFinalRun(t, now, more, exec); }
      Commit(t, now, more);
    }

    /** What reserve and sync promise of the nonce they report. */
    ghost predicate HoldsGrant(k: Key, n: nat)
      reads ledger
    {
      n <= I64_MAX && HoldsRow(ledger.table, exec, k, n)
    }

    /** The request itself. */
    method CallReserve() returns (r: Result<nat, LocalError>, ghost k: Key, ghost call: seq<Event>)
      requires ledger.Valid() && NoFinal(ledger.table, exec)
      modifies ledger
      ensures ledger.Valid() && ledger.Called(old(ledger.table), old(ledger.now), call, exec)
      ensures NoFinal(ledger.table, exec) && (r.Ok? ==> HoldsGrant(k, r.value)) && AsksAs(call, exec, Own())
      ensures ledger.heard == old(ledger.heard) + [Exchange(exec, AskReserve, NonceHeard(r))]
    {
      ghost var t, now, reply := ledger.table, ledger.now, Err(LocalError.Internal);
      var pause: nat, first: Db, second: Db :| true;
      r, call, reply := ledger.SendReserve(chain, from, exec, ledger.now + pause, first, second);
      k := Key(exec, 0);
      CallKeeps(t, now, call, exec);
      CallAsksAs(call, exec, Own());
      if r.Ok? {
        k := TellsHeld(t, call[0], ledger.table, exec, r.value);
        assert Bounded(ledger.table);
      }
    }

    method ReserveOnce() returns (r: Result<nat, LocalError>, ghost k: Key)
      requires Tracked() && NoFinal(ledger.table, exec)
      modifies ledger, `events, `calm, `taken
      ensures Tracked() && NoFinal(ledger.table, exec) && (r.Ok? ==> HoldsGrant(k, r.value))
      ensures (calm ==> old(calm)) && old(events) <= events
      ensures ledger.heard == old(ledger.heard) + [Exchange(exec, AskReserve, NonceHeard(r))]
    {
      ghost var w := Wait();
      ghost var t, now, call := ledger.table, ledger.now, [];
      r, k, call := CallReserve();
      Commit(t, now, call);
    }

    method CallSync(onChain: nat) returns (r: Result<nat, LocalError>, ghost k: Key, ghost call: seq<Event>)
      requires ledger.Valid() && NoFinal(ledger.table, exec)
      modifies ledger
      ensures ledger.Valid() && ledger.Called(old(ledger.table), old(ledger.now), call, exec)
      ensures NoFinal(ledger.table, exec) && (r.Ok? ==> HoldsGrant(k, r.value)) && AsksAs(call, exec, Own())
      ensures Passed(old(ledger.table), ledger.table, TakenOver(old(ledger.table), old(ledger.now), call, exec))
      ensures ledger.heard == old(ledger.heard) + [Exchange(exec, AskSync(onChain), NonceHeard(r))]
    {
      ghost var t, now, reply := ledger.table, ledger.now, Err(LocalError.Internal);
      var pause: nat, first: Db, second: Db :| true;
      r, call, reply := ledger.SendSync(chain, from, exec, onChain, ledger.now + pause, first, second);
      k := Key(exec, 0);
      CallKeeps(t, now, call, exec);
      CallPasses(t, now, call, exec);
      CallAsksAs(call, exec, Own());
      if r.Ok? {
        k := TellsHeld(t, call[0], ledger.table, exec, r.value);
        assert Bounded(ledger.table);
      }
    }

    method SyncOnce(onChain: nat) returns (r: Result<nat, LocalError>, ghost k: Key, ghost w: set<Key>)
      requires Tracked() && NoFinal(ledger.table, exec)
      modifies ledger, `events, `calm, `taken
      ensures Tracked() && NoFinal(ledger.table, exec) && (r.Ok? ==> HoldsGrant(k, r.value)) && (calm ==> old(calm))
      ensures old(events) <= events
      ensures Passed(old(ledger.table), ledger.table, w) && taken == old(taken) + w
      ensures ledger.heard == old(ledger.heard) + [Exchange(exec, AskSync(onChain), NonceHeard(r))]
    {
      w := Wait();
      ghost var t, now, call := ledger.table, ledger.now, [];
      r, k, call := CallSync(onChain);
      PassedTwice(old(ledger.table), t, ledger.table, w, TakenOver(t, now, call, exec));
      Commit(t, now, call);
      w := w + TakenOver(t, now, call, exec);
    }

    /** The request itself: an Ok means that the statement was committed. */
    method CallResolve(to: NonceState, ghost k: Key, ghost n: nat)
      returns (r: Result<(), LocalError>, ghost call: seq<Event>)
      requires ledger.Valid() && to != Reserved && AllConsumed(ledger.table, taken)
      modifies ledger
      ensures ledger.Valid() && ledger.Called(old(ledger.table), old(ledger.now), call, exec)
      ensures to != Finalized && NoFinal(old(ledger.table), exec) ==> NoFinal(ledger.table, exec)
      ensures AsksAs(call, exec, Own())
      ensures if call == [] then r.Err? && ledger.table == old(ledger.table)
              else Ending(old(ledger.table), taken, exec, k, n, to) ==>
                     EndedAs(ledger.table, taken + TakenOver(old(ledger.table), old(ledger.now), call, exec), k, n, to)
      ensures ledger.heard == old(ledger.heard) + [Exchange(exec, AskResolve(to), ResolveHeard(r))]
    {
      ghost var t, now, reply := ledger.table, ledger.now, Err(LocalError.Internal);
      var pause: nat, first: Db, second: Db :| true;
      r, call, reply := ledger.SendResolve(exec, to, ledger.now + pause, first, second);
      CallAsksAs(call, exec, Own());
      if to != Finalized && NoFinal(t, exec) { CallKeeps(t, now, call, exec); }
      if call != [] && Ending(t, taken, exec, k, n, to) { ResolveCallEnds(t, taken, now, call, exec, k, n, to); }
    }

    method ResolveOnce(to: NonceState, ghost k: Key, ghost n: nat) returns (r: Result<(), LocalError>)
      requires Tracked() && to != Reserved
      modifies ledger, `events, `calm, `taken
      ensures Tracked() && (calm ==> old(calm)) && old(events) <= events
      ensures to != Finalized && NoFinal(old(ledger.table), exec) ==> NoFinal(ledger.table, exec)
      ensures calm && old(Ending(ledger.table, taken, exec, k, n, to)) ==>
                Ending(ledger.table, taken, exec, k, n, to) && (r.Ok? ==> EndedAs(ledger.table, taken, k, n, to))
      ensures ledger.heard == old(ledger.heard) + [Exchange(exec, AskResolve(to), ResolveHeard(r))]
    {
      ghost var t0, taken0 := ledger.table, taken;
      assert Keeps(t0, taken0, exec, Own(), startTime);
      ghost var w := Wait();
      ghost var t, now := ledger.table, ledger.now;
      if calm && Ending(t0, taken0, exec, k, n, to) { OthersKeepEnding(t0, t, taken0, w, exec, k, n, to); }
      assert Keeps(t, taken, exec, Own(), startTime);
      ghost var call;
      r, call := CallResolve(to, k, n);
      assert call == [] ==> TakenOver(t, now, call, exec) == {};
      Commit(t, now, call);
    }

    // ---- the retry loops ---------------------------------------------------

    /** Registering with the relay host. */
    method RegisterTransaction()
      returns (r: Result<(), LocalError>, ghost tries: seq<Result<(), LocalError>>)
      ensures P.Tried(tries, Limit(), P.Never) && P.LastReply(tries) == r
      ensures forall i: nat | i < |tries| :: tries[i] == relay(i)
    {
      var attempt := 1;
      r := relay(0);
      tries := [r];
      while r.Err? && attempt < maxAttempts + 1
        invariant P.Trying(tries, P.Never) && P.LastReply(tries) == r && |tries| == attempt <= Limit()
        invariant forall i: nat | i < |tries| :: tries[i] == relay(i)
        decreases maxAttempts + 1 - attempt
      {
        var again := relay(attempt);
        attempt := attempt + 1;
        P.TryAgain(tries, again, P.Never);
        r, tries := again, tries + [again];
      }
    }

    method ReserveNonce()
      returns (r: Result<nat, LocalError>, ghost k: Key, ghost tries: seq<Result<nat, LocalError>>)
      requires Tracked() && NoFinal(ledger.table, exec)
      modifies ledger, `events, `calm, `taken
      ensures Tracked() && NoFinal(ledger.table, exec) && (r.Ok? ==> HoldsGrant(k, r.value))
      ensures (calm ==> old(calm)) && old(events) <= events
      ensures ledger.heard == old(ledger.heard) + Asks(exec, AskReserve, tries, NonceHeard)
      ensures P.Tried(tries, Limit(), P.Never) && P.LastReply(tries) == r
    {
      var attempt := 1;
      r, k := ReserveOnce();
      tries := [r];
      AsksOnce(exec, AskReserve, r, NonceHeard);
      while r.Err? && attempt < maxAttempts + 1
        invariant Tracked() && NoFinal(ledger.table, exec) && (r.Ok? ==> HoldsGrant(k, r.value))
        invariant (calm ==> old(calm)) && old(events) <= events
        invariant ledger.heard == old(ledger.heard) + Asks(exec, AskReserve, tries, NonceHeard)
        invariant P.Trying(tries, P.Never) && P.LastReply(tries) == r && |tries| == attempt <= Limit()
        decreases maxAttempts + 1 - attempt
      {
        attempt := attempt + 1;
        var again;
        again, k := ReserveOnce();
        AsksMore(old(ledger.heard), exec, AskReserve, tries, again, NonceHeard);
        P.TryAgain(tries, again, P.Never);
        r, tries := again, tries + [again];
      }
    }

    method SyncNonce(onChain: nat)
      returns (r: Result<nat, LocalError>, ghost k: Key, ghost w: set<Key>, ghost tries: seq<Result<nat, LocalError>>)
      requires Tracked() && NoFinal(ledger.table, exec)
      modifies ledger, `events, `calm, `taken
      ensures Tracked() && NoFinal(ledger.table, exec) && (r.Ok? ==> HoldsGrant(k, r.value)) && (calm ==> old(calm))
      ensures old(events) <= events
      ensures Passed(old(ledger.table), ledger.table, w) && taken == old(taken) + w
      ensures ledger.heard == old(ledger.heard) + Asks(exec, AskSync(onChain), tries, NonceHeard)
      ensures P.Tried(tries, Limit(), P.Never) && P.LastReply(tries) == r
    {
      var attempt := 1;
      r, k, w := SyncOnce(onChain);
      tries := [r];
      AsksOnce(exec, AskSync(onChain), r, NonceHeard);
      while r.Err? && attempt < maxAttempts + 1
        invariant Tracked() && NoFinal(ledger.table, exec) && (r.Ok? ==> HoldsGrant(k, r.value)) && (calm ==> old(calm))
        invariant old(events) <= events
        invariant Passed(old(ledger.table), ledger.table, w) && taken == old(taken) + w
        invariant ledger.heard == old(ledger.heard) + Asks(exec, AskSync(onChain), tries, NonceHeard)
        invariant P.Trying(tries, P.Never) && P.LastReply(tries) == r && |tries| == attempt <= Limit()
        decreases maxAttempts + 1 - attempt
      {
        attempt := attempt + 1;
        ghost var t, more := ledger.table, {};
        var again;
        again, k, more := SyncOnce(onChain);
        PassedTwice(old(ledger.table), t, ledger.table, w, more);
        AsksMore(old(ledger.heard), exec, AskSync(onChain), tries, again, NonceHeard);
        P.TryAgain(tries, again, P.Never);
        r, tries, w := again, tries + [again], w + more;
      }
    }

    /** release_nonce, consume_nonce and finalise_nonce. */
    method ResolveNonce(to: NonceState, ghost k: Key, ghost n: nat)
      returns (r: Result<(), LocalError>, ghost tries: seq<Result<(), LocalError>>)
      requires Tracked() && to != Reserved
      modifies ledger, `events, `calm, `taken
      ensures Tracked() && (calm ==> old(calm)) && old(events) <= events
      ensures to != Finalized && NoFinal(old(ledger.table), exec) ==> NoFinal(ledger.table, exec)
      ensures calm && HoldsRow(old(ledger.table), exec, k, n) && r.Ok? ==> EndedAs(ledger.table, taken, k, n, to)
      ensures ledger.heard == old(ledger.heard) + Asks(exec, AskResolve(to), tries, ResolveHeard)
      ensures P.Tried(tries, Limit(), P.Never) && P.LastReply(tries) == r
    {
      var attempt := 1;
      r := ResolveOnce(to, k, n);
      tries := [r];
      AsksOnce(exec, AskResolve(to), r, ResolveHeard);
      while r.Err? && attempt < maxAttempts + 1
        invariant Tracked() && (calm ==> old(calm)) && old(events) <= events
        invariant to != Finalized && NoFinal(old(ledger.table), exec) ==> NoFinal(ledger.table, exec)
        invariant calm && HoldsRow(old(ledger.table), exec, k, n) ==>
                    Ending(ledger.table, taken, exec, k, n, to)
                    && (r.Ok? ==> EndedAs(ledger.table, taken, k, n, to))
        invariant ledger.heard == old(ledger.heard) + Asks(exec, AskResolve(to), tries, ResolveHeard)
        invariant P.Trying(tries, P.Never) && P.LastReply(tries) == r && |tries| == attempt <= Limit()
        decreases maxAttempts + 1 - attempt
      {
        attempt := attempt + 1;
        var again := ResolveOnce(to, k, n);
        AsksMore(old(ledger.heard), exec, AskResolve(to), tries, again, ResolveHeard);
        P.TryAgain(tries, again, P.Never);
        r, tries := again, tries + [again];
      }
    }

    method SignOnce(n: nat) returns (r: Result<SignedTransaction, LocalError>)
      requires signer.Valid() && n < U256_SIZE && FitsAnyNonce(txn)
      modifies signer
      ensures signer.Valid() && (r.Ok? ==> P.SignedOver(r.value, Job(), n))
      ensures signer.heard == old(signer.heard) + [Exchange(exec, AskSign(P.WithNonce(Job(), n)), SignHeard(r))]
    {
      var at: int, spent: nat, first: Db, second: Db :| true;
      ghost var steps, reply := [], Err(LocalError.Internal);
      r, steps, reply := signer.SendSign(chain, exec, txn.(nonce := n), key, at, at + spent, first, second);
    }

    method SignTransaction(n: nat)
      returns (r: Result<SignedTransaction, LocalError>, ghost tries: seq<Result<SignedTransaction, LocalError>>)
      requires signer.Valid() && n < U256_SIZE && FitsAnyNonce(txn)
      modifies signer
      ensures signer.Valid() && (r.Ok? ==> P.SignedOver(r.value, Job(), n))
      ensures signer.heard == old(signer.heard) + Asks(exec, AskSign(P.WithNonce(Job(), n)), tries, SignHeard)
      ensures P.Tried(tries, Limit(), P.Never) && P.LastReply(tries) == r
    {
      var attempt := 1;
      r := SignOnce(n);
      tries := [r];
      AsksOnce(exec, AskSign(P.WithNonce(Job(), n)), r, SignHeard);
      while r.Err? && attempt < maxAttempts + 1
        invariant signer.Valid() && (r.Ok? ==> P.SignedOver(r.value, Job(), n))
        invariant signer.heard == old(signer.heard) + Asks(exec, AskSign(P.WithNonce(Job(), n)), tries, SignHeard)
        invariant P.Trying(tries, P.Never) && P.LastReply(tries) == r && |tries| == attempt <= Limit()
        decreases maxAttempts + 1 - attempt
      {
        attempt := attempt + 1;
        var again := SignOnce(n);
        AsksMore(old(signer.heard), exec, AskSign(P.WithNonce(Job(), n)), tries, again, SignHeard);
        P.TryAgain(tries, again, P.Never);
        r, tries := again, tries + [again];
      }
    }

    method RevertOnce() returns (r: Result<(), LocalError>)
      requires signer.Valid()
      modifies signer
      ensures signer.Valid() && (r.Ok? ==> Unsigned(signer.rows, exec))
      ensures signer.heard == old(signer.heard) + [Exchange(exec, AskRevert, RevertHeard(r))]
    {
      var at: int, first: Db, second: Db :| true;
      ghost var steps, reply := [], Err(LocalError.Internal);
      r, steps, reply := signer.SendRevert(exec, at, first, second);
    }

    method RevertSign() returns (r: Result<(), LocalError>, ghost tries: seq<Result<(), LocalError>>)
      requires signer.Valid()
      modifies signer
      ensures signer.Valid() && (r.Ok? ==> Unsigned(signer.rows, exec))
      ensures signer.heard == old(signer.heard) + Asks(exec, AskRevert, tries, RevertHeard)
      ensures P.Tried(tries, Limit(), P.Never) && P.LastReply(tries) == r
    {
      var attempt := 1;
      r := RevertOnce();
      tries := [r];
      AsksOnce(exec, AskRevert, r, RevertHeard);
      while r.Err? && attempt < maxAttempts + 1
        invariant signer.Valid() && (r.Ok? ==> Unsigned(signer.rows, exec))
        invariant signer.heard == old(signer.heard) + Asks(exec, AskRevert, tries, RevertHeard)
        invariant P.Trying(tries, P.Never) && P.LastReply(tries) == r && |tries| == attempt <= Limit()
        decreases maxAttempts + 1 - attempt
      {
        attempt := attempt + 1;
        var again := RevertOnce();
        AsksMore(old(signer.heard), exec, AskRevert, tries, again, RevertHeard);
        P.TryAgain(tries, again, P.Never);
        r, tries := again, tries + [again];
      }
    }

    ghost predicate Handed(txn: SignedTransaction, r: Result<Hash, B.BroadcastError>, sent: set<Rlp.Bytes>)
      reads broadcaster
    {
      broadcaster.Valid() && HandedOn(broadcaster.Wire(), exec, txn, r, sent)
    }

    method BroadcastOnce(txn: SignedTransaction, ghost sent: set<Rlp.Bytes>) returns (r: Result<Hash, B.BroadcastError>)
      requires broadcaster.Valid() && OnlyAccepted(broadcaster.Wire(), exec, txn.rlp)
      requires OnlySent(broadcaster.Wire(), exec, sent + {txn.rlp})
      modifies broadcaster
      ensures Handed(txn, r, sent)
      ensures broadcaster.heard == old(broadcaster.heard) + [Exchange(exec, txn, Results.BroadcastHeard(r))]
    {
      var at: int, db: BroadcastActor.Statements, node: BroadcastActor.NodeAnswer :| true;
      ghost var was, steps, reply := broadcaster.Wire(), [], Err(B.BroadcastError.Internal);
      r, steps, reply := broadcaster.SendBroadcast(chain, exec, txn, at, db, node);
      SendKeeps(was, broadcaster.Wire(), exec, txn.rlp, sent);
    }

    /** Retries everything but a nonce too low and a missing provider. */
    method BroadcastTransaction(txn: SignedTransaction, ghost sent: set<Rlp.Bytes>)
      returns (r: Result<Hash, B.BroadcastError>, ghost tries: seq<Result<Hash, B.BroadcastError>>)
      requires broadcaster.Valid() && B.NoOkFor(broadcaster.Wire(), exec)
      requires OnlySent(broadcaster.Wire(), exec, sent)
      modifies broadcaster
      ensures Handed(txn, r, sent)
      ensures broadcaster.heard == old(broadcaster.heard) + Asks(exec, txn, tries, Results.BroadcastHeard)
      ensures P.Tried(tries, Limit(), P.Fatal) && P.LastReply(tries) == r
    {
      var attempt := 1;
      r := BroadcastOnce(txn, sent);
      tries := [r];
      AsksOnce(exec, txn, r, Results.BroadcastHeard);
      while r.Err? && !r.error.NonceTooLow? && !r.error.MissingProvider? && attempt < maxAttempts + 1
        invariant Handed(txn, r, sent)
        invariant broadcaster.heard == old(broadcaster.heard) + Asks(exec, txn, tries, Results.BroadcastHeard)
        invariant P.Trying(tries, P.Fatal) && P.LastReply(tries) == r && |tries| == attempt <= Limit()
        decreases maxAttempts + 1 - attempt
      {
        attempt := attempt + 1;
        var again := BroadcastOnce(txn, sent);
        AsksMore(old(broadcaster.heard), exec, txn, tries, again, Results.BroadcastHeard);
        P.TryAgain(tries, again, P.Fatal);
        r, tries := again, tries + [again];
      }
    }

    /** The provider pool may have no endpoint, or fail. */
    method AcquireHealthyEndpoint() returns (r: Result<Option<nat>, ()>)
      ensures r == endpoint
    {
      r := endpoint;
    }

    /** Validation is not retried. */
    method ValidateOnce(hash: Hash) returns (r: Result<V.ValidatorOutcome, V.ValidatorError>)
      requires validator.Valid() && validator.config.pollInterval > 0
      modifies validator
      ensures validator.Valid() && Judges(hash, r, validator.rows)
      ensures validator.heard == old(validator.heard) + [Exchange(exec, hash, r)]
    {
      var at: int, db: V.Statements, polls: nat -> V.PollAnswer :| true;
      var end;
      ghost var steps, reply := [], Err(V.ValidatorError.Internal);
      r, end, steps, reply := validator.SendValidate(chain, exec, hash, at, db, polls);
    }

    /** Whatever status the reply leads to, the validator's latest row bears it out. */
    ghost predicate Judges(hash: Hash, r: Result<V.ValidatorOutcome, V.ValidatorError>,
                           rows: LeaseTable.Table<V.Verdict>)
    {
      forall last | Results.Decides(P.Call.Validate(hash, r), last) :: VerdictAgrees(last, rows, exec)
    }

    // ---- stages ------------------------------------------------------------

    ghost predicate Engines()
      reads signer, broadcaster, validator
    {
      && signer.Valid() && broadcaster.Valid() && validator.Valid() && validator.config.pollInterval > 0
      && FitsAnyNonce(txn)
    }

    ghost function Now(): Scene
      reads `calm, `taken, `accepted, `events, `beforeSend, ledger`table
      reads broadcaster`rows, broadcaster`sessions, broadcaster`sent
    {
      Scene(ledger.table, taken, calm, broadcaster.Wire(), accepted, origin, startTime, events, beforeSend)
    }

    ghost predicate AgreesAt(p: P.Point, lapsed: bool, bytes: set<Rlp.Bytes>, k: Key)
      reads `calm, `taken, `accepted, `events, `beforeSend, ledger`table
      reads broadcaster`rows, broadcaster`sessions, broadcaster`sent
    {
      Agreed(p, lapsed, bytes, Now(), exec, k)
    }

    /** The exchanges on the handles. */
    ghost function Heard(): Results.Record
      reads ledger`heard, signer`heard, broadcaster`heard, validator`heard
    {
      Results.Record(ledger.heard, signer.heard, broadcaster.heard, validator.heard)
    }

    /** Between two stages. */
    ghost predicate Paused(k: Key)
      reads this, ledger, signer, broadcaster, validator
    {
      && OnTrack() && Tracked() && Engines() && AgreesAt(point, lapsed, bytes, k) && Heard() == record
      && (point.Ended? ==> status == point.last)
    }

    /** The handles have made this call, which is not in the log yet, and the tables stand where
        it leads. */
    ghost predicate MayTurn(c: P.Call, k: Key)
      reads this, ledger, signer, broadcaster, validator
    {
      && OnTrack() && Tracked() && Engines() && P.Fits(point, c, Job())
      && AgreesAt(P.Move(point, c, Job()).0, lapsed || Results.Lapses(c), BytesAfter(bytes, c), k)
      && Heard() == Results.Recorded(record, exec, Job(), c)
    }

    method ShowTurn(s: P.Status, ghost c: P.Call, ghost k: Key)
      requires MayTurn(c, k) && P.Move(point, c, Job()).1 == [s]
      requires P.Move(point, c, Job()).0.Ended? ==> P.Move(point, c, Job()).0.last == s
      modifies `status, `history, `log, `point, `lapsed, `reverted, `bytes, `record
      ensures Paused(k) && point == P.Move(old(point), c, Job()).0
      ensures reverted == if c.Revert? then Results.RevertsOk(c) else old(reverted)
    {
      Show(s, c);
    }

    ghost method PassTurn(c: P.Call, k: Key)
      requires MayTurn(c, k) && P.Move(point, c, Job()).1 == [] && !P.Move(point, c, Job()).0.Ended?
      modifies `history, `log, `point, `lapsed, `reverted, `bytes, `record
      ensures Paused(k) && point == P.Move(old(point), c, Job()).0
      ensures reverted == if c.Revert? then Results.RevertsOk(c) else old(reverted)
    {
      Pass(c);
    }

    /** After a call that changes neither the ledger nor the wire. */
    ghost predicate Calling(c: P.Call, k: Key)
      reads this, ledger, signer, broadcaster, validator
    {
      && OnTrack() && Tracked() && Engines() && AgreesAt(point, lapsed, bytes, k)
      && P.Fits(point, c, Job()) && Idles(point) && Heard() == Results.Recorded(record, exec, Job(), c)
    }

    lemma IdleTurn(c: P.Call, k: Key)
      requires Calling(c, k)
      ensures MayTurn(c, k)
    {
      assert Keeps(ledger.table, taken, exec, Own(), startTime);
      IdleAgrees(point, c, Job(), lapsed, bytes, Now(), exec, k);
    }

    // ---- what ledger and broadcast calls keep ------------------------------

    ghost predicate AgreesNext(c: P.Call, k: Key)
      requires P.Fits(point, c, Job())
      reads `point, `lapsed, `bytes, `calm, `taken, `accepted, `events, `beforeSend, ledger`table
      reads broadcaster`rows, broadcaster`sessions, broadcaster`sent
    {
      AgreesAt(P.Move(point, c, Job()).0, lapsed || Results.Lapses(c), BytesAfter(bytes, c), k)
    }

    /** What the next call needs of it. */
    lemma Unfolds(k: Key)
      requires AgreesAt(point, lapsed, bytes, k)
      ensures point.Reserving? || point.Syncing? ==> NoFinal(ledger.table, exec)
      ensures point.Signing? ==> point.nonce <= I64_MAX
      ensures point.Broadcasting? ==> B.NoOkFor(broadcaster.Wire(), exec) && OnlySent(broadcaster.Wire(), exec, bytes)
    {
      assert AgreesIn(point, lapsed, bytes, Now(), exec, k);
    }

    lemma ReserveNext(at: Scene, c: P.Call, before: Key, k: Key)
      requires Agreed(point, lapsed, bytes, at, exec, before) && point.Reserving?
      requires LedgerMoves(at, Now())
      requires P.Fits(point, c, Job()) && NoFinal(ledger.table, exec)
      requires P.LastReply(c.nonces).Ok? ==> HoldsGrant(k, P.LastReply(c.nonces).value)
      ensures AgreesNext(c, k)
    {
      ReserveAgrees(c, Job(), lapsed, bytes, at, Now(), exec, before, k);
    }

    lemma ResolveNext(at: Scene, c: P.Call, k: Key)
      requires Agreed(point, lapsed, bytes, at, exec, k) && (point.Consuming? || point.Disposing?)
      requires LedgerMoves(at, Now())
      requires P.Fits(point, c, Job()) && Results.Promises(point)
      requires c.to != Finalized && NoFinal(at.table, exec) ==> NoFinal(ledger.table, exec)
      requires calm && HoldsRow(at.table, exec, k, point.nonce) && P.LastReply(c.tries).Ok? ==>
                 EndedAs(ledger.table, taken, k, point.nonce, c.to)
      ensures AgreesNext(c, k)
    {
      ResolveAgrees(point, c, Job(), lapsed, bytes, at, Now(), exec, k);
    }

    lemma SyncNext(at: Scene, c: P.Call, w: set<Key>, before: Key, k: Key)
      requires Agreed(point, lapsed, bytes, at, exec, before) && point.Syncing?
      requires Kept(at.table, at.taken, exec, Own(), startTime)
      requires LedgerMoves(at, Now())
      requires P.Fits(point, c, Job()) && NoFinal(ledger.table, exec)
      requires Passed(at.table, ledger.table, w) && taken == at.taken + w
      requires if P.LastReply(c.nonces).Ok? then HoldsGrant(k, P.LastReply(c.nonces).value) else k == before
      ensures AgreesNext(c, k)
    {
      assert Keeps(at.table, at.taken, exec, Own(), startTime);
      SyncAgrees(point, c, Job(), lapsed, bytes, at, Now(), w, exec, before, k);
    }

    lemma RefusedNext(at: Scene, c: P.Call, k: Key)
      requires Agreed(point, lapsed, bytes, at, exec, k) && Tracked() && point.Broadcasting?
      requires Now() == at.(wire := broadcaster.Wire())
      requires P.Fits(point, c, Job())
      requires Handed(point.signed, P.LastReply(c.hashes), bytes) && P.LastReply(c.hashes).Err?
      ensures AgreesNext(c, k)
    {
      assert Keeps(ledger.table, taken, exec, Own(), startTime);
      RefusedAgrees(point, c, Job(), lapsed, bytes, at, broadcaster.Wire(), exec, k);
    }

    lemma AnsweredNext(at: Scene, c: P.Call, k: Key) returns (i: nat)
      requires Agreed(point, lapsed, bytes, at, exec, k) && Tracked() && point.Broadcasting?
      requires Now() == at.(wire := broadcaster.Wire())
      requires P.Fits(point, c, Job())
      requires Handed(point.signed, P.LastReply(c.hashes), bytes) && P.LastReply(c.hashes).Ok?
      ensures Agreed(P.Move(point, c, Job()).0, lapsed || Results.Lapses(c), BytesAfter(bytes, c),
                     Now().(accepted := i, beforeSend := events), exec, k)
    {
      var wire := broadcaster.Wire();
      i :| B.AcceptedFor(wire, i, exec) && wire.sent[i].reply.hash == P.LastReply(c.hashes).value;
      assert Traced(origin, startTime, events, ledger.table, ledger.now, exec, calm, taken);
      AnsweredAgrees(point, c, Job(), lapsed, bytes, at, wire, ledger.now, i, exec, k);
    }

    ghost predicate HasFailed()
      reads `point
    {
      && point.Ended? && point.last.Failed?
      && !point.last.cause.NotIncludedOnChain? && point.last.cause != P.ValidatorFailed(V.Reverted)
    }

    method RegisterStage(ghost k: Key) returns (ok: bool)
      requires Paused(k) && point.Registering?
      modifies this
      ensures Paused(k) && (if ok then point.Reserving? else HasFailed())
    {
      ghost var tries;
      var r;
      r, tries := RegisterTransaction();
      ok := r.Ok?;
      IdleTurn(P.Call.Register(tries), k);
      ShowTurn(if ok then P.Accepted else P.Failed(P.RelayHostFailed), P.Call.Register(tries), k);
    }

    method ReserveCall(ghost before: Key) returns (r: Result<nat, LocalError>, ghost c: P.Call, ghost k: Key)
      requires Paused(before) && point.Reserving?
      modifies ledger, `events, `calm, `taken
      ensures Tracked() && P.Fits(point, c, Job()) && AgreesNext(c, k) && P.LastReply(c.nonces) == r
      ensures ledger.heard == Results.Recorded(old(Heard()), exec, Job(), c).nonces
    {
      ghost var at, tries := Now(), [];
      Unfolds(before);
      r, k, tries := ReserveNonce();
      c := P.Call.Reserve(tries);
      ReserveNext(at, c, before, k);
    }

    /** Get the first nonce. */
    method ReserveStage(ghost before: Key) returns (r: Result<nat, LocalError>, ghost k: Key)
      requires Paused(before) && point.Reserving?
      modifies this, ledger
      ensures Paused(k) && (if r.Ok? then point == P.Signing(r.value, false) else HasFailed())
    {
      ghost var c;
      r, c, k := ReserveCall(before);
      ShowTurn(if r.Ok? then P.NonceReserved else P.Failed(P.NonceReservationFailed), c, k);
    }

    /** The resolve that the point demands has been made. */
    method ResolveCall(to: NonceState, ghost k: Key) returns (ghost c: P.Call)
      requires Paused(k) && (if point.Consuming? then to == Consumed else point.Disposing? && to == point.to)
      modifies ledger, `events, `calm, `taken
      ensures Tracked() && P.Fits(point, c, Job()) && AgreesNext(c, k) && c.Resolve?
      ensures ledger.heard == Results.Recorded(old(Heard()), exec, Job(), c).nonces
    {
      ghost var at, r, tries := Now(), Ok(()), [];
      r, tries := ResolveNonce(to, k, point.nonce);
      c := P.Call.Resolve(to, tries);
      ResolveNext(at, c, k);
    }

    /** Resolve the held nonce and show the final status. */
    method Dispose(to: NonceState, s: P.Status, ghost k: Key)
      requires Paused(k) && point.Disposing? && to == point.to && s == point.last
      modifies this, ledger
      ensures Paused(k) && point.Ended? && point.last == s
    {
      ghost var c := ResolveCall(to, k);
      ShowTurn(s, c, k);
    }

    /** A call after which the nonce is resolved, and the run ends. */
    method DisposeAfter(ghost c: P.Call, to: NonceState, s: P.Status, ghost k: Key)
      requires Calling(c, k)
      requires var (p, more) := P.Move(point, c, Job()); more == [] && p.Disposing? && p.to == to && p.last == s
      modifies this, ledger
      ensures Paused(k) && point.Ended? && point.last == s
    {
      IdleTurn(c, k);
      PassTurn(c, k);
      Dispose(to, s, k);
    }

    method SignCall(nonce: nat, ghost k: Key) returns (r: Result<SignedTransaction, LocalError>, ghost c: P.Call)
      requires Paused(k) && point.Signing? && point.nonce == nonce
      modifies signer
      ensures Calling(c, k) && P.LastReply(c.signatures) == r
    {
      ghost var tries;
      Unfolds(k);
      r, tries := SignTransaction(nonce);
      c := P.Call.Sign(point.again, nonce, tries);
    }

    /** Sign over the held nonce, the first time or again. */
    method SignStage(nonce: nat, again: bool, ghost k: Key) returns (r: Option<SignedTransaction>)
      requires Paused(k) && point == P.Signing(nonce, again)
      modifies this, ledger, signer
      ensures Paused(k)
      ensures if r.None? then HasFailed()
              else point == if again then P.Broadcasting(nonce, r.value, true) else P.Acquiring(nonce, r.value)
    {
      var signed;
      ghost var c;
      signed, c := SignCall(nonce, k);
      if signed.Ok? {
        IdleTurn(c, k);
        ShowTurn(P.Status.Signed, c, k);
        r := Some(signed.value);
      } else {
        DisposeAfter(c, Released, P.Failed(if again then P.ReSignFailed else P.SignFailed), k);
        r := None;
      }
    }

    method EndpointStage(ghost k: Key) returns (ok: bool)
      requires Paused(k) && point.Acquiring?
      modifies this, ledger
      ensures Paused(k)
      ensures if ok then point == P.Broadcasting(old(point.nonce), old(point.signed), false) else HasFailed()
    {
      var found := AcquireHealthyEndpoint();
      ok := found.Ok? && found.value.Some?;
      ghost var c := P.Call.Acquire(found);
      if ok {
        IdleTurn(c, k);
        PassTurn(c, k);
      } else {
        DisposeAfter(c, Released, P.Failed(if found.Err? then P.EndpointPoolFailed else P.NoHealthyProvider), k);
      }
    }

    /** The broadcast calls of a round have been made; `at` is the scene before. */
    ghost predicate RoundMade(at: Scene, c: P.Call, k: Key)
      reads this, ledger, signer, broadcaster, validator
    {
      && OnTrack() && Tracked() && Engines() && point.Broadcasting? && P.Fits(point, c, Job())
      && Agreed(point, lapsed, bytes, at, exec, k) && Now() == at.(wire := broadcaster.Wire())
      && Handed(point.signed, P.LastReply(c.hashes), bytes) && Heard() == Results.Recorded(record, exec, Job(), c)
    }

    method RoundAnswered(h: Hash, ghost at: Scene, ghost c: P.Call, ghost k: Key)
      requires RoundMade(at, c, k) && P.LastReply(c.hashes) == Ok(h)
      modifies this
      ensures Paused(k) && point == P.Validating(old(point.nonce), old(point.signed), h)
    {
      ghost var i := AnsweredNext(at, c, k);
      accepted, beforeSend := i, events;
      ShowTurn(P.Broadcasted(h), c, k);
    }

    /** A first nonce too low, or an internal failure, after which the nonce is kept. */
    method RoundShown(s: P.Status, ghost at: Scene, ghost c: P.Call, ghost k: Key)
      requires RoundMade(at, c, k) && P.LastReply(c.hashes).Err? && P.Move(point, c, Job()).1 == [s]
      modifies this
      ensures Paused(k) && point == P.Move(old(point), c, Job()).0
    {
      RefusedNext(at, c, k);
      ShowTurn(s, c, k);
    }

    method RoundRefused(err: B.BroadcastError, ghost at: Scene, ghost c: P.Call, ghost k: Key)
      requires RoundMade(at, c, k) && P.LastReply(c.hashes) == Err(err)
      requires !B.KeepsNonce(err) && (err.NonceTooLow? ==> point.again)
      modifies this, ledger
      ensures Paused(k) && HasFailed()
    {
      RefusedNext(at, c, k);
      PassTurn(c, k);
      Dispose(Released, P.Failed(P.BroadcastFailed(err)), k);
    }

    /** One round of broadcasting: an answer, a first nonce too low, or the end of the run. */
    method BroadcastRound(signed: SignedTransaction, nonceRetryAttempted: bool, ghost k: Key)
      returns (r: Result<Hash, B.BroadcastError>)
      requires Paused(k) && point.Broadcasting? && point.signed == signed && point.again == nonceRetryAttempted
      modifies this, ledger, broadcaster
      ensures Paused(k)
      ensures r.Ok? ==> point == P.Validating(old(point.nonce), signed, r.value)
      ensures r.Err? && r.error.NonceTooLow? && !nonceRetryAttempted ==>
                point == P.Consuming(old(point.nonce), r.error.onChain)
      ensures r.Err? && !(r.error.NonceTooLow? && !nonceRetryAttempted) ==> HasFailed()
    {
      ghost var c, at;
      r, c, at := SendRound(signed, k);
      match r {
        case Ok(hash) => RoundAnswered(hash, at, c, k);
        case Err(err) =>
          if err.NonceTooLow? && !nonceRetryAttempted {
            RoundShown(P.NonceMismatchDetected(err.onChain, err.attempted), at, c, k);
          } else if err.Internal? || err.DatabaseError? || err.Invariant? {
            RoundShown(P.Failed(P.BroadcastFailed(err)), at, c, k);
          } else {
            RoundRefused(err, at, c, k);
          }
      }
    }

    method SendRound(signed: SignedTransaction, ghost k: Key)
      returns (r: Result<Hash, B.BroadcastError>, ghost c: P.Call, ghost at: Scene)
      requires Paused(k) && point.Broadcasting? && point.signed == signed
      modifies broadcaster
      ensures RoundMade(at, c, k) && P.LastReply(c.hashes) == r
    {
      ghost var tries;
      at := Now();
      Unfolds(k);
      r, tries := BroadcastTransaction(signed, bytes);
      c := P.Call.Broadcast(point.again, signed, tries);
    }

    method ConsumeStage(ghost k: Key)
      requires Paused(k) && point.Consuming?
      modifies this, ledger
      ensures Paused(k) && point == P.Reverting(old(point.nonce), old(point.onChain))
    {
      ghost var c := ResolveCall(Consumed, k);
      PassTurn(c, k);
    }

    method RevertStage(ghost k: Key)
      requires Paused(k) && point.Reverting?
      modifies this, signer
      ensures Paused(k) && point == P.Syncing(old(point.nonce), old(point.onChain))
      ensures reverted ==> Unsigned(signer.rows, exec)
    {
      ghost var r, tries;
      r, tries := RevertSign();
      IdleTurn(P.Call.Revert(tries), k);
      PassTurn(P.Call.Revert(tries), k);
    }

    method SyncCall(onChain: nat, ghost before: Key)
      returns (r: Result<nat, LocalError>, ghost c: P.Call, ghost k: Key)
      requires Paused(before) && point.Syncing? && point.onChain == onChain
      modifies ledger, `events, `calm, `taken
      ensures Tracked() && P.Fits(point, c, Job()) && AgreesNext(c, k) && P.LastReply(c.nonces) == r
      ensures ledger.heard == Results.Recorded(old(Heard()), exec, Job(), c).nonces
    {
      ghost var at, w, tries := Now(), {}, [];
      Unfolds(before);
      r, k, w, tries := SyncNonce(onChain);
      if r.Err? { k := before; }
      c := P.Call.Sync(onChain, tries);
      SyncNext(at, c, w, before, k);
    }

    /** Get the on-chain nonce. */
    method SyncStage(onChain: nat, ghost before: Key) returns (r: Result<nat, LocalError>, ghost k: Key)
      requires Paused(before) && point.Syncing? && point.onChain == onChain
      modifies this, ledger
      ensures Paused(k) && (if r.Ok? then point == P.Signing(r.value, true) else HasFailed())
      ensures reverted == old(reverted)
    {
      ghost var c;
      r, c, k := SyncCall(onChain, before);
      ShowTurn(if r.Ok? then P.NonceReserved else P.Failed(P.NonceSyncFailed), c, k);
    }

    /** The recovery from a first nonce too low: consume, revert, sync. */
    method Recover(onChain: nat, ghost before: Key) returns (r: Result<nat, LocalError>, ghost k: Key)
      requires Paused(before) && point.Consuming? && point.onChain == onChain
      modifies this, ledger, signer
      ensures Paused(k) && (if r.Ok? then point == P.Signing(r.value, true) else HasFailed())
      ensures reverted ==> Unsigned(signer.rows, exec)
    {
      ConsumeStage(before);
      RevertStage(before);
      r, k := SyncStage(onChain, before);
    }

    /** The validator's reply decides what becomes of the nonce. */
    method Judge(hash: Hash, r: Result<V.ValidatorOutcome, V.ValidatorError>, ghost k: Key)
      requires Calling(P.Call.Validate(hash, r), k) && point.Validating?
      modifies this, ledger
      ensures Paused(k) && point.Ended? && Results.Decides(P.Call.Validate(hash, r), point.last)
    {
      ghost var c := P.Call.Validate(hash, r);
      match r {
        case Ok(Included(_, _)) => DisposeAfter(c, Finalized, P.ConfirmedOnChain(hash), k);
        case Ok(NotIncluded) => DisposeAfter(c, Released, P.Failed(P.NotIncludedOnChain), k);
        case Ok(Timeout) => DisposeAfter(c, Consumed, P.ValidatorTimedOut, k);
        case Err(err) =>
          if err.Database? || err.Internal? {
            IdleTurn(c, k);
            ShowTurn(P.Failed(P.ValidatorFailed(err)), c, k);
          } else {
            DisposeAfter(c, Released, P.Failed(P.ValidatorFailed(err)), k);
          }
      }
    }

    method ValidateStage(hash: Hash, ghost k: Key)
      requires Paused(k) && point.Validating? && point.hash == hash
      modifies this, ledger, validator
      ensures Paused(k) && point.Ended? && VerdictAgrees(point.last, validator.rows, exec)
    {
      var r := ValidateOnce(hash);
      Judge(hash, r, k);
    }

    /** Up to the first broadcast. */
    method Prepare(ghost before: Key) returns (r: Option<SignedTransaction>, ghost k: Key)
      requires Paused(before) && point.Registering?
      modifies this, ledger, signer
      ensures Paused(k)
      ensures if r.None? then HasFailed() else point.Broadcasting? && point.signed == r.value && !point.again
    {
      k := before;
      var registered := RegisterStage(before);
      if !registered { return None, before; }
      var nonce;
      nonce, k := ReserveStage(before);
      if nonce.Err? { return None, k; }
      r := SignStage(nonce.value, false, k);
      if r.None? { return; }
      var found := EndpointStage(k);
      if !found { r := None; }
    }

    /** Broadcast, and once more after a recovery. */
    method BroadcastLoop(first: SignedTransaction, ghost before: Key)
      returns (r: Option<Hash>, ghost k: Key)
      requires Paused(before) && point.Broadcasting? && point.signed == first && !point.again
      modifies this, ledger, signer, broadcaster
      ensures Paused(k) && if r.None? then HasFailed() else point.Validating? && point.hash == r.value
    {
      k := before;
      var signed, nonceRetryAttempted := first, false;
      while true
        invariant Paused(k) && point.Broadcasting? && point.signed == signed && point.again == nonceRetryAttempted
        decreases !nonceRetryAttempted
      {
        var sent := BroadcastRound(signed, nonceRetryAttempted, k);
        if sent.Ok? { return Some(sent.value), k; }
        if nonceRetryAttempted || !sent.error.NonceTooLow? { return None, k; }
        nonceRetryAttempted := true;
        var nonce;
        nonce, k := Recover(sent.error.onChain, k);
        if nonce.Err? { return None, k; }
        var again := SignStage(nonce.value, true, k);
        if again.None? { return None, k; }
        signed := again.value;
      }
    }

    method RunPipeline(ghost before: Key) returns (ghost k: Key)
      requires Paused(before) && point.Registering?
      modifies this, ledger, signer, broadcaster, validator
      ensures Paused(k) && point.Ended? && VerdictAgrees(point.last, validator.rows, exec)
    {
      var signed;
      signed, k := Prepare(before);
      if signed.None? { return; }
      var hash;
      hash, k := BroadcastLoop(signed.value, k);
      if hash.Some? { ValidateStage(hash.value, k); }
    }

    // ---- what a finished run has done --------------------------------------

    /** The replies decide the final status, and a nonce was granted. */
    lemma FinalStatus(k: Key)
      requires Paused(k) && point.Ended?
      ensures status == point.last && P.Replay(log, Job()).Some? && history != []
      ensures history[|history| - 1] == status && point.granted == Results.Granted(log)
      ensures forall s :: status == s <==> Results.Decided(log, s)
      ensures point.sent.Some? <==> Results.Answered(log)
      ensures lapsed == Results.Lapsed(log)
      ensures point.sent.Some? ==> point.granted.Some? && P.SignedOver(point.sent.value, Job(), point.granted.value)
    {
      assert Logged(log, Job(), P.Run(point, history), lapsed, reverted, bytes, base, record, exec);
      Results.PointKnows(log, Job());
      Results.SentIffAnswered(log, Job());
      forall s ensures status == s <==> Results.Decided(log, s) { Results.FinalStatusIff(log, Job(), s); }
      Results.FinalStatusIff(log, Job(), status);
    }

    /** The i-th ledger statement since the run began was another execution's reserve, and
        consumed the row at `k`. */
    ghost predicate TakenAt(i: int, k: Key)
      requires Tracked()
      reads `events, `calm, `taken, ledger
    {
      assert Traced(origin, startTime, events, ledger.table, ledger.now, exec, calm, taken);
      TakesAt(origin, startTime, events, i, exec, k)
    }

    ghost predicate TakenByOther(k: Key)
      requires Tracked()
      reads `events, `calm, `taken, ledger
    {
      exists i :: TakenAt(i, k)
    }

    lemma TakenIsTaken(k: Key)
      requires Tracked()
      ensures k in taken <==> TakenByOther(k)
    {
      assert Traced(origin, startTime, events, ledger.table, ledger.now, exec, calm, taken);
      TakenIff(origin, startTime, events, exec, k);
      forall i ensures TakenAt(i, k) <==> TakesAt(origin, startTime, events, i, exec, k) {}
    }

    /** Within the lease and with every resolve answered Ok in the end, the final status
        tells the state of the row of the nonce granted last, and the other way round. */
    lemma DispositionWithinLease(k: Key)
      requires Paused(k) && point.Ended? && Results.Granted(log).Some?
      requires ledger.now <= startTime + SWEEP_AGE && !Results.Lapsed(log)
      ensures k in ledger.table && k.exec == exec && ledger.table[k].sender == Own()
      ensures ledger.table[k].nonce == Results.Granted(log).value
      ensures var st := ledger.table[k].state;
              && (st == Finalized <==> status.ConfirmedOnChain?)
              && (st == Reserved <==> Results.LeavesReserved(status))
              && (st == Consumed && !TakenByOther(k) <==> Results.SpendsNonce(status))
              && (st == Released || TakenByOther(k) <==> Results.Disposition(status) == Released)
    {
      FinalStatus(k);
      TakenIsTaken(k);
      assert AgreesIn(point, lapsed, bytes, Now(), exec, k);
      assert Keeps(ledger.table, taken, exec, Own(), startTime);
      assert EndedAs(ledger.table, taken, k, point.granted.value, Results.Disposition(status));
      if k in taken { assert ledger.table[k].state == Consumed; }
    }

    /** When a broadcast was answered Ok, exactly one send was; its bytes carry the nonce
        granted last, and a confirmation shows its hash. */
    lemma AnsweredCarriesGrant(k: Key) returns (i: nat)
      requires Paused(k) && point.Ended? && Results.Answered(log)
      ensures B.AcceptedFor(broadcaster.Wire(), i, exec)
      ensures Results.Granted(log).Some? && WireNonce(broadcaster.sent[i].txn) == Results.Granted(log)
      ensures key.Some? && SignedBy(broadcaster.sent[i].txn, txn.(nonce := Results.Granted(log).value), key.value)
      ensures forall j | B.AcceptedFor(broadcaster.Wire(), j, exec) :: j == i
      ensures status.ConfirmedOnChain? ==> status.txHash == broadcaster.sent[i].reply.hash
    {
      FinalStatus(k);
      assert AgreesIn(point, lapsed, bytes, Now(), exec, k);
      i := accepted;
      SignedByNonce(broadcaster.sent[i].txn, P.WithNonce(Job(), Results.Granted(log).value), key.value);
      assert B.Good(broadcaster.Wire());
    }

    /** Every send of the execution is of the submitted transaction, with the nonce granted
        last before that broadcast and the sender's signature over it. */
    lemma SendsAreSubmitted(k: Key, i: nat) returns (j: nat)
      requires Paused(k) && i < |broadcaster.sent| && broadcaster.sent[i].exec == exec
      ensures j < |log| && log[j].Broadcast? && log[j].txn.rlp == broadcaster.sent[i].txn
      ensures Results.Granted(log[..j]).Some? && key.Some?
      ensures SignedBy(broadcaster.sent[i].txn, P.WithNonce(Job(), Results.Granted(log[..j]).value), key.value)
    {
      assert Logged(log, Job(), P.Run(point, history), lapsed, reverted, bytes, base, record, exec);
      assert AgreesIn(point, lapsed, bytes, Now(), exec, k);
      j := Results.BytesAreSigned(log, Job(), broadcaster.sent[i].txn);
    }

    /** When the broadcast was answered Ok, the run held the row of the nonce on the wire as its
        own sender, unless a sweep had touched it before. */
    lemma AnsweredWhileHolding(k: Key)
      requires Paused(k) && point.Ended? && Results.Answered(log)
      ensures Tracing() && |beforeSend| <= |events| && B.AcceptedFor(broadcaster.Wire(), accepted, exec)
      ensures SendsFrom(origin, startTime, events, |beforeSend|, broadcaster.sent[accepted], Own())
    {
      FinalStatus(k);
      var at, n := Now(), point.granted.value;
      assert AgreesIn(point, lapsed, bytes, at, exec, k);
      SignedByNonce(point.sent.value.rlp, P.WithNonce(Job(), n), key.value);
      assert Traced(origin, startTime, events, ledger.table, ledger.now, exec, calm, taken);
      assert Keeps(ledger.table, taken, exec, Own(), startTime);
      AnswerHeld(point, lapsed, bytes, at, ledger.now, exec, k, Own());
    }

    ghost predicate Tracing()
      reads `events
    {
      ValidRun(origin, startTime, events)
    }

    /** The handles record the calls of the log attempt by attempt, and what each heard is what
        its actor replied, or the error of the channel. */
    lemma LogIsServed(k: Key)
      requires Paused(k)
      ensures Results.RecordOf(base, exec, Job(), log)
              == Results.Record(ledger.heard, signer.heard, broadcaster.heard, validator.heard)
      ensures Faithful(ledger.heard, ledger.served, ledger.fate, LostNonce)
      ensures Faithful(signer.heard, signer.served, signer.fate, LostSign)
      ensures Faithful(broadcaster.heard, broadcaster.served, broadcaster.fate, BroadcastActor.LostBroadcast)
      ensures Faithful(validator.heard, validator.served, validator.fate, V.LostVerdict)
    {
      assert Logged(log, Job(), P.Run(point, history), lapsed, reverted, bytes, base, record, exec);
    }

    /** A nonce released without an Ok answer: nothing was answered Ok, and the node holds a
        transaction of the execution exactly if the reply to some send was lost. */
    lemma ReleasedMeansUnanswered(k: Key)
      requires Paused(k) && point.Ended? && !Results.Answered(log) && !Results.LeavesReserved(status)
      ensures B.NoOkFor(broadcaster.Wire(), exec)
      ensures (exists i :: B.TakenFor(broadcaster.Wire(), i, exec))
              <==> (exists i :: B.LostFor(broadcaster.Wire(), i, exec))
    {
      FinalStatus(k);
      assert AgreesIn(point, lapsed, bytes, Now(), exec, k);
      forall i ensures B.TakenFor(broadcaster.Wire(), i, exec) <==> B.LostFor(broadcaster.Wire(), i, exec) {
        assert !B.AcceptedFor(broadcaster.Wire(), i, exec);
      }
    }

    /** If the node holds two different transactions of the execution, the reply to a send was
        lost, and the run went through the recovery all the same. */
    lemma TwoTransactionsMeanRecovery(k: Key, i: int, j: int)
      requires Paused(k) && B.TakenFor(broadcaster.Wire(), i, exec) && B.TakenFor(broadcaster.Wire(), j, exec)
      requires broadcaster.sent[i].txn != broadcaster.sent[j].txn
      ensures P.Resynced(log)
      ensures B.LostFor(broadcaster.Wire(), i, exec) || B.LostFor(broadcaster.Wire(), j, exec)
    {
      assert Logged(log, Job(), P.Run(point, history), lapsed, reverted, bytes, base, record, exec);
      assert AgreesIn(point, lapsed, bytes, Now(), exec, k);
      assert B.Good(broadcaster.Wire());
      B.TakenTwiceMeansLost(broadcaster.Wire(), exec, i, j);
      if !P.Resynced(log) { Results.OneTransactionUnlessResynced(log, Job()); }
    }
  }
}
