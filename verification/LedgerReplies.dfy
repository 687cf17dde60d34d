/** What reserve, sync and resolve come to, told from the rows and the times alone. */
module LedgerReplies {
  import opened Types
  import opened Revisions
  import opened Ledger
  import opened LedgerInvariants

  /** Some reserved or finalized row of the sender carries the nonce. */
  predicate InUse(t: Table, s: Sender, n: nat) {
    exists k | k in t :: t[k].sender == s && t[k].nonce == n && (t[k].state == Reserved || t[k].state == Finalized)
  }

  /** The row fits the BIGINT columns. */
  ghost predicate FitsColumns(t: Table, e: ExecutionId, n: nat) {
    n <= 0x7FFF_FFFF_FFFF_FFFF && MaxRev(t, e) < 0x7FFF_FFFF_FFFF_FFFF
  }

  /** A reserve inserts exactly when its execution has no finalized row and no reserved one
      younger than two minutes, and the nonce is in no active row and fits. */
  lemma ReserveInsertsIff(t: Table, at: int, s: Sender, e: ExecutionId, pick: Option<Key>)
    requires PickOk(t, s, pick)
    ensures var n := ReserveNonce(t, s, pick);
            Committed(t, Reserve(at, s, e, pick)) ==
            if (forall k | k in t && k.exec == e ::
                  t[k].state != Finalized
                  && (t[k].state == Reserved ==> t[k].updatedAt <= at - 2 * 60 * 1_000_000))
               && !InUse(t, s, n) && FitsColumns(t, e, n)
            then Some(n) else None
  {
  }

  /** A sync inserts the on-chain nonce exactly when its execution has no finalized row and no
      reserved one younger than five minutes, and the nonce is in no active row and fits. */
  lemma SyncInsertsIff(t: Table, at: int, s: Sender, e: ExecutionId, n: nat)
    ensures Committed(t, Sync(at, s, e, n)) ==
            if (forall k | k in t && k.exec == e ::
                  t[k].state != Finalized
                  && (t[k].state == Reserved ==> t[k].updatedAt <= at - 5 * 60 * 1_000_000))
               && !InUse(t, s, n) && FitsColumns(t, e, n)
            then Some(n) else None
  {
  }

  /** A reservation of the nonce that is younger than five minutes. */
  predicate FreshlyReserved(t: Table, at: int, s: Sender, n: nat) {
    exists k | k in t :: t[k].sender == s && t[k].nonce == n
      && t[k].state == Reserved && t[k].updatedAt > at - 5 * 60 * 1_000_000
  }

  /** The reply to an execution without an active row: the on-chain nonce exactly if that is in no
      active row and fits, a rejection exactly if it was reserved within five minutes, and a database
      error exactly if the insert is aborted. */
  ghost predicate SyncTells(t: Table, at: int, s: Sender, e: ExecutionId, n: nat, r: Result<nat, LocalError>) {
    && (r == Ok(n) <==> !InUse(t, s, n) && FitsColumns(t, e, n))
    && (r == Err(Rejected) <==> FreshlyReserved(t, at, s, n))
    && (r == Err(DatabaseError) <==> (InUse(t, s, n) || !FitsColumns(t, e, n)) && !FreshlyReserved(t, at, s, n))
  }

  /** Whatever others commit between the two statements of the sync. */
  lemma SyncIsTold(t: Table, at: int, s: Sender, e: ExecutionId, n: nat, between: seq<Event>)
    requires Idle(t, e)
    requires var u := Step(t, Sync(at, s, e, n)); ValidRun(u, at, between)
    requires forall i | 0 <= i < |between| :: !AsksFor(between[i], e)
    ensures var u := Step(t, Sync(at, s, e, n));
            SyncTells(t, at, s, e, n, Reply(SyncOutcome(t, at, s, e, n), Run(u, at, between), e, Rejected))
  {
    var u := Step(t, Sync(at, s, e, n));
    if SyncOutcome(t, at, s, e, n).Guarded? {
      IdleRun(u, at, between, e);
      assert Existing(Run(u, at, between), e).None?;
    }
  }

  /** Told from the rows that the second statement finds: the nonce of the execution's latest
      reserved or finalized row, or the error if there is none. */
  ghost predicate Retold(seen: Table, e: ExecutionId, missing: LocalError, r: Result<nat, LocalError>) {
    && (forall k | k in seen && k.exec == e && Active(seen[k])
                   && (forall j | j in seen && j.exec == e && Active(seen[j]) :: j.rev <= k.rev) ::
          r == Ok(seen[k].nonce))
    && ((forall k | k in seen && k.exec == e :: seen[k].state != Reserved && seen[k].state != Finalized) ==>
          r == Err(missing))
  }

  lemma RetoldByReply(seen: Table, e: ExecutionId, missing: LocalError)
    ensures Retold(seen, e, missing, Reply(Guarded, seen, e, missing))
  {
    var found := Existing(seen, e);
    assert IsExisting(seen, e, found);
    forall k | k in seen && k.exec == e && Active(seen[k])
               && (forall j | j in seen && j.exec == e && Active(seen[j]) :: j.rev <= k.rev)
      ensures found == Some(k)
    {
    }
  }

  /** The reply to any reserve whose second statement, if it has one, finds `seen`. */
  lemma ReserveIsTold(t: Table, at: int, s: Sender, e: ExecutionId, pick: Option<Key>, seen: Table)
    requires PickOk(t, s, pick)
    ensures var n := ReserveNonce(t, s, pick);
            var r := Reply(ReserveOutcome(t, at, s, e, pick), seen, e, DatabaseError);
            if Held(t, at, e, 2 * 60 * 1_000_000)
            then Retold(seen, e, DatabaseError, r)
            else r == if !InUse(t, s, n) && FitsColumns(t, e, n) then Ok(n) else Err(DatabaseError)
  {
    if Held(t, at, e, 2 * 60 * 1_000_000) {
      RetoldByReply(seen, e, DatabaseError);
    } else {
      ReserveInsertsIff(t, at, s, e, pick);
    }
  }

  /** The same for sync, which also stops at a fresh reservation of the nonce. */
  lemma SyncAnyIsTold(t: Table, at: int, s: Sender, e: ExecutionId, n: nat, seen: Table)
    ensures var r := Reply(SyncOutcome(t, at, s, e, n), seen, e, Rejected);
            if FreshlyReserved(t, at, s, n) || Held(t, at, e, 5 * 60 * 1_000_000)
            then Retold(seen, e, Rejected, r)
            else r == if !InUse(t, s, n) && FitsColumns(t, e, n) then Ok(n) else Err(DatabaseError)
  {
    if FreshlyReserved(t, at, s, n) || Held(t, at, e, 5 * 60 * 1_000_000) {
      RetoldByReply(seen, e, Rejected);
    } else {
      SyncInsertsIff(t, at, s, e, n);
    }
  }

  // ---- resolve -------------------------------------------------------------

  /** The latest row of the execution is at `k`. */
  ghost predicate LatestAt(t: Table, e: ExecutionId, k: Key) {
    k in t && k.exec == e && forall j | j in t && j.exec == e :: j.rev <= k.rev
  }

  ghost predicate HasReserved(t: Table, e: ExecutionId) {
    exists k :: k in t && k.exec == e && t[k].state == Reserved
  }

  /** The reply to a resolve that finds `t` and whose second statement, if it has one, finds `u`:
      fine exactly if there was a reserved row or the latest one is in the wanted state, an
      invariant error exactly if the execution has no row, else an internal one. */
  ghost predicate ResolveTells(t: Table, u: Table, e: ExecutionId, to: NonceState, r: Result<(), LocalError>) {
    && (r == Ok(()) <==> HasReserved(t, e) || exists k :: LatestAt(u, e, k) && u[k].state == to)
    && (r == Err(Invariant) <==> forall k | k in t :: k.exec != e)
    && (r == Err(Internal) <==> !HasReserved(t, e) && exists k :: LatestAt(u, e, k) && u[k].state != to)
  }

  lemma LatestIsMax(t: Table, e: ExecutionId)
    requires exists k :: k in t && k.exec == e
    ensures forall k :: LatestAt(t, e, k) <==> k == Key(e, MaxRev(t, e))
  {
    assert IsMaxRev(t, e, MaxRev(t, e));
  }

  /** From `t` to `u` no row of `e` came or went, and none became reserved. */
  ghost predicate Settles(t: Table, u: Table, e: ExecutionId) {
    forall k: Key | k.exec == e :: (k in u <==> k in t) && (k in t && t[k].state != Reserved ==> u[k].state != Reserved)
  }

  lemma {:induction false} SettlesRun(t: Table, now: int, evs: seq<Event>, e: ExecutionId)
    requires ValidRun(t, now, evs) && forall i | 0 <= i < |evs| :: !AsksFor(evs[i], e)
    ensures Settles(t, Run(t, now, evs), e)
    decreases evs
  {
    if evs != [] {
      assert !AsksFor(evs[0], e);
      AuditStep(t, evs[0]);
      SettlesRun(Step(t, evs[0]), evs[0].at, evs[1..], e);
    }
  }

  lemma ResolveIsTold(t: Table, at: int, e: ExecutionId, to: NonceState, between: seq<Event>)
    requires to != Reserved && ValidRun(Step(t, Resolve(at, e, to)), at, between)
    requires forall i | 0 <= i < |between| :: !AsksFor(between[i], e)
    ensures var u := Run(Step(t, Resolve(at, e, to)), at, between);
            ResolveTells(t, u, e, to, ResolveReply(Target(t, e).Some?, u, e, to))
  {
    var v := Step(t, Resolve(at, e, to));
    var u := Run(v, at, between);
    SettlesRun(v, at, between, e);
    assert Target(t, e).Some? <==> HasReserved(t, e);
    if k :| k in t && k.exec == e {
      assert k in u;
      LatestIsMax(u, e);
    } else {
      assert forall k | k in u :: k.exec != e;
    }
  }
}
