/** The table shape that signing, broadcasting and validation share: a pending row is
    claimed, then settled with a result or freed for another attempt. At most one row of
    an execution may be active (a partial unique index). */
module LeaseTable {
  import opened Types
  import opened Revisions

  /** reserved, signed, failed; received, submitted, rejected; pending, verdict, timed out. */
  datatype Phase<D> = Pending | Settled(data: D) | Freed

  datatype Row<D> = Row(phase: Phase<D>, updatedAt: int)

  type Table<D> = map<Key, Row<D>>

  const LEASE := 2 * MINUTE

  predicate Active<D>(r: Row<D>) {
    !r.phase.Freed?
  }

  /** The insert's NOT EXISTS guard. */
  predicate Guard<D>(t: Table<D>, at: int, e: ExecutionId) {
    exists k | k in t :: k.exec == e
      && (t[k].phase.Settled? || (t[k].phase.Pending? && t[k].updatedAt > at - LEASE))
  }

  /** The unique index already has a row of the execution. */
  predicate Clash<D>(t: Table<D>, e: ExecutionId) {
    exists k | k in t :: k.exec == e && Active(t[k])
  }

  datatype Claim = Guarded | Aborted | Claimed(key: Key)

  ghost function ClaimOutcome<D>(t: Table<D>, at: int, e: ExecutionId): Claim {
    if Guard(t, at, e) then Guarded
    else if Clash(t, e) then Aborted
    else Claimed(Key(e, MaxRev(t, e) + 1))
  }

  function Set<D>(t: Table<D>, k: Key, p: Phase<D>, at: int): Table<D> {
    t[k := Row(p, at)]
  }

  ghost function AfterClaim<D>(t: Table<D>, at: int, e: ExecutionId): Table<D> {
    var c := ClaimOutcome(t, at, e);
    if c.Claimed? then Set(t, c.key, Pending, at) else t
  }

  /** The active row of an execution, of which there is one, is its latest. */
  ghost predicate Inv<D>(t: Table<D>) {
    && Contiguous(t)
    && forall j, k | j in t && k in t && j.exec == k.exec && Active(t[k]) :: j.rev <= k.rev
  }

  lemma InvClaim<D>(t: Table<D>, at: int, e: ExecutionId)
    requires Inv(t)
    ensures Inv(AfterClaim(t, at, e))
  {
    var m := MaxRev(t, e);
    FreshKey(t, e);
    var u := AfterClaim(t, at, e);
    forall k | k in u ensures 1 <= k.rev && forall r | 1 <= r <= k.rev :: Key(k.exec, r) in u {
      if k == Key(e, m + 1) && m > 0 { assert Key(e, m) in t; }
    }
    if ClaimOutcome(t, at, e).Claimed? {
      assert forall j | j in t && j.exec == e :: j.rev <= m && !Active(t[j]);
    }
  }

  lemma InvSet<D>(t: Table<D>, k: Key, p: Phase<D>, at: int)
    requires Inv(t) && k in t && Active(t[k])
    ensures Inv(Set(t, k, p, at))
  {
  }

  /** The two-minute guard gives no takeover: a claim succeeds exactly when the execution
      has no active row, however old. */
  lemma ClaimSucceedsIff<D>(t: Table<D>, at: int, e: ExecutionId)
    ensures ClaimOutcome(t, at, e).Claimed? <==> forall k | k in t && k.exec == e :: !Active(t[k])
  {
    if Guard(t, at, e) { assert Clash(t, e); }
  }

  /** A claim by an execution none of whose rows, the latest at `rev`, is active. */
  lemma ClaimGives<D>(t: Table<D>, at: int, e: ExecutionId, rev: nat)
    requires IsMaxRev(t, e, rev) && forall k | k in t && k.exec == e :: !Active(t[k])
    ensures AfterClaim(t, at, e) == t[Key(e, rev + 1) := Row(Pending, at)]
    ensures ClaimOutcome(t, at, e) == Claimed(Key(e, rev + 1))
  {
    ClaimSucceedsIff(t, at, e);
    assert IsMaxRev(t, e, MaxRev(t, e));
  }

  /** The row a client reads back: the latest of an execution. */
  ghost function Latest<D>(t: Table<D>, e: ExecutionId): Option<Row<D>> {
    var k := Key(e, MaxRev(t, e));
    if k in t then Some(t[k]) else None
  }

  lemma ActiveIsLatest<D>(t: Table<D>, k: Key)
    requires Inv(t) && k in t && Active(t[k])
    ensures MaxRev(t, k.exec) == k.rev && Latest(t, k.exec) == Some(t[k])
  {
    assert IsMaxRev(t, k.exec, MaxRev(t, k.exec));
    assert Key(k.exec, MaxRev(t, k.exec)) in t;
  }

  /** What a claim comes to, told from the latest row alone: it is refused by a settled row or
      a pending one younger than two minutes, aborted by an older pending one, and made otherwise. */
  lemma ClaimByLatest<D>(t: Table<D>, at: int, e: ExecutionId)
    requires Inv(t)
    ensures ClaimOutcome(t, at, e) ==
            match Latest(t, e)
            case Some(Row(Settled(_), _)) => Guarded
            case Some(Row(Pending, since)) => if since > at - 2 * 60 * 1_000_000 then Guarded else Aborted
            case _ => Claimed(Key(e, MaxRev(t, e) + 1))
  {
    forall k | k in t && k.exec == e && Active(t[k]) ensures Latest(t, e) == Some(t[k]) { ActiveIsLatest(t, k); }
  }

  /** No row of the execution is active exactly if its latest one is not. */
  lemma FreeByLatest<D>(t: Table<D>, e: ExecutionId)
    requires Inv(t)
    ensures (forall k | k in t && k.exec == e :: t[k].phase.Freed?)
            <==> Latest(t, e).None? || Latest(t, e).value.phase.Freed?
  {
    forall k | k in t && k.exec == e && Active(t[k]) ensures Latest(t, e) == Some(t[k]) { ActiveIsLatest(t, k); }
  }

  /** What a guarded caller reads back is never a freed row. */
  lemma GuardedIsActive<D>(t: Table<D>, at: int, e: ExecutionId)
    requires Inv(t) && Guard(t, at, e)
    ensures Latest(t, e).Some? && Active(Latest(t, e).value)
  {
    var k :| k in t && k.exec == e && Active(t[k]);
    ActiveIsLatest(t, k);
  }
}
