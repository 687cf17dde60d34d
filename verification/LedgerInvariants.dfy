/** What every run of ledger statements keeps: the unique index, the audit trail,
    leases, idempotent reserves, and the progress of the sweeper. */
module LedgerInvariants {
  import opened Types
  import opened Revisions
  import opened Ledger

  // ---- the table invariant -------------------------------------------------

  /** `uniq_active_nonce`. */
  ghost predicate UniqueActive(t: Table) {
    forall j, k | j in t && k in t && Active(t[j]) && Active(t[k])
                  && t[j].sender == t[k].sender && t[j].nonce == t[k].nonce :: j == k
  }

  /** No row is stamped in the future, and a reserved row, never touched since its
      insert, is no older than the reserved rows of lower revision. */
  ghost predicate Stamped(t: Table, now: int) {
    && (forall k | k in t :: t[k].updatedAt <= now)
    && (forall j, k | j in t && k in t && j.exec == k.exec && j.rev < k.rev
                      && t[j].state == Reserved && t[k].state == Reserved ::
          t[j].updatedAt <= t[k].updatedAt)
  }

  ghost predicate Inv(t: Table, now: int) {
    UniqueActive(t) && Contiguous(t) && Stamped(t, now)
  }

  lemma InvInsert(t: Table, base: Table, at: int, s: Sender, e: ExecutionId, n: nat)
    requires Inv(base, at) && base.Keys == t.Keys && IndexFree(base, s, n)
    ensures Inv(WithRow(t, base, s, e, n, at), at)
  {
    var m := MaxRev(t, e);
    var u := WithRow(t, base, s, e, n, at);
    forall k | k in u
      ensures 1 <= k.rev && forall r | 1 <= r <= k.rev :: Key(k.exec, r) in u
    {
      if k == Key(e, m + 1) && m > 0 {
        assert Key(e, m) in base;
      }
    }
  }

  /** Moving a row to any state other than reserved, without making it active. */
  lemma InvSetState(t: Table, now: int, k: Key, st: NonceState, at: int)
    requires Inv(t, now) && now <= at && k in t && st != Reserved
    requires Active(t[k]) || st != Finalized
    ensures Inv(SetState(t, k, st, at), at)
  {
  }

  lemma InvSweep(t: Table, now: int, at: int, keys: set<Key>)
    requires Inv(t, now) && now <= at
    ensures Inv(SweepTable(t, at, keys), at)
  {
    var u := SweepTable(t, at, keys);
    assert UniqueActive(u);
    assert Contiguous(u);
  }

  lemma InvStep(t: Table, now: int, ev: Event)
    requires Inv(t, now) && Enabled(t, ev) && now <= ev.at
    ensures Inv(Step(t, ev), ev.at)
  {
    match ev
    case Reserve(at, s, e, pick) =>
      var base := AfterConsume(t, at, s, pick);
      if pick.Some? { InvSetState(t, now, pick.value, Consumed, at); }
      var o := ReserveOutcome(t, at, s, e, pick);
      if o.Inserted? { InvInsert(t, base, at, s, e, o.nonce); }
    case Sync(at, s, e, n) =>
      if SyncOutcome(t, at, s, e, n).Inserted? { InvInsert(t, t, at, s, e, n); }
    case Resolve(at, e, to) =>
      var k := Target(t, e);
      if k.Some? { InvSetState(t, now, k.value, to, at); }
    case Sweep(at, keys) =>
      InvSweep(t, now, at, keys);
  }

  lemma {:induction false} InvRun(t: Table, now: int, evs: seq<Event>)
    requires Inv(t, now) && ValidRun(t, now, evs)
    ensures Inv(Run(t, now, evs), Clock(now, evs))
    decreases evs
  {
    if evs != [] {
      InvStep(t, now, evs[0]);
      InvRun(Step(t, evs[0]), evs[0].at, evs[1..]);
    }
  }

  // ---- the audit trail -----------------------------------------------------

  /** The state changes a row may go through, none, one or two of them. */
  predicate Leads(a: NonceState, b: NonceState) {
    a == b || a == Reserved || (a == Released && b == Consumed)
  }

  ghost predicate Audited(t: Table, u: Table) {
    forall k | k in t ::
      k in u && u[k].sender == t[k].sender && u[k].nonce == t[k].nonce && Leads(t[k].state, u[k].state)
  }

  lemma AuditStep(t: Table, ev: Event)
    requires Enabled(t, ev)
    ensures Audited(t, Step(t, ev))
  {
    forall e | true ensures Key(e, MaxRev(t, e) + 1) !in t {
      assert IsMaxRev(t, e, MaxRev(t, e));
    }
  }

  lemma {:induction false} AuditRun(t: Table, now: int, evs: seq<Event>)
    requires ValidRun(t, now, evs)
    ensures Audited(t, Run(t, now, evs))
    decreases evs
  {
    if evs != [] {
      AuditStep(t, evs[0]);
      AuditRun(Step(t, evs[0]), evs[0].at, evs[1..]);
    }
  }

  /** How often a run changes the state of the row at `k`. */
  ghost function Changes(t: Table, now: int, evs: seq<Event>, k: Key): nat
    requires ValidRun(t, now, evs)
    decreases evs
  {
    if evs == [] then 0
    else
      var u := Step(t, evs[0]);
      Changes(u, evs[0].at, evs[1..], k) + if k in t && k in u && t[k].state != u[k].state then 1 else 0
  }

  function Rank(st: NonceState): nat {
    match st
    case Reserved => 0
    case Released => 1
    case _ => 2
  }

  /** A row changes state at most twice in its life, whatever is run. */
  lemma {:induction false} TwoChangesAtMost(t: Table, now: int, evs: seq<Event>, k: Key)
    requires ValidRun(t, now, evs)
    ensures Changes(t, now, evs, k) <= 2 - if k in t then Rank(t[k].state) else 0
    decreases evs
  {
    if evs != [] {
      AuditStep(t, evs[0]);
      TwoChangesAtMost(Step(t, evs[0]), evs[0].at, evs[1..], k);
    }
  }

  // ---- leases --------------------------------------------------------------

  /** The table before the i-th statement of a run. */
  ghost function TableAt(t: Table, now: int, evs: seq<Event>, i: nat): Table
    requires ValidRun(t, now, evs) && i <= |evs|
    decreases evs
  {
    if i == 0 then t else TableAt(Step(t, evs[0]), evs[0].at, evs[1..], i - 1)
  }

  lemma {:induction false} EnabledAt(t: Table, now: int, evs: seq<Event>, i: nat)
    requires ValidRun(t, now, evs) && i < |evs|
    ensures Enabled(TableAt(t, now, evs, i), evs[i])
    decreases evs
  {
    if i > 0 { EnabledAt(Step(t, evs[0]), evs[0].at, evs[1..], i - 1); }
  }

  /** `ev` gives nonce `n` of sender `s` to its execution by inserting a row. */
  ghost predicate Hands(t: Table, ev: Event, s: Sender, n: nat) {
    Enabled(t, ev) && (ev.Reserve? || ev.Sync?) && ev.sender == s && Committed(t, ev) == Some(n)
  }

  /** The row at `k` is as in `t`, and no other execution that asks is told its nonce. */
  ghost predicate Exclusive(t: Table, k: Key, u: Table)
    requires k in t
  {
    && k in u && u[k] == t[k]
    && forall e | e != k.exec ::
         var x := Existing(u, e);
         x.Some? ==> u[x.value].sender != t[k].sender || u[x.value].nonce != t[k].nonce
  }

  predicate ResolvesExec(ev: Event, e: ExecutionId) {
    ev.Resolve? && ev.exec == e
  }

  lemma LeaseStep(t: Table, now: int, ev: Event, k: Key)
    requires Inv(t, now) && Enabled(t, ev) && k in t && t[k].state == Reserved
    requires !ResolvesExec(ev, k.exec) && ev.at <= t[k].updatedAt + SWEEP_AGE
    ensures k in Step(t, ev) && Step(t, ev)[k] == t[k]
    ensures !Hands(t, ev, t[k].sender, t[k].nonce)
  {
  }

  /** Until its execution is resolved or it is older than 2 min 5 s, a reserved row
      stays as it is and its nonce is handed to nobody else, in any run. */
  lemma {:induction false} LeaseRun(t: Table, now: int, evs: seq<Event>, k: Key)
    requires Inv(t, now) && ValidRun(t, now, evs) && k in t && t[k].state == Reserved
    requires forall i | 0 <= i < |evs| ::
               !ResolvesExec(evs[i], k.exec) && evs[i].at <= t[k].updatedAt + (2 * 60 + 5) * 1_000_000
    ensures forall i | 0 <= i <= |evs| :: Exclusive(t, k, TableAt(t, now, evs, i))
    ensures forall i | 0 <= i < |evs| ::
              !Hands(TableAt(t, now, evs, i), evs[i], t[k].sender, t[k].nonce)
    decreases evs
  {
    assert Exclusive(t, k, t);
    if evs != [] {
      var u := Step(t, evs[0]);
      LeaseStep(t, now, evs[0], k);
      InvStep(t, now, evs[0]);
      LeaseRun(u, evs[0].at, evs[1..], k);
      forall i | 0 < i <= |evs|
        ensures Exclusive(t, k, TableAt(t, now, evs, i))
        ensures i < |evs| ==> !Hands(TableAt(t, now, evs, i), evs[i], t[k].sender, t[k].nonce)
      {
        assert TableAt(t, now, evs, i) == TableAt(u, evs[0].at, evs[1..], i - 1);
      }
    }
  }

  /** The same, from the statement that grants the nonce. */
  lemma GrantIsExclusive(t: Table, now: int, ev: Event, n: nat, evs: seq<Event>)
    requires Inv(t, now) && ValidRun(t, now, [ev] + evs)
    requires (ev.Reserve? || ev.Sync?) && Committed(t, ev) == Some(n)
    requires forall i | 0 <= i < |evs| ::
               !ResolvesExec(evs[i], ev.exec) && evs[i].at <= ev.at + (2 * 60 + 5) * 1_000_000
    ensures ValidRun(Step(t, ev), ev.at, evs)
    ensures forall i | 0 <= i < |evs| ::
              !Hands(TableAt(Step(t, ev), ev.at, evs, i), evs[i], ev.sender, n)
    ensures forall i, e | 0 <= i <= |evs| && e != ev.exec ::
              var u := TableAt(Step(t, ev), ev.at, evs, i);
              Existing(u, e).Some? ==>
                u[Existing(u, e).value].sender != ev.sender || u[Existing(u, e).value].nonce != n
  {
    assert ([ev] + evs)[1..] == evs;
    InvStep(t, now, ev);
    var k := Key(ev.exec, MaxRev(t, ev.exec) + 1);
    LeaseRun(Step(t, ev), ev.at, evs, k);
  }

  // ---- two holders of one nonce --------------------------------------------

  lemma {:induction false} StepAt(t: Table, now: int, evs: seq<Event>, i: nat)
    requires ValidRun(t, now, evs) && i < |evs|
    ensures Enabled(TableAt(t, now, evs, i), evs[i])
    ensures TableAt(t, now, evs, i + 1) == Step(TableAt(t, now, evs, i), evs[i])
    decreases evs
  {
    if i > 0 { StepAt(Step(t, evs[0]), evs[0].at, evs[1..], i - 1); }
  }

  lemma {:induction false} UniqueAt(t: Table, now: int, evs: seq<Event>, i: nat)
    requires Inv(t, now) && ValidRun(t, now, evs) && i <= |evs|
    ensures UniqueActive(TableAt(t, now, evs, i))
    decreases evs
  {
    if i > 0 {
      InvStep(t, now, evs[0]);
      UniqueAt(Step(t, evs[0]), evs[0].at, evs[1..], i - 1);
    }
  }

  lemma {:induction false} AuditAt(t: Table, now: int, evs: seq<Event>, i: nat, j: nat)
    requires ValidRun(t, now, evs) && i <= j <= |evs|
    ensures Audited(TableAt(t, now, evs, i), TableAt(t, now, evs, j))
    decreases j
  {
    if i < j {
      AuditAt(t, now, evs, i, j - 1);
      StepAt(t, now, evs, j - 1);
      AuditStep(TableAt(t, now, evs, j - 1), evs[j - 1]);
    }
  }

  /** The m-th statement ends the reservation at `k` without finalizing it: its execution
      releases or consumes it, or the sweeper finds it older than 2 min 5 s. */
  ghost predicate GivesUp(t: Table, now: int, evs: seq<Event>, m: int, k: Key)
    requires ValidRun(t, now, evs)
  {
    0 <= m < |evs| &&
    var a, b := TableAt(t, now, evs, m), TableAt(t, now, evs, m + 1);
    && k in a && a[k].state == Reserved && k in b && (b[k].state == Released || b[k].state == Consumed)
    && (evs[m] == Resolve(evs[m].at, k.exec, b[k].state)
        || (evs[m].Sweep? && k in evs[m].keys && a[k].updatedAt < evs[m].at - SWEEP_AGE))
  }

  /** Only these statements take a row out of the reserved state. */
  lemma ReservedEnds(t: Table, ev: Event, k: Key)
    requires Enabled(t, ev) && k in t && t[k].state == Reserved
    ensures k in Step(t, ev)
    ensures var st := Step(t, ev)[k].state;
            st == Reserved || ev == Resolve(ev.at, k.exec, st)
            || (st == Released && ev.Sweep? && k in ev.keys && t[k].updatedAt < ev.at - SWEEP_AGE)
  {
    match ev
    case Reserve(_, _, e, _) => FreshKey(t, e);
    case Sync(_, _, e, _) => FreshKey(t, e);
    case _ =>
  }

  lemma {:induction false} GivenUpBetween(t: Table, now: int, evs: seq<Event>, i: nat, j: nat, k: Key) returns (m: nat)
    requires ValidRun(t, now, evs) && i <= j <= |evs|
    requires k in TableAt(t, now, evs, i) && TableAt(t, now, evs, i)[k].state == Reserved
    requires k in TableAt(t, now, evs, j) && !Active(TableAt(t, now, evs, j)[k])
    ensures i <= m < j && GivesUp(t, now, evs, m, k)
    decreases j - i
  {
    StepAt(t, now, evs, i);
    ReservedEnds(TableAt(t, now, evs, i), evs[i], k);
    if TableAt(t, now, evs, i + 1)[k].state == Reserved {
      m := GivenUpBetween(t, now, evs, i + 1, j, k);
    } else {
      m := i;
      AuditAt(t, now, evs, i + 1, j);
    }
  }

  /** When two rows hold the same nonce of a sender at two moments of a run, the first was
      given up in between: released or consumed by its execution, or swept when too old. */
  lemma NonceHeldTwice(t: Table, now: int, evs: seq<Event>, i: nat, j: nat, k: Key, l: Key) returns (m: nat)
    requires Inv(t, now) && ValidRun(t, now, evs) && i <= j <= |evs| && k != l
    requires var a := TableAt(t, now, evs, i); k in a && a[k].state == Reserved
    requires var b := TableAt(t, now, evs, j); l in b && b[l].state == Reserved
    requires var a, b := TableAt(t, now, evs, i), TableAt(t, now, evs, j);
             a[k].sender == b[l].sender && a[k].nonce == b[l].nonce
    ensures i <= m < j && GivesUp(t, now, evs, m, k)
  {
    AuditAt(t, now, evs, i, j);
    UniqueAt(t, now, evs, j);
    m := GivenUpBetween(t, now, evs, i, j, k);
  }

  // ---- idempotent reserve, exact sync --------------------------------------

  /** `e`'s latest row is a reserved one at `k`. */
  ghost predicate Holds(t: Table, e: ExecutionId, k: Key) {
    k in t && k.exec == e && k.rev == MaxRev(t, e) && t[k].state == Reserved
  }

  predicate AsksFor(ev: Event, e: ExecutionId) {
    (ev.Reserve? || ev.Sync?) && ev.exec == e
  }

  lemma HoldsStep(t: Table, now: int, ev: Event, e: ExecutionId, k: Key)
    requires Inv(t, now) && Enabled(t, ev) && now <= ev.at && Holds(t, e, k)
    requires !ResolvesExec(ev, e) && ev.at < t[k].updatedAt + RESERVE_LEASE
    ensures Holds(Step(t, ev), e, k) && Step(t, ev)[k] == t[k]
    ensures AsksFor(ev, e) ==> Committed(t, ev) == None
  {
    LeaseStep(t, now, ev, k);
    assert AsksFor(ev, e) ==> Held(t, ev.at, e, RESERVE_LEASE) && Held(t, ev.at, e, SYNC_LEASE);
    assert forall j | j in Step(t, ev) && j.exec == e :: j in t;
  }

  /** `e` still has exactly the row at `k` for its latest, and is told that row's nonce. */
  ghost predicate ToldAgain(t: Table, e: ExecutionId, k: Key, u: Table)
    requires k in t
  {
    Holds(u, e, k) && u[k] == t[k] && forall err :: Reply(Guarded, u, e, err) == Ok(t[k].nonce)
  }

  /** A statement of `e` that inserts nothing. */
  ghost predicate AddsNothing(t: Table, ev: Event, e: ExecutionId) {
    AsksFor(ev, e) ==> Enabled(t, ev) && Committed(t, ev) == None
  }

  lemma HoldsIsTold(t: Table, e: ExecutionId, k: Key, u: Table)
    requires k in t && Holds(u, e, k) && u[k] == t[k]
    ensures ToldAgain(t, e, k, u)
  {
    assert Existing(u, e) == Some(k);
  }

  /** Within two minutes of getting its nonce, an unresolved execution that asks again
      adds no row, and whenever its second statement runs, it is told the same nonce. */
  lemma {:induction false} ReserveIsIdempotent(
      t: Table, now: int, evs: seq<Event>, e: ExecutionId, k: Key)
    requires Inv(t, now) && ValidRun(t, now, evs) && Holds(t, e, k)
    requires forall i | 0 <= i < |evs| ::
               !ResolvesExec(evs[i], e) && evs[i].at < t[k].updatedAt + 2 * 60 * 1_000_000
    ensures forall i | 0 <= i <= |evs| :: ToldAgain(t, e, k, TableAt(t, now, evs, i))
    ensures forall i | 0 <= i < |evs| :: AddsNothing(TableAt(t, now, evs, i), evs[i], e)
    decreases evs
  {
    HoldsIsTold(t, e, k, t);
    if evs != [] {
      var u := Step(t, evs[0]);
      HoldsStep(t, now, evs[0], e, k);
      InvStep(t, now, evs[0]);
      ReserveIsIdempotent(u, evs[0].at, evs[1..], e, k);
      forall i | 0 < i <= |evs|
        ensures ToldAgain(t, e, k, TableAt(t, now, evs, i))
        ensures i < |evs| ==> AddsNothing(TableAt(t, now, evs, i), evs[i], e)
      {
        assert TableAt(t, now, evs, i) == TableAt(u, evs[0].at, evs[1..], i - 1);
        assert ToldAgain(u, e, k, TableAt(u, evs[0].at, evs[1..], i - 1));
      }
    }
  }

  ghost predicate Idle(t: Table, e: ExecutionId) {
    forall k | k in t && k.exec == e :: !Active(t[k])
  }

  /** Consuming the only active row of an execution leaves it idle, and others keep it so. */
  lemma {:induction false} IdleRun(t: Table, now: int, evs: seq<Event>, e: ExecutionId)
    requires ValidRun(t, now, evs) && Idle(t, e)
    requires forall i | 0 <= i < |evs| :: !AsksFor(evs[i], e)
    ensures Idle(Run(t, now, evs), e)
    decreases evs
  {
    if evs != [] {
      var u := Step(t, evs[0]);
      AuditStep(t, evs[0]);
      assert forall k | k in u && k.exec == e :: k in t;
      IdleRun(u, evs[0].at, evs[1..], e);
    }
  }

  /** Sync after a successful consume: the reply is the on-chain nonce or an error,
      whatever other executions commit before and between its two statements. */
  lemma SyncIsExact(t: Table, now: int, k: Key, at: int, before: seq<Event>, sync: Event, between: seq<Event>)
    requires Inv(t, now) && k in t && t[k].state == Reserved
    requires forall j | j in t && j.exec == k.exec && Active(t[j]) :: j == k
    requires sync.Sync? && sync.exec == k.exec
    requires ValidRun(t, now, [Resolve(at, k.exec, Consumed)] + before)
    requires forall i | 0 <= i < |before| :: !AsksFor(before[i], k.exec)
    requires forall i | 0 <= i < |between| :: !AsksFor(between[i], k.exec)
    ensures var t1 := ResolveTable(t, at, k.exec, Consumed);
            ValidRun(t1, at, before) &&
            var t2 := Run(t1, at, before);
            var o := SyncOutcome(t2, sync.at, sync.sender, k.exec, sync.onChain);
            ValidRun(Step(t2, sync), sync.at, between) ==>
              var seen := Run(Step(t2, sync), sync.at, between);
              Reply(o, seen, k.exec, Rejected) in
                {Ok(sync.onChain), Err(Rejected), Err(DatabaseError)}
  {
    var r := Resolve(at, k.exec, Consumed);
    assert ([r] + before)[1..] == before;
    var t1 := Step(t, r);
    assert Target(t, k.exec) == Some(k);
    IdleRun(t1, at, before, k.exec);
    var t2 := Run(t1, at, before);
    if SyncOutcome(t2, sync.at, sync.sender, k.exec, sync.onChain).Guarded?
       && ValidRun(Step(t2, sync), sync.at, between) {
      IdleRun(t2, sync.at, between, k.exec);
    }
  }

  // ---- the sweeper ---------------------------------------------------------

  ghost function StaleKeys(t: Table, at: int): set<Key> {
    set k | k in t && Stale(t, at, k)
  }

  lemma StaleHasHead(t: Table, at: int, k: Key) returns (head: Key)
    requires k in t && Stale(t, at, k)
    ensures StaleHead(t, at, head) && head.exec == k.exec
  {
    head := Latest(t, k.exec, (r: Row) => r.state == Reserved && r.updatedAt < at - SWEEP_AGE).value;
  }

  /** One tick releases stale rows and nothing else, and at least one if there is any. */
  lemma SweepShrinks(t: Table, at: int, keys: set<Key>)
    requires SweepPick(t, at, keys)
    ensures StaleKeys(SweepTable(t, at, keys), at) == StaleKeys(t, at) - keys
    ensures keys <= StaleKeys(t, at)
    ensures StaleKeys(t, at) != {} ==> keys != {}
  {
    var u := SweepTable(t, at, keys);
    forall k | k in t ensures k in StaleKeys(u, at) <==> k in StaleKeys(t, at) && k !in keys {
      assert u[k] == if k in keys then t[k].(state := Released, updatedAt := at) else t[k];
    }
    if StaleKeys(t, at) != {} {
      var head := StaleHasHead(t, at, Pick(StaleKeys(t, at)));
    }
  }

  /** The tick comes to the execution, or it is a full one of lower executions. */
  predicate Reaches(keys: set<Key>, e: ExecutionId) {
    (exists k | k in keys :: k.exec == e) || (|keys| == 100 && forall k | k in keys :: k.exec < e)
  }

  /** A tick releases reservations older than 2 min 5 s only, of a hundred executions at most; an
      execution with such a row is left out only after a hundred lower ones. */
  lemma SweepIsFirstHundred(t: Table, at: int, keys: set<Key>)
    requires SweepPick(t, at, keys)
    ensures |keys| <= 100
    ensures forall k | k in keys ::
              k in t && t[k].state == Reserved && t[k].updatedAt < at - (2 * 60 + 5) * 1_000_000
    ensures forall k | k in t && t[k].state == Reserved && t[k].updatedAt < at - (2 * 60 + 5) * 1_000_000 ::
              Reaches(keys, k.exec)
  {
    forall k | k in t && t[k].state == Reserved && t[k].updatedAt < at - (2 * 60 + 5) * 1_000_000
      ensures Reaches(keys, k.exec)
    {
      assert Stale(t, at, k);
      var head := StaleHasHead(t, at, k);
      if head !in keys { assert |keys| == SWEEP_LIMIT; }
    }
  }

  /** No row goes stale during the run, and its sweeps are the sweeper's own. */
  ghost predicate Quiet(t: Table, now: int, evs: seq<Event>)
    requires ValidRun(t, now, evs)
    decreases evs
  {
    evs == [] ||
    (&& StaleKeys(t, evs[0].at) <= StaleKeys(t, now)
     && (evs[0].Sweep? ==> SweepPick(t, evs[0].at, evs[0].keys))
     && Quiet(Step(t, evs[0]), evs[0].at, evs[1..]))
  }

  function Ticks(evs: seq<Event>): nat {
    if evs == [] then 0 else (if evs[0].Sweep? then 1 else 0) + Ticks(evs[1..])
  }

  lemma StaleStep(t: Table, ev: Event)
    requires Enabled(t, ev)
    ensures StaleKeys(Step(t, ev), ev.at) <= StaleKeys(t, ev.at)
  {
    AuditStep(t, ev);
    var u := Step(t, ev);
    forall k | k in StaleKeys(u, ev.at) ensures k in StaleKeys(t, ev.at) {
      assert k in t && u[k] == t[k];
    }
  }

  /** With as many ticks as stale rows, and none going stale meanwhile, none is left,
      whatever else is committed between the ticks. */
  lemma {:induction false} SweeperDrains(t: Table, now: int, evs: seq<Event>)
    requires ValidRun(t, now, evs) && Quiet(t, now, evs)
    ensures |StaleKeys(Run(t, now, evs), Clock(now, evs))| + Ticks(evs) <= |StaleKeys(t, now)|
            || StaleKeys(Run(t, now, evs), Clock(now, evs)) == {}
    decreases evs
  {
    if evs != [] {
      var u, at := Step(t, evs[0]), evs[0].at;
      StaleStep(t, evs[0]);
      SubsetSize(StaleKeys(t, at), StaleKeys(t, now));
      SubsetSize(StaleKeys(u, at), StaleKeys(t, at));
      if evs[0].Sweep? { SweepShrinks(t, at, evs[0].keys); }
      SweeperDrains(u, at, evs[1..]);
    }
  }

  lemma SubsetSize<T>(a: set<T>, b: set<T>)
    requires a <= b
    ensures |a| <= |b|
    ensures a != b ==> |a| < |b|
  {
    assert b == a + (b - a);
  }
}
