/** The nonce actor and the sweeper bot as programs over the ledger table. Every call says
    which ledger statements it and others committed, so what is proved of runs holds of it. */
module NonceActor {
  import opened Types
  import opened Revisions
  import opened Ledger
  import opened LedgerInvariants
  import opened LedgerReplies
  import opened Channels

  // ---- runs in two halves --------------------------------------------------

  lemma ClockAppend(now: int, a: seq<Event>, b: seq<Event>)
    ensures Clock(now, a + b) == Clock(Clock(now, a), b)
    ensures a != [] ==> Clock(now, a) == Clock(a[0].at, a[1..])
  {
  }

  lemma {:induction false} ValidAppend(t: Table, now: int, a: seq<Event>, b: seq<Event>)
    requires ValidRun(t, now, a) && ValidRun(Run(t, now, a), Clock(now, a), b)
    ensures ValidRun(t, now, a + b)
    decreases a
  {
    if a == [] {
      assert a + b == b;
    } else {
      ClockAppend(now, a, b);
      ValidAppend(Step(t, a[0]), a[0].at, a[1..], b);
      assert (a + b)[1..] == a[1..] + b;
    }
  }

  lemma {:induction false} TableAppend(t: Table, now: int, a: seq<Event>, b: seq<Event>)
    requires ValidRun(t, now, a) && ValidRun(Run(t, now, a), Clock(now, a), b) && ValidRun(t, now, a + b)
    ensures Run(t, now, a + b) == Run(Run(t, now, a), Clock(now, a), b)
    decreases a
  {
    if a == [] {
      assert a + b == b;
    } else {
      ClockAppend(now, a, b);
      assert (a + b)[1..] == a[1..] + b;
      TableAppend(Step(t, a[0]), a[0].at, a[1..], b);
    }
  }

  lemma RunAppend(t: Table, now: int, a: seq<Event>, b: seq<Event>)
    requires ValidRun(t, now, a) && ValidRun(Run(t, now, a), Clock(now, a), b)
    ensures ValidRun(t, now, a + b) && Run(t, now, a + b) == Run(Run(t, now, a), Clock(now, a), b)
    ensures Clock(now, a + b) == Clock(Clock(now, a), b)
  {
    ValidAppend(t, now, a, b);
    TableAppend(t, now, a, b);
    ClockAppend(now, a, b);
  }

  /** The table before the i-th statement is what the statements before it lead to. */
  lemma {:induction false} TablePrefix(t: Table, now: int, evs: seq<Event>, i: nat)
    requires ValidRun(t, now, evs) && i <= |evs|
    ensures ValidRun(t, now, evs[..i]) && Run(t, now, evs[..i]) == TableAt(t, now, evs, i)
    decreases evs
  {
    if i == 0 {
      assert evs[..0] == [];
    } else {
      TablePrefix(Step(t, evs[0]), evs[0].at, evs[1..], i - 1);
      assert evs[..i][1..] == evs[1..][..i - 1];
    }
  }

  lemma AppendOne(t: Table, now: int, evs: seq<Event>, ev: Event)
    requires ValidRun(t, now, evs) && Enabled(Run(t, now, evs), ev) && Clock(now, evs) <= ev.at
    ensures ValidRun(t, now, evs + [ev])
    ensures Run(t, now, evs + [ev]) == Step(Run(t, now, evs), ev) && Clock(now, evs + [ev]) == ev.at
  {
    var u := Run(t, now, evs);
    assert [ev][1..] == [] && ValidRun(Step(u, ev), ev.at, []);
    assert ValidRun(u, Clock(now, evs), [ev]);
    RunAppend(t, now, evs, [ev]);
  }

  /** Nonces fit a BIGINT. */
  ghost predicate Bounded(t: Table) {
    forall k | k in t :: t[k].nonce <= I64_MAX
  }

  lemma BoundedStep(t: Table, ev: Event)
    requires Bounded(t) && Enabled(t, ev)
    ensures Bounded(Step(t, ev))
  {
  }

  lemma ValidStep(t: Table, now: int, ev: Event)
    requires Inv(t, now) && Bounded(t) && Enabled(t, ev) && now <= ev.at
    ensures Inv(Step(t, ev), ev.at) && Bounded(Step(t, ev))
  {
    InvStep(t, now, ev);
    BoundedStep(t, ev);
  }

  // ---- what other connections leave alone ----------------------------------

  predicate Concerns(ev: Event, e: ExecutionId) {
    AsksFor(ev, e) || ResolvesExec(ev, e)
  }

  predicate Sweeps(ev: Event, e: ExecutionId) {
    ev.Sweep? && exists k | k in ev.keys :: k.exec == e
  }

  predicate NoneConcerns(evs: seq<Event>, e: ExecutionId) {
    forall i | 0 <= i < |evs| :: !Concerns(evs[i], e)
  }

  predicate NoneSweeps(evs: seq<Event>, e: ExecutionId) {
    forall i | 0 <= i < |evs| :: !Sweeps(evs[i], e)
  }

  /** From `t` to `u` no row of `e` came, and none but released ones changed. */
  ghost predicate Undisturbed(t: Table, u: Table, e: ExecutionId) {
    forall k: Key | k.exec == e ::
      && (k in u <==> k in t)
      && (k in t && t[k].state != Released ==> u[k] == t[k])
      && (k in t && t[k].state == Released ==>
            u[k].sender == t[k].sender && u[k].nonce == t[k].nonce && Leads(Released, u[k].state))
  }

  lemma UndisturbedStep(t: Table, ev: Event, e: ExecutionId)
    requires Enabled(t, ev) && !Concerns(ev, e) && !Sweeps(ev, e)
    ensures Undisturbed(t, Step(t, ev), e)
  {
    AuditStep(t, ev);
  }

  lemma {:induction false} UndisturbedRun(t: Table, now: int, evs: seq<Event>, e: ExecutionId)
    requires ValidRun(t, now, evs) && NoneConcerns(evs, e) && NoneSweeps(evs, e)
    ensures Undisturbed(t, Run(t, now, evs), e)
    decreases evs
  {
    if evs != [] {
      assert !Concerns(evs[0], e) && !Sweeps(evs[0], e);
      UndisturbedStep(t, evs[0], e);
      UndisturbedRun(Step(t, evs[0]), evs[0].at, evs[1..], e);
    }
  }

  /** The reply `n` is the nonce `ev` inserted, or that of the latest active row in `u`. */
  ghost predicate Tells(t: Table, ev: Event, u: Table, e: ExecutionId, n: nat) {
    && Enabled(t, ev) && AsksFor(ev, e)
    && ((Committed(t, ev) == Some(n) && u == Step(t, ev))
        || (Existing(u, e).Some? && u[Existing(u, e).value].nonce == n))
  }

  // ---- every subquery has a result -----------------------------------------

  lemma PickExists(t: Table, s: Sender) returns (pick: Option<Key>)
    ensures PickOk(t, s, pick)
  {
    var released := set k | k in t && IsReleased(t, s, k);
    if released == {} {
      pick := None;
      assert forall k | k in t :: k in released <==> IsReleased(t, s, k);
    } else {
      var any := Pick(released);
      var negated := set k | k in released :: -(t[k].nonce as int);
      var low := -MaxOf(negated, -(t[any].nonce as int));
      assert forall k | k in released :: -(t[k].nonce as int) in negated;
      assert exists k :: k in released && t[k].nonce == low;
      var revs := set k | k in released && t[k].nonce == low :: k.rev as int;
      assert forall k | k in released && t[k].nonce == low :: (k.rev as int) in revs;
      var top := MaxOf(revs, -1);
      var p :| p in released && t[p].nonce == low && p.rev == top;
      pick := Some(p);
      assert forall k | k in t && IsReleased(t, s, k) :: k in released;
    }
  }

  lemma TopRevExists(t: Table, e: ExecutionId, p: Row -> bool)
    requires exists k :: k in t && k.exec == e && p(t[k])
    ensures exists k :: k in t && k.exec == e && p(t[k])
                        && forall j | j in t && j.exec == e && p(t[j]) :: j.rev <= k.rev
  {
    var found := Latest(t, e, p);
    var w :| w in t && w.exec == e && p(t[w]);
    assert found.Some?;
    var k := found.value;
    assert k in t && k.exec == e && p(t[k]);
  }

  /** The execution with the smallest identifier among some keys. */
  lemma LowestExists(keys: set<Key>)
    requires keys != {}
    ensures exists k :: k in keys && forall j | j in keys :: k.exec <= j.exec
  {
    var execs := set k | k in keys :: -(k.exec as int);
    var any := Pick(keys);
    var low := MaxOf(execs, -(any.exec as int));
    assert forall k | k in keys :: -(k.exec as int) in execs;
    var k :| k in keys && -(k.exec as int) == low;
    assert forall j | j in keys :: k.exec <= j.exec;
  }

  /** Two stale heads of one execution are the same row. */
  lemma HeadsDiffer(t: Table, at: int, j: Key, k: Key)
    requires StaleHead(t, at, j) && StaleHead(t, at, k) && j.exec == k.exec
    ensures j == k
  {
  }

  lemma {:induction false} AsManyExecs(keys: set<Key>)
    requires forall j, k | j in keys && k in keys && j.exec == k.exec :: j == k
    ensures |set k | k in keys :: k.exec| == |keys|
  {
    if keys != {} {
      var k := Pick(keys);
      AsManyExecs(keys - {k});
      assert (set j | j in keys :: j.exec) == (set j | j in keys - {k} :: j.exec) + {k.exec};
    }
  }

  /** ORDER BY execution_id LIMIT n over keys of distinct executions. */
  method TakeLowest(heads: set<Key>, limit: nat) returns (keys: set<Key>)
    requires forall j, k | j in heads && k in heads && j.exec == k.exec :: j == k
    ensures keys <= heads && |keys| <= limit
    ensures forall k | k in heads && k !in keys :: |keys| == limit && forall j | j in keys :: j.exec < k.exec
  {
    var rest := heads;
    keys := {};
    while rest != {} && |keys| < limit
      invariant rest <= heads && keys == heads - rest && |keys| <= limit
      invariant forall j, k | j in keys && k in rest :: j.exec < k.exec
      decreases |rest|
    {
      LowestExists(rest);
      var k :| k in rest && forall j | j in rest :: k.exec <= j.exec;
      assert heads - (rest - {k}) == keys + {k};
      rest, keys := rest - {k}, keys + {k};
    }
  }

  // ---- what a command does -------------------------------------------------

  /** `evs` is at most the statement of a reserve, then statements of others, and `r` is the
      reply, as the database lets the two statements through. */
  ghost predicate ReserveServed(t: Table, u: Table, s: Sender, e: ExecutionId, at: int, first: Db, second: Db,
                                r: Result<nat, LocalError>, evs: seq<Event>)
  {
    if s.chain > I64_MAX then evs == [] && r == Err(Invariant)
    else if first.Down? then evs == [] && r == Err(DatabaseError)
    else
      && evs != [] && evs[0].Reserve? && evs[0] == Reserve(at, s, e, evs[0].pick) && Enabled(t, evs[0])
      && var o := ReserveOutcome(t, at, s, e, evs[0].pick);
         && (!o.Guarded? || first.Lost? ==> |evs| == 1)
         && r == if first.Lost? || (o.Guarded? && !second.Up?) then Err(DatabaseError)
                 else Reply(o, u, e, DatabaseError)
  }

  ghost predicate SyncServed(t: Table, u: Table, s: Sender, e: ExecutionId, onChain: nat, at: int,
                             first: Db, second: Db, r: Result<nat, LocalError>, evs: seq<Event>)
  {
    if s.chain > I64_MAX || onChain > I64_MAX then evs == [] && r == Err(Invariant)
    else if first.Down? then evs == [] && r == Err(DatabaseError)
    else
      && evs != [] && evs[0] == Sync(at, s, e, onChain)
      && var o := SyncOutcome(t, at, s, e, onChain);
         && (!o.Guarded? || first.Lost? ==> |evs| == 1)
         && r == if first.Lost? || (o.Guarded? && !second.Up?) then Err(DatabaseError)
                 else Reply(o, u, e, Rejected)
  }

  ghost predicate ResolveServed(t: Table, u: Table, e: ExecutionId, to: NonceState, at: int, first: Db, second: Db,
                                r: Result<(), LocalError>, evs: seq<Event>)
  {
    if to == Reserved then evs == [] && r == Err(Internal)
    else if first.Down? then evs == [] && r == Err(DatabaseError)
    else
      && evs != [] && evs[0] == Resolve(at, e, to)
      && var hit := Target(t, e).Some?;
         && (hit || first.Lost? ==> |evs| == 1)
         && r == if first.Lost? || (!hit && !second.Up?) then Err(DatabaseError)
                 else ResolveReply(hit, u, e, to)
  }

  /** A sync whose statements run, for an execution without an active row: what it is told depends
      on the rows that carry the on-chain nonce when its first statement runs. */
  lemma SyncCallTells(t: Table, now: int, s: Sender, e: ExecutionId, onChain: nat, at: int,
                      r: Result<nat, LocalError>, evs: seq<Event>)
    requires s.chain <= I64_MAX && onChain <= I64_MAX && Idle(t, e) && ValidRun(t, now, evs)
    requires SyncServed(t, Run(t, now, evs), s, e, onChain, at, Up, Up, r, evs) && NoneConcerns(evs[1..], e)
    ensures SyncTells(t, at, s, e, onChain, r)
  {
    var rest := evs[1..];
    forall i | 0 <= i < |rest| ensures !AsksFor(rest[i], e) { assert !Concerns(rest[i], e); }
    SyncIsTold(t, at, s, e, onChain, rest);
  }

  /** A resolve whose statements run. */
  lemma ResolveCallTells(t: Table, now: int, e: ExecutionId, to: NonceState, at: int,
                         r: Result<(), LocalError>, evs: seq<Event>)
    requires to != Reserved && ValidRun(t, now, evs)
    requires ResolveServed(t, Run(t, now, evs), e, to, at, Up, Up, r, evs) && NoneConcerns(evs[1..], e)
    ensures ResolveTells(t, Run(t, now, evs), e, to, r)
  {
    var rest := evs[1..];
    forall i | 0 <= i < |rest| ensures !AsksFor(rest[i], e) { assert !Concerns(rest[i], e); }
    ResolveIsTold(t, at, e, to, rest);
  }

  class NonceEngine {
    var table: Table
    var now: int
    /** The handle's channel, its requests with what they heard, and the replies served. */
    const fate: nat -> Fate
    var asked: nat
    ghost var heard: seq<Exchange<NonceRequest, NonceReply>>
    ghost var served: seq<Option<NonceReply>>

    /** What the schema and the channel guarantee; the triggers keep callers from unfolding it. */
    ghost predicate Valid()
      reads this
    {
      && (forall t {:trigger Inv(t, now)} | t == table :: Inv(t, now))
      && (forall t {:trigger Bounded(t)} | t == table :: Bounded(t))
      && asked == |heard|
      && (forall xs {:trigger Faithful(xs, served, fate, LostNonce)} | xs == heard ::
            Faithful(xs, served, fate, LostNonce))
    }

    constructor (f: nat -> Fate)
      ensures Valid() && table == map[] && now == 0 && fate == f && heard == []
    {
      table, now, fate, asked, heard, served := map[], 0, f, 0, [], [];
    }

    // ---- atomic statements -------------------------------------------------

    method SelectRelease(s: Sender) returns (pick: Option<Key>)
      ensures PickOk(table, s, pick)
    {
      if exists k | k in table :: IsReleased(table, s, k) {
        ghost var p := PickExists(table, s);
        assert p.Some?;
        assert p.value in table;
        var k :| k in table && PickOk(table, s, Some(k));
        pick := Some(k);
      } else {
        pick := None;
      }
    }

    method SelectMaxNonce(s: Sender) returns (m: int)
      ensures m == MaxNonce(table, s)
    {
      ghost var top := MaxNonce(table, s);
      assert IsMaxNonce(table, s, top);
      if exists k | k in table :: Active(table[k]) && table[k].sender == s {
        var k :| k in table && Active(table[k]) && table[k].sender == s
          && forall j | j in table && Active(table[j]) && table[j].sender == s :: table[j].nonce <= table[k].nonce;
        m := table[k].nonce;
      } else {
        m := -1;
      }
    }

    /** Commits the insert of a reserved row over `base`, or aborts the statement. */
    method InsertReserved(base: Table, s: Sender, e: ExecutionId, n: nat, at: int) returns (o: Outcome)
      modifies `table
      ensures o == InsertOutcome(old(table), s, e, n)
      ensures table == if o.Inserted? then WithRow(old(table), base, s, e, n, at) else old(table)
    {
      var m := SelectMaxRevision(table, e);
      if n > I64_MAX || m + 1 > I64_MAX || !IndexFree(table, s, n) {
        o := Aborted;
      } else {
        table := base[Key(e, m + 1) := Row(s, n, Reserved, at)];
        o := Inserted(n);
      }
    }

    method ReserveStatement(s: Sender, e: ExecutionId, at: int) returns (o: Outcome, ghost ev: Event)
      modifies `table, `now
      ensures now == at
      ensures ev.Reserve? && ev == Reserve(at, s, e, ev.pick) && Enabled(old(table), ev)
      ensures table == Step(old(table), ev) && o == ReserveOutcome(old(table), at, s, e, ev.pick)
    {
      var pick := SelectRelease(s);
      ev := Reserve(at, s, e, pick);
      var base := AfterConsume(table, at, s, pick);
      if Held(table, at, e, RESERVE_LEASE) {
        table, o := base, Guarded;
      } else {
        var m := SelectMaxNonce(s);
        o := InsertReserved(base, s, e, if pick.Some? then table[pick.value].nonce else m + 1, at);
      }
      now := at;
    }

    method SyncStatement(s: Sender, e: ExecutionId, n: nat, at: int) returns (o: Outcome, ghost ev: Event)
      modifies `table, `now
      ensures now == at && ev == Sync(at, s, e, n)
      ensures table == Step(old(table), ev) && o == SyncOutcome(old(table), at, s, e, n)
    {
      ev := Sync(at, s, e, n);
      if Held(table, at, e, SYNC_LEASE) || Taken(table, at, s, n) {
        o := Guarded;
      } else {
        o := InsertReserved(table, s, e, n, at);
      }
      now := at;
    }

    method ResolveStatement(e: ExecutionId, to: NonceState, at: int) returns (hit: bool, ghost ev: Event)
      requires to != Reserved
      modifies `table, `now
      ensures now == at && ev == Resolve(at, e, to)
      ensures table == Step(old(table), ev) && hit == Target(old(table), e).Some?
    {
      ev := Resolve(at, e, to);
      ghost var target := Target(table, e);
      assert IsTarget(table, e, target);
      hit := exists k | k in table :: k.exec == e && table[k].state == Reserved;
      if hit {
        TopRevExists(table, e, (r: Row) => r.state == Reserved);
        var k :| k in table && k.exec == e && table[k].state == Reserved
          && forall j | j in table && j.exec == e && table[j].state == Reserved :: j.rev <= k.rev;
        table := SetState(table, k, to, at);
      }
      now := at;
    }

    /** DISTINCT ON (execution_id) ... ORDER BY execution_id LIMIT 100. */
    method SelectStale(at: int) returns (keys: set<Key>, expired: set<ExecutionId>)
      ensures SweepPick(table, at, keys)
      ensures expired == (set k | k in keys :: k.exec) && |expired| == |keys|
    {
      var heads := set k | k in table && StaleHead(table, at, k);
      forall j, k | j in heads && k in heads && j.exec == k.exec ensures j == k {
        HeadsDiffer(table, at, j, k);
      }
      keys := TakeLowest(heads, SWEEP_LIMIT);
      assert forall k | k in keys :: k in heads;
      expired := set k | k in keys :: k.exec;
      AsManyExecs(keys);
      assert forall k | k in table && StaleHead(table, at, k) && k !in keys :: k in heads;
    }

    /** `expire_states`: release the first 100 stale heads by execution. */
    method ExpireStates(at: int) returns (count: nat, expired: set<ExecutionId>, ghost ev: Event)
      modifies `table, `now
      ensures now == at
      ensures ev.Sweep? && ev.at == at && SweepPick(old(table), at, ev.keys)
      ensures table == Step(old(table), ev)
      ensures count == |ev.keys| == |expired| && expired == set k | k in ev.keys :: k.exec
      ensures StaleKeys(table, at) < StaleKeys(old(table), at) || StaleKeys(old(table), at) == {}
    {
      var keys;
      keys, expired := SelectStale(at);
      count := |keys|;
      ev := Sweep(at, keys);
      SweepShrinks(table, at, keys);
      table := SweepTable(table, at, keys);
      now := at;
    }

    // ---- what other connections do -----------------------------------------

    /** One statement of another execution, or a sweeper tick. */
    method Other(e: ExecutionId) returns (ghost ev: Event)
      requires Valid()
      modifies `table, `now
      ensures Valid() && !Concerns(ev, e)
      ensures Enabled(old(table), ev) && old(now) <= ev.at == now && table == Step(old(table), ev)
    {
      var at: int, other: ExecutionId, kind: int := *, *, *;
      var s: Sender, onChain: nat, to: NonceState := *, *, *;
      at := if at < now then now else at;
      if kind == 0 || other == e {
        var count, expired;
        count, expired, ev := ExpireStates(at);
      } else if kind == 1 {
        var o;
        o, ev := ReserveStatement(s, other, at);
      } else if kind == 2 {
        var o;
        o, ev := SyncStatement(s, other, onChain, at);
      } else {
        var hit;
        hit, ev := ResolveStatement(other, if to == Reserved then Released else to, at);
      }
      ValidStep(old(table), old(now), ev);
    }

    /** Any number of statements that other executions and the sweeper commit before the
        next statement of `e`. */
    method Others(e: ExecutionId) returns (ghost evs: seq<Event>)
      requires Valid()
      modifies `table, `now
      ensures Valid() && NoneConcerns(evs, e)
      ensures ValidRun(old(table), old(now), evs) && table == Run(old(table), old(now), evs)
      ensures now == Clock(old(now), evs) && old(now) <= now
      ensures NoneSweeps(evs, e) ==> Undisturbed(old(table), table, e)
    {
      evs := [];
      var n :| 0 <= n;
      for i := 0 to n
        invariant Valid() && NoneConcerns(evs, e)
        invariant ValidRun(old(table), old(now), evs) && table == Run(old(table), old(now), evs)
        invariant now == Clock(old(now), evs) && old(now) <= now
      {
        ghost var ev := Other(e);
        AppendOne(old(table), old(now), evs, ev);
        evs := evs + [ev];
      }
      if NoneSweeps(evs, e) { UndisturbedRun(old(table), old(now), evs, e); }
    }

    /** The latest active row of an execution, as a second statement reads it. */
    method SelectExisting(e: ExecutionId) returns (found: Option<nat>)
      ensures var k := Existing(table, e);
              found == if k.Some? then Some(table[k.value].nonce) else None
    {
      ghost var f := Existing(table, e);
      assert IsExisting(table, e, f);
      if exists k | k in table :: k.exec == e && Active(table[k]) {
        TopRevExists(table, e, r => Active(r));
        var k :| k in table && k.exec == e && Active(table[k])
          && forall j | j in table && j.exec == e && Active(table[j]) :: j.rev <= k.rev;
        assert f == Some(k);
        found := Some(table[k].nonce);
      } else {
        found := None;
      }
    }

    /** The second statement of a guarded reserve or sync. */
    method ReadExisting(e: ExecutionId, second: Db, missing: LocalError)
      returns (r: Result<nat, LocalError>, ghost evs: seq<Event>)
      requires Valid()
      modifies `table, `now
      ensures Valid() && NoneConcerns(evs, e)
      ensures ValidRun(old(table), old(now), evs) && table == Run(old(table), old(now), evs)
      ensures now == Clock(old(now), evs)
      ensures r == if second.Up? then Reply(Guarded, table, e, missing) else Err(DatabaseError)
    {
      evs := Others(e);
      if !second.Up? { return Err(DatabaseError), evs; }
      var existing := SelectExisting(e);
      r := if existing.Some? then Ok(existing.value) else Err(missing);
    }

    /** The second statement of a resolve that hit nothing. */
    method ReadLatest(e: ExecutionId, to: NonceState, second: Db)
      returns (r: Result<(), LocalError>, ghost evs: seq<Event>)
      requires Valid()
      modifies `table, `now
      ensures Valid() && NoneConcerns(evs, e)
      ensures ValidRun(old(table), old(now), evs) && table == Run(old(table), old(now), evs)
      ensures now == Clock(old(now), evs)
      ensures r == if second.Up? then ResolveReply(false, table, e, to) else Err(DatabaseError)
    {
      evs := Others(e);
      if !second.Up? { return Err(DatabaseError), evs; }
      var m := SelectMaxRevision(table, e);
      if Key(e, m) !in table { return Err(Invariant), evs; }
      var latest := table[Key(e, m)].state;
      r := if latest == to then Ok(()) else if latest == Reserved then Err(Invariant) else Err(Internal);
    }

    // ---- command handlers --------------------------------------------------

    /** What a finished reserve or sync call means: at most its own statement `evs[0]`, then
        statements of others. */
    ghost predicate Called(t0: Table, now0: int, evs: seq<Event>, e: ExecutionId)
      reads this
    {
      && ValidRun(t0, now0, evs) && table == Run(t0, now0, evs) && now == Clock(now0, evs)
      && (evs == [] || NoneConcerns(evs[1..], e))
    }

    lemma OwnThenOthers(t0: Table, now0: int, own: Event, evs: seq<Event>)
      requires Enabled(t0, own) && now0 <= own.at && ValidRun(Step(t0, own), own.at, evs)
      ensures ValidRun(t0, now0, [own] + evs)
      ensures Run(t0, now0, [own] + evs) == Run(Step(t0, own), own.at, evs)
      ensures Clock(now0, [own] + evs) == Clock(own.at, evs)
      ensures ([own] + evs)[1..] == evs
    {
    }

    method HandleReserve(chain: nat, from: Address, e: ExecutionId, at: int, first: Db, second: Db)
      returns (r: Result<nat, LocalError>, ghost evs: seq<Event>)
      requires Valid() && now <= at
      modifies `table, `now
      ensures Valid() && Called(old(table), old(now), evs, e)
      ensures ReserveServed(old(table), table, Sender(chain, from), e, at, first, second, r, evs)
      ensures r.Ok? ==> evs != [] && Tells(old(table), evs[0], table, e, r.value)
    {
      evs := [];
      if chain > I64_MAX { return Err(Invariant), []; }
      if first.Down? { return Err(DatabaseError), []; }
      var o, own := ReserveStatement(Sender(chain, from), e, at);
      ValidStep(old(table), old(now), own);
      OwnThenOthers(old(table), old(now), own, []);
      evs := [own] + [];
      if first.Lost? || o.Aborted? { return Err(DatabaseError), evs; }
      if o.Inserted? { return Ok(o.nonce), evs; }
      ghost var more;
      r, more := ReadExisting(e, second, DatabaseError);
      OwnThenOthers(old(table), old(now), own, more);
      evs := [own] + more;
    }

    method HandleSync(chain: nat, from: Address, e: ExecutionId, onChain: nat, at: int, first: Db, second: Db)
      returns (r: Result<nat, LocalError>, ghost evs: seq<Event>)
      requires Valid() && now <= at
      modifies `table, `now
      ensures Valid() && Called(old(table), old(now), evs, e)
      ensures SyncServed(old(table), table, Sender(chain, from), e, onChain, at, first, second, r, evs)
      ensures r.Ok? ==> evs != [] && Tells(old(table), evs[0], table, e, r.value)
    {
      evs := [];
      if chain > I64_MAX { return Err(Invariant), []; }
      if onChain > I64_MAX { return Err(Invariant), []; }
      if first.Down? { return Err(DatabaseError), []; }
      var o, own := SyncStatement(Sender(chain, from), e, onChain, at);
      ValidStep(old(table), old(now), own);
      OwnThenOthers(old(table), old(now), own, []);
      evs := [own] + [];
      if first.Lost? || o.Aborted? { return Err(DatabaseError), evs; }
      if o.Inserted? { return Ok(o.nonce), evs; }
      ghost var more;
      r, more := ReadExisting(e, second, Rejected);
      OwnThenOthers(old(table), old(now), own, more);
      evs := [own] + more;
    }

    method HandleResolve(e: ExecutionId, to: NonceState, at: int, first: Db, second: Db)
      returns (r: Result<(), LocalError>, ghost evs: seq<Event>)
      requires Valid() && now <= at
      modifies `table, `now
      ensures Valid() && Called(old(table), old(now), evs, e)
      ensures ResolveServed(old(table), table, e, to, at, first, second, r, evs)
    {
      evs := [];
      if to == Reserved { return Err(Internal), []; }
      if first.Down? { return Err(DatabaseError), []; }
      var hit, own := ResolveStatement(e, to, at);
      ValidStep(old(table), old(now), own);
      OwnThenOthers(old(table), old(now), own, []);
      evs := [own] + [];
      if first.Lost? { return Err(DatabaseError), evs; }
      if hit { return Ok(()), evs; }
      ghost var more;
      r, more := ReadLatest(e, to, second);
      OwnThenOthers(old(table), old(now), own, more);
      evs := [own] + more;
    }

    // ---- the handle --------------------------------------------------------

    /** The next request has been made. */
    method NoteExchange(ghost x: Exchange<NonceRequest, NonceReply>, ghost reply: Option<NonceReply>)
      requires Valid() && Fair(x, reply, fate(asked), LostNonce)
      modifies `asked, `heard, `served
      ensures Valid() && heard == old(heard) + [x] && served == old(served) + [reply]
    {
      FaithfulMore(heard, served, fate, LostNonce, x, reply);
      asked, heard, served := asked + 1, heard + [x], served + [reply];
    }

    method SendReserve(chain: nat, from: Address, e: ExecutionId, at: int, first: Db, second: Db)
      returns (r: Result<nat, LocalError>, ghost evs: seq<Event>, ghost reply: Result<nat, LocalError>)
      requires Valid() && now <= at
      modifies this
      ensures Valid() && Called(old(table), old(now), evs, e)
      ensures if fate(old(asked)).Undelivered? then evs == []
              else ReserveServed(old(table), table, Sender(chain, from), e, at, first, second, reply, evs)
      ensures r == Hear(fate(old(asked)), reply, Err(Internal))
      ensures r.Ok? ==> evs != [] && Tells(old(table), evs[0], table, e, r.value)
      ensures heard == old(heard) + [Exchange(e, AskReserve, OfNonce(r))]
    {
      var f := fate(asked);
      r, evs, reply := Err(Internal), [], Err(Internal);
      if f.Undelivered? {
        NoteExchange(Exchange(e, AskReserve, OfNonce(r)), None);
        return;
      }
      r, evs := HandleReserve(chain, from, e, at, first, second);
      reply := r;
      r := Hear(f, r, Err(Internal));
      NoteExchange(Exchange(e, AskReserve, OfNonce(r)), Some(OfNonce(reply)));
    }

    method SendSync(chain: nat, from: Address, e: ExecutionId, onChain: nat, at: int, first: Db, second: Db)
      returns (r: Result<nat, LocalError>, ghost evs: seq<Event>, ghost reply: Result<nat, LocalError>)
      requires Valid() && now <= at
      modifies this
      ensures Valid() && Called(old(table), old(now), evs, e)
      ensures if fate(old(asked)).Undelivered? then evs == []
              else SyncServed(old(table), table, Sender(chain, from), e, onChain, at, first, second, reply, evs)
      ensures r == Hear(fate(old(asked)), reply, Err(Internal))
      ensures r.Ok? ==> evs != [] && Tells(old(table), evs[0], table, e, r.value)
      ensures heard == old(heard) + [Exchange(e, AskSync(onChain), OfNonce(r))]
    {
      var f := fate(asked);
      r, evs, reply := Err(Internal), [], Err(Internal);
      if f.Undelivered? {
        NoteExchange(Exchange(e, AskSync(onChain), OfNonce(r)), None);
        return;
      }
      r, evs := HandleSync(chain, from, e, onChain, at, first, second);
      reply := r;
      r := Hear(f, r, Err(Internal));
      NoteExchange(Exchange(e, AskSync(onChain), OfNonce(r)), Some(OfNonce(reply)));
    }

    method SendResolve(e: ExecutionId, to: NonceState, at: int, first: Db, second: Db)
      returns (r: Result<(), LocalError>, ghost evs: seq<Event>, ghost reply: Result<(), LocalError>)
      requires Valid() && now <= at
      modifies this
      ensures Valid() && Called(old(table), old(now), evs, e)
      ensures if fate(old(asked)).Undelivered? then evs == []
              else ResolveServed(old(table), table, e, to, at, first, second, reply, evs)
      ensures r == Hear(fate(old(asked)), reply, Err(Internal))
      ensures heard == old(heard) + [Exchange(e, AskResolve(to), OfResolve(r))]
    {
      var f := fate(asked);
      r, evs, reply := Err(Internal), [], Err(Internal);
      if f.Undelivered? {
        NoteExchange(Exchange(e, AskResolve(to), OfResolve(r)), None);
        return;
      }
      r, evs := HandleResolve(e, to, at, first, second);
      reply := r;
      r := Hear(f, r, Err(Internal));
      NoteExchange(Exchange(e, AskResolve(to), OfResolve(r)), Some(OfResolve(reply)));
    }
  }
}
