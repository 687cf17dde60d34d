/** Runs the code allows although its documentation suggests otherwise: each lemma
    exhibits one, for any sender, from the empty table. */
module LedgerScenarios {
  import opened Types
  import opened Revisions
  import opened Ledger
  import opened LedgerInvariants
  import opened LedgerAllocation
  import opened Eip1559Wire
  import B = Broadcast
  import LT = LeaseTable
  import V = Validation

  lemma ReserveGives(s: Sender, t: Table, at: int, e: ExecutionId, pick: Option<Key>, rev: nat, n: nat)
    requires PickOk(t, s, pick) && !Held(t, at, e, RESERVE_LEASE) && IsMaxRev(t, e, rev)
    requires if pick.Some? then n == t[pick.value].nonce else IsMaxNonce(t, s, n - 1)
    requires IndexFree(t, s, n) && n < 10 && rev < 10
    ensures var ev := Reserve(at, s, e, pick);
            Committed(t, ev) == Some(n)
            && Step(t, ev) == AfterConsume(t, at, s, pick)[Key(e, rev + 1) := Row(s, n, Reserved, at)]
  {
    assert IsMaxRev(t, e, MaxRev(t, e)) && IsMaxNonce(t, s, MaxNonce(t, s));
  }

  lemma ResolveGives(t: Table, at: int, k: Key, to: NonceState)
    requires IsTarget(t, k.exec, Some(k)) && to != Reserved
    ensures Step(t, Resolve(at, k.exec, to)) == SetState(t, k, to, at)
  {
    assert IsTarget(t, k.exec, Target(t, k.exec));
  }

  lemma Chain(t: Table, now: int, ev: Event, u: Table, rest: seq<Event>)
    requires Enabled(t, ev) && now <= ev.at && u == Step(t, ev) && ValidRun(u, ev.at, rest)
    ensures ValidRun(t, now, [ev] + rest) && Run(t, now, [ev] + rest) == Run(u, ev.at, rest)
    ensures forall i: nat | i <= |rest| :: TableAt(t, now, [ev] + rest, i + 1) == TableAt(u, ev.at, rest, i)
  {
    assert ([ev] + rest)[1..] == rest;
  }

  /** Execution 1 gets nonce 0. */
  lemma First(s: Sender) returns (ev: Event, t: Table)
    ensures ev == Reserve(0, s, 1, None) && t == map[Key(1, 1) := Row(s, 0, Reserved, 0)]
    ensures Enabled(map[], ev) && Step(map[], ev) == t && Committed(map[], ev) == Some(0)
  {
    ev, t := Reserve(0, s, 1, None), map[Key(1, 1) := Row(s, 0, Reserved, 0)];
    ReserveGives(s, map[], 0, 1, None, 0, 0);
  }

  /** Execution 2 then gets nonce 1. */
  lemma Second(s: Sender, t: Table) returns (ev: Event, u: Table)
    requires t == map[Key(1, 1) := Row(s, 0, Reserved, 0)]
    ensures ev == Reserve(1, s, 2, None)
    ensures u == map[Key(1, 1) := Row(s, 0, Reserved, 0), Key(2, 1) := Row(s, 1, Reserved, 1)]
    ensures Enabled(t, ev) && Step(t, ev) == u
  {
    ev := Reserve(1, s, 2, None);
    u := map[Key(1, 1) := Row(s, 0, Reserved, 0), Key(2, 1) := Row(s, 1, Reserved, 1)];
    assert t[Key(1, 1)] == Row(s, 0, Reserved, 0);
    ReserveGives(s, t, 1, 2, None, 0, 1);
  }

  /** Execution 2 asks again within its lease while execution 1's nonce 0 is released. */
  lemma AsksAgain(s: Sender, t: Table, ev: Event, u: Table)
    requires t == map[Key(1, 1) := Row(s, 0, Released, 2), Key(2, 1) := Row(s, 1, Reserved, 1)]
    requires u == map[Key(1, 1) := Row(s, 0, Consumed, 3), Key(2, 1) := Row(s, 1, Reserved, 1)]
    requires ev == Reserve(3, s, 2, Some(Key(1, 1)))
    ensures Enabled(t, ev) && Step(t, ev) == u && Committed(t, ev) == None
    ensures AnswerTo(t, ev) == Nonce(Ok(1))
    ensures !LiveAt(u, s, 0) && LiveAt(u, s, 1) && !GapFree(u)
  {
    assert Key(2, 1) in t && t[Key(2, 1)] == Row(s, 1, Reserved, 1);
    assert Held(t, 3, 2, RESERVE_LEASE);
    assert IsExisting(u, 2, Some(Key(2, 1))) && IsExisting(u, 2, Existing(u, 2));
    assert u[Key(2, 1)] == Row(s, 1, Reserved, 1) && Carries(u[Key(2, 1)], s, 1);
    assert LiveAt(u, s, 1) && !LiveAt(u, s, 0);
    assert !HasNoGap(u, s);
  }

  /** A blocked reserve uses up a released nonce and hands it to nobody: execution 2 asks
      again, is told its own nonce 1, and nonce 0 is gone, a hole below nonce 1. */
  lemma BlockedReserveSpendsNonce(s: Sender) returns (evs: seq<Event>)
    ensures |evs| == 4 && ValidRun(map[], 0, evs) && evs[2] == Resolve(2, 1, Released)
    ensures evs[0].Reserve? && evs[0].exec == 1 && evs[1].Reserve? && evs[1].exec == 2
    ensures evs[3].Reserve? && evs[3].exec == 2
    ensures var t := TableAt(map[], 0, evs, 3);
            Enabled(t, evs[3]) && Committed(t, evs[3]) == None && AnswerTo(t, evs[3]) == Nonce(Ok(1))
    ensures var u := Run(map[], 0, evs); !LiveAt(u, s, 0) && LiveAt(u, s, 1) && !GapFree(u)
  {
    var a, t1 := First(s);
    var b, t2 := Second(s, t1);
    var c, d := Resolve(2, 1, Released), Reserve(3, s, 2, Some(Key(1, 1)));
    var t3 := map[Key(1, 1) := Row(s, 0, Released, 2), Key(2, 1) := Row(s, 1, Reserved, 1)];
    var t4 := map[Key(1, 1) := Row(s, 0, Consumed, 3), Key(2, 1) := Row(s, 1, Reserved, 1)];
    ReleasesFirst(s, t2, t3);
    AsksAgain(s, t3, d, t4);
    Chain(t3, 2, d, t4, []);
    assert TableAt(t3, 2, [d] + [], 0) == t3;
    Chain(t2, 1, c, t3, [d] + []);
    Chain(t1, 0, b, t2, [c] + ([d] + []));
    Chain(map[], 0, a, t1, [b] + ([c] + ([d] + [])));
    evs := [a] + ([b] + ([c] + ([d] + [])));
    assert TableAt(map[], 0, evs, 3) == TableAt(t1, 0, [b] + ([c] + ([d] + [])), 2)
           == TableAt(t2, 1, [c] + ([d] + []), 1) == t3;
  }

  /** A consumed top nonce is issued again: execution 1 consumes nonce 0, and execution 2
      is then given nonce 0. */
  lemma ConsumedTopIsReissued(s: Sender) returns (evs: seq<Event>)
    ensures |evs| == 3 && ValidRun(map[], 0, evs)
    ensures Hands(map[], evs[0], s, 0) && evs[0].exec == 1 && evs[1] == Resolve(1, 1, Consumed)
    ensures evs[2].Reserve? && evs[2].exec == 2 && Hands(TableAt(map[], 0, evs, 2), evs[2], s, 0)
  {
    var a, t1 := First(s);
    var b, c := Resolve(1, 1, Consumed), Reserve(2, s, 2, None);
    var t2 := map[Key(1, 1) := Row(s, 0, Consumed, 1)];
    assert Step(t1, b) == t2 by { ResolveGives(t1, 1, Key(1, 1), Consumed); }
    ReserveGives(s, t2, 2, 2, None, 0, 0);
    Chain(t2, 1, c, Step(t2, c), []);
    assert TableAt(t2, 1, [c] + [], 0) == t2;
    Chain(t1, 0, b, t2, [c] + []);
    Chain(map[], 0, a, t1, [b] + ([c] + []));
    evs := [a] + ([b] + ([c] + []));
    assert TableAt(map[], 0, evs, 2) == TableAt(t1, 0, [b] + ([c] + []), 1) == t2;
  }

  const VALIDATION_TIMEOUT := 300 * SECOND

  /** Execution 1 reserves, is swept 126 s later, and execution 2 reserves. */
  function SweptEvents(s: Sender): seq<Event> {
    [Reserve(0, s, 1, None), Sweep(126 * SECOND, {Key(1, 1)}), Reserve(126 * SECOND + 1, s, 2, Some(Key(1, 1)))]
  }

  /** Execution 2 is given the nonce that was swept. */
  lemma SweptAndReissued(s: Sender)
    ensures var evs := SweptEvents(s);
            && ValidRun(map[], 0, evs) && Hands(map[], evs[0], s, 0)
            && Hands(TableAt(map[], 0, evs, 2), evs[2], s, 0)
  {
    var a, t1 := First(s);
    var at := 126 * SECOND;
    var b, c := Sweep(at, {Key(1, 1)}), Reserve(at + 1, s, 2, Some(Key(1, 1)));
    var t2 := map[Key(1, 1) := Row(s, 0, Released, at)];
    assert t1[Key(1, 1)] == Row(s, 0, Reserved, 0);
    assert Enabled(t1, b) && Step(t1, b) == t2;
    assert t2[Key(1, 1)] == Row(s, 0, Released, at);
    ReserveGives(s, t2, at + 1, 2, Some(Key(1, 1)), 0, 0);
    Chain(t2, at, c, Step(t2, c), []);
    assert TableAt(t2, at, [c] + [], 0) == t2;
    Chain(t1, 0, b, t2, [c] + []);
    Chain(map[], 0, a, t1, [b] + ([c] + []));
    assert SweptEvents(s) == [a] + ([b] + ([c] + []));
    assert TableAt(map[], 0, SweptEvents(s), 2) == TableAt(t1, 0, [b] + ([c] + []), 1) == t2;
  }

  /** Execution 1 broadcasts, is answered Ok and records it, in the first second. */
  function AcceptedSteps(txn: B.Bytes, h: Hash): seq<B.Step> {
    [B.Claim(1, 1), B.Send(Key(1, 1), txn, B.Accepted(h)), B.Record(1, Key(1, 1))]
  }

  lemma Broadcasts(txn: B.Bytes, h: Hash)
    ensures B.ValidRun(B.Init(), AcceptedSteps(txn, h))
    ensures B.Run(B.Init(), AcceptedSteps(txn, h)).sent == [B.Sent(1, txn, B.Accepted(h))]
  {
    var s0, k := B.Init(), Key(1, 1);
    assert IsMaxRev(s0.rows, 1, MaxRev(s0.rows, 1));
    var claim, send, record := B.Claim(1, 1), B.Send(k, txn, B.Accepted(h)), B.Record(1, k);
    var s1 := B.Next(s0, claim);
    assert LT.ClaimOutcome(s0.rows, 1, 1) == LT.Claimed(k) && B.Enabled(s1, send);
    var s2 := B.Next(s1, send);
    assert B.Enabled(s2, record);
    B.RunThen(s2, record, []);
    B.RunThen(s1, send, [record] + []);
    B.RunThen(s0, claim, [send] + ([record] + []));
    assert AcceptedSteps(txn, h) == [claim] + ([send] + ([record] + []));
  }

  /** Execution 1's validation has been asked for and has come to nothing yet. */
  lemma StillValidating(at: int)
    ensures var rows := V.Run(map[], [V.Request(at, 1)]); V.PendingKey(rows, 1).Some? && V.Cached(rows, 1) == None
  {
    V.RunOne(map[], V.Request(at, 1));
    var none: LT.Table<V.Verdict> := map[];
    assert IsMaxRev(none, 1, MaxRev(none, 1));
    var rows := V.Run(map[], [V.Request(at, 1)]);
    assert Key(1, 1) in rows && rows[Key(1, 1)].phase.Pending?;
    assert IsMaxRev(rows, 1, MaxRev(rows, 1));
  }

  /** The sweeper's lease is shorter than validation. Execution 1 reserves nonce 0, has a
      transaction with it answered Ok, and asks for its validation; while that is pending,
      with most of its 300 s left, the nonce is swept, and execution 2 is given it. */
  lemma SweptWhileValidating(s: Sender, txn: B.Bytes, h: Hash, asked: int)
    requires WireNonce(txn) == Some(0) && 1 < asked < 126 * SECOND
    ensures var evs := SweptEvents(s);
            && ValidRun(map[], 0, evs) && evs[2].at < asked + VALIDATION_TIMEOUT
            && Hands(map[], evs[0], s, 0) && Hands(TableAt(map[], 0, evs, 2), evs[2], s, 0)
    ensures B.ValidRun(B.Init(), AcceptedSteps(txn, h))
    ensures B.Run(B.Init(), AcceptedSteps(txn, h)).sent == [B.Sent(1, txn, B.Accepted(h))]
    ensures var rows := V.Run(map[], [V.Request(asked, 1)]); V.PendingKey(rows, 1).Some? && V.Cached(rows, 1) == None
  {
    SweptAndReissued(s);
    Broadcasts(txn, h);
    StillValidating(asked);
  }

  /** From the two reserves: release, consume, sync over the released nonce, finalize. */
  lemma ReleasesFirst(s: Sender, t: Table, u: Table)
    requires t == map[Key(1, 1) := Row(s, 0, Reserved, 0), Key(2, 1) := Row(s, 1, Reserved, 1)]
    requires u == map[Key(1, 1) := Row(s, 0, Released, 2), Key(2, 1) := Row(s, 1, Reserved, 1)]
    ensures Step(t, Resolve(2, 1, Released)) == u
  {
    ResolveGives(t, 2, Key(1, 1), Released);
  }

  lemma ConsumesSecond(s: Sender, t: Table, u: Table)
    requires t == map[Key(1, 1) := Row(s, 0, Released, 2), Key(2, 1) := Row(s, 1, Reserved, 1)]
    requires u == map[Key(1, 1) := Row(s, 0, Released, 2), Key(2, 1) := Row(s, 1, Consumed, 3)]
    ensures Step(t, Resolve(3, 2, Consumed)) == u
  {
    ResolveGives(t, 3, Key(2, 1), Consumed);
  }

  lemma SyncsToZero(s: Sender, t: Table, u: Table)
    requires t == map[Key(1, 1) := Row(s, 0, Released, 2), Key(2, 1) := Row(s, 1, Consumed, 3)]
    requires u == t[Key(2, 2) := Row(s, 0, Reserved, 4)]
    ensures Step(t, Sync(4, s, 2, 0)) == u
  {
    assert IsMaxRev(t, 2, 1) && IsMaxRev(t, 2, MaxRev(t, 2));
  }

  lemma FinalizesZero(s: Sender, t: Table, u: Table)
    requires t == map[Key(1, 1) := Row(s, 0, Released, 2), Key(2, 1) := Row(s, 1, Consumed, 3),
                      Key(2, 2) := Row(s, 0, Reserved, 4)]
    requires u == t[Key(2, 2) := Row(s, 0, Finalized, 5)]
    ensures Step(t, Resolve(5, 2, Finalized)) == u
    ensures Clogged(u, s, 0)
  {
    ResolveGives(t, 5, Key(2, 2), Finalized);
    assert u[Key(1, 1)] == Row(s, 0, Released, 2) && u[Key(2, 2)] == Row(s, 0, Finalized, 5);
    assert Carries(u[Key(1, 1)], s, 0) && Carries(u[Key(2, 2)], s, 0);
  }

  lemma ClogTail(s: Sender, t2: Table) returns (rest: seq<Event>)
    requires t2 == map[Key(1, 1) := Row(s, 0, Reserved, 0), Key(2, 1) := Row(s, 1, Reserved, 1)]
    ensures ValidRun(t2, 1, rest) && Clogged(Run(t2, 1, rest), s, 0)
  {
    var t3 := map[Key(1, 1) := Row(s, 0, Released, 2), Key(2, 1) := Row(s, 1, Reserved, 1)];
    var t4 := map[Key(1, 1) := Row(s, 0, Released, 2), Key(2, 1) := Row(s, 1, Consumed, 3)];
    var t5 := t4[Key(2, 2) := Row(s, 0, Reserved, 4)];
    var t6 := t5[Key(2, 2) := Row(s, 0, Finalized, 5)];
    ReleasesFirst(s, t2, t3);
    ConsumesSecond(s, t3, t4);
    SyncsToZero(s, t4, t5);
    FinalizesZero(s, t5, t6);
    var c, d, f, g := Resolve(2, 1, Released), Resolve(3, 2, Consumed), Sync(4, s, 2, 0), Resolve(5, 2, Finalized);
    Chain(t5, 4, g, t6, []);
    Chain(t4, 3, f, t5, [g] + []);
    Chain(t3, 2, d, t4, [f] + ([g] + []));
    Chain(t2, 1, c, t3, [d] + ([f] + ([g] + [])));
    rest := [c] + ([d] + ([f] + ([g] + [])));
  }

  /** A sender clogs: nonce 0 is released by execution 1, then execution 2 consumes its
      own, syncs to on-chain nonce 0 and finalizes it. */
  lemma SenderClogs(s: Sender) returns (evs: seq<Event>)
    ensures ValidRun(map[], 0, evs) && Clogged(Run(map[], 0, evs), s, 0)
  {
    var a, t1 := First(s);
    var b, t2 := Second(s, t1);
    var rest := ClogTail(s, t2);
    Chain(t1, 0, b, t2, rest);
    Chain(map[], 0, a, t1, [b] + rest);
    evs := [a] + ([b] + rest);
  }

  // ---- a resolve of an older row -------------------------------------------

  /** Execution 1 reserves nonce 0, syncs to nonce 7 after six minutes, and the sweeper releases
      the younger row; then it finalizes. */
  function OlderRowEvents(s: Sender): seq<Event> {
    [Reserve(0, s, 1, None), Sync(360 * SECOND, s, 1, 7), Sweep(490 * SECOND, {Key(1, 2)}),
     Resolve(491 * SECOND, 1, Finalized)]
  }

  lemma SyncsToSeven(s: Sender, t: Table, u: Table)
    requires t == map[Key(1, 1) := Row(s, 0, Reserved, 0)]
    requires u == t[Key(1, 2) := Row(s, 7, Reserved, 360 * SECOND)]
    ensures Step(t, Sync(360 * SECOND, s, 1, 7)) == u
  {
    assert IsMaxRev(t, 1, 1) && IsMaxRev(t, 1, MaxRev(t, 1));
  }

  lemma SweepsYounger(s: Sender, t: Table, u: Table)
    requires t == map[Key(1, 1) := Row(s, 0, Reserved, 0), Key(1, 2) := Row(s, 7, Reserved, 360 * SECOND)]
    requires u == t[Key(1, 2) := Row(s, 7, Released, 490 * SECOND)]
    ensures Enabled(t, Sweep(490 * SECOND, {Key(1, 2)})) && Step(t, Sweep(490 * SECOND, {Key(1, 2)})) == u
  {
    assert t[Key(1, 2)] == Row(s, 7, Reserved, 360 * SECOND);
  }

  lemma FinalizesOlder(s: Sender, t: Table, u: Table)
    requires t == map[Key(1, 1) := Row(s, 0, Reserved, 0), Key(1, 2) := Row(s, 7, Released, 490 * SECOND)]
    requires u == t[Key(1, 1) := Row(s, 0, Finalized, 491 * SECOND)]
    ensures Step(t, Resolve(491 * SECOND, 1, Finalized)) == u
    ensures AnswerTo(t, Resolve(491 * SECOND, 1, Finalized)) == Done(Ok(()))
    ensures AnswerTo(u, Resolve(492 * SECOND, 1, Finalized)) == Done(Err(Internal))
  {
    ResolveGives(t, 491 * SECOND, Key(1, 1), Finalized);
    assert IsTarget(t, 1, Target(t, 1)) && t[Key(1, 1)].state == Reserved;
    assert IsTarget(u, 1, Target(u, 1)) && u[Key(1, 1)].state == Finalized && u[Key(1, 2)].state == Released;
    assert IsMaxRev(u, 1, 2) && IsMaxRev(u, 1, MaxRev(u, 1));
  }

  /** The last two statements. */
  lemma OlderTail(s: Sender, t2: Table, t3: Table, t4: Table)
    requires t2 == map[Key(1, 1) := Row(s, 0, Reserved, 0), Key(1, 2) := Row(s, 7, Reserved, 360 * SECOND)]
    requires t3 == t2[Key(1, 2) := Row(s, 7, Released, 490 * SECOND)]
    requires t4 == t3[Key(1, 1) := Row(s, 0, Finalized, 491 * SECOND)]
    ensures var rest := [Sweep(490 * SECOND, {Key(1, 2)}), Resolve(491 * SECOND, 1, Finalized)];
            ValidRun(t2, 360 * SECOND, rest) && Run(t2, 360 * SECOND, rest) == t4
            && TableAt(t2, 360 * SECOND, rest, 1) == t3
  {
    var c, d := Sweep(490 * SECOND, {Key(1, 2)}), Resolve(491 * SECOND, 1, Finalized);
    SweepsYounger(s, t2, t3);
    FinalizesOlder(s, t3, t4);
    Chain(t3, c.at, d, t4, []);
    Chain(t2, 360 * SECOND, c, t3, [d] + []);
    assert [c, d] == [c] + ([d] + []);
    assert TableAt(t3, c.at, [d] + [], 0) == t3;
  }

  lemma OlderRun(s: Sender) returns (t3: Table, t4: Table)
    ensures t3 == map[Key(1, 1) := Row(s, 0, Reserved, 0), Key(1, 2) := Row(s, 7, Released, 490 * SECOND)]
    ensures t4 == t3[Key(1, 1) := Row(s, 0, Finalized, 491 * SECOND)]
    ensures var evs := OlderRowEvents(s);
            ValidRun(map[], 0, evs) && Run(map[], 0, evs) == t4 && TableAt(map[], 0, evs, 3) == t3
  {
    var evs := OlderRowEvents(s);
    var a, t1 := First(s);
    var t2 := t1[Key(1, 2) := Row(s, 7, Reserved, 360 * SECOND)];
    t3 := t2[Key(1, 2) := Row(s, 7, Released, 490 * SECOND)];
    t4 := t3[Key(1, 1) := Row(s, 0, Finalized, 491 * SECOND)];
    SyncsToSeven(s, t1, t2);
    OlderTail(s, t2, t3, t4);
    Chain(t1, 0, evs[1], t2, evs[2..]);
    Chain(map[], 0, a, t1, [evs[1]] + evs[2..]);
    assert evs == [a] + ([evs[1]] + evs[2..]);
    assert TableAt(map[], 0, evs, 3) == TableAt(t1, 0, [evs[1]] + evs[2..], 2) == TableAt(t2, evs[1].at, evs[2..], 1);
  }

  /** A resolve that hit a row older than the latest is refused when asked for again: the nonce
      is finalized, and the retry is told that it cannot be. */
  lemma RetryOfOlderRowRefused(s: Sender)
    ensures var evs := OlderRowEvents(s);
            && ValidRun(map[], 0, evs) && AnswerTo(TableAt(map[], 0, evs, 3), evs[3]) == Done(Ok(()))
            && AnswerTo(Run(map[], 0, evs), Resolve(492 * SECOND, 1, Finalized)) == Done(Err(Internal))
  {
    var t3, t4 := OlderRun(s);
    FinalizesOlder(s, t3, t4);
  }
}
