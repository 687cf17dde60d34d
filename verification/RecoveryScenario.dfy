/** A run that recovers from a nonce too low, on all the tables at once: what each table is
    told, and what it replies. */
module RecoveryScenario {
  import opened Types
  import opened Revisions
  import opened Ledger
  import opened LedgerInvariants
  import opened LedgerScenarios
  import opened Eip1559
  import P = Protocol
  import Results = ProtocolResults
  import B = Broadcast
  import LT = LeaseTable
  import S = Signing
  import V = Validation

  // ---- the ledger ----------------------------------------------------------

  function LedgerEvents(s: Sender, n: nat): seq<Event> {
    [Reserve(0, s, 1, None), Resolve(1, 1, Consumed), Sync(2, s, 1, n), Resolve(3, 1, Finalized)]
  }

  function Reserved0(s: Sender): Table {
    map[Key(1, 1) := Row(s, 0, Reserved, 0)]
  }

  function Consumed0(s: Sender): Table {
    map[Key(1, 1) := Row(s, 0, Consumed, 1)]
  }

  function Synced(s: Sender, n: nat): Table {
    map[Key(1, 1) := Row(s, 0, Consumed, 1), Key(1, 2) := Row(s, n, Reserved, 2)]
  }

  lemma Consumes(s: Sender)
    ensures Step(Reserved0(s), Resolve(1, 1, Consumed)) == Consumed0(s)
    ensures AnswerTo(Reserved0(s), Resolve(1, 1, Consumed)) == Done(Ok(()))
  {
    assert Reserved0(s)[Key(1, 1)] == Row(s, 0, Reserved, 0);
    ResolveGives(Reserved0(s), 1, Key(1, 1), Consumed);
    assert IsTarget(Reserved0(s), 1, Some(Key(1, 1))) && IsTarget(Reserved0(s), 1, Target(Reserved0(s), 1));
  }

  lemma Syncs(s: Sender, n: nat)
    requires n <= I64_MAX
    ensures Step(Consumed0(s), Sync(2, s, 1, n)) == Synced(s, n)
    ensures AnswerTo(Consumed0(s), Sync(2, s, 1, n)) == Nonce(Ok(n))
  {
    var t := Consumed0(s);
    assert t[Key(1, 1)] == Row(s, 0, Consumed, 1);
    assert IsMaxRev(t, 1, 1) && IsMaxRev(t, 1, MaxRev(t, 1));
    assert SyncOutcome(t, 2, s, 1, n) == Inserted(n);
    assert WithRow(t, t, s, 1, n, 2) == Synced(s, n);
  }

  lemma Finalizes(s: Sender, n: nat)
    ensures AnswerTo(Synced(s, n), Resolve(3, 1, Finalized)) == Done(Ok(()))
  {
    var t := Synced(s, n);
    assert t[Key(1, 1)] == Row(s, 0, Consumed, 1) && t[Key(1, 2)] == Row(s, n, Reserved, 2);
    assert IsTarget(t, 1, Some(Key(1, 2))) && IsTarget(t, 1, Target(t, 1));
  }

  lemma LedgerRuns(s: Sender, n: nat)
    requires n <= I64_MAX
    ensures ValidRun(map[], 0, LedgerEvents(s, n))
  {
    var a, t1 := First(s);
    var b, c, d := Resolve(1, 1, Consumed), Sync(2, s, 1, n), Resolve(3, 1, Finalized);
    Consumes(s);
    Syncs(s, n);
    PrependRun(Synced(s, n), 2, d, []);
    PrependRun(Consumed0(s), 1, c, [d] + []);
    PrependRun(Reserved0(s), 0, b, [c] + ([d] + []));
    PrependRun(map[], 0, a, [b] + ([c] + ([d] + [])));
    assert LedgerEvents(s, n) == [a] + ([b] + ([c] + ([d] + [])));
  }

  lemma PrependRun(t: Table, now: int, ev: Event, rest: seq<Event>)
    requires Enabled(t, ev) && now <= ev.at && ValidRun(Step(t, ev), ev.at, rest)
    ensures ValidRun(t, now, [ev] + rest)
  {
    assert ([ev] + rest)[1..] == rest;
  }

  lemma LedgerTables(s: Sender, n: nat)
    requires n <= I64_MAX && ValidRun(map[], 0, LedgerEvents(s, n))
    ensures var evs := LedgerEvents(s, n);
            && TableAt(map[], 0, evs, 1) == Reserved0(s) && TableAt(map[], 0, evs, 2) == Consumed0(s)
            && TableAt(map[], 0, evs, 3) == Synced(s, n)
  {
    var a, t1 := First(s);
    Consumes(s);
    Syncs(s, n);
    StepAt(map[], 0, LedgerEvents(s, n), 0);
    StepAt(map[], 0, LedgerEvents(s, n), 1);
    StepAt(map[], 0, LedgerEvents(s, n), 2);
  }

  /** The ledger's replies are the ones that the log has. */
  lemma LedgerPart(s: Sender, n: nat)
    requires n <= I64_MAX
    ensures var evs := LedgerEvents(s, n);
            && ValidRun(map[], 0, evs)
            && AnswerTo(map[], evs[0]) == Nonce(Ok(0))
            && TableAt(map[], 0, evs, 1) == Reserved0(s) && AnswerTo(Reserved0(s), evs[1]) == Done(Ok(()))
            && TableAt(map[], 0, evs, 2) == Consumed0(s) && AnswerTo(Consumed0(s), evs[2]) == Nonce(Ok(n))
            && TableAt(map[], 0, evs, 3) == Synced(s, n) && AnswerTo(Synced(s, n), evs[3]) == Done(Ok(()))
  {
    var a, t1 := First(s);
    Consumes(s);
    Syncs(s, n);
    Finalizes(s, n);
    LedgerRuns(s, n);
    LedgerTables(s, n);
  }

  // ---- the sign table ------------------------------------------------------

  function SignSteps(a: seq<byte>, b: seq<byte>): seq<S.Step> {
    [S.Claim(0, 1), S.Finish(0, Key(1, 1), Some(a)), S.Revert(1, 1), S.Claim(2, 1), S.Finish(2, Key(1, 2), Some(b))]
  }

  lemma SignThen(t: LT.Table<seq<byte>>, step: S.Step, u: LT.Table<seq<byte>>, rest: seq<S.Step>)
    requires S.Next(t, step) == u
    ensures S.Run(t, [step] + rest) == S.Run(u, rest)
  {
    assert ([step] + rest)[1..] == rest;
  }

  lemma FirstSignature(a: seq<byte>, rest: seq<S.Step>)
    ensures S.Run(map[], [S.Claim(0, 1)] + ([S.Finish(0, Key(1, 1), Some(a))] + ([S.Revert(1, 1)] + rest)))
            == S.Run(map[Key(1, 1) := LT.Row(LT.Freed, 1)], rest)
  {
    var t0: LT.Table<seq<byte>> := map[];
    var t1: LT.Table<seq<byte>> := map[Key(1, 1) := LT.Row(LT.Pending, 0)];
    var t2: LT.Table<seq<byte>> := map[Key(1, 1) := LT.Row(LT.Settled(a), 0)];
    var t3: LT.Table<seq<byte>> := map[Key(1, 1) := LT.Row(LT.Freed, 1)];
    LT.ClaimGives(t0, 0, 1, 0);
    assert t1[Key(1, 1)].phase.Pending? && S.Next(t1, S.Finish(0, Key(1, 1), Some(a))) == t2;
    assert t2[Key(1, 1)].phase.Settled? && S.SignedKey(t2, 1) == Some(Key(1, 1));
    SignThen(t2, S.Revert(1, 1), t3, rest);
    SignThen(t1, S.Finish(0, Key(1, 1), Some(a)), t2, [S.Revert(1, 1)] + rest);
    SignThen(t0, S.Claim(0, 1), t1, [S.Finish(0, Key(1, 1), Some(a))] + ([S.Revert(1, 1)] + rest));
  }

  /** The row is signed, reverted, and signed again. */
  lemma SignPart(a: seq<byte>, b: seq<byte>)
    ensures S.Run(map[], SignSteps(a, b))
            == map[Key(1, 1) := LT.Row(LT.Freed, 1), Key(1, 2) := LT.Row(LT.Settled(b), 2)]
  {
    var t3: LT.Table<seq<byte>> := map[Key(1, 1) := LT.Row(LT.Freed, 1)];
    var t4 := t3[Key(1, 2) := LT.Row(LT.Pending, 2)];
    var t5 := t3[Key(1, 2) := LT.Row(LT.Settled(b), 2)];
    var claim, finish := S.Claim(2, 1), S.Finish(2, Key(1, 2), Some(b));
    assert t3[Key(1, 1)].phase.Freed?;
    LT.ClaimGives(t3, 2, 1, 1);
    SignThen(t4, finish, t5, []);
    SignThen(t3, claim, t4, [finish] + []);
    FirstSignature(a, [claim] + ([finish] + []));
    assert SignSteps(a, b)
        == [S.Claim(0, 1)] + ([S.Finish(0, Key(1, 1), Some(a))] + ([S.Revert(1, 1)] + ([claim] + ([finish] + []))));
  }

  // ---- the broadcast and validation tables ----------------------------------

  function BroadcastSteps(a: seq<byte>, b: seq<byte>, h: Hash): seq<B.Step> {
    [B.Claim(0, 1), B.Send(Key(1, 1), a, B.Refused), B.Record(1, Key(1, 1)),
     B.Claim(2, 1), B.Send(Key(1, 2), b, B.Accepted(h)), B.Record(2, Key(1, 2))]
  }

  /** The first transaction is refused, the second answered Ok. */
  lemma BroadcastPart(a: seq<byte>, b: seq<byte>, h: Hash)
    ensures B.ValidRun(B.Init(), BroadcastSteps(a, b, h))
    ensures B.Run(B.Init(), BroadcastSteps(a, b, h)).sent == [B.Sent(1, a, B.Refused), B.Sent(1, b, B.Accepted(h))]
  {
    var j, k := Key(1, 1), Key(1, 2);
    var r0: LT.Table<Hash>, r1: LT.Table<Hash> := map[], map[j := LT.Row(LT.Pending, 0)];
    var r3: LT.Table<Hash> := map[j := LT.Row(LT.Freed, 1)];
    var r4 := r3[k := LT.Row(LT.Pending, 2)];
    LT.ClaimGives(r0, 0, 1, 0);
    var s1 := B.State(r1, map[j := B.Sending], []);
    var s2 := B.State(r1, map[j := B.Replied(B.Refused)], [B.Sent(1, a, B.Refused)]);
    var s3 := B.State(r3, map[], [B.Sent(1, a, B.Refused)]);
    assert B.Next(B.Init(), B.Claim(0, 1)) == s1;
    assert B.Next(s1, B.Send(j, a, B.Refused)) == s2;
    assert B.Next(s2, B.Record(1, j)) == s3;
    var rest := [B.Claim(2, 1), B.Send(k, b, B.Accepted(h)), B.Record(2, k)];
    BroadcastAgain(s3, b, h);
    B.RunThen(s2, B.Record(1, j), rest);
    B.RunThen(s1, B.Send(j, a, B.Refused), [B.Record(1, j)] + rest);
    B.RunThen(B.Init(), B.Claim(0, 1), [B.Send(j, a, B.Refused)] + ([B.Record(1, j)] + rest));
    assert BroadcastSteps(a, b, h) == [B.Claim(0, 1)] + ([B.Send(j, a, B.Refused)] + ([B.Record(1, j)] + rest));
  }

  lemma BroadcastAgain(s: B.State, b: seq<byte>, h: Hash)
    requires s.rows == map[Key(1, 1) := LT.Row(LT.Freed, 1)] && s.sessions == map[]
    ensures var rest := [B.Claim(2, 1), B.Send(Key(1, 2), b, B.Accepted(h)), B.Record(2, Key(1, 2))];
            B.ValidRun(s, rest) && B.Run(s, rest).sent == s.sent + [B.Sent(1, b, B.Accepted(h))]
  {
    var k := Key(1, 2);
    assert s.rows[Key(1, 1)].phase.Freed?;
    LT.ClaimGives(s.rows, 2, 1, 1);
    var claim, send, record := B.Claim(2, 1), B.Send(k, b, B.Accepted(h)), B.Record(2, k);
    var s4 := B.Next(s, claim);
    var s5 := B.Next(s4, send);
    B.RunThen(s5, record, []);
    B.RunThen(s4, send, [record] + []);
    B.RunThen(s, claim, [send] + ([record] + []));
    assert [claim, send, record] == [claim] + ([send] + ([record] + []));
  }

  /** Its inclusion is recorded. */
  lemma ValidationPart()
    ensures V.Cached(V.Run(map[], [V.Request(2, 1), V.Outcome(3, 1, Some(V.IncludedRow))]), 1) == Some(V.Included(0, 0))
  {
    var t0: LT.Table<V.Verdict> := map[];
    var t1: LT.Table<V.Verdict> := map[Key(1, 1) := LT.Row(LT.Pending, 2)];
    var t2: LT.Table<V.Verdict> := map[Key(1, 1) := LT.Row(LT.Settled(V.IncludedRow), 3)];
    var request, outcome := V.Request(2, 1), V.Outcome(3, 1, Some(V.IncludedRow));
    LT.ClaimGives(t0, 2, 1, 0);
    assert t1[Key(1, 1)].phase.Pending? && V.PendingKey(t1, 1) == Some(Key(1, 1));
    V.RunTwo(t0, [request], [outcome]);
    V.RunOne(t0, request);
    V.RunOne(t1, outcome);
    assert [request, outcome] == [request] + [outcome];
    assert Key(1, 1) in t2 && IsMaxRev(t2, 1, 1) && IsMaxRev(t2, 1, MaxRev(t2, 1));
  }

  // ---- the run --------------------------------------------------------------

  /** Nonce 0 is reserved; the first broadcast is refused, and the on-chain nonce is `n`; the
      row is consumed, the signature reverted, nonce `n` synced, signed, broadcast, validated
      and finalized. The tables give these replies, and the protocol, given them, recovers. */
  lemma RecoveryHappens(s: Sender, a: SignedTransaction, b: SignedTransaction, n: nat, h: Hash, job: P.Job)
    requires n <= I64_MAX && P.SignedOver(a, job, 0) && P.SignedOver(b, job, n) && Results.Welcomes(job)
    ensures var evs := LedgerEvents(s, n);
            && ValidRun(map[], 0, evs)
            && AnswerTo(map[], evs[0]) == Nonce(Ok(0))
            && AnswerTo(TableAt(map[], 0, evs, 1), evs[1]) == Done(Ok(()))
            && AnswerTo(TableAt(map[], 0, evs, 2), evs[2]) == Nonce(Ok(n))
            && AnswerTo(TableAt(map[], 0, evs, 3), evs[3]) == Done(Ok(()))
    ensures S.Run(map[], SignSteps(a.rlp, b.rlp))
            == map[Key(1, 1) := LT.Row(LT.Freed, 1), Key(1, 2) := LT.Row(LT.Settled(b.rlp), 2)]
    ensures B.ValidRun(B.Init(), BroadcastSteps(a.rlp, b.rlp, h))
    ensures B.Run(B.Init(), BroadcastSteps(a.rlp, b.rlp, h)).sent
            == [B.Sent(1, a.rlp, B.Refused), B.Sent(1, b.rlp, B.Accepted(h))]
    ensures V.Cached(V.Run(map[], [V.Request(2, 1), V.Outcome(3, 1, Some(V.IncludedRow))]), 1) == Some(V.Included(0, 0))
    ensures var r := P.Replay(Results.RecoveryLog(a, b, 0, n, h, job), job);
            r.Some? && r.value.point == P.Ended(Some(n), P.ConfirmedOnChain(h), Some(b))
  {
    LedgerPart(s, n);
    SignPart(a.rlp, b.rlp);
    BroadcastPart(a.rlp, b.rlp, h);
    ValidationPart();
    Results.RecoveryExists(a, b, 0, n, h, job);
  }
}
