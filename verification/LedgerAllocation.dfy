/** Which nonces a sender's rows carry: one live row per nonce, no gaps, and what
    exactly breaks each of these. */
module LedgerAllocation {
  import opened Types
  import opened Revisions
  import opened Ledger
  import opened LedgerInvariants

  /** Rows that hold a nonce or can hand it out again. */
  predicate Live(r: Row) {
    r.state != Consumed
  }

  predicate Carries(r: Row, s: Sender, n: int) {
    r.sender == s && r.nonce == n
  }

  ghost predicate LiveAt(t: Table, s: Sender, n: int) {
    exists k :: k in t && Live(t[k]) && Carries(t[k], s, n)
  }

  ghost predicate UniqueLive(t: Table) {
    forall j, k | j in t && k in t && Live(t[j]) && Live(t[k])
                  && t[j].sender == t[k].sender && t[j].nonce == t[k].nonce :: j == k
  }

  // ---- one live row per nonce ----------------------------------------------

  /** A committed sync over a released row that already carries the on-chain nonce. */
  ghost predicate SyncsOverReleased(t: Table, ev: Event) {
    && ev.Sync? && SyncOutcome(t, ev.at, ev.sender, ev.exec, ev.onChain).Inserted?
    && exists k :: k in t && t[k].state == Released && Carries(t[k], ev.sender, ev.onChain)
  }

  lemma InsertKeepsUnique(t: Table, base: Table, s: Sender, e: ExecutionId, n: nat, at: int)
    requires UniqueLive(base) && base.Keys == t.Keys
    ensures UniqueLive(WithRow(t, base, s, e, n, at)) <==>
            forall k | k in base :: !(Live(base[k]) && Carries(base[k], s, n))
  {
    var u, k0 := WithRow(t, base, s, e, n, at), Key(e, MaxRev(t, e) + 1);
    FreshKey(t, e);
    assert u[k0] == Row(s, n, Reserved, at);
    assert forall k | k in base :: k in u && u[k] == base[k];
  }

  lemma RetireKeepsUnique(t: Table, k: Key, at: int)
    requires UniqueLive(t) && k in t
    ensures UniqueLive(SetState(t, k, Consumed, at))
  {
  }

  lemma ReserveKeepsUnique(t: Table, at: int, s: Sender, e: ExecutionId, pick: Option<Key>)
    requires UniqueLive(t) && PickOk(t, s, pick)
    ensures UniqueLive(ReserveTable(t, at, s, e, pick))
  {
    var base := AfterConsume(t, at, s, pick);
    if pick.Some? { RetireKeepsUnique(t, pick.value, at); }
    assert pick.None? ==> forall k | k in t && t[k].sender == s && Live(t[k]) :: Active(t[k]);
    if ReserveOutcome(t, at, s, e, pick).Inserted? {
      InsertKeepsUnique(t, base, s, e, ReserveNonce(t, s, pick), at);
    }
  }

  /** Every statement keeps one live row per nonce, except exactly that sync. */
  lemma UniqueLiveStepIff(t: Table, ev: Event)
    requires UniqueLive(t) && Enabled(t, ev)
    ensures UniqueLive(Step(t, ev)) <==> !SyncsOverReleased(t, ev)
  {
    match ev
    case Reserve(at, s, e, pick) => ReserveKeepsUnique(t, at, s, e, pick);
    case Sync(at, s, e, n) =>
      if SyncOutcome(t, at, s, e, n).Inserted? { InsertKeepsUnique(t, t, s, e, n, at); }
    case _ =>
  }

  /** The unique index aborts a reserve only when the released row it reuses is shadowed
      by an active row of the same nonce. */
  lemma ReserveConflictIff(t: Table, at: int, s: Sender, e: ExecutionId, pick: Option<Key>)
    requires PickOk(t, s, pick)
    ensures !IndexFree(t, s, ReserveNonce(t, s, pick)) <==>
            pick.Some? && exists k :: k in t && Active(t[k]) && Carries(t[k], s, t[pick.value].nonce)
  {
    assert IsMaxNonce(t, s, MaxNonce(t, s));
  }

  predicate SyncFree(evs: seq<Event>) {
    forall i | 0 <= i < |evs| :: !evs[i].Sync?
  }

  /** No statement of the run meets the unique index. */
  ghost predicate NoConflict(t: Table, now: int, evs: seq<Event>)
    requires ValidRun(t, now, evs)
    decreases evs
  {
    evs == [] ||
    (&& (evs[0].Reserve? ==> IndexFree(t, evs[0].sender, ReserveNonce(t, evs[0].sender, evs[0].pick)))
     && NoConflict(Step(t, evs[0]), evs[0].at, evs[1..]))
  }

  /** Without sync there is one live row per nonce, and the index never aborts a reserve. */
  lemma {:induction false} SyncFreeRun(t: Table, now: int, evs: seq<Event>)
    requires UniqueLive(t) && ValidRun(t, now, evs) && SyncFree(evs)
    ensures UniqueLive(Run(t, now, evs)) && NoConflict(t, now, evs)
    decreases evs
  {
    if evs != [] {
      assert !evs[0].Sync?;
      UniqueLiveStepIff(t, evs[0]);
      if evs[0].Reserve? {
        ReserveConflictIff(t, evs[0].at, evs[0].sender, evs[0].exec, evs[0].pick);
      }
      SyncFreeRun(Step(t, evs[0]), evs[0].at, evs[1..]);
    }
  }

  // ---- no gaps -------------------------------------------------------------

  /** The live rows of `s` carry exactly the nonces 0..m-1. */
  ghost predicate Dense(t: Table, s: Sender, m: nat) {
    forall n :: LiveAt(t, s, n) <==> 0 <= n < m
  }

  ghost predicate HasNoGap(t: Table, s: Sender) {
    exists m: nat :: Dense(t, s, m)
  }

  ghost predicate GapFree(t: Table) {
    UniqueLive(t) && forall s :: HasNoGap(t, s)
  }

  /** There is a live row of the sender of row `k` above it. */
  ghost predicate LiveAbove(t: Table, k: Key)
    requires k in t
  {
    exists j :: j in t && Live(t[j]) && t[j].sender == t[k].sender && t[j].nonce > t[k].nonce
  }

  /** The statement retires a nonce below the sender's highest: a Consumed resolution, or a
      guarded reserve, whose gap fill is spent without anybody getting the nonce. */
  ghost predicate LosesBelowTop(t: Table, ev: Event)
    requires Enabled(t, ev)
  {
    match ev
    case Resolve(_, e, to) =>
      to == Consumed && Target(t, e).Some? && LiveAbove(t, Target(t, e).value)
    case Reserve(at, _, e, pick) =>
      Held(t, at, e, RESERVE_LEASE) && pick.Some? && LiveAbove(t, pick.value)
    case _ => false
  }

  /** Same nonces live before and after: same density. */
  lemma SameLive(t: Table, u: Table)
    requires GapFree(t) && UniqueLive(u)
    requires forall s, n :: LiveAt(u, s, n) <==> LiveAt(t, s, n)
    ensures GapFree(u)
  {
    forall s ensures HasNoGap(u, s) {
      assert HasNoGap(t, s);
      var m: nat :| Dense(t, s, m);
      assert Dense(u, s, m);
    }
  }

  lemma RetireLive(t: Table, k: Key, at: int, s: Sender, n: int)
    requires UniqueLive(t) && k in t && Live(t[k])
    ensures LiveAt(SetState(t, k, Consumed, at), s, n)
            <==> LiveAt(t, s, n) && (s, n) != (t[k].sender, t[k].nonce)
  {
    var u := SetState(t, k, Consumed, at);
    if LiveAt(t, s, n) && (s, n) != (t[k].sender, t[k].nonce) {
      var j :| j in t && Live(t[j]) && Carries(t[j], s, n);
      assert j in u && Live(u[j]) && Carries(u[j], s, n);
    }
    if LiveAt(u, s, n) {
      var j :| j in u && Live(u[j]) && Carries(u[j], s, n);
      assert j in t && Live(t[j]) && Carries(t[j], s, n);
    }
  }

  /** Without the top nonce, the live nonces end just below it. */
  lemma RetireTop(t: Table, k: Key, at: int)
    requires GapFree(t) && k in t && Live(t[k]) && !LiveAbove(t, k)
    ensures Dense(SetState(t, k, Consumed, at), t[k].sender, t[k].nonce)
  {
    var s, n := t[k].sender, t[k].nonce;
    assert HasNoGap(t, s);
    var m: nat :| Dense(t, s, m);
    assert Carries(t[k], s, n) && LiveAt(t, s, n);
    assert !LiveAt(t, s, n + 1);
    assert m == n + 1;
    forall x ensures LiveAt(SetState(t, k, Consumed, at), s, x) <==> 0 <= x < n { RetireLive(t, k, at, s, x); }
  }

  lemma RetireIff(t: Table, k: Key, at: int)
    requires GapFree(t) && k in t && Live(t[k])
    ensures GapFree(SetState(t, k, Consumed, at)) <==> !LiveAbove(t, k)
  {
    var u := SetState(t, k, Consumed, at);
    var s0, n0 := t[k].sender, t[k].nonce;
    assert UniqueLive(u);
    forall s, n ensures LiveAt(u, s, n) <==> LiveAt(t, s, n) && (s, n) != (s0, n0) { RetireLive(t, k, at, s, n); }
    if LiveAbove(t, k) {
      var j :| j in t && Live(t[j]) && t[j].sender == s0 && t[j].nonce > n0;
      assert Carries(t[j], s0, t[j].nonce) && LiveAt(u, s0, t[j].nonce) && !LiveAt(u, s0, n0);
      assert !HasNoGap(u, s0);
    } else {
      forall s ensures HasNoGap(u, s) {
        assert HasNoGap(t, s);
        var m: nat :| Dense(t, s, m);
        if s == s0 {
          RetireTop(t, k, at);
        } else {
          assert Dense(u, s, m);
        }
      }
    }
  }

  lemma InsertLive(t: Table, at: int, s: Sender, e: ExecutionId, pick: Option<Key>, s': Sender, n: int)
    requires PickOk(t, s, pick)
    ensures var n0 := ReserveNonce(t, s, pick);
            LiveAt(WithRow(t, AfterConsume(t, at, s, pick), s, e, n0, at), s', n)
            <==> LiveAt(t, s', n) || (s', n) == (s, n0)
  {
    var n0, k0 := ReserveNonce(t, s, pick), Key(e, MaxRev(t, e) + 1);
    var u := WithRow(t, AfterConsume(t, at, s, pick), s, e, n0, at);
    FreshKey(t, e);
    if LiveAt(t, s', n) {
      var j :| j in t && Live(t[j]) && Carries(t[j], s', n);
      if pick == Some(j) {
        assert Carries(u[k0], s', n);
      } else {
        assert u[j] == t[j];
      }
    }
    if LiveAt(u, s', n) {
      var j :| j in u && Live(u[j]) && Carries(u[j], s', n);
      if j != k0 { assert Live(t[j]) && Carries(t[j], s', n); }
    }
    if (s', n) == (s, n0) { assert Carries(u[k0], s', n); }
  }

  /** Inserting where a released row was consumed, or just above the highest live row. */
  lemma InsertKeepsDense(t: Table, at: int, s: Sender, e: ExecutionId, pick: Option<Key>)
    requires GapFree(t) && PickOk(t, s, pick)
    ensures GapFree(WithRow(t, AfterConsume(t, at, s, pick), s, e, ReserveNonce(t, s, pick), at))
  {
    var base, n0 := AfterConsume(t, at, s, pick), ReserveNonce(t, s, pick);
    var u := WithRow(t, base, s, e, n0, at);
    FreshKey(t, e);
    assert pick.None? ==> forall k | k in t && t[k].sender == s && Live(t[k]) :: Active(t[k]);
    assert UniqueLive(u);
    forall s', n ensures LiveAt(u, s', n) <==> LiveAt(t, s', n) || (s', n) == (s, n0) {
      InsertLive(t, at, s, e, pick, s', n);
    }
    match pick
    case Some(p) =>
      assert Carries(t[p], s, n0) && LiveAt(t, s, n0);
      SameLive(t, u);
    case None =>
      forall s' ensures HasNoGap(u, s') {
        assert HasNoGap(t, s');
        var m: nat :| Dense(t, s', m);
        if s' == s {
          TopIsMax(t, s, m);
          assert Dense(u, s', m + 1);
        } else {
          assert Dense(u, s', m);
        }
      }
  }

  lemma TopIsMax(t: Table, s: Sender, m: nat)
    requires Dense(t, s, m) && PickOk(t, s, None)
    ensures MaxNonce(t, s) == m - 1
  {
    var x := MaxNonce(t, s);
    assert IsMaxNonce(t, s, x);
    if x >= 0 {
      var k :| k in t && Active(t[k]) && t[k].sender == s && t[k].nonce == x;
      assert Carries(t[k], s, x) && LiveAt(t, s, x);
    }
    if m > 0 {
      assert LiveAt(t, s, m - 1);
      var k :| k in t && Live(t[k]) && Carries(t[k], s, m - 1);
      assert Active(t[k]);
    }
  }

  /** A change among reserved, finalized and released leaves the live nonces alone. */
  lemma RelabelKeepsDense(t: Table, u: Table)
    requires GapFree(t) && u.Keys == t.Keys
    requires forall k | k in t :: u[k].sender == t[k].sender && u[k].nonce == t[k].nonce
                                  && (Live(u[k]) <==> Live(t[k]))
    ensures GapFree(u)
  {
    forall s, n ensures LiveAt(u, s, n) <==> LiveAt(t, s, n) {
      if LiveAt(t, s, n) {
        var j :| j in t && Live(t[j]) && Carries(t[j], s, n);
        assert j in u && Carries(u[j], s, n);
      }
    }
    SameLive(t, u);
  }

  /** Without sync, a statement keeps allocation gap-free exactly when it does not retire
      a nonce below the sender's highest live one. */
  lemma GapFreeStepIff(t: Table, ev: Event)
    requires GapFree(t) && Enabled(t, ev) && !ev.Sync?
    ensures GapFree(Step(t, ev)) <==> !LosesBelowTop(t, ev)
  {
    match ev
    case Reserve(at, s, e, pick) =>
      var o := ReserveOutcome(t, at, s, e, pick);
      if o.Inserted? {
        InsertKeepsDense(t, at, s, e, pick);
      } else if o.Guarded? && pick.Some? {
        RetireIff(t, pick.value, at);
      }
    case Resolve(at, e, to) =>
      var k := Target(t, e);
      if k.Some? {
        if to == Consumed { RetireIff(t, k.value, at); } else { RelabelKeepsDense(t, Step(t, ev)); }
      }
    case Sweep(at, keys) =>
      RelabelKeepsDense(t, Step(t, ev));
  }

  ghost predicate NeverLoses(t: Table, now: int, evs: seq<Event>)
    requires ValidRun(t, now, evs)
    decreases evs
  {
    evs == [] ||
    (!evs[0].Sync? && !LosesBelowTop(t, evs[0]) && NeverLoses(Step(t, evs[0]), evs[0].at, evs[1..]))
  }

  lemma {:induction false} GapFreeRun(t: Table, now: int, evs: seq<Event>)
    requires GapFree(t) && ValidRun(t, now, evs) && NeverLoses(t, now, evs)
    ensures GapFree(Run(t, now, evs))
    decreases evs
  {
    if evs != [] {
      GapFreeStepIff(t, evs[0]);
      GapFreeRun(Step(t, evs[0]), evs[0].at, evs[1..]);
    }
  }

  /** In particular: no sync, no Consumed resolution, no reserve by an execution that
      already holds a finalized row or an unexpired reservation. */
  ghost predicate Careful(t: Table, now: int, evs: seq<Event>)
    requires ValidRun(t, now, evs)
    decreases evs
  {
    evs == [] ||
    (&& !evs[0].Sync?
     && (evs[0].Resolve? ==> evs[0].to != Consumed)
     && (evs[0].Reserve? ==> !Held(t, evs[0].at, evs[0].exec, RESERVE_LEASE))
     && Careful(Step(t, evs[0]), evs[0].at, evs[1..]))
  }

  lemma {:induction false} CarefulNeverLoses(t: Table, now: int, evs: seq<Event>)
    requires ValidRun(t, now, evs) && Careful(t, now, evs)
    ensures NeverLoses(t, now, evs)
    decreases evs
  {
    if evs != [] { CarefulNeverLoses(Step(t, evs[0]), evs[0].at, evs[1..]); }
  }

  lemma AllocationIsGapFree(now: int, evs: seq<Event>)
    requires ValidRun(map[], now, evs) && Careful(map[], now, evs)
    ensures GapFree(Run(map[], now, evs))
  {
    forall s ensures HasNoGap(map[], s) { assert Dense(map[], s, 0); }
    CarefulNeverLoses(map[], now, evs);
    GapFreeRun(map[], now, evs);
  }

  // ---- when a consumed nonce is issued again -------------------------------

  /** The nonce that a reserve computes after row `k` was consumed is row `k`'s exactly if
      nothing is released and no live row is above it. */
  lemma ReissuedIff(t: Table, k: Key, at: int, pick: Option<Key>)
    requires GapFree(t) && k in t && Live(t[k]) && PickOk(SetState(t, k, Consumed, at), t[k].sender, pick)
    ensures ReserveNonce(SetState(t, k, Consumed, at), t[k].sender, pick) == t[k].nonce
            <==> pick.None? && !LiveAbove(t, k)
  {
    var u, s := SetState(t, k, Consumed, at), t[k].sender;
    if pick.None? {
      if LiveAbove(t, k) {
        var j :| j in t && Live(t[j]) && t[j].sender == s && t[j].nonce > t[k].nonce;
        assert Active(u[j]) && IsMaxNonce(u, s, MaxNonce(u, s));
      } else {
        RetireTop(t, k, at);
        TopIsMax(u, s, t[k].nonce);
      }
    } else {
      assert Live(t[pick.value]) && pick.value != k;
    }
  }

  /** A reserve that its guard lets through, after an execution consumed its nonce in a
      gap-free ledger, is given that nonce if and only if the sender has neither a released
      row nor a live one above it. */
  lemma ConsumedIsReissuedIff(t: Table, at: int, e: ExecutionId, ev: Event)
    requires GapFree(t) && Target(t, e).Some? && ev.Reserve? && ev.sender == t[Target(t, e).value].sender
    requires Enabled(ResolveTable(t, at, e, Consumed), ev)
    requires !Held(ResolveTable(t, at, e, Consumed), ev.at, ev.exec, RESERVE_LEASE)
    requires t[Target(t, e).value].nonce <= I64_MAX && MaxRev(ResolveTable(t, at, e, Consumed), ev.exec) < I64_MAX
    ensures var k := Target(t, e).value;
            Hands(ResolveTable(t, at, e, Consumed), ev, t[k].sender, t[k].nonce)
            <==> ev.pick.None? && !LiveAbove(t, k)
  {
    var k, u := Target(t, e).value, ResolveTable(t, at, e, Consumed);
    ReissuedIff(t, k, at, ev.pick);
    assert IndexFree(u, t[k].sender, t[k].nonce);
  }

  /** `n` is below a finalized nonce of its sender, and in no row that could be reserved or
      handed out again. */
  ghost predicate Retired(t: Table, s: Sender, n: nat) {
    && (exists k :: k in t && t[k].state == Finalized && t[k].sender == s && t[k].nonce > n)
    && (forall k | k in t && Carries(t[k], s, n) :: t[k].state == Consumed || t[k].state == Finalized)
  }

  ghost predicate SyncsTo(t: Table, ev: Event, s: Sender, n: nat) {
    Enabled(t, ev) && ev.Sync? && ev.sender == s && ev.onChain == n && Committed(t, ev).Some?
  }

  /** A row inserted for another nonce leaves a nonce retired. */
  lemma RetiredInsert(t: Table, base: Table, s': Sender, e: ExecutionId, x: nat, at: int, s: Sender, n: nat)
    requires Retired(base, s, n) && base.Keys == t.Keys
    ensures Retired(WithRow(t, base, s', e, x, at), s, n) <==> (s', x) != (s, n)
  {
    var u, k := WithRow(t, base, s', e, x, at), Key(e, MaxRev(t, e) + 1);
    FreshKey(t, e);
    assert u[k] == Row(s', x, Reserved, at);
    var f :| f in base && base[f].state == Finalized && base[f].sender == s && base[f].nonce > n;
    assert f in u && u[f] == base[f];
    if (s', x) == (s, n) { assert Carries(u[k], s, n); }
  }

  lemma RetiredSetState(t: Table, k: Key, st: NonceState, at: int, s: Sender, n: nat)
    requires Retired(t, s, n) && k in t && (t[k].state == Reserved || (t[k].state == Released && st == Consumed))
    ensures Retired(SetState(t, k, st, at), s, n)
  {
    var f :| f in t && t[f].state == Finalized && t[f].sender == s && t[f].nonce > n;
    var u := SetState(t, k, st, at);
    assert f in u && u[f] == t[f];
  }

  lemma RetiredSweep(t: Table, keys: set<Key>, at: int, s: Sender, n: nat)
    requires Retired(t, s, n) && forall k | k in keys :: StaleHead(t, at, k)
    ensures Retired(SweepTable(t, at, keys), s, n)
  {
    var f :| f in t && t[f].state == Finalized && t[f].sender == s && t[f].nonce > n;
    var u := SweepTable(t, at, keys);
    assert f in u && u[f] == t[f];
  }

  lemma RetiredReserve(t: Table, ev: Event, s: Sender, n: nat)
    requires Enabled(t, ev) && ev.Reserve? && Retired(t, s, n)
    ensures Retired(Step(t, ev), s, n) && !Hands(t, ev, s, n)
  {
    var base, x := AfterConsume(t, ev.at, ev.sender, ev.pick), ReserveNonce(t, ev.sender, ev.pick);
    if ev.pick.Some? { RetiredSetState(t, ev.pick.value, Consumed, ev.at, s, n); }
    if ev.sender == s { ReserveSkips(t, ev.pick, s, n); }
    RetiredInsert(t, base, ev.sender, ev.exec, x, ev.at, s, n);
  }

  /** A retired nonce is handed out only by a sync to it, and nothing else ends its retirement. */
  lemma RetiredStepIff(t: Table, ev: Event, s: Sender, n: nat)
    requires Enabled(t, ev) && Retired(t, s, n)
    ensures Hands(t, ev, s, n) <==> SyncsTo(t, ev, s, n)
    ensures Retired(Step(t, ev), s, n) <==> !SyncsTo(t, ev, s, n)
  {
    match ev
    case Reserve(_, _, _, _) => RetiredReserve(t, ev, s, n);
    case Sync(at, s', e, x) =>
      if SyncOutcome(t, at, s', e, x).Inserted? { RetiredInsert(t, t, s', e, x, at, s, n); }
    case Resolve(at, e, to) =>
      if Target(t, e).Some? { RetiredSetState(t, Target(t, e).value, to, at, s, n); }
    case Sweep(at, keys) => RetiredSweep(t, keys, at, s, n);
  }

  lemma ReserveSkips(t: Table, pick: Option<Key>, s: Sender, n: nat)
    requires PickOk(t, s, pick) && Retired(t, s, n)
    ensures ReserveNonce(t, s, pick) != n
  {
    var f :| f in t && t[f].state == Finalized && t[f].sender == s && t[f].nonce > n;
    assert IsMaxNonce(t, s, MaxNonce(t, s));
    if pick.Some? && t[pick.value].nonce == n { assert Carries(t[pick.value], s, n); }
  }

  ghost predicate NeverSyncsTo(t: Table, now: int, evs: seq<Event>, s: Sender, n: nat)
    requires ValidRun(t, now, evs)
    decreases evs
  {
    evs == [] || (!SyncsTo(t, evs[0], s, n) && NeverSyncsTo(Step(t, evs[0]), evs[0].at, evs[1..], s, n))
  }

  /** Until a sync to it, a retired nonce is never handed out again, in any run. */
  lemma {:induction false} RetiredRun(t: Table, now: int, evs: seq<Event>, s: Sender, n: nat)
    requires ValidRun(t, now, evs) && Retired(t, s, n) && NeverSyncsTo(t, now, evs, s, n)
    ensures Retired(Run(t, now, evs), s, n)
    ensures forall i | 0 <= i < |evs| :: !Hands(TableAt(t, now, evs, i), evs[i], s, n)
    decreases evs
  {
    if evs != [] {
      var u := Step(t, evs[0]);
      RetiredStepIff(t, evs[0], s, n);
      RetiredRun(u, evs[0].at, evs[1..], s, n);
      forall i | 0 < i < |evs| ensures !Hands(TableAt(t, now, evs, i), evs[i], s, n) {
        assert TableAt(t, now, evs, i) == TableAt(u, evs[0].at, evs[1..], i - 1);
        assert !Hands(TableAt(u, evs[0].at, evs[1..], i - 1), evs[1..][i - 1], s, n);
      }
    }
  }

  // ---- every hole has an explanation ---------------------------------------

  ghost predicate Assigned(t: Table, s: Sender, n: int) {
    exists k :: k in t && Carries(t[k], s, n)
  }

  ghost predicate BelowSynced(synced: set<(Sender, nat)>, s: Sender, n: int) {
    exists x :: x in synced && x.0 == s && n < x.1
  }

  ghost predicate Explained(t: Table, synced: set<(Sender, nat)>) {
    forall k, n | k in t && 0 <= n < t[k].nonce ::
      Assigned(t, t[k].sender, n) || BelowSynced(synced, t[k].sender, n)
  }

  /** The nonces that sync inserts committed during a run. */
  ghost function Synced(t: Table, now: int, evs: seq<Event>): set<(Sender, nat)>
    requires ValidRun(t, now, evs)
    decreases evs
  {
    if evs == [] then {}
    else
      (if evs[0].Sync? && Committed(t, evs[0]).Some? then {(evs[0].sender, evs[0].onChain)} else {})
      + Synced(Step(t, evs[0]), evs[0].at, evs[1..])
  }

  lemma ExplainedStep(t: Table, ev: Event, synced: set<(Sender, nat)>, after: set<(Sender, nat)>)
    requires Enabled(t, ev) && Explained(t, synced) && synced <= after
    requires ev.Sync? && Committed(t, ev).Some? ==> (ev.sender, ev.onChain) in after
    ensures Explained(Step(t, ev), after)
  {
    var u := Step(t, ev);
    AuditStep(t, ev);
    forall s, n | Assigned(t, s, n) ensures Assigned(u, s, n) {
      var k :| k in t && Carries(t[k], s, n);
      assert k in u && Carries(u[k], s, n);
    }
    forall k, n | k in u && 0 <= n < u[k].nonce
      ensures Assigned(u, u[k].sender, n) || BelowSynced(after, u[k].sender, n)
    {
      var s := u[k].sender;
      if k !in t {
        if ev.Sync? {
          assert BelowSynced(after, s, n);
        } else {
          NewNonceIsNext(t, ev, k, n);
          if !Assigned(t, s, n) {
            var j :| j in t && t[j].sender == s && n < t[j].nonce;
          }
        }
      }
      if BelowSynced(synced, s, n) {
        var x :| x in synced && x.0 == s && n < x.1;
        assert x in after;
      }
    }
  }

  /** What lies below a nonce that reserve hands out was assigned, or lies below an
      assigned one. */
  lemma NewNonceIsNext(t: Table, ev: Event, k: Key, n: int)
    requires Enabled(t, ev) && ev.Reserve? && k in Step(t, ev) && k !in t
    requires 0 <= n < Step(t, ev)[k].nonce
    ensures var s := Step(t, ev)[k].sender;
            Assigned(t, s, n) || exists j :: j in t && t[j].sender == s && n < t[j].nonce
  {
    var s := ev.sender;
    match ev.pick
    case Some(p) => assert t[p].sender == s && n < t[p].nonce;
    case None =>
      var x := MaxNonce(t, s);
      assert IsMaxNonce(t, s, x);
      assert n <= x;
      var j :| j in t && Active(t[j]) && t[j].sender == s && t[j].nonce == x;
      if n == x { assert Carries(t[j], s, n); }
  }

  lemma {:induction false} ExplainedRun(t: Table, now: int, evs: seq<Event>, synced: set<(Sender, nat)>)
    requires ValidRun(t, now, evs) && Explained(t, synced)
    ensures Explained(Run(t, now, evs), synced + Synced(t, now, evs))
    decreases evs
  {
    if evs == [] {
      assert synced + {} == synced;
    } else {
      var u := Step(t, evs[0]);
      var more := synced + (if evs[0].Sync? && Committed(t, evs[0]).Some?
                            then {(evs[0].sender, evs[0].onChain)} else {});
      ExplainedStep(t, evs[0], synced, more);
      ExplainedRun(u, evs[0].at, evs[1..], more);
      assert more + Synced(u, evs[0].at, evs[1..]) == synced + Synced(t, now, evs);
    }
  }

  /** In every run, a nonce below an assigned one was itself assigned, or lies below a
      synced one. */
  lemma HolesComeFromSync(now: int, evs: seq<Event>)
    requires ValidRun(map[], now, evs)
    ensures Explained(Run(map[], now, evs), Synced(map[], now, evs))
  {
    ExplainedRun(map[], now, evs, {});
    assert {} + Synced(map[], now, evs) == Synced(map[], now, evs);
  }

  // ---- a finalized nonce over a released row clogs its sender ---------------

  ghost predicate Clogged(t: Table, s: Sender, n: nat) {
    && (exists k :: k in t && t[k].state == Finalized && Carries(t[k], s, n))
    && (exists k :: k in t && t[k].state == Released && Carries(t[k], s, n))
  }

  /** The only statement that clears the clog: a reserve that its guard blocks. */
  ghost predicate Unclogs(t: Table, ev: Event, s: Sender, n: nat)
    requires Enabled(t, ev)
  {
    && ev.Reserve? && ev.sender == s && Held(t, ev.at, ev.exec, RESERVE_LEASE)
    && ev.pick.Some? && t[ev.pick.value].nonce == n
  }

  /** A reserve of sender `s` is given a nonce below `n`, or none. */
  ghost predicate GivenBelow(t: Table, ev: Event, s: Sender, n: nat) {
    Enabled(t, ev) && (ev.Reserve? && ev.sender == s && Committed(t, ev).Some? ==> Committed(t, ev).value < n)
  }

  /** Only a gap fill changes a row that is no longer reserved. */
  lemma SettledStays(t: Table, ev: Event, k: Key)
    requires Enabled(t, ev) && k in t && t[k].state != Reserved
    requires ev.Reserve? ==> ev.pick != Some(k) || Step(t, ev) == t
    ensures k in Step(t, ev) && Step(t, ev)[k] == t[k]
  {
    match ev
    case Reserve(_, _, e, _) => FreshKey(t, e);
    case Sync(_, _, e, _) => FreshKey(t, e);
    case _ =>
  }

  lemma ClogStep(t: Table, ev: Event, s: Sender, n: nat)
    requires Enabled(t, ev) && Clogged(t, s, n) && !Unclogs(t, ev, s, n)
    ensures Clogged(Step(t, ev), s, n)
    ensures GivenBelow(t, ev, s, n)
  {
    var f :| f in t && t[f].state == Finalized && Carries(t[f], s, n);
    var p :| p in t && t[p].state == Released && Carries(t[p], s, n);
    if ev.Reserve? && ev.sender == s {
      assert IsReleased(t, s, p);
      var q := ev.pick.value;
      assert t[q].nonce <= n;
      if t[q].nonce == n { assert !IndexFree(t, s, n); }
    }
    SettledStays(t, ev, f);
    SettledStays(t, ev, p);
  }

  ghost predicate NeverUnclogs(t: Table, now: int, evs: seq<Event>, s: Sender, n: nat)
    requires ValidRun(t, now, evs)
    decreases evs
  {
    evs == [] ||
    (!Unclogs(t, evs[0], s, n) && NeverUnclogs(Step(t, evs[0]), evs[0].at, evs[1..], s, n))
  }

  /** Until that happens, no reserve of the sender is ever given nonce `n` or higher. */
  lemma {:induction false} ClogRun(t: Table, now: int, evs: seq<Event>, s: Sender, n: nat)
    requires ValidRun(t, now, evs) && Clogged(t, s, n) && NeverUnclogs(t, now, evs, s, n)
    ensures Clogged(Run(t, now, evs), s, n)
    ensures forall i | 0 <= i < |evs| :: GivenBelow(TableAt(t, now, evs, i), evs[i], s, n)
    decreases evs
  {
    if evs != [] {
      var u := Step(t, evs[0]);
      ClogStep(t, evs[0], s, n);
      ClogRun(u, evs[0].at, evs[1..], s, n);
      forall i | 0 < i < |evs| ensures GivenBelow(TableAt(t, now, evs, i), evs[i], s, n) {
        assert TableAt(t, now, evs, i) == TableAt(u, evs[0].at, evs[1..], i - 1);
        assert GivenBelow(TableAt(u, evs[0].at, evs[1..], i - 1), evs[1..][i - 1], s, n);
      }
    }
  }
}
