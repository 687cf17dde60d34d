/** What one execution's calls do to the row it holds, while other executions and the
    sweeper commit statements in between. */
module NonceDisposition {
  import opened Types
  import opened Revisions
  import opened Ledger
  import opened LedgerInvariants
  import opened LedgerReplies
  import opened NonceActor

  /** No row of `e` is finalized. */
  ghost predicate NoFinal(t: Table, e: ExecutionId) {
    forall k | k in t && k.exec == e :: t[k].state != Finalized
  }

  predicate Finalizes(ev: Event, e: ExecutionId) {
    ResolvesExec(ev, e) && ev.to == Finalized
  }

  /** The row at `k`, with nonce `n`, is the latest reserved one of `e`. */
  ghost predicate HoldsRow(t: Table, e: ExecutionId, k: Key, n: nat) {
    && k in t && k.exec == e && t[k].state == Reserved && t[k].nonce == n
    && forall j | j in t && j.exec == e && t[j].state == Reserved :: j.rev <= k.rev
  }

  /** It is the row a resolve of `e` would touch and, when none is finalized, the one that a
      guarded reserve or sync reports. */
  lemma HeldIsTarget(t: Table, e: ExecutionId, k: Key, n: nat)
    requires HoldsRow(t, e, k, n)
    ensures Target(t, e) == Some(k)
    ensures NoFinal(t, e) ==> forall missing :: Reply(Guarded, t, e, missing) == Ok(n)
  {
    assert IsTarget(t, e, Target(t, e));
    if NoFinal(t, e) {
      var x := Existing(t, e);
      assert IsExisting(t, e, x) && x == Some(k);
    }
  }

  /** How the row at `k`, with nonce `n`, has ended: in the wanted state and not taken over,
      or released and then consumed by handing its nonce to another execution. `taken` are
      the rows that other executions' reserves consumed. */
  ghost predicate EndedAs(t: Table, taken: set<Key>, k: Key, n: nat, want: NonceState) {
    && k in t && t[k].nonce == n
    && if k in taken then want == Released && t[k].state == Consumed else t[k].state == want
  }

  lemma NoFinalStep(t: Table, ev: Event, e: ExecutionId)
    requires Enabled(t, ev) && NoFinal(t, e) && !Finalizes(ev, e)
    ensures NoFinal(Step(t, ev), e)
  {
  }

  lemma {:induction false} NoFinalRun(t: Table, now: int, evs: seq<Event>, e: ExecutionId)
    requires ValidRun(t, now, evs) && NoFinal(t, e)
    requires forall i | 0 <= i < |evs| :: !Finalizes(evs[i], e)
    ensures NoFinal(Run(t, now, evs), e)
    decreases evs
  {
    if evs != [] {
      NoFinalStep(t, evs[0], e);
      NoFinalRun(Step(t, evs[0]), evs[0].at, evs[1..], e);
    }
  }

  // ---- others --------------------------------------------------------------

  lemma OthersKeepHeld(t: Table, u: Table, e: ExecutionId, k: Key, n: nat)
    requires HoldsRow(t, e, k, n) && Undisturbed(t, u, e)
    ensures HoldsRow(u, e, k, n)
  {
  }

  /** The released rows that a reserve of another execution than `e` consumes. */
  ghost function TakenOverBy(t: Table, ev: Event, e: ExecutionId): set<Key>
    requires Enabled(t, ev)
  {
    if ev.Reserve? && ev.exec != e && ev.pick.Some? && Step(t, ev)[ev.pick.value].state == Consumed
    then {ev.pick.value} else {}
  }

  ghost function TakenOver(t: Table, now: int, evs: seq<Event>, e: ExecutionId): set<Key>
    requires ValidRun(t, now, evs)
    decreases evs
  {
    if evs == [] then {} else TakenOverBy(t, evs[0], e) + TakenOver(Step(t, evs[0]), evs[0].at, evs[1..], e)
  }

  lemma {:induction false} TakenAppend(t: Table, now: int, a: seq<Event>, b: seq<Event>, e: ExecutionId)
    requires ValidRun(t, now, a) && ValidRun(Run(t, now, a), Clock(now, a), b) && ValidRun(t, now, a + b)
    ensures TakenOver(t, now, a + b, e) == TakenOver(t, now, a, e) + TakenOver(Run(t, now, a), Clock(now, a), b, e)
    decreases a
  {
    if a == [] {
      assert a + b == b;
    } else {
      assert (a + b)[1..] == a[1..] + b && Clock(now, a) == Clock(a[0].at, a[1..]);
      TakenAppend(Step(t, a[0]), a[0].at, a[1..], b, e);
    }
  }

  /** The i-th statement is a reserve of another execution than `e` that consumes the row at `k`. */
  ghost predicate TakesAt(t: Table, now: int, evs: seq<Event>, i: int, e: ExecutionId, k: Key)
    requires ValidRun(t, now, evs)
  {
    0 <= i < |evs| && evs[i].Reserve? && evs[i].exec != e && evs[i].pick == Some(k)
    && k in TableAt(t, now, evs, i + 1) && TableAt(t, now, evs, i + 1)[k].state == Consumed
  }

  lemma TakesAtLater(t: Table, now: int, evs: seq<Event>, i: int, e: ExecutionId, k: Key)
    requires ValidRun(t, now, evs) && 0 < i < |evs|
    ensures TakesAt(t, now, evs, i, e, k) <==> TakesAt(Step(t, evs[0]), evs[0].at, evs[1..], i - 1, e, k)
  {
    assert TableAt(t, now, evs, i + 1) == TableAt(Step(t, evs[0]), evs[0].at, evs[1..], i);
  }

  lemma TakesAtFirst(t: Table, now: int, evs: seq<Event>, e: ExecutionId, k: Key)
    requires ValidRun(t, now, evs) && evs != []
    ensures TakesAt(t, now, evs, 0, e, k) <==> k in TakenOverBy(t, evs[0], e)
  {
    assert TableAt(t, now, evs, 1) == TableAt(Step(t, evs[0]), evs[0].at, evs[1..], 0);
  }

  /** A row was taken over exactly when a reserve of another execution consumed it. */
  lemma {:induction false} TakenIff(t: Table, now: int, evs: seq<Event>, e: ExecutionId, k: Key)
    requires ValidRun(t, now, evs)
    ensures k in TakenOver(t, now, evs, e) <==> exists i :: TakesAt(t, now, evs, i, e, k)
    decreases evs
  {
    if evs != [] {
      var u, at, rest := Step(t, evs[0]), evs[0].at, evs[1..];
      TakenIff(u, at, rest, e, k);
      TakesAtFirst(t, now, evs, e, k);
      if i :| TakesAt(t, now, evs, i, e, k) {
        if i > 0 { TakesAtLater(t, now, evs, i, e, k); }
      }
      if i :| TakesAt(u, at, rest, i, e, k) { TakesAtLater(t, now, evs, i + 1, e, k); }
    }
  }

  /** From `t` to `u`, the rows in `w` were released and then consumed, and no other released
      row was consumed. */
  ghost predicate Passed(t: Table, u: Table, w: set<Key>) {
    && Audited(t, u)
    && (forall k | k in w :: k in u && u[k].state == Consumed && (k in t ==> t[k].state in {Reserved, Released}))
    && (forall k | k in t && t[k].state == Released && u[k].state != Released :: k in w)
  }

  lemma PassedTwice(t: Table, u: Table, v: Table, a: set<Key>, b: set<Key>)
    requires Passed(t, u, a) && Passed(u, v, b)
    ensures Passed(t, v, a + b)
  {
  }

  lemma PassedStep(t: Table, ev: Event, e: ExecutionId)
    requires Enabled(t, ev) && !(ev.Reserve? && ev.exec == e)
    ensures Passed(t, Step(t, ev), TakenOverBy(t, ev, e))
  {
    AuditStep(t, ev);
    if ev.Reserve? || ev.Sync? { FreshKey(t, ev.exec); }
  }

  /** Only another execution's reserve consumes a released row, unless `e` itself reserves. */
  lemma {:induction false} PassedRun(t: Table, now: int, evs: seq<Event>, e: ExecutionId)
    requires ValidRun(t, now, evs) && forall i | 0 <= i < |evs| :: !(evs[i].Reserve? && evs[i].exec == e)
    ensures Passed(t, Run(t, now, evs), TakenOver(t, now, evs, e))
    decreases evs
  {
    if evs != [] {
      var u, rest := Step(t, evs[0]), evs[1..];
      PassedStep(t, evs[0], e);
      PassedRun(u, evs[0].at, rest, e);
      PassedTwice(t, u, Run(u, evs[0].at, rest), TakenOverBy(t, evs[0], e), TakenOver(u, evs[0].at, rest, e));
    }
  }

  /** Taken rows are consumed, and stay so. */
  ghost predicate AllConsumed(t: Table, w: set<Key>) {
    forall k | k in w :: k in t && t[k].state == Consumed
  }

  lemma {:induction false} TakenRun(t: Table, now: int, evs: seq<Event>, e: ExecutionId, w: set<Key>)
    requires ValidRun(t, now, evs) && AllConsumed(t, w)
    ensures AllConsumed(Run(t, now, evs), w + TakenOver(t, now, evs, e))
    decreases evs
  {
    if evs != [] {
      var more := TakenOverBy(t, evs[0], e);
      AuditStep(t, evs[0]);
      TakenRun(Step(t, evs[0]), evs[0].at, evs[1..], e, w + more);
      assert w + TakenOver(t, now, evs, e) == w + more + TakenOver(Step(t, evs[0]), evs[0].at, evs[1..], e);
    }
  }

  lemma OthersKeepEnded(t: Table, u: Table, taken: set<Key>, w: set<Key>, k: Key, n: nat, want: NonceState)
    requires EndedAs(t, taken, k, n, want) && want != Reserved && Passed(t, u, w) && AllConsumed(t, taken)
    ensures EndedAs(u, taken + w, k, n, want)
  {
  }

  // ---- the execution's own calls -------------------------------------------

  /** A reserve or sync that reported `n` left `e` holding a row with that nonce. */
  lemma TellsHeld(t: Table, ev: Event, u: Table, e: ExecutionId, n: nat) returns (k: Key)
    requires Tells(t, ev, u, e, n) && NoFinal(u, e)
    ensures HoldsRow(u, e, k, n)
  {
    if Committed(t, ev) == Some(n) && u == Step(t, ev) {
      k := Key(e, MaxRev(t, e) + 1);
      assert forall j | j in u && j.exec == e && j != k :: j in t;
    } else {
      var x := Existing(u, e);
      assert x.Some? && IsExisting(u, e, x);
      k := x.value;
      assert u[k].state == Reserved;
    }
  }

  /** The row `e` holds is still held, or already in the wanted state. */
  ghost predicate Ending(t: Table, taken: set<Key>, e: ExecutionId, k: Key, n: nat, to: NonceState) {
    HoldsRow(t, e, k, n) || EndedAs(t, taken, k, n, to)
  }

  /** A resolve that reached the database disposed of the row `e` held, and one that comes
      after, as a retry does, leaves it disposed of. */
  lemma ResolveEnds(t: Table, taken: set<Key>, at: int, e: ExecutionId, k: Key, n: nat, to: NonceState)
    requires to != Reserved && AllConsumed(t, taken) && Ending(t, taken, e, k, n, to)
    ensures EndedAs(ResolveTable(t, at, e, to), taken, k, n, to) && AllConsumed(ResolveTable(t, at, e, to), taken)
  {
    if HoldsRow(t, e, k, n) { HeldIsTarget(t, e, k, n); }
  }

  lemma OthersKeepEnding(t: Table, u: Table, taken: set<Key>, w: set<Key>,
                         e: ExecutionId, k: Key, n: nat, to: NonceState)
    requires Ending(t, taken, e, k, n, to) && to != Reserved && Undisturbed(t, u, e) && Passed(t, u, w)
    requires AllConsumed(t, taken)
    ensures Ending(u, taken + w, e, k, n, to)
  {
    if HoldsRow(t, e, k, n) {
      OthersKeepHeld(t, u, e, k, n);
    } else {
      OthersKeepEnded(t, u, taken, w, k, n, to);
    }
  }

  /** A finished resolve call whose statement was committed, whatever it replied. */
  lemma ResolveCallEnds(t: Table, taken: set<Key>, now: int, call: seq<Event>,
                        e: ExecutionId, k: Key, n: nat, to: NonceState)
    requires ValidRun(t, now, call) && call != [] && call[0] == Resolve(call[0].at, e, to)
    requires NoneConcerns(call[1..], e) && AllConsumed(t, taken) && Ending(t, taken, e, k, n, to)
    ensures EndedAs(Run(t, now, call), taken + TakenOver(t, now, call, e), k, n, to)
  {
    var u, rest := Step(t, call[0]), call[1..];
    ResolveEnds(t, taken, call[0].at, e, k, n, to);
    assert forall i | 0 <= i < |rest| :: !Concerns(rest[i], e);
    PassedRun(u, call[0].at, rest, e);
    OthersKeepEnded(u, Run(u, call[0].at, rest), taken, TakenOver(u, call[0].at, rest, e), k, n, to);
    assert TakenOverBy(t, call[0], e) == {};
    assert TakenOver(t, now, call, e) == TakenOver(u, call[0].at, rest, e);
  }

  // ---- a resolve asked for again -------------------------------------------

  /** From the table that a resolve of the latest row left, whatever others commit. */
  lemma OthersKeepLatest(t: Table, now: int, evs: seq<Event>, e: ExecutionId, k: Key, to: NonceState, w: set<Key>)
    requires ValidRun(t, now, evs) && NoneConcerns(evs, e) && AllConsumed(t, w)
    requires to != Reserved && LatestAt(t, e, k) && EndedAs(t, w, k, t[k].nonce, to)
    ensures var u := Run(t, now, evs);
            LatestAt(u, e, k) && EndedAs(u, w + TakenOver(t, now, evs, e), k, t[k].nonce, to)
            && AllConsumed(u, w + TakenOver(t, now, evs, e))
  {
    forall i | 0 <= i < |evs| ensures !AsksFor(evs[i], e) { assert !Concerns(evs[i], e); }
    SettlesRun(t, now, evs, e);
    PassedRun(t, now, evs, e);
    TakenRun(t, now, evs, e, w);
    OthersKeepEnded(t, Run(t, now, evs), w, TakenOver(t, now, evs, e), k, t[k].nonce, to);
  }

  /** The rows taken over after the statement that began `call`, and while `again` ran. */
  ghost function TakenSince(t: Table, now: int, call: seq<Event>, again: seq<Event>, e: ExecutionId): set<Key>
    requires ValidRun(t, now, call) && ValidRun(Run(t, now, call), Clock(now, call), again)
  {
    TakenOver(t, now, call, e) + TakenOver(Run(t, now, call), Clock(now, call), again, e)
  }

  /** After a resolve that hit the execution's latest row, whatever its caller was told, the same
      resolve, asked for again after statements of others, is told Ok unless the row was released
      and then taken over, with no other row of the execution still reserved. */
  lemma RetryIsTold(t: Table, now: int, call: seq<Event>, again: seq<Event>, e: ExecutionId, to: NonceState,
                    k: Key, at: int, r: Result<(), LocalError>)
    requires to != Reserved && Target(t, e) == Some(k) && LatestAt(t, e, k)
    requires ValidRun(t, now, call) && call != [] && call[0] == Resolve(call[0].at, e, to)
    requires ValidRun(Run(t, now, call), Clock(now, call), again)
    requires NoneConcerns(call[1..], e) && again != [] && NoneConcerns(again[1..], e)
    requires ResolveServed(Run(t, now, call), Run(Run(t, now, call), Clock(now, call), again), e, to, at, Up, Up,
                           r, again)
    ensures r == Ok(()) <==>
            HasReserved(Run(t, now, call), e) || k !in TakenSince(t, now, call, again, e)
    ensures r == Ok(()) || (r == Err(Internal) && to == Released)
  {
    var u, rest := Step(t, call[0]), call[1..];
    var w1 := TakenOver(u, call[0].at, rest, e);
    assert u == SetState(t, k, to, call[0].at);
    assert TakenOver(t, now, call, e) == w1 by { assert TakenOverBy(t, call[0], e) == {}; }
    OthersKeepLatest(u, call[0].at, rest, e, k, to, {});
    assert {} + w1 == w1;
    var v, at2 := Run(t, now, call), Clock(now, call);
    assert v == Run(u, call[0].at, rest);
    ResolveCallTells(v, at2, e, to, at, r, again);
    var w2 := TakenOver(v, at2, again, e);
    assert TakenOverBy(v, again[0], e) == {};
    assert w2 == TakenOver(Step(v, again[0]), again[0].at, again[1..], e);
    RetryEnds(v, at2, again, e, to, k, at, w1);
    LatestIsOne(Run(v, at2, again), e, k);
  }

  lemma LatestIsOne(t: Table, e: ExecutionId, k: Key)
    requires LatestAt(t, e, k)
    ensures forall j | LatestAt(t, e, j) :: j == k
  {
  }

  lemma RetryEnds(t: Table, now: int, again: seq<Event>, e: ExecutionId, to: NonceState, k: Key, at: int, w: set<Key>)
    requires ValidRun(t, now, again) && again != [] && again[0] == Resolve(at, e, to) && NoneConcerns(again[1..], e)
    requires to != Reserved && AllConsumed(t, w) && LatestAt(t, e, k) && EndedAs(t, w, k, t[k].nonce, to)
    ensures LatestAt(Run(t, now, again), e, k)
    ensures EndedAs(Run(t, now, again), w + TakenOver(t, now, again, e), k, t[k].nonce, to)
  {
    var u := Step(t, again[0]);
    assert k in u && u[k] == t[k];
    assert TakenOverBy(t, again[0], e) == {};
    OthersKeepLatest(u, at, again[1..], e, k, to, w);
    assert TakenOver(t, now, again, e) == TakenOver(u, at, again[1..], e);
  }

  /** A finished call that does not finalize finalizes nothing of its execution. */
  lemma CallKeeps(t: Table, now: int, call: seq<Event>, e: ExecutionId)
    requires ValidRun(t, now, call) && NoFinal(t, e)
    requires call != [] ==> !Finalizes(call[0], e) && NoneConcerns(call[1..], e)
    ensures NoFinal(Run(t, now, call), e) && Audited(t, Run(t, now, call))
  {
    forall i | 0 <= i < |call| ensures !Finalizes(call[i], e) {
      if i > 0 { assert !Concerns(call[1..][i - 1], e); }
    }
    NoFinalRun(t, now, call, e);
    AuditRun(t, now, call);
  }

  lemma CallPasses(t: Table, now: int, call: seq<Event>, e: ExecutionId)
    requires ValidRun(t, now, call)
    requires call != [] ==> !call[0].Reserve? && NoneConcerns(call[1..], e)
    ensures Passed(t, Run(t, now, call), TakenOver(t, now, call, e))
  {
    forall i | 0 <= i < |call| ensures !(call[i].Reserve? && call[i].exec == e) {
      if i > 0 { assert !Concerns(call[1..][i - 1], e); }
    }
    PassedRun(t, now, call, e);
  }

  // ---- the sender ----------------------------------------------------------

  ghost predicate OwnedBy(t: Table, e: ExecutionId, s: Sender) {
    forall k | k in t && k.exec == e :: t[k].sender == s
  }

  /** Whatever `e` asks for, it asks as `s`. */
  predicate AsksAs(evs: seq<Event>, e: ExecutionId, s: Sender) {
    forall i | 0 <= i < |evs| :: AsksFor(evs[i], e) ==> evs[i].sender == s
  }

  lemma {:induction false} OwnedByRun(t: Table, now: int, evs: seq<Event>, e: ExecutionId, s: Sender)
    requires ValidRun(t, now, evs) && OwnedBy(t, e, s) && AsksAs(evs, e, s)
    ensures OwnedBy(Run(t, now, evs), e, s)
    decreases evs
  {
    if evs != [] {
      assert AsksFor(evs[0], e) ==> evs[0].sender == s;
      OwnedByRun(Step(t, evs[0]), evs[0].at, evs[1..], e, s);
    }
  }

  lemma CallAsksAs(call: seq<Event>, e: ExecutionId, s: Sender)
    requires call != [] ==> (AsksFor(call[0], e) ==> call[0].sender == s) && NoneConcerns(call[1..], e)
    ensures AsksAs(call, e, s)
  {
    forall i | 0 < i < |call| ensures !Concerns(call[i], e) { assert !Concerns(call[1..][i - 1], e); }
  }

  // ---- staying inside the lease --------------------------------------------

  ghost predicate YoungRows(t: Table, e: ExecutionId, since: int) {
    forall k | k in t && k.exec == e :: t[k].updatedAt >= since
  }

  lemma {:induction false} YoungRun(t: Table, now: int, evs: seq<Event>, e: ExecutionId, since: int)
    requires ValidRun(t, now, evs) && since <= now && YoungRows(t, e, since)
    ensures YoungRows(Run(t, now, evs), e, since) && now <= Clock(now, evs)
    decreases evs
  {
    if evs != [] {
      YoungRun(Step(t, evs[0]), evs[0].at, evs[1..], e, since);
      assert Clock(now, evs) == Clock(evs[0].at, evs[1..]);
    }
  }

  /** The sweeper leaves alone an execution whose rows all date from the last 2 min 5 s. */
  lemma {:induction false} LeaseKeepsSweeperOut(t: Table, now: int, evs: seq<Event>, e: ExecutionId, since: int)
    requires ValidRun(t, now, evs) && since <= now && YoungRows(t, e, since)
    requires Clock(now, evs) <= since + SWEEP_AGE
    ensures NoneSweeps(evs, e)
    decreases evs
  {
    if evs != [] {
      var ev, u := evs[0], Step(t, evs[0]);
      YoungRun(u, ev.at, evs[1..], e, since);
      assert Clock(now, evs) == Clock(ev.at, evs[1..]);
      LeaseKeepsSweeperOut(u, ev.at, evs[1..], e, since);
      assert !Sweeps(ev, e) by {
        if ev.Sweep? { assert forall k | k in ev.keys :: StaleHead(t, ev.at, k); }
      }
      assert forall i | 0 < i < |evs| :: evs[i] == evs[1..][i - 1];
    }
  }
}
