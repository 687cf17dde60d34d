/** One nonce, two executions: the ledger's runs and the sends together say how the node can be
    given a nonce twice. */
module NonceReuse {
  import opened Types
  import opened Revisions
  import opened Ledger
  import opened LedgerInvariants
  import opened NonceActor
  import opened NonceDisposition
  import opened Eip1559Wire
  import B = Broadcast

  /** The m-th statement sweeps a row of `e` that had outlived its lease. */
  ghost predicate Outlives(t: Table, now: int, evs: seq<Event>, m: int, e: ExecutionId)
    requires ValidRun(t, now, evs)
  {
    0 <= m < |evs| && evs[m].Sweep?
    && exists k | k in evs[m].keys :: k.exec == e && StaleHead(TableAt(t, now, evs, m), evs[m].at, k)
  }

  /** The m-th statement is `e`'s own, and releases or consumes the nonce `n` it held as `s`. */
  ghost predicate GivesBack(t: Table, now: int, evs: seq<Event>, m: int, e: ExecutionId, s: Sender, n: nat)
    requires ValidRun(t, now, evs)
  {
    0 <= m < |evs| && evs[m].Resolve? && evs[m].exec == e
    && exists k :: GivesUp(t, now, evs, m, k) && k.exec == e && Reserves(TableAt(t, now, evs, m), k, s, n)
  }

  ghost predicate Reserves(t: Table, k: Key, s: Sender, n: nat) {
    k in t && t[k].state == Reserved && t[k].sender == s && t[k].nonce == n
  }

  ghost predicate SweptBefore(evs: seq<Event>, i: int, e: ExecutionId) {
    exists m | 0 <= m < i && m < |evs| :: Sweeps(evs[m], e)
  }

  /** How the pipeline sends: `when` tells how many ledger statements came before each send. If
      it was answered Ok, the execution held the row of the nonce on the wire, unless swept. */
  ghost predicate SendsHolding(t: Table, now: int, evs: seq<Event>, wire: B.State, when: seq<nat>,
                               own: ExecutionId -> Sender)
    requires ValidRun(t, now, evs)
  {
    |when| == |wire.sent| && forall x | 0 <= x < |when| && wire.sent[x].reply.Accepted? ::
      when[x] <= |evs| && SendsFrom(t, now, evs, when[x], wire.sent[x], own(wire.sent[x].exec))
  }

  ghost predicate SendsFrom(t: Table, now: int, evs: seq<Event>, i: nat, sent: B.Sent, s: Sender)
    requires ValidRun(t, now, evs) && i <= |evs|
  {
    SweptBefore(evs, i, sent.exec)
    || (WireNonce(sent.txn).Some?
        && exists k: Key :: k.exec == sent.exec && Reserves(TableAt(t, now, evs, i), k, s, WireNonce(sent.txn).value))
  }

  /** Some sweep of the run found a row of `e` older than 2 min 5 s. */
  ghost predicate OutlivedLease(t: Table, now: int, evs: seq<Event>, e: ExecutionId)
    requires ValidRun(t, now, evs)
  {
    exists m :: Outlives(t, now, evs, m, e)
  }

  /** `e` released or consumed the nonce at or after the i-th statement. */
  ghost predicate GaveBack(t: Table, now: int, evs: seq<Event>, i: nat, e: ExecutionId, s: Sender, n: nat)
    requires ValidRun(t, now, evs)
  {
    exists m :: i <= m && GivesBack(t, now, evs, m, e, s, n)
  }

  lemma SweptOutlives(t: Table, now: int, evs: seq<Event>, i: int, e: ExecutionId)
    requires ValidRun(t, now, evs) && SweptBefore(evs, i, e)
    ensures OutlivedLease(t, now, evs, e)
  {
    var m :| 0 <= m < i && m < |evs| && Sweeps(evs[m], e);
    StepAt(t, now, evs, m);
    assert Outlives(t, now, evs, m, e);
  }

  lemma HeldTwice(t: Table, now: int, evs: seq<Event>, i: nat, j: nat, k: Key, l: Key, s: Sender, n: nat)
    requires Inv(t, now) && ValidRun(t, now, evs) && i <= j <= |evs| && k.exec != l.exec
    requires Reserves(TableAt(t, now, evs, i), k, s, n) && Reserves(TableAt(t, now, evs, j), l, s, n)
    ensures OutlivedLease(t, now, evs, k.exec) || GaveBack(t, now, evs, i, k.exec, s, n)
  {
    var m := NonceHeldTwice(t, now, evs, i, j, k, l);
    StepAt(t, now, evs, m);
    AuditAt(t, now, evs, i, m);
    assert Reserves(TableAt(t, now, evs, m), k, s, n);
    if evs[m].Sweep? {
      assert Outlives(t, now, evs, m, k.exec);
    } else {
      assert GivesBack(t, now, evs, m, k.exec, s, n);
    }
  }

  lemma AnsweredInTurn(t: Table, now: int, evs: seq<Event>, wire: B.State, when: seq<nat>,
                       own: ExecutionId -> Sender, x: nat, y: nat, n: nat)
    requires Inv(t, now) && ValidRun(t, now, evs) && SendsHolding(t, now, evs, wire, when, own)
    requires x < |when| && y < |when| && when[x] <= when[y] && wire.sent[x].exec != wire.sent[y].exec
    requires wire.sent[x].reply.Accepted? && wire.sent[y].reply.Accepted?
    requires own(wire.sent[x].exec) == own(wire.sent[y].exec)
    requires WireNonce(wire.sent[x].txn) == Some(n) && WireNonce(wire.sent[y].txn) == Some(n)
    ensures var e, f := wire.sent[x].exec, wire.sent[y].exec;
            when[x] <= |evs|
            && (OutlivedLease(t, now, evs, e) || OutlivedLease(t, now, evs, f)
                || GaveBack(t, now, evs, when[x], e, own(e), n))
  {
    var e, f := wire.sent[x].exec, wire.sent[y].exec;
    assert SendsFrom(t, now, evs, when[x], wire.sent[x], own(e))
           && SendsFrom(t, now, evs, when[y], wire.sent[y], own(f));
    if SweptBefore(evs, when[x], e) {
      SweptOutlives(t, now, evs, when[x], e);
    } else if SweptBefore(evs, when[y], f) {
      SweptOutlives(t, now, evs, when[y], f);
    } else {
      var k: Key :| k.exec == e && Reserves(TableAt(t, now, evs, when[x]), k, own(e), n);
      var l: Key :| l.exec == f && Reserves(TableAt(t, now, evs, when[y]), l, own(f), n);
      HeldTwice(t, now, evs, when[x], when[y], k, l, own(e), n);
    }
  }

  /** Two Ok answers for transactions of one sender with one nonce are of two executions, and
      one of them outlived its lease, or gave the nonce back after its Ok answer. */
  lemma NonceAnsweredTwice(t: Table, now: int, evs: seq<Event>, wire: B.State, when: seq<nat>,
                           own: ExecutionId -> Sender, x: nat, y: nat, n: nat)
    requires Inv(t, now) && ValidRun(t, now, evs) && B.AtMostOnce(wire) && SendsHolding(t, now, evs, wire, when, own)
    requires x < |when| && y < |when| && x != y
    requires wire.sent[x].reply.Accepted? && wire.sent[y].reply.Accepted?
    requires own(wire.sent[x].exec) == own(wire.sent[y].exec)
    requires WireNonce(wire.sent[x].txn) == Some(n) && WireNonce(wire.sent[y].txn) == Some(n)
    ensures var e, f := wire.sent[x].exec, wire.sent[y].exec;
            && e != f && when[x] <= |evs| && when[y] <= |evs|
            && (OutlivedLease(t, now, evs, e) || OutlivedLease(t, now, evs, f)
                || GaveBack(t, now, evs, when[x], e, own(e), n) || GaveBack(t, now, evs, when[y], f, own(f), n))
  {
    assert B.AcceptedFor(wire, x, wire.sent[x].exec) && B.AcceptedFor(wire, y, wire.sent[y].exec);
    if when[x] <= when[y] {
      AnsweredInTurn(t, now, evs, wire, when, own, x, y, n);
    } else {
      AnsweredInTurn(t, now, evs, wire, when, own, y, x, n);
    }
  }
}
