/** Broadcasting: the lease row of an execution, the RPC send, and the outcome update, as a
    state machine in which any statement may fail and any caller may vanish. */
module Broadcast {
  import opened Types
  import opened Revisions
  import opened LeaseTable

  type Bytes = seq<byte>

  /** What becomes of one `eth_sendRawTransaction`: answered Ok, refused by the node, or taken
      by the node while the caller gets an error, as when the answer times out. */
  datatype SendReply = Accepted(hash: Hash) | Refused | Unheard

  /** A caller that claimed a row: about to send, or with a reply to record. */
  datatype Session = Sending | Replied(reply: SendReply)

  /** One transaction handed to the RPC, and what it answered. */
  datatype Sent = Sent(exec: ExecutionId, txn: Bytes, reply: SendReply)

  datatype State = State(rows: Table<Hash>, sessions: map<Key, Session>, sent: seq<Sent>)

  /** One atomic step. A caller whose statement fails, or that crashes, drops its session. */
  datatype Step =
    | Claim(at: int, exec: ExecutionId)
    | Send(key: Key, txn: Bytes, reply: SendReply)
    | Record(at: int, key: Key)
    | Drop(key: Key)

  predicate Enabled(s: State, step: Step) {
    match step
    case Claim(_, _) => true
    case Send(k, _, _) => k in s.sessions && s.sessions[k].Sending?
    case Record(_, k) => k in s.sessions && s.sessions[k].Replied?
    case Drop(k) => k in s.sessions
  }

  ghost function Next(s: State, step: Step): State
    requires Enabled(s, step)
  {
    match step
    case Claim(at, e) =>
      var c := ClaimOutcome(s.rows, at, e);
      State(AfterClaim(s.rows, at, e), if c.Claimed? then s.sessions[c.key := Sending] else s.sessions, s.sent)
    case Send(k, txn, reply) =>
      State(s.rows, s.sessions[k := Replied(reply)], s.sent + [Sent(k.exec, txn, reply)])
    case Record(at, k) =>
      var reply := s.sessions[k].reply;
      State(Set(s.rows, k, if reply.Accepted? then Settled(reply.hash) else Freed, at), s.sessions - {k}, s.sent)
    case Drop(k) =>
      State(s.rows, s.sessions - {k}, s.sent)
  }

  ghost predicate ValidRun(s: State, steps: seq<Step>)
    decreases steps
  {
    steps == [] || (Enabled(s, steps[0]) && ValidRun(Next(s, steps[0]), steps[1..]))
  }

  ghost function Run(s: State, steps: seq<Step>): State
    requires ValidRun(s, steps)
    decreases steps
  {
    if steps == [] then s else Run(Next(s, steps[0]), steps[1..])
  }

  function Init(): State {
    State(map[], map[], [])
  }

  // ---- what every step keeps -----------------------------------------------

  /** Send `i` was for `e` and was answered Ok. */
  predicate AcceptedFor(s: State, i: int, e: ExecutionId) {
    0 <= i < |s.sent| && s.sent[i].exec == e && s.sent[i].reply.Accepted?
  }

  /** The execution of acceptance `i` has an active row that no caller may send for or free,
      and that can only be settled with the accepted hash. */
  ghost predicate Shields(s: State, i: nat, k: Key)
    requires i < |s.sent| && s.sent[i].reply.Accepted?
  {
    && k in s.rows && k.exec == s.sent[i].exec
    && (s.rows[k].phase == Settled(s.sent[i].reply.hash)
        || (s.rows[k].phase.Pending? && (k in s.sessions ==> s.sessions[k] == Replied(s.sent[i].reply))))
  }

  /** At most one send per execution was answered Ok. */
  ghost predicate AtMostOnce(s: State) {
    forall e, i, j | AcceptedFor(s, i, e) && AcceptedFor(s, j, e) :: i == j
  }

  /** No send of the execution was answered Ok. */
  ghost predicate NoOkFor(s: State, e: ExecutionId) {
    forall i :: !AcceptedFor(s, i, e)
  }

  ghost predicate WasAccepted(s: State, e: ExecutionId, h: Hash) {
    exists i :: AcceptedFor(s, i, e) && s.sent[i].reply.hash == h
  }

  ghost predicate SessionsPending(s: State) {
    forall k | k in s.sessions :: k in s.rows && s.rows[k].phase.Pending?
  }

  ghost predicate Shielded(s: State) {
    forall i | 0 <= i < |s.sent| && s.sent[i].reply.Accepted? :: exists k :: Shields(s, i, k)
  }

  /** A hash in a row or about to be recorded is one the RPC returned for the execution. */
  ghost predicate HashesReal(s: State) {
    && (forall k {:trigger WasAccepted(s, k.exec, s.rows[k].phase.data)} | k in s.rows && s.rows[k].phase.Settled? ::
          WasAccepted(s, k.exec, s.rows[k].phase.data))
    && (forall k {:trigger WasAccepted(s, k.exec, s.sessions[k].reply.hash)}
          | k in s.sessions && s.sessions[k].Replied? && s.sessions[k].reply.Accepted? ::
          WasAccepted(s, k.exec, s.sessions[k].reply.hash))
  }

  ghost predicate Good(s: State) {
    Inv(s.rows) && SessionsPending(s) && AtMostOnce(s) && Shielded(s) && HashesReal(s)
  }

  /** A caller about to send, or told of an error, works for an execution no send of which
      was answered Ok. */
  lemma NoOkBefore(s: State, k: Key, i: nat)
    requires Good(s) && k in s.sessions && (s.sessions[k].Replied? ==> !s.sessions[k].reply.Accepted?)
    ensures !AcceptedFor(s, i, k.exec)
  {
    if AcceptedFor(s, i, k.exec) {
      var j :| Shields(s, i, j);
      ActiveIsLatest(s.rows, j);
      ActiveIsLatest(s.rows, k);
      assert false;
    }
  }

  /** An execution that can still claim had no send answered Ok. */
  lemma FreeMeansNoOk(s: State, at: int, e: ExecutionId)
    requires Good(s) && ClaimOutcome(s.rows, at, e).Claimed?
    ensures NoOkFor(s, e)
  {
    ClaimSucceedsIff(s.rows, at, e);
    forall i ensures !AcceptedFor(s, i, e) {
      if AcceptedFor(s, i, e) { assert false; }
    }
  }

  lemma KeepsAccepted(s: State, u: State)
    requires s.sent <= u.sent
    ensures forall e, h | WasAccepted(s, e, h) :: WasAccepted(u, e, h)
  {
    forall e, h | WasAccepted(s, e, h) ensures WasAccepted(u, e, h) {
      var i :| AcceptedFor(s, i, e) && s.sent[i].reply.hash == h;
      assert AcceptedFor(u, i, e);
    }
  }

  lemma ClaimShields(s: State, at: int, e: ExecutionId)
    requires Shielded(s)
    ensures Shielded(Next(s, Claim(at, e)))
  {
    var u := Next(s, Claim(at, e));
    FreshKey(s.rows, e);
    ClaimSucceedsIff(s.rows, at, e);
    forall i | 0 <= i < |u.sent| && u.sent[i].reply.Accepted? ensures exists k :: Shields(u, i, k) {
      var k :| Shields(s, i, k);
      assert Shields(u, i, k);
    }
  }

  lemma SameSentAtMostOnce(s: State, u: State)
    requires AtMostOnce(s) && u.sent == s.sent
    ensures AtMostOnce(u)
  {
    assert forall e, i | AcceptedFor(u, i, e) :: AcceptedFor(s, i, e);
  }

  lemma GoodClaim(s: State, at: int, e: ExecutionId)
    requires Good(s)
    ensures Good(Next(s, Claim(at, e)))
  {
    var u := Next(s, Claim(at, e));
    InvClaim(s.rows, at, e);
    KeepsAccepted(s, u);
    FreshKey(s.rows, e);
    ClaimShields(s, at, e);
    SameSentAtMostOnce(s, u);
  }

  lemma GoodSend(s: State, k: Key, txn: Bytes, reply: SendReply)
    requires Good(s) && Enabled(s, Send(k, txn, reply))
    ensures Good(Next(s, Send(k, txn, reply)))
  {
    var u, n := Next(s, Send(k, txn, reply)), |s.sent|;
    KeepsAccepted(s, u);
    forall i: nat ensures !AcceptedFor(s, i, k.exec) { NoOkBefore(s, k, i); }
    forall i | 0 <= i < |u.sent| && u.sent[i].reply.Accepted? ensures exists j :: Shields(u, i, j) {
      if i == n {
        assert Shields(u, n, k);
      } else {
        assert AcceptedFor(s, i, s.sent[i].exec);
        var j :| Shields(s, i, j);
        assert Shields(u, i, j);
      }
    }
    assert forall x, i | AcceptedFor(u, i, x) :: AcceptedFor(s, i, x) || (i == n && x == k.exec);
    assert reply.Accepted? ==> AcceptedFor(u, n, k.exec);
  }

  lemma RecordShields(s: State, at: int, k: Key)
    requires Good(s) && Enabled(s, Record(at, k))
    ensures Shielded(Next(s, Record(at, k)))
  {
    var u, reply := Next(s, Record(at, k)), s.sessions[k].reply;
    forall i | 0 <= i < |u.sent| && u.sent[i].reply.Accepted? ensures exists j :: Shields(u, i, j) {
      assert AcceptedFor(s, i, s.sent[i].exec);
      if !reply.Accepted? { NoOkBefore(s, k, i); }
      var j :| Shields(s, i, j);
      assert Shields(u, i, j);
    }
  }

  lemma GoodRecord(s: State, at: int, k: Key)
    requires Good(s) && Enabled(s, Record(at, k))
    ensures Good(Next(s, Record(at, k)))
  {
    var u, reply := Next(s, Record(at, k)), s.sessions[k].reply;
    InvSet(s.rows, k, if reply.Accepted? then Settled(reply.hash) else Freed, at);
    KeepsAccepted(s, u);
    RecordShields(s, at, k);
    SameSentAtMostOnce(s, u);
  }

  lemma GoodDrop(s: State, k: Key)
    requires Good(s) && Enabled(s, Drop(k))
    ensures Good(Next(s, Drop(k)))
  {
    var u := Next(s, Drop(k));
    KeepsAccepted(s, u);
    forall i | 0 <= i < |u.sent| && u.sent[i].reply.Accepted? ensures exists j :: Shields(u, i, j) {
      var j :| Shields(s, i, j);
      assert Shields(u, i, j);
    }
    assert forall x, i | AcceptedFor(u, i, x) :: AcceptedFor(s, i, x);
  }

  lemma GoodNext(s: State, step: Step)
    requires Good(s) && Enabled(s, step)
    ensures Good(Next(s, step))
  {
    match step
    case Claim(at, e) => GoodClaim(s, at, e);
    case Send(k, txn, reply) => GoodSend(s, k, txn, reply);
    case Record(at, k) => GoodRecord(s, at, k);
    case Drop(k) => GoodDrop(s, k);
  }

  /** Whatever the interleaving, the failures and the retries, at most one send per execution
      is answered Ok. */
  lemma {:induction false} OkAtMostOnce(s: State, steps: seq<Step>)
    requires Good(s) && ValidRun(s, steps)
    ensures Good(Run(s, steps)) && AtMostOnce(Run(s, steps))
    decreases steps
  {
    if steps != [] {
      GoodNext(s, steps[0]);
      OkAtMostOnce(Next(s, steps[0]), steps[1..]);
    }
  }

  // ---- replies to later calls ----------------------------------------------

  datatype BroadcastError =
    | Internal | DatabaseError | Invariant | MissingProvider | Rejected | Unexpected
    | NonceTooLow(onChain: nat, attempted: nat) | RpcError

  /** Errors after which a transaction of the execution may have been answered Ok. */
  predicate KeepsNonce(err: BroadcastError) {
    err.Internal? || err.DatabaseError? || err.Invariant?
  }

  /** What a call that could not claim is told, from the execution's latest row. */
  ghost function ReplyFrom(rows: Table<Hash>, e: ExecutionId): Result<Hash, BroadcastError> {
    match Latest(rows, e)
    case None => Err(BroadcastError.DatabaseError)
    case Some(row) =>
      match row.phase
      case Settled(h) => Ok(h)
      case Freed => Err(BroadcastError.Rejected)
      case Pending => Err(BroadcastError.DatabaseError)
  }

  /** No caller can touch the row at `k` any more: it is submitted, or pending and abandoned. */
  ghost predicate Closed(s: State, k: Key) {
    k in s.rows && k !in s.sessions && Active(s.rows[k])
  }

  /** Which of the sends were made for an execution. */
  function SendsOf(s: State, e: ExecutionId): set<nat> {
    set i: nat | i < |s.sent| && s.sent[i].exec == e
  }

  lemma ClosedStays(s: State, k: Key, step: Step)
    requires Good(s) && Enabled(s, step) && Closed(s, k)
    ensures Closed(Next(s, step), k) && Next(s, step).rows[k] == s.rows[k]
  {
    match step
    case Claim(at, e) => FreshKey(s.rows, e);
    case _ =>
  }

  /** Once an execution's row is submitted, or was abandoned, no later call claims or sends,
      and each is told the same: the submitted hash, or a database error for ever. */
  lemma {:induction false} ClosedForever(s: State, k: Key, steps: seq<Step>)
    requires Good(s) && ValidRun(s, steps) && Closed(s, k)
    ensures var u := Run(s, steps);
            && Closed(u, k) && u.rows[k] == s.rows[k]
            && (forall at :: !ClaimOutcome(u.rows, at, k.exec).Claimed?)
            && SendsOf(u, k.exec) == SendsOf(s, k.exec)
            && ReplyFrom(u.rows, k.exec) == (if s.rows[k].phase.Settled? then Ok(s.rows[k].phase.data)
                                             else Err(BroadcastError.DatabaseError))
    decreases steps
  {
    if steps == [] {
      ActiveIsLatest(s.rows, k);
    } else {
      var u := Next(s, steps[0]);
      ClosedStays(s, k, steps[0]);
      GoodNext(s, steps[0]);
      if steps[0].Send? && steps[0].key.exec == k.exec {
        ActiveIsLatest(s.rows, k);
        ActiveIsLatest(s.rows, steps[0].key);
        assert false;
      }
      assert SendsOf(u, k.exec) == SendsOf(s, k.exec);
      ClosedForever(u, k, steps[1..]);
    }
  }

  // ---- what the node holds -------------------------------------------------

  /** The node took send `i` of the execution, whatever the caller was told. */
  predicate TakenFor(s: State, i: int, e: ExecutionId) {
    0 <= i < |s.sent| && s.sent[i].exec == e && !s.sent[i].reply.Refused?
  }

  predicate LostFor(s: State, i: int, e: ExecutionId) {
    0 <= i < |s.sent| && s.sent[i].exec == e && s.sent[i].reply.Unheard?
  }

  /** The node holds at most one transaction of the execution. */
  ghost predicate OneTransaction(s: State, e: ExecutionId) {
    forall i, j | TakenFor(s, i, e) && TakenFor(s, j, e) :: s.sent[i].txn == s.sent[j].txn
  }

  ghost predicate LostOther(s: State, e: ExecutionId, txn: Bytes) {
    exists i :: LostFor(s, i, e) && s.sent[i].txn != txn
  }

  /** Without a lost reply the node takes an execution's transaction at most once. */
  lemma TakenTwiceMeansLost(s: State, e: ExecutionId, i: int, j: int)
    requires Good(s) && TakenFor(s, i, e) && TakenFor(s, j, e) && i != j
    ensures LostFor(s, i, e) || LostFor(s, j, e)
  {
    assert !(AcceptedFor(s, i, e) && AcceptedFor(s, j, e));
  }

  /** A send gives the node a second transaction of its execution exactly when the node takes
      it and the reply to an earlier, different one was lost. */
  lemma SecondTransactionIff(s: State, k: Key, txn: Bytes, reply: SendReply)
    requires Good(s) && Enabled(s, Send(k, txn, reply)) && OneTransaction(s, k.exec)
    ensures !OneTransaction(Next(s, Send(k, txn, reply)), k.exec)
            <==> !reply.Refused? && LostOther(s, k.exec, txn)
  {
    var u, n, e := Next(s, Send(k, txn, reply)), |s.sent|, k.exec;
    assert forall i | i != n :: TakenFor(u, i, e) <==> TakenFor(s, i, e);
    forall i: nat | TakenFor(s, i, e) ensures LostFor(s, i, e) { NoOkBefore(s, k, i); }
    if !reply.Refused? && LostOther(s, e, txn) {
      var i :| LostFor(s, i, e) && s.sent[i].txn != txn;
      assert TakenFor(u, i, e) && TakenFor(u, n, e);
    }
  }

  /** A call that claims its row and sends gives the node a second transaction. */
  ghost predicate Doubles(s: State, at: int, e: ExecutionId, txn: Bytes, reply: SendReply)
    requires ClaimOutcome(s.rows, at, e).Claimed?
  {
    var u := Next(s, Claim(at, e));
    !OneTransaction(Next(u, Send(ClaimOutcome(s.rows, at, e).key, txn, reply)), e)
  }

  /** Whoever may still broadcast for an execution can give the node a second transaction of
      it exactly when the reply to one of its sends was lost. */
  lemma ExposedIff(s: State, at: int, e: ExecutionId)
    requires Good(s) && OneTransaction(s, e) && ClaimOutcome(s.rows, at, e).Claimed?
    ensures (exists txn, reply :: Doubles(s, at, e, txn, reply)) <==> (exists i :: LostFor(s, i, e))
  {
    var u, k := Next(s, Claim(at, e)), ClaimOutcome(s.rows, at, e).key;
    GoodClaim(s, at, e);
    assert forall i :: TakenFor(u, i, e) == TakenFor(s, i, e) && LostFor(u, i, e) == LostFor(s, i, e);
    assert OneTransaction(u, e);
    forall txn, reply ensures Doubles(s, at, e, txn, reply) <==> !reply.Refused? && LostOther(u, e, txn) {
      SecondTransactionIff(u, k, txn, reply);
    }
    if i :| LostFor(s, i, e) {
      var other := s.sent[i].txn + [0];
      assert LostFor(u, i, e) && u.sent[i].txn != other;
      assert Doubles(s, at, e, other, Unheard);
    }
  }

  /** After a freed row, the execution claims again, and its second send is answered Ok. */
  lemma SendsAgain(s: State, e: ExecutionId, b: Bytes, h: Hash)
    requires s.rows == map[Key(e, 1) := Row(Freed, 0)] && s.sessions == map[]
    ensures var rest := [Claim(0, e), Send(Key(e, 2), b, Accepted(h))];
            ValidRun(s, rest) && Run(s, rest).sent == s.sent + [Sent(e, b, Accepted(h))]
  {
    assert s.rows[Key(e, 1)].phase.Freed?;
    ClaimGives(s.rows, 0, e, 1);
    var claim, send := Claim(0, e), Send(Key(e, 2), b, Accepted(h));
    var u := Next(s, claim);
    RunThen(u, send, []);
    RunThen(s, claim, [send] + []);
    assert [claim, send] == [claim] + ([send] + []);
  }

  /** The steps by which an execution makes two sends, the reply to the first of them lost. */
  function TwoSends(e: ExecutionId, a: Bytes, b: Bytes, h: Hash): seq<Step> {
    [Claim(0, e), Send(Key(e, 1), a, Unheard), Record(0, Key(e, 1))] + [Claim(0, e), Send(Key(e, 2), b, Accepted(h))]
  }

  /** The node can come to hold two transactions of one execution: the reply to the first is
      lost, the row is freed, and a second, different one is answered Ok. */
  lemma DoubleSubmission(e: ExecutionId, a: Bytes, b: Bytes, h: Hash)
    requires a != b
    ensures ValidRun(Init(), TwoSends(e, a, b, h))
    ensures var s := Run(Init(), TwoSends(e, a, b, h));
            TakenFor(s, 0, e) && TakenFor(s, 1, e) && !OneTransaction(s, e)
  {
    var s3 := State(map[Key(e, 1) := Row(Freed, 0)], map[], [Sent(e, a, Unheard)]);
    SendsAgain(s3, e, b, h);
    FirstLost(e, a, s3, [Claim(0, e), Send(Key(e, 2), b, Accepted(h))]);
    assert Run(Init(), TwoSends(e, a, b, h)).sent == [Sent(e, a, Unheard), Sent(e, b, Accepted(h))];
  }

  lemma FirstLost(e: ExecutionId, a: Bytes, s: State, rest: seq<Step>)
    requires s == State(map[Key(e, 1) := Row(Freed, 0)], map[], [Sent(e, a, Unheard)]) && ValidRun(s, rest)
    ensures var steps := [Claim(0, e), Send(Key(e, 1), a, Unheard), Record(0, Key(e, 1))] + rest;
            ValidRun(Init(), steps) && Run(Init(), steps) == Run(s, rest)
  {
    var j := Key(e, 1);
    var r0: Table<Hash>, r1: Table<Hash> := map[], map[j := Row(Pending, 0)];
    ClaimGives(r0, 0, e, 0);
    var s1, s2 := State(r1, map[j := Sending], []), State(r1, map[j := Replied(Unheard)], [Sent(e, a, Unheard)]);
    assert Next(Init(), Claim(0, e)) == s1 && Next(s1, Send(j, a, Unheard)) == s2 && Next(s2, Record(0, j)) == s;
    RunThen(s2, Record(0, j), rest);
    RunThen(s1, Send(j, a, Unheard), [Record(0, j)] + rest);
    RunThen(Init(), Claim(0, e), [Send(j, a, Unheard)] + ([Record(0, j)] + rest));
    assert [Claim(0, e), Send(j, a, Unheard), Record(0, j)] + rest
        == [Claim(0, e)] + ([Send(j, a, Unheard)] + ([Record(0, j)] + rest));
  }

  lemma RunThen(s: State, step: Step, rest: seq<Step>)
    requires Enabled(s, step) && ValidRun(Next(s, step), rest)
    ensures ValidRun(s, [step] + rest) && Run(s, [step] + rest) == Run(Next(s, step), rest)
  {
    assert ([step] + rest)[1..] == rest;
  }
}
