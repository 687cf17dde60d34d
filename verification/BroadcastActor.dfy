/** The broadcast actor as a program whose every statement is a step of the machine. */
module BroadcastActor {
  import opened Types
  import opened Revisions
  import opened LeaseTable
  import opened Broadcast
  import opened Eip1559
  import opened Channels

  lemma {:induction false} AppendStep(s: State, steps: seq<Step>, step: Step)
    requires ValidRun(s, steps) && Enabled(Run(s, steps), step)
    ensures ValidRun(s, steps + [step]) && Run(s, steps + [step]) == Next(Run(s, steps), step)
    decreases steps
  {
    if steps == [] {
      assert [] + [step] == [step] && [step][1..] == [];
      assert ValidRun(Next(s, step), []);
    } else {
      AppendStep(Next(s, steps[0]), steps[1..], step);
      assert (steps + [step])[1..] == steps[1..] + [step];
    }
  }

  lemma RunOne(s: State, step: Step)
    requires Enabled(s, step)
    ensures ValidRun(s, [step]) && Run(s, [step]) == Next(s, step)
  {
    assert [step][1..] == [];
    assert ValidRun(Next(s, step), []);
  }

  /** One more send was made, for this execution and with these bytes. */
  ghost predicate OneSend(before: seq<Sent>, after: seq<Sent>, e: ExecutionId, txn: Bytes) {
    exists reply :: after == before + [Sent(e, txn, reply)]
  }

  lemma SameSends(s: State, u: State, e: ExecutionId)
    requires NoOkFor(s, e) && u.sent == s.sent
    ensures NoOkFor(u, e)
  {
    forall i ensures !AcceptedFor(u, i, e) { assert !AcceptedFor(s, i, e); }
  }

  lemma OneMoreSend(s: State, u: State, e: ExecutionId, txn: Bytes, reply: SendReply)
    requires NoOkFor(s, e) && u.sent == s.sent + [Sent(e, txn, reply)]
    ensures if reply.Accepted? then AcceptedFor(u, |s.sent|, e) else NoOkFor(u, e)
  {
    forall i | i != |s.sent| ensures !AcceptedFor(u, i, e) { assert !AcceptedFor(s, i, e); }
  }

  // ---- what a request comes to ---------------------------------------------

  /** How the insert, the read after a refused one, and the update run. */
  datatype Statements = Statements(claim: Db, read: Db, update: Db)

  /** What the node does with the transaction, whether its error speaks of a nonce, and what
      it says of the account when asked. */
  datatype NodeAnswer = NodeAnswer(reply: SendReply, mentionsNonce: bool, onChain: Option<nat>)

  /** The outcome goes into the row, unless the account was asked for in vain. */
  predicate Recordable(node: NodeAnswer) {
    node.reply.Accepted? || !node.mentionsNonce || node.onChain.Some?
  }

  function Verdict(node: NodeAnswer, txn: SignedTransaction): Result<Hash, BroadcastError>
    requires Recordable(node)
  {
    match node.reply
    case Accepted(h) => Ok(h)
    case _ =>
      Err(if node.mentionsNonce then NonceTooLow(node.onChain.value, txn.withNonce) else BroadcastError.Rejected)
  }

  /** The row at `k` holds the outcome, if that was recorded, and one more send was made. */
  ghost function AfterSend(s: State, k: Key, txn: SignedTransaction, at: int, update: Db, node: NodeAnswer): State {
    State(if update.Down? || !Recordable(node) then s.rows
          else s.rows[k := Row(if node.reply.Accepted? then Settled(node.reply.hash) else Freed, at)],
          s.sessions - {k}, s.sent + [Sent(k.exec, txn.rlp, node.reply)])
  }

  /** The reply to a broadcast request and the new state, for every outcome of the statements and
      every answer of the node, told from the execution's latest row. */
  ghost predicate BroadcastServed(s: State, u: State, chain: nat, e: ExecutionId, txn: SignedTransaction, at: int,
                                  db: Statements, node: NodeAnswer, r: Result<Hash, BroadcastError>)
  {
    if chain > I64_MAX then u == s && r == Err(BroadcastError.Invariant)
    else if db.claim.Down? then u == s && r == Err(BroadcastError.DatabaseError)
    else
      match Latest(s.rows, e)
      case Some(Row(Settled(h), _)) =>
        u == s && r == if db.claim.Up? && db.read.Up? then Ok(h) else Err(BroadcastError.DatabaseError)
      case Some(Row(Pending, _)) => u == s && r == Err(BroadcastError.DatabaseError)
      case _ =>
        var k := Key(e, MaxRev(s.rows, e) + 1);
        var claimed := s.(rows := s.rows[k := Row(Pending, at)]);
        if db.claim.Lost? then u == claimed && r == Err(BroadcastError.DatabaseError)
        else
          && u == AfterSend(claimed, k, txn, at, db.update, node)
          && r == if !Recordable(node) then Err(RpcError)
                  else if db.update.Up? then Verdict(node, txn) else Err(BroadcastError.DatabaseError)
  }

  /** A call that claims its row. */
  lemma ServesClaimed(s: State, u: State, chain: nat, e: ExecutionId, txn: SignedTransaction, at: int,
                      db: Statements, node: NodeAnswer, r: Result<Hash, BroadcastError>, k: Key)
    requires Good(s) && ClaimOutcome(s.rows, at, e) == Claimed(k) && chain <= I64_MAX && !db.claim.Down?
    requires var mid := Next(s, Step.Claim(at, e));
             && u == (if db.claim.Lost? then mid.(sessions := mid.sessions - {k})
                      else AfterSend(mid, k, txn, at, db.update, node))
             && r == if db.claim.Lost? then Err(BroadcastError.DatabaseError)
                     else if !Recordable(node) then Err(RpcError)
                     else if db.update.Up? then Verdict(node, txn) else Err(BroadcastError.DatabaseError)
    ensures BroadcastServed(s, u, chain, e, txn, at, db, node, r)
  {
    ClaimByLatest(s.rows, at, e);
    FreshKey(s.rows, e);
    assert s.sessions[k := Sending] - {k} == s.sessions - {k} == s.sessions;
  }

  /** A call that does not. */
  lemma ServesRefused(s: State, chain: nat, e: ExecutionId, txn: SignedTransaction, at: int,
                      db: Statements, node: NodeAnswer, r: Result<Hash, BroadcastError>)
    requires Good(s) && !ClaimOutcome(s.rows, at, e).Claimed? && chain <= I64_MAX && !db.claim.Down?
    requires r == if ClaimOutcome(s.rows, at, e).Aborted? || db.claim.Lost? || !db.read.Up?
                  then Err(BroadcastError.DatabaseError) else ReplyFrom(s.rows, e)
    ensures BroadcastServed(s, s, chain, e, txn, at, db, node, r)
  {
    ClaimByLatest(s.rows, at, e);
  }

  lemma ServedSends(s: State, u: State, chain: nat, e: ExecutionId, txn: SignedTransaction, at: int,
                    db: Statements, node: NodeAnswer, r: Result<Hash, BroadcastError>)
    requires BroadcastServed(s, u, chain, e, txn, at, db, node, r)
    ensures u.sent == s.sent || OneSend(s.sent, u.sent, e, txn.rlp)
    ensures r.Err? && r.error.NonceTooLow? ==> r.error.attempted == txn.withNonce
  {
    if u.sent != s.sent { assert u.sent == s.sent + [Sent(e, txn.rlp, node.reply)]; }
  }

  /** An Ok is the hash of a send of the execution answered Ok, and what later calls read. */
  lemma ServedOk(s: State, u: State, chain: nat, e: ExecutionId, txn: SignedTransaction, at: int,
                 db: Statements, node: NodeAnswer, r: Result<Hash, BroadcastError>)
    requires Good(s) && Good(u) && BroadcastServed(s, u, chain, e, txn, at, db, node, r) && r.Ok?
    ensures ReplyFrom(u.rows, e) == r && WasAccepted(u, e, r.value)
  {
    AnsweredOkIff(s, u, chain, e, txn, at, db, node, r, r.value);
    var k :| k in u.rows && k.exec == e && u.rows[k].phase == Settled(r.value);
    ActiveIsLatest(u.rows, k);
    assert WasAccepted(u, k.exec, u.rows[k].phase.data);
  }

  /** Every error but these means that no send of the execution was answered Ok. */
  lemma ServedError(s: State, u: State, chain: nat, e: ExecutionId, txn: SignedTransaction, at: int,
                    db: Statements, node: NodeAnswer, r: Result<Hash, BroadcastError>)
    requires Good(s) && BroadcastServed(s, u, chain, e, txn, at, db, node, r)
    requires r.Err? && !KeepsNonce(r.error)
    ensures NoOkFor(u, e)
  {
    ClaimByLatest(s.rows, at, e);
    FreeMeansNoOk(s, at, e);
    if u.sent == s.sent { SameSends(s, u, e); } else { OneMoreSend(s, u, e, txn.rlp, node.reply); }
  }

  /** A call is answered Ok exactly when the transaction was submitted before, with this hash,
      and both statements run, or when it claims, the node answers Ok, and the update runs. */
  lemma AnsweredOkIff(s: State, u: State, chain: nat, e: ExecutionId, txn: SignedTransaction, at: int,
                      db: Statements, node: NodeAnswer, r: Result<Hash, BroadcastError>, h: Hash)
    requires Good(s) && BroadcastServed(s, u, chain, e, txn, at, db, node, r)
    ensures r == Ok(h) <==>
            && chain <= I64_MAX && db.claim.Up?
            && ((db.read.Up? && exists k :: k in s.rows && k.exec == e && s.rows[k].phase == Settled(h))
                || (db.update.Up? && node.reply == Accepted(h)
                    && forall k | k in s.rows && k.exec == e :: s.rows[k].phase.Freed?))
    ensures r == Ok(h) ==> exists k :: k in u.rows && k.exec == e && u.rows[k].phase == Settled(h)
  {
    FreeByLatest(s.rows, e);
    forall k | k in s.rows && k.exec == e && Active(s.rows[k]) ensures Latest(s.rows, e) == Some(s.rows[k]) {
      ActiveIsLatest(s.rows, k);
    }
    var last, next := Key(e, MaxRev(s.rows, e)), Key(e, MaxRev(s.rows, e) + 1);
    if r == Ok(h) { assert if last in s.rows && s.rows[last].phase.Settled? then last in u.rows else next in u.rows; }
  }

  /** Once a row is submitted, whatever follows, each later call whose statements run is told its
      hash, and none sends. */
  lemma RetoldForever(s: State, k: Key, steps: seq<Step>, u: State, chain: nat, txn: SignedTransaction, at: int,
                      db: Statements, node: NodeAnswer, r: Result<Hash, BroadcastError>)
    requires Good(s) && ValidRun(s, steps) && k in s.rows && s.rows[k].phase.Settled?
    requires BroadcastServed(Run(s, steps), u, chain, k.exec, txn, at, db, node, r)
    ensures u == Run(s, steps)
    ensures chain <= I64_MAX && db.claim.Up? && db.read.Up? ==> r == Ok(s.rows[k].phase.data)
  {
    var v := Run(s, steps);
    ClosedForever(s, k, steps);
    OkAtMostOnce(s, steps);
    ActiveIsLatest(v.rows, k);
  }

  /** The channel's own error. */
  function LostBroadcast(txn: SignedTransaction): Result<Hash, BroadcastError> {
    Err(BroadcastError.Internal)
  }

  class BroadcastEngine {
    var rows: Table<Hash>
    ghost var sessions: map<Key, Session>
    ghost var sent: seq<Sent>
    /** The handle's channel, its requests with what they heard, and the replies served. */
    const fate: nat -> Fate
    var asked: nat
    ghost var heard: seq<Exchange<SignedTransaction, Result<Hash, BroadcastError>>>
    ghost var served: seq<Option<Result<Hash, BroadcastError>>>

    ghost function Wire(): State
      reads `rows, `sessions, `sent
    {
      State(rows, sessions, sent)
    }

    /** What every step of the machine and the channel keep; the triggers keep callers from
        unfolding it. */
    ghost predicate Valid()
      reads this
    {
      && (forall s {:trigger Good(s)} | s == Wire() :: Good(s))
      && asked == |heard|
      && (forall xs {:trigger Faithful(xs, served, fate, LostBroadcast)} | xs == heard ::
            Faithful(xs, served, fate, LostBroadcast))
    }

    constructor (f: nat -> Fate)
      ensures Valid() && Wire() == Init() && fate == f && heard == []
    {
      rows, sessions, sent := map[], map[], [];
      fate, asked, heard, served := f, 0, [], [];
    }

    // ---- atomic steps ------------------------------------------------------

    /** INSERT ... WHERE NOT EXISTS ... RETURNING revision. */
    method ClaimRow(at: int, e: ExecutionId) returns (c: LeaseTable.Claim)
      requires Valid()
      modifies `rows, `sessions, `sent
      ensures Valid() && c == ClaimOutcome(old(rows), at, e) && Wire() == Next(old(Wire()), Step.Claim(at, e))
    {
      GoodClaim(Wire(), at, e);
      if Guard(rows, at, e) {
        c := Guarded;
      } else if Clash(rows, e) {
        c := Aborted;
      } else {
        var m := SelectMaxRevision(rows, e);
        c := Claimed(Key(e, m + 1));
        rows := Set(rows, c.key, Pending, at);
        sessions := sessions[c.key := Sending];
      }
    }

    /** `eth_sendRawTransaction`. */
    method SendRaw(k: Key, txn: Bytes, reply: SendReply)
      requires Valid() && k in sessions && sessions[k].Sending?
      modifies `rows, `sessions, `sent
      ensures Valid() && Wire() == Next(old(Wire()), Send(k, txn, reply))
    {
      GoodSend(Wire(), k, txn, reply);
      sessions, sent := sessions[k := Replied(reply)], sent + [Sent(k.exec, txn, reply)];
    }

    /** The UPDATE that records the outcome; it may fail with or without an effect, and the
        caller then has no second try at it. */
    method RecordReply(at: int, k: Key, reply: SendReply, db: Db) returns (ghost step: Step)
      requires Valid() && k in sessions && sessions[k] == Replied(reply)
      modifies `rows, `sessions, `sent
      ensures Valid() && Enabled(old(Wire()), step) && Wire() == Next(old(Wire()), step)
      ensures step == if db.Down? then Drop(k) else Record(at, k)
    {
      if db.Down? {
        step := Vanish(k);
      } else {
        step := Record(at, k);
        GoodNext(Wire(), step);
        rows := Set(rows, k, if reply.Accepted? then Settled(reply.hash) else Freed, at);
        sessions := sessions - {k};
      }
    }

    ghost method Vanish(k: Key) returns (step: Step)
      requires Valid() && k in sessions
      modifies `sessions
      ensures Valid() && step == Drop(k) && Wire() == Next(old(Wire()), step)
    {
      GoodDrop(Wire(), k);
      step := Drop(k);
      sessions := sessions - {k};
    }

    method ReadBack(e: ExecutionId) returns (r: Result<Hash, BroadcastError>)
      ensures r == ReplyFrom(rows, e)
    {
      var m := SelectMaxRevision(rows, e);
      if Key(e, m) in rows {
        match rows[Key(e, m)].phase {
          case Settled(h) => r := Ok(h);
          case Freed => r := Err(BroadcastError.Rejected);
          case Pending => r := Err(BroadcastError.DatabaseError);
        }
      } else {
        r := Err(BroadcastError.DatabaseError);
      }
    }

    // ---- the handler -------------------------------------------------------

    /** The part after the claim: send, then record in the pending row, which is the caller's. */
    method SendAndRecord(k: Key, txn: SignedTransaction, at: int, update: Db, node: NodeAnswer)
      returns (r: Result<Hash, BroadcastError>, ghost last: Step)
      requires Valid() && k in sessions && sessions[k].Sending?
      modifies `rows, `sessions, `sent
      ensures Valid() && (last == Drop(k) || last == Record(at, k))
      ensures last.Record? <==> !update.Down? && Recordable(node)
      ensures Wire() == Next(Next(old(Wire()), Send(k, txn.rlp, node.reply)), last)
      ensures r == if !Recordable(node) then Err(RpcError)
                   else if update.Up? then Verdict(node, txn) else Err(BroadcastError.DatabaseError)
    {
      SendRaw(k, txn.rlp, node.reply);
      match node.reply {
        case Accepted(h) =>
          last := RecordReply(at, k, node.reply, update);
          r := if update.Up? then Ok(h) else Err(BroadcastError.DatabaseError);
        case _ =>
          if node.mentionsNonce {
            if node.onChain.None? {
              last := Vanish(k);
              return Err(RpcError), last;
            }
            last := RecordReply(at, k, node.reply, update);
            r := if update.Up? then Err(NonceTooLow(node.onChain.value, txn.withNonce))
                 else Err(BroadcastError.DatabaseError);
          } else {
            last := RecordReply(at, k, node.reply, update);
            r := if update.Up? then Err(BroadcastError.Rejected) else Err(BroadcastError.DatabaseError);
          }
      }
    }

    /** The same, unless the caller never heard that its claim was made. */
    method SendClaimed(k: Key, txn: SignedTransaction, at: int, db: Statements, node: NodeAnswer)
      returns (r: Result<Hash, BroadcastError>, ghost steps: seq<Step>)
      requires Valid() && k in sessions && sessions[k].Sending? && !db.claim.Down?
      modifies `rows, `sessions, `sent
      ensures Valid() && ValidRun(old(Wire()), steps) && Wire() == Run(old(Wire()), steps)
      ensures Wire() == if db.claim.Lost? then old(Wire()).(sessions := old(sessions) - {k})
                        else AfterSend(old(Wire()), k, txn, at, db.update, node)
      ensures r == if db.claim.Lost? then Err(BroadcastError.DatabaseError)
                   else if !Recordable(node) then Err(RpcError)
                   else if db.update.Up? then Verdict(node, txn) else Err(BroadcastError.DatabaseError)
    {
      ghost var was, last := Wire(), Drop(k);
      if db.claim.Lost? {
        RunOne(was, last);
        last := Vanish(k);
        return Err(BroadcastError.DatabaseError), [last];
      }
      r, last := SendAndRecord(k, txn, at, db.update, node);
      ghost var send := Send(k, txn.rlp, node.reply);
      RunOne(was, send);
      AppendStep(was, [send], last);
      steps := [send] + [last];
      assert sessions == was.sessions - {k};
    }

    method HandleBroadcast(chain: nat, e: ExecutionId, txn: SignedTransaction, at: int, db: Statements,
                           node: NodeAnswer)
      returns (r: Result<Hash, BroadcastError>, ghost steps: seq<Step>)
      requires Valid()
      modifies `rows, `sessions, `sent
      ensures Valid() && ValidRun(old(Wire()), steps) && Wire() == Run(old(Wire()), steps)
      ensures BroadcastServed(old(Wire()), Wire(), chain, e, txn, at, db, node, r)
    {
      steps := [];
      if chain > I64_MAX { return Err(BroadcastError.Invariant), []; }
      if db.claim.Down? { return Err(BroadcastError.DatabaseError), []; }
      ghost var was, claim := Wire(), Step.Claim(at, e);
      assert Good(was);
      var c := ClaimRow(at, e);
      steps := [claim];
      RunOne(was, claim);
      if c.Claimed? {
        ghost var more;
        r, more := SendClaimed(c.key, txn, at, db, node);
        assert ([claim] + more)[1..] == more;
        steps := [claim] + more;
        ServesClaimed(was, Wire(), chain, e, txn, at, db, node, r, c.key);
        return;
      }
      if c.Aborted? || db.claim.Lost? || !db.read.Up? {
        r := Err(BroadcastError.DatabaseError);
      } else {
        r := ReadBack(e);
      }
      ServesRefused(was, chain, e, txn, at, db, node, r);
    }

    // ---- the handle --------------------------------------------------------

    /** The next request has been made. */
    method NoteExchange(ghost x: Exchange<SignedTransaction, Result<Hash, BroadcastError>>,
                  ghost reply: Option<Result<Hash, BroadcastError>>)
      requires Valid() && Fair(x, reply, fate(asked), LostBroadcast)
      modifies `asked, `heard, `served
      ensures Valid() && heard == old(heard) + [x] && served == old(served) + [reply]
    {
      FaithfulMore(heard, served, fate, LostBroadcast, x, reply);
      asked, heard, served := asked + 1, heard + [x], served + [reply];
    }

    method SendBroadcast(chain: nat, e: ExecutionId, txn: SignedTransaction, at: int, db: Statements,
                         node: NodeAnswer)
      returns (r: Result<Hash, BroadcastError>, ghost steps: seq<Step>, ghost reply: Result<Hash, BroadcastError>)
      requires Valid()
      modifies this
      ensures Valid() && ValidRun(old(Wire()), steps) && Wire() == Run(old(Wire()), steps)
      ensures if fate(old(asked)).Undelivered? then steps == []
              else BroadcastServed(old(Wire()), Wire(), chain, e, txn, at, db, node, reply)
      ensures r == Hear(fate(old(asked)), reply, Err(BroadcastError.Internal))
      ensures sent == old(sent) || OneSend(old(sent), sent, e, txn.rlp)
      ensures r.Ok? ==> ReplyFrom(rows, e) == r && WasAccepted(Wire(), e, r.value)
      ensures r.Err? && r.error.NonceTooLow? ==> r.error.attempted == txn.withNonce
      ensures r.Err? && !KeepsNonce(r.error) ==> NoOkFor(Wire(), e)
      ensures heard == old(heard) + [Exchange(e, txn, r)]
    {
      var f := fate(asked);
      r, steps, reply := Err(BroadcastError.Internal), [], Err(BroadcastError.Internal);
      if f.Undelivered? {
        NoteExchange(Exchange(e, txn, r), None);
        return;
      }
      ghost var was := Wire();
      r, steps := HandleBroadcast(chain, e, txn, at, db, node);
      ServedSends(was, Wire(), chain, e, txn, at, db, node, r);
      assert Good(was) && Good(Wire());
      if r.Ok? { ServedOk(was, Wire(), chain, e, txn, at, db, node, r); }
      if r.Err? && !KeepsNonce(r.error) { ServedError(was, Wire(), chain, e, txn, at, db, node, r); }
      reply := r;
      r := Hear(f, r, Err(BroadcastError.Internal));
      NoteExchange(Exchange(e, txn, r), Some(reply));
    }
  }
}
