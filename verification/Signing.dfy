/** Signing: one signed or reserved row per execution, freed only by revert, so signatures
    and reverts alternate. */
module Signing {
  import opened Types
  import opened Revisions
  import opened LeaseTable
  import opened Channels
  import opened Rlp
  import opened Eip1559
  import opened Eip1559Wire

  const FINISH_LEASE := 5 * MINUTE

  /** Committed statements on `sign.sign_requests`. */
  datatype Step =
    | Claim(at: int, exec: ExecutionId)
    | Finish(at: int, key: Key, signedTx: Option<Bytes>)  // None when signing failed
    | Revert(at: int, exec: ExecutionId)

  /** The row the finishing UPDATE may touch: still reserved, and younger than 5 minutes. */
  predicate Finishable(t: Table<Bytes>, at: int, k: Key) {
    k in t && t[k].phase.Pending? && t[k].updatedAt > at - FINISH_LEASE
  }

  /** The latest signed row of an execution; the index allows only one. */
  ghost function SignedKey(t: Table<Bytes>, e: ExecutionId): Option<Key> {
    if k :| k in t && k.exec == e && t[k].phase.Settled? then Some(k) else None
  }

  ghost function Next(t: Table<Bytes>, step: Step): Table<Bytes> {
    match step
    case Claim(at, e) => AfterClaim(t, at, e)
    case Finish(at, k, signedTx) =>
      if !Finishable(t, at, k) then t
      else Set(t, k, if signedTx.Some? then Settled(signedTx.value) else Freed, at)
    case Revert(at, e) =>
      var k := SignedKey(t, e);
      if k.Some? then Set(t, k.value, Freed, at) else t
  }

  ghost function Run(t: Table<Bytes>, steps: seq<Step>): Table<Bytes>
    decreases steps
  {
    if steps == [] then t else Run(Next(t, steps[0]), steps[1..])
  }

  lemma InvNext(t: Table<Bytes>, step: Step)
    requires Inv(t)
    ensures Inv(Next(t, step))
  {
    match step
    case Claim(at, e) => InvClaim(t, at, e);
    case Finish(at, k, signedTx) =>
      if Finishable(t, at, k) { InvSet(t, k, if signedTx.Some? then Settled(signedTx.value) else Freed, at); }
    case Revert(at, e) =>
      var k := SignedKey(t, e);
      if k.Some? { InvSet(t, k.value, Freed, at); }
  }

  // ---- alternation ---------------------------------------------------------

  ghost function SignedRows(t: Table<Bytes>, e: ExecutionId): nat {
    if SignedKey(t, e).Some? then 1 else 0
  }

  predicate SignsNow(t: Table<Bytes>, step: Step, e: ExecutionId) {
    step.Finish? && step.key.exec == e && step.signedTx.Some? && Finishable(t, step.at, step.key)
  }

  ghost predicate RevertsNow(t: Table<Bytes>, step: Step, e: ExecutionId) {
    step.Revert? && step.exec == e && SignedKey(t, e).Some?
  }

  ghost function Signatures(t: Table<Bytes>, steps: seq<Step>, e: ExecutionId): nat
    decreases steps
  {
    if steps == [] then 0
    else (if SignsNow(t, steps[0], e) then 1 else 0) + Signatures(Next(t, steps[0]), steps[1..], e)
  }

  ghost function Reverts(t: Table<Bytes>, steps: seq<Step>, e: ExecutionId): nat
    decreases steps
  {
    if steps == [] then 0
    else (if RevertsNow(t, steps[0], e) then 1 else 0) + Reverts(Next(t, steps[0]), steps[1..], e)
  }

  /** A statement changes the signed row of an execution by signing or by reverting only. */
  ghost predicate Counted(t: Table<Bytes>, step: Step, e: ExecutionId) {
    SignedRows(Next(t, step), e) + (if RevertsNow(t, step, e) then 1 else 0)
    == SignedRows(t, e) + (if SignsNow(t, step, e) then 1 else 0)
  }

  lemma ClaimCounted(t: Table<Bytes>, at: int, x: ExecutionId, e: ExecutionId)
    requires Inv(t)
    ensures Counted(t, Step.Claim(at, x), e)
  {
    var u := Next(t, Step.Claim(at, x));
    FreshKey(t, x);
    assert forall k | k in t :: k in u && u[k] == t[k];
    assert forall k | k in u && u[k].phase.Settled? :: k in t;
  }

  lemma FinishCounted(t: Table<Bytes>, at: int, k: Key, signedTx: Option<Bytes>, e: ExecutionId)
    requires Inv(t)
    ensures Counted(t, Finish(at, k, signedTx), e)
  {
    var u := Next(t, Finish(at, k, signedTx));
    if Finishable(t, at, k) {
      ActiveIsLatest(t, k);
      if SignedKey(t, k.exec).Some? { ActiveIsLatest(t, SignedKey(t, k.exec).value); }
      assert forall j | j in t && j != k :: u[j] == t[j];
      assert u[k].phase.Settled? <==> signedTx.Some?;
    }
  }

  lemma RevertCounted(t: Table<Bytes>, at: int, x: ExecutionId, e: ExecutionId)
    requires Inv(t)
    ensures Counted(t, Revert(at, x), e)
  {
    var u, k := Next(t, Revert(at, x)), SignedKey(t, x);
    if k.Some? {
      ActiveIsLatest(t, k.value);
      forall j | j in t && j.exec == x && t[j].phase.Settled? ensures j == k.value { ActiveIsLatest(t, j); }
      assert forall j | j in t && j != k.value :: u[j] == t[j];
    }
  }

  lemma SignedRowsStep(t: Table<Bytes>, step: Step, e: ExecutionId)
    requires Inv(t)
    ensures Counted(t, step, e)
  {
    match step
    case Claim(at, x) => ClaimCounted(t, at, x, e);
    case Finish(at, k, signedTx) => FinishCounted(t, at, k, signedTx, e);
    case Revert(at, x) => RevertCounted(t, at, x, e);
  }

  /** In every run from the empty table, the times an execution's row became signed are the
      times it was reverted, plus one if a signed row remains. */
  lemma {:induction false} SignaturesAndRevertsAlternate(t: Table<Bytes>, steps: seq<Step>, e: ExecutionId)
    requires Inv(t)
    ensures Inv(Run(t, steps))
    ensures SignedRows(t, e) + Signatures(t, steps, e) == SignedRows(Run(t, steps), e) + Reverts(t, steps, e)
    decreases steps
  {
    if steps != [] {
      InvNext(t, steps[0]);
      SignedRowsStep(t, steps[0], e);
      SignaturesAndRevertsAlternate(Next(t, steps[0]), steps[1..], e);
    }
  }

  // ---- what a request comes to ---------------------------------------------

  predicate KeySigns(tx: Transaction, key: Bytes -> Option<Signature>) {
    Fits(List(UnsignedFields(tx))) && key(SigningPayload(tx)).Some?
  }

  /** From the claimed row at `k`, the update of which runs as `second` says. */
  ghost predicate FinishServed(t: Table<Bytes>, u: Table<Bytes>, k: Key, tx: Transaction,
                               key: Bytes -> Option<Signature>, done: int, second: Db,
                               r: Result<SignedTransaction, LocalError>)
    requires k in t
  {
    if second.Down? then u == t && r == Err(DatabaseError)
    else if done >= t[k].updatedAt + 5 * 60 * 1_000_000 then
      u == t && r == Err(if second.Lost? then DatabaseError else Invariant)
    else if !KeySigns(tx, key) then
      u == t[k := Row(Freed, done)] && r == Err(if second.Lost? then DatabaseError else Internal)
    else
      exists b :: SignedBy(b, tx, key) && u == t[k := Row(Settled(b), done)]
                  && r == if second.Lost? then Err(DatabaseError) else Ok(SignedTransaction(b, tx.nonce))
  }

  /** The reply to a sign request and the new table, for every outcome of the claim and of the
      update, told from the execution's latest row. */
  ghost predicate SignServed(t: Table<Bytes>, u: Table<Bytes>, chain: nat, e: ExecutionId, tx: Transaction,
                             key: Option<Bytes -> Option<Signature>>, at: int, done: int, first: Db, second: Db,
                             r: Result<SignedTransaction, LocalError>)
  {
    if key.None? then u == t && r == Err(Internal)
    else if chain > I64_MAX then u == t && r == Err(Invariant)
    else if first.Down? then u == t && r == Err(DatabaseError)
    else
      match Latest(t, e)
      case Some(Row(Settled(_), _)) => u == t && r == Err(if first.Up? then Invariant else DatabaseError)
      case Some(Row(Pending, since)) =>
        u == t && r == Err(if first.Up? && since > at - 2 * 60 * 1_000_000 then Invariant else DatabaseError)
      case _ =>
        var k := Key(e, MaxRev(t, e) + 1);
        var claimed := t[k := Row(Pending, at)];
        if first.Lost? then u == claimed && r == Err(DatabaseError)
        else FinishServed(claimed, u, k, tx, key.value, done, second, r)
  }

  /** The same for a revert, whose second statement only tells what it found instead. */
  ghost predicate RevertServed(t: Table<Bytes>, u: Table<Bytes>, e: ExecutionId, at: int, first: Db, second: Db,
                               r: Result<(), LocalError>)
  {
    if first.Down? then u == t && r == Err(DatabaseError)
    else
      match Latest(t, e)
      case Some(Row(Settled(_), _)) =>
        u == t[Key(e, MaxRev(t, e)) := Row(Freed, at)] && r == if first.Up? then Ok(()) else Err(DatabaseError)
      case _ =>
        u == t && r == Err(if first.Up? && second.Up? then Internal else DatabaseError)
  }

  /** The signed row is the latest. */
  lemma SignedByLatest(t: Table<Bytes>, e: ExecutionId)
    requires Inv(t)
    ensures match Latest(t, e)
            case Some(Row(Settled(_), _)) => SignedKey(t, e) == Some(Key(e, MaxRev(t, e)))
            case _ => SignedKey(t, e).None?
  {
    if SignedKey(t, e).Some? { ActiveIsLatest(t, SignedKey(t, e).value); }
  }

  // ---- the actor -----------------------------------------------------------

  class SignEngine {
    var rows: Table<Bytes>
    /** The handle's channel, its requests with what they heard, and the replies served. */
    const fate: nat -> Fate
    var asked: nat
    ghost var heard: seq<Exchange<SignRequest, SignReply>>
    ghost var served: seq<Option<SignReply>>

    /** What the schema and the channel guarantee; the triggers keep callers from unfolding it. */
    ghost predicate Valid()
      reads this
    {
      && (forall t {:trigger Inv(t)} | t == rows :: Inv(t))
      && asked == |heard|
      && (forall xs {:trigger Faithful(xs, served, fate, LostSign)} | xs == heard ::
            Faithful(xs, served, fate, LostSign))
    }

    constructor (f: nat -> Fate)
      ensures Valid() && rows == map[] && fate == f && heard == []
    {
      rows, fate, asked, heard, served := map[], f, 0, [], [];
    }

    method ClaimRow(at: int, e: ExecutionId) returns (c: LeaseTable.Claim)
      requires Valid()
      modifies `rows
      ensures Valid() && c == ClaimOutcome(old(rows), at, e) && rows == AfterClaim(old(rows), at, e)
    {
      InvNext(rows, Step.Claim(at, e));
      if Guard(rows, at, e) {
        c := Guarded;
      } else if Clash(rows, e) {
        c := Aborted;
      } else {
        var m := SelectMaxRevision(rows, e);
        c := Claimed(Key(e, m + 1));
        rows := Set(rows, c.key, Pending, at);
      }
    }

    /** The conditional UPDATE; tells whether it affected a row. */
    method FinishRow(at: int, k: Key, signedTx: Option<Bytes>) returns (affected: bool)
      requires Valid()
      modifies `rows
      ensures Valid() && affected == Finishable(old(rows), at, k)
      ensures rows == Next(old(rows), Finish(at, k, signedTx))
    {
      InvNext(rows, Finish(at, k, signedTx));
      affected := Finishable(rows, at, k);
      if affected {
        rows := Set(rows, k, if signedTx.Some? then Settled(signedTx.value) else Freed, at);
      }
    }

    method RevertRow(at: int, e: ExecutionId) returns (affected: bool)
      requires Valid()
      modifies `rows
      ensures Valid() && affected == SignedKey(old(rows), e).Some? && rows == Next(old(rows), Revert(at, e))
    {
      InvNext(rows, Revert(at, e));
      affected := exists k | k in rows :: k.exec == e && rows[k].phase.Settled?;
      if affected {
        var k :| k in rows && k.exec == e && rows[k].phase.Settled?;
        ActiveIsLatest(rows, k);
        ActiveIsLatest(rows, SignedKey(rows, e).value);
        rows := Set(rows, k, Freed, at);
      }
    }

    /** The part after the claim: sign, then record the outcome in the claimed row. */
    method SignAndFinish(k: Key, tx: Transaction, key: Bytes -> Option<Signature>, done: int, second: Db)
      returns (r: Result<SignedTransaction, LocalError>, ghost steps: seq<Step>)
      requires Valid() && k in rows && rows[k].phase.Pending? && InMemory(tx)
      modifies `rows
      ensures Valid() && rows == Run(old(rows), steps)
      ensures FinishServed(old(rows), rows, k, tx, key, done, second, r)
      ensures r.Ok? ==>
                && r.value.withNonce == tx.nonce && WireNonce(r.value.rlp) == Some(tx.nonce)
                && SignedBy(r.value.rlp, tx, key)
                && Finishable(old(rows), done, k) && rows == Set(old(rows), k, Settled(r.value.rlp), done)
    {
      var signed := SignEip1559Transaction(tx, key);
      steps := [];
      if second.Down? { return Err(DatabaseError), []; }
      ghost var step := Finish(done, k, if signed.Ok? then Some(signed.value.rlp) else None);
      var affected := FinishRow(done, k, if signed.Ok? then Some(signed.value.rlp) else None);
      RunOne(old(rows), step);
      steps := [step];
      if second.Lost? { return Err(DatabaseError), steps; }
      if !affected { return Err(Invariant), steps; }
      r := signed;
    }

    /** Sign once per free execution. There is no idempotent reply: a row still reserved or
        signed is an error, so a signature is never handed out twice. */
    method HandleSign(chain: nat, e: ExecutionId, tx: Transaction, key: Option<Bytes -> Option<Signature>>,
                      at: int, done: int, first: Db, second: Db)
      returns (r: Result<SignedTransaction, LocalError>, ghost steps: seq<Step>)
      requires Valid() && at <= done && InMemory(tx)
      modifies `rows
      ensures Valid() && rows == Run(old(rows), steps)
      ensures SignServed(old(rows), rows, chain, e, tx, key, at, done, first, second, r)
      ensures r.Ok? <==>
                && key.Some? && KeySigns(tx, key.value)
                && chain <= I64_MAX && first.Up? && second.Up?
                && (forall k | k in old(rows) && k.exec == e :: old(rows)[k].phase.Freed?)
                && done < at + 5 * 60 * 1_000_000
      ensures r.Ok? ==> r.value.withNonce == tx.nonce && WireNonce(r.value.rlp) == Some(tx.nonce)
      ensures r.Ok? ==> key.Some? && SignedBy(r.value.rlp, tx, key.value)
      ensures r.Ok? ==> Latest(rows, e).Some? && Latest(rows, e).value.phase == Settled(r.value.rlp)
    {
      steps := [];
      assert Inv(rows);
      ClaimByLatest(rows, at, e);
      FreeByLatest(rows, e);
      if key.None? { return Err(Internal), []; }
      if chain > I64_MAX { return Err(Invariant), []; }
      if first.Down? { return Err(DatabaseError), []; }
      ghost var step := Step.Claim(at, e);
      var c := ClaimRow(at, e);
      RunOne(old(rows), step);
      steps := [step];
      if first.Lost? { return Err(DatabaseError), steps; }
      if !c.Claimed? { return Err(if c.Guarded? then Invariant else DatabaseError), steps; }
      ghost var more;
      r, more := SignAndFinish(c.key, tx, key.value, done, second);
      steps := [step] + more;
      assert steps[1..] == more;
      if r.Ok? {
        assert Inv(rows);
        ActiveIsLatest(rows, c.key);
      }
    }

    method HandleRevert(e: ExecutionId, at: int, first: Db, second: Db)
      returns (r: Result<(), LocalError>, ghost steps: seq<Step>)
      requires Valid()
      modifies `rows
      ensures Valid() && rows == Run(old(rows), steps)
      ensures RevertServed(old(rows), rows, e, at, first, second, r)
      ensures r.Ok? <==> first.Up? && exists k :: k in old(rows) && k.exec == e && old(rows)[k].phase.Settled?
      ensures r.Ok? ==> SignedKey(old(rows), e).Some? && forall k | k in rows && k.exec == e :: !Active(rows[k])
    {
      steps := [];
      if first.Down? { return Err(DatabaseError), []; }
      assert Inv(rows);
      SignedByLatest(rows, e);
      var affected := RevertRow(at, e);
      RunOne(old(rows), Revert(at, e));
      steps := [Revert(at, e)];
      if first.Lost? { return Err(DatabaseError), steps; }
      if affected {
        OneSignedFreed(old(rows), e);
        return Ok(()), steps;
      }
      return Err(if second.Up? then Internal else DatabaseError), steps;
    }

    // ---- the handle --------------------------------------------------------

    /** The next request has been made. */
    method NoteExchange(ghost x: Exchange<SignRequest, SignReply>, ghost reply: Option<SignReply>)
      requires Valid() && Fair(x, reply, fate(asked), LostSign)
      modifies `asked, `heard, `served
      ensures Valid() && heard == old(heard) + [x] && served == old(served) + [reply]
    {
      FaithfulMore(heard, served, fate, LostSign, x, reply);
      asked, heard, served := asked + 1, heard + [x], served + [reply];
    }

    method SendSign(chain: nat, e: ExecutionId, tx: Transaction, key: Option<Bytes -> Option<Signature>>,
                    at: int, done: int, first: Db, second: Db)
      returns (r: Result<SignedTransaction, LocalError>, ghost steps: seq<Step>,
               ghost reply: Result<SignedTransaction, LocalError>)
      requires Valid() && at <= done && InMemory(tx)
      modifies this
      ensures Valid() && rows == Run(old(rows), steps)
      ensures if fate(old(asked)).Undelivered? then steps == []
              else SignServed(old(rows), rows, chain, e, tx, key, at, done, first, second, reply)
      ensures r == Hear(fate(old(asked)), reply, Err(Internal))
      ensures r.Ok? ==> r.value.withNonce == tx.nonce && WireNonce(r.value.rlp) == Some(tx.nonce)
      ensures r.Ok? ==> key.Some? && SignedBy(r.value.rlp, tx, key.value)
      ensures r.Ok? ==> Latest(rows, e).Some? && Latest(rows, e).value.phase == Settled(r.value.rlp)
      ensures heard == old(heard) + [Exchange(e, AskSign(tx), OfSign(r))]
    {
      var f := fate(asked);
      r, steps, reply := Err(Internal), [], Err(Internal);
      if f.Undelivered? {
        NoteExchange(Exchange(e, AskSign(tx), OfSign(r)), None);
        return;
      }
      r, steps := HandleSign(chain, e, tx, key, at, done, first, second);
      reply := r;
      r := Hear(f, r, Err(Internal));
      NoteExchange(Exchange(e, AskSign(tx), OfSign(r)), Some(OfSign(reply)));
    }

    method SendRevert(e: ExecutionId, at: int, first: Db, second: Db)
      returns (r: Result<(), LocalError>, ghost steps: seq<Step>, ghost reply: Result<(), LocalError>)
      requires Valid()
      modifies this
      ensures Valid() && rows == Run(old(rows), steps)
      ensures if fate(old(asked)).Undelivered? then steps == []
              else RevertServed(old(rows), rows, e, at, first, second, reply)
      ensures r == Hear(fate(old(asked)), reply, Err(Internal))
      ensures r.Ok? ==> SignedKey(old(rows), e).Some? && forall k | k in rows && k.exec == e :: !Active(rows[k])
      ensures heard == old(heard) + [Exchange(e, AskRevert, OfRevert(r))]
    {
      var f := fate(asked);
      r, steps, reply := Err(Internal), [], Err(Internal);
      if f.Undelivered? {
        NoteExchange(Exchange(e, AskRevert, OfRevert(r)), None);
        return;
      }
      r, steps := HandleRevert(e, at, first, second);
      reply := r;
      r := Hear(f, r, Err(Internal));
      NoteExchange(Exchange(e, AskRevert, OfRevert(r)), Some(OfRevert(reply)));
    }
  }

  lemma RunOne(t: Table<Bytes>, step: Step)
    ensures Run(t, [step]) == Next(t, step)
  {
    assert [step][1..] == [];
  }

  lemma OneSignedFreed(t: Table<Bytes>, e: ExecutionId)
    requires Inv(t) && SignedKey(t, e).Some?
    ensures forall k | k in t && k.exec == e && k != SignedKey(t, e).value :: !Active(t[k])
  {
    var s := SignedKey(t, e).value;
    ActiveIsLatest(t, s);
    forall k | k in t && k.exec == e && Active(t[k]) ensures k == s { ActiveIsLatest(t, k); }
  }
}
