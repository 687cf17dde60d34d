/** The handles of the actors: a request travels over a channel and its reply comes back over
    another, and either may be gone. Each actor's handle keeps a record of both. */
module Channels {
  import opened Types
  import opened Eip1559
  import L = Ledger

  /** What becomes of a request: the actor has shut down, it serves the request but the reply
      is dropped, or the reply is heard. */
  datatype Fate = Undelivered | Unanswered | Answered

  /** One request of an execution and what it heard. */
  datatype Exchange<+Q, +R> = Exchange(exec: ExecutionId, request: Q, heard: R)

  /** What is heard of a reply; `lost` is the channel's own error. */
  function Hear<R>(fate: Fate, reply: R, lost: R): R {
    if fate.Answered? then reply else lost
  }

  /** The i-th request was served exactly if it was delivered, and what was heard is the
      actor's reply, or the channel's error if that was not heard. */
  ghost predicate Fair<Q, R>(x: Exchange<Q, R>, served: Option<R>, fate: Fate, lost: Q -> R) {
    match fate
    case Undelivered => served.None? && x.heard == lost(x.request)
    case Unanswered => served.Some? && x.heard == lost(x.request)
    case Answered => served == Some(x.heard)
  }

  ghost predicate Faithful<Q, R>(heard: seq<Exchange<Q, R>>, served: seq<Option<R>>, fate: nat -> Fate, lost: Q -> R) {
    |served| == |heard| && forall i: nat | i < |heard| :: Fair(heard[i], served[i], fate(i), lost)
  }

  lemma FaithfulMore<Q, R>(heard: seq<Exchange<Q, R>>, served: seq<Option<R>>, fate: nat -> Fate, lost: Q -> R,
                           x: Exchange<Q, R>, reply: Option<R>)
    requires Faithful(heard, served, fate, lost) && Fair(x, reply, fate(|heard|), lost)
    ensures Faithful(heard + [x], served + [reply], fate, lost)
  {
  }

  // ---- requests and replies ------------------------------------------------

  datatype NonceRequest = AskReserve | AskSync(onChain: nat) | AskResolve(to: L.NonceState)

  datatype NonceReply = OfNonce(nonce: Result<nat, LocalError>) | OfResolve(done: Result<(), LocalError>)

  function LostNonce(q: NonceRequest): NonceReply {
    if q.AskResolve? then OfResolve(Err(Internal)) else OfNonce(Err(Internal))
  }

  datatype SignRequest = AskSign(tx: Transaction) | AskRevert

  datatype SignReply = OfSign(signed: Result<SignedTransaction, LocalError>) | OfRevert(done: Result<(), LocalError>)

  function LostSign(q: SignRequest): SignReply {
    if q.AskRevert? then OfRevert(Err(Internal)) else OfSign(Err(Internal))
  }

  /** The exchanges of a request made over and over. */
  function Asks<T, Q, R>(e: ExecutionId, q: Q, tries: seq<T>, wrap: T -> R): seq<Exchange<Q, R>> {
    if tries == [] then []
    else Asks(e, q, tries[..|tries| - 1], wrap) + [Exchange(e, q, wrap(tries[|tries| - 1]))]
  }

  lemma AsksMore<T, Q, R>(was: seq<Exchange<Q, R>>, e: ExecutionId, q: Q, tries: seq<T>, t: T, wrap: T -> R)
    ensures was + Asks(e, q, tries + [t], wrap) == was + Asks(e, q, tries, wrap) + [Exchange(e, q, wrap(t))]
  {
    assert (tries + [t])[..|tries|] == tries;
  }

  lemma AsksOnce<T, Q, R>(e: ExecutionId, q: Q, t: T, wrap: T -> R)
    ensures Asks(e, q, [t], wrap) == [Exchange(e, q, wrap(t))]
  {
    var none: seq<T> := [];
    assert [t][..0] == none && Asks(e, q, none, wrap) == [];
  }

  function NonceHeard(r: Result<nat, LocalError>): NonceReply {
    OfNonce(r)
  }

  function ResolveHeard(r: Result<(), LocalError>): NonceReply {
    OfResolve(r)
  }

  function SignHeard(r: Result<SignedTransaction, LocalError>): SignReply {
    OfSign(r)
  }

  function RevertHeard(r: Result<(), LocalError>): SignReply {
    OfRevert(r)
  }
}
