/** Senders do not interfere: what a run does to one address depends on that address's
    commands alone, so neither interleaving nor the number of shards matters. */
module LedgerSharding {
  import opened Types
  import opened Revisions
  import opened Ledger
  import opened LedgerInvariants

  /** Each execution belongs to one sender address. */
  type Owner = ExecutionId -> Address

  ghost predicate Owned(t: Table, own: Owner) {
    forall k | k in t :: t[k].sender.from == own(k.exec)
  }

  predicate OwnedEvent(ev: Event, own: Owner) {
    ev.Reserve? || ev.Sync? ==> ev.sender.from == own(ev.exec)
  }

  predicate OwnedRun(evs: seq<Event>, own: Owner) {
    forall i | 0 <= i < |evs| :: OwnedEvent(evs[i], own)
  }

  /** The rows of one address. */
  function Project(t: Table, a: Address): Table {
    map k | k in t && t[k].sender.from == a :: t[k]
  }

  function KeysOf(keys: set<Key>, own: Owner, a: Address): set<Key> {
    set k | k in keys && own(k.exec) == a
  }

  /** The part of a statement that concerns one address, if any. */
  function ProjectEvent(ev: Event, own: Owner, a: Address): Option<Event> {
    match ev
    case Reserve(_, s, _, _) => if s.from == a then Some(ev) else None
    case Sync(_, s, _, _) => if s.from == a then Some(ev) else None
    case Resolve(_, e, _) => if own(e) == a then Some(ev) else None
    case Sweep(at, keys) => if KeysOf(keys, own, a) == {} then None else Some(Sweep(at, KeysOf(keys, own, a)))
  }

  function ProjectRun(evs: seq<Event>, own: Owner, a: Address): seq<Event> {
    if evs == [] then []
    else
      var rest := ProjectRun(evs[1..], own, a);
      match ProjectEvent(evs[0], own, a)
      case None => rest
      case Some(ev) => [ev] + rest
  }

  /** What the clients of one address are told during a run. */
  ghost function AnswersOf(t: Table, now: int, evs: seq<Event>, own: Owner, a: Address): seq<Answer>
    requires ValidRun(t, now, evs)
    decreases evs
  {
    if evs == [] then []
    else
      var rest := AnswersOf(Step(t, evs[0]), evs[0].at, evs[1..], own, a);
      if ProjectEvent(evs[0], own, a).Some? then [AnswerTo(t, evs[0])] + rest else rest
  }

  // ---- subqueries see one address only --------------------------------------

  /** The two tables have the same rows of an execution. */
  ghost predicate Agree(t: Table, p: Table, e: ExecutionId) {
    forall k: Key | k.exec == e :: (k in t <==> k in p) && (k in t ==> p[k] == t[k])
  }

  lemma AgreeOnRevision(t: Table, p: Table, e: ExecutionId)
    requires Agree(t, p, e)
    ensures MaxRev(p, e) == MaxRev(t, e)
  {
    assert IsMaxRev(t, e, MaxRev(t, e)) && IsMaxRev(p, e, MaxRev(p, e));
  }

  lemma AgreeOnExisting(t: Table, p: Table, e: ExecutionId)
    requires Agree(t, p, e)
    ensures Existing(p, e) == Existing(t, e)
  {
    assert IsExisting(t, e, Existing(t, e)) && IsExisting(p, e, Existing(p, e));
  }

  lemma AgreeOnTarget(t: Table, p: Table, e: ExecutionId)
    requires Agree(t, p, e)
    ensures Target(p, e) == Target(t, e)
  {
    assert IsTarget(t, e, Target(t, e)) && IsTarget(p, e, Target(p, e));
  }

  lemma AgreeOnHeld(t: Table, p: Table, e: ExecutionId, at: int, lease: int)
    requires Agree(t, p, e)
    ensures Held(p, at, e, lease) == Held(t, at, e, lease)
  {
  }

  lemma SameExecution(t: Table, own: Owner, a: Address, e: ExecutionId)
    requires Owned(t, own) && own(e) == a
    ensures Agree(t, Project(t, a), e)
    ensures MaxRev(Project(t, a), e) == MaxRev(t, e)
    ensures Existing(Project(t, a), e) == Existing(t, e)
    ensures Target(Project(t, a), e) == Target(t, e)
    ensures forall at, lease :: Held(Project(t, a), at, e, lease) == Held(t, at, e, lease)
  {
    var p := Project(t, a);
    assert Agree(t, p, e);
    AgreeOnRevision(t, p, e);
    AgreeOnExisting(t, p, e);
    AgreeOnTarget(t, p, e);
    forall at, lease ensures Held(p, at, e, lease) == Held(t, at, e, lease) { AgreeOnHeld(t, p, e, at, lease); }
  }

  lemma SameSender(t: Table, a: Address, s: Sender, pick: Option<Key>)
    requires s.from == a
    ensures MaxNonce(Project(t, a), s) == MaxNonce(t, s)
    ensures PickOk(t, s, pick) ==> PickOk(Project(t, a), s, pick)
    ensures forall n :: IndexFree(Project(t, a), s, n) == IndexFree(t, s, n)
    ensures forall at, n :: Taken(Project(t, a), at, s, n) == Taken(t, at, s, n)
  {
    var p := Project(t, a);
    assert forall k | k in t && t[k].sender == s :: k in p && p[k] == t[k];
    assert forall k | k in p :: k in t && p[k] == t[k];
    assert IsMaxNonce(t, s, MaxNonce(t, s)) && IsMaxNonce(p, s, MaxNonce(p, s));
  }

  // ---- one statement -------------------------------------------------------

  lemma OwnedStep(t: Table, own: Owner, ev: Event)
    requires Owned(t, own) && OwnedEvent(ev, own) && Enabled(t, ev)
    ensures Owned(Step(t, ev), own)
  {
  }

  ghost predicate Follows(t: Table, own: Owner, ev: Event, a: Address)
    requires Enabled(t, ev)
  {
    var p := Project(t, a);
    match ProjectEvent(ev, own, a)
    case None => Project(Step(t, ev), a) == p
    case Some(pe) =>
      Enabled(p, pe) && Project(Step(t, ev), a) == Step(p, pe) && AnswerTo(t, ev) == AnswerTo(p, pe)
  }

  lemma SetStateProjects(t: Table, a: Address, k: Key, st: NonceState, at: int)
    requires k in t && t[k].sender.from == a
    ensures Project(SetState(t, k, st, at), a) == SetState(Project(t, a), k, st, at)
  {
  }

  lemma WithRowProjects(t: Table, base: Table, a: Address, s: Sender, e: ExecutionId, n: nat, at: int)
    requires s.from == a && MaxRev(Project(t, a), e) == MaxRev(t, e)
    ensures Project(WithRow(t, base, s, e, n, at), a) == WithRow(Project(t, a), Project(base, a), s, e, n, at)
  {
  }

  lemma ReserveOutcomeProjects(t: Table, own: Owner, at: int, s: Sender, e: ExecutionId, pick: Option<Key>)
    requires Owned(t, own) && own(e) == s.from && PickOk(t, s, pick)
    ensures PickOk(Project(t, s.from), s, pick)
    ensures ReserveOutcome(Project(t, s.from), at, s, e, pick) == ReserveOutcome(t, at, s, e, pick)
  {
    var p := Project(t, s.from);
    assert Held(p, at, e, RESERVE_LEASE) == Held(t, at, e, RESERVE_LEASE) && MaxRev(p, e) == MaxRev(t, e) by {
      SameExecution(t, own, s.from, e);
    }
    assert PickOk(p, s, pick) && ReserveNonce(p, s, pick) == ReserveNonce(t, s, pick)
           && IndexFree(p, s, ReserveNonce(t, s, pick)) == IndexFree(t, s, ReserveNonce(t, s, pick)) by {
      SameSender(t, s.from, s, pick);
    }
  }

  lemma ReserveProjects(t: Table, own: Owner, at: int, s: Sender, e: ExecutionId, pick: Option<Key>)
    requires Owned(t, own) && own(e) == s.from && PickOk(t, s, pick)
    ensures PickOk(Project(t, s.from), s, pick)
    ensures ReserveOutcome(Project(t, s.from), at, s, e, pick) == ReserveOutcome(t, at, s, e, pick)
    ensures Project(ReserveTable(t, at, s, e, pick), s.from) == ReserveTable(Project(t, s.from), at, s, e, pick)
  {
    var p, base, o := Project(t, s.from), AfterConsume(t, at, s, pick), ReserveOutcome(t, at, s, e, pick);
    ReserveOutcomeProjects(t, own, at, s, e, pick);
    assert Project(base, s.from) == AfterConsume(p, at, s, pick) by {
      if pick.Some? { SetStateProjects(t, s.from, pick.value, Consumed, at); }
    }
    if o.Inserted? {
      assert MaxRev(p, e) == MaxRev(t, e) by { SameExecution(t, own, s.from, e); }
      WithRowProjects(t, base, s.from, s, e, o.nonce, at);
    }
  }

  lemma SyncProjects(t: Table, own: Owner, at: int, s: Sender, e: ExecutionId, n: nat)
    requires Owned(t, own) && own(e) == s.from
    ensures SyncOutcome(Project(t, s.from), at, s, e, n) == SyncOutcome(t, at, s, e, n)
    ensures Project(SyncTable(t, at, s, e, n), s.from) == SyncTable(Project(t, s.from), at, s, e, n)
  {
    var p := Project(t, s.from);
    assert Held(p, at, e, SYNC_LEASE) == Held(t, at, e, SYNC_LEASE) && MaxRev(p, e) == MaxRev(t, e) by {
      SameExecution(t, own, s.from, e);
    }
    assert Taken(p, at, s, n) == Taken(t, at, s, n) && IndexFree(p, s, n) == IndexFree(t, s, n) by {
      SameSender(t, s.from, s, None);
    }
    if SyncOutcome(t, at, s, e, n).Inserted? { WithRowProjects(t, t, s.from, s, e, n, at); }
  }

  /** Statements of another address leave an address's rows alone. */
  lemma OthersProject(t: Table, own: Owner, ev: Event, a: Address)
    requires Owned(t, own) && OwnedEvent(ev, own) && Enabled(t, ev) && !ev.Sweep?
    requires (if ev.Resolve? then own(ev.exec) else ev.sender.from) != a
    ensures Project(Step(t, ev), a) == Project(t, a)
  {
    assert Key(ev.exec, MaxRev(t, ev.exec) + 1) !in t by {
      assert IsMaxRev(t, ev.exec, MaxRev(t, ev.exec));
    }
  }

  lemma ReserveFollows(t: Table, own: Owner, ev: Event, a: Address)
    requires Owned(t, own) && OwnedEvent(ev, own) && Enabled(t, ev) && ev.Reserve?
    ensures Follows(t, own, ev, a)
  {
    if ev.sender.from == a {
      ReserveProjects(t, own, ev.at, ev.sender, ev.exec, ev.pick);
      OwnedStep(t, own, ev);
      SameExecution(Step(t, ev), own, a, ev.exec);
    } else {
      OthersProject(t, own, ev, a);
    }
  }

  lemma SyncFollows(t: Table, own: Owner, ev: Event, a: Address)
    requires Owned(t, own) && OwnedEvent(ev, own) && ev.Sync?
    ensures Follows(t, own, ev, a)
  {
    if ev.sender.from == a {
      SyncProjects(t, own, ev.at, ev.sender, ev.exec, ev.onChain);
      OwnedStep(t, own, ev);
      SameExecution(Step(t, ev), own, a, ev.exec);
    } else {
      OthersProject(t, own, ev, a);
    }
  }

  lemma ResolveFollows(t: Table, own: Owner, ev: Event, a: Address)
    requires Owned(t, own) && Enabled(t, ev) && ev.Resolve?
    ensures Follows(t, own, ev, a)
  {
    if own(ev.exec) == a {
      SameExecution(t, own, a, ev.exec);
      var k := Target(t, ev.exec);
      if k.Some? { SetStateProjects(t, a, k.value, ev.to, ev.at); }
      OwnedStep(t, own, ev);
      SameExecution(Step(t, ev), own, a, ev.exec);
    } else {
      OthersProject(t, own, ev, a);
    }
  }

  lemma SweepFollows(t: Table, own: Owner, ev: Event, a: Address)
    requires Owned(t, own) && Enabled(t, ev) && ev.Sweep?
    ensures Follows(t, own, ev, a)
  {
    var p, ks := Project(t, a), KeysOf(ev.keys, own, a);
    forall k | k in ks ensures StaleHead(p, ev.at, k) {
      assert StaleHead(t, ev.at, k);
    }
    assert Project(Step(t, ev), a) == SweepTable(p, ev.at, ks);
    if ks == {} { assert SweepTable(p, ev.at, ks) == p; }
  }

  lemma EventFollows(t: Table, own: Owner, ev: Event, a: Address)
    requires Owned(t, own) && OwnedEvent(ev, own) && Enabled(t, ev)
    ensures Follows(t, own, ev, a)
  {
    match ev
    case Reserve(_, _, _, _) => ReserveFollows(t, own, ev, a);
    case Sync(_, _, _, _) => SyncFollows(t, own, ev, a);
    case Resolve(_, _, _) => ResolveFollows(t, own, ev, a);
    case Sweep(_, _) => SweepFollows(t, own, ev, a);
  }

  // ---- whole runs ----------------------------------------------------------

  /** Projecting a run onto an address gives the table and the answers of running that
      address's commands alone. */
  lemma {:induction false} NonInterference(
      t: Table, now: int, lo: int, evs: seq<Event>, own: Owner, a: Address)
    requires Owned(t, own) && OwnedRun(evs, own) && ValidRun(t, now, evs) && lo <= now
    ensures var p, pes := Project(t, a), ProjectRun(evs, own, a);
            && ValidRun(p, lo, pes)
            && Run(p, lo, pes) == Project(Run(t, now, evs), a)
            && AnswersOf(p, lo, pes, own, a) == AnswersOf(t, now, evs, own, a)
    decreases evs
  {
    if evs != [] {
      var u, at := Step(t, evs[0]), evs[0].at;
      assert OwnedEvent(evs[0], own);
      EventFollows(t, own, evs[0], a);
      OwnedStep(t, own, evs[0]);
      match ProjectEvent(evs[0], own, a)
      case None => NonInterference(u, at, lo, evs[1..], own, a);
      case Some(pe) =>
        NonInterference(u, at, at, evs[1..], own, a);
        var pes := ProjectRun(evs, own, a);
        assert pes[0] == pe && pes[1..] == ProjectRun(evs[1..], own, a);
        assert ProjectEvent(pe, own, a) == Some(pe) by {
          if pe.Sweep? { assert KeysOf(pe.keys, own, a) == pe.keys; }
        }
    }
  }

  lemma {:induction false} ProjectSplit(evs: seq<Event>, own: Owner, a: Address, i: nat)
    requires i <= |evs|
    ensures ProjectRun(evs, own, a) == ProjectRun(evs[..i], own, a) + ProjectRun(evs[i..], own, a)
    decreases evs
  {
    if i == 0 {
      assert evs[..0] == [] && evs[0..] == evs;
    } else {
      ProjectSplit(evs[1..], own, a, i - 1);
      assert evs[..i][1..] == evs[1..][..i - 1] && evs[i..] == evs[1..][i - 1..];
    }
  }

  /** What a statement does to the tables. */
  lemma TableFollows(t: Table, own: Owner, ev: Event, a: Address)
    requires Owned(t, own) && OwnedEvent(ev, own) && Enabled(t, ev)
    ensures Owned(Step(t, ev), own)
    ensures match ProjectEvent(ev, own, a)
            case None => Project(Step(t, ev), a) == Project(t, a)
            case Some(pe) => Enabled(Project(t, a), pe) && Project(Step(t, ev), a) == Step(Project(t, a), pe)
  {
    OwnedStep(t, own, ev);
    EventFollows(t, own, ev, a);
  }

  /** A statement of the address itself, at the front of a run and of its projection. */
  lemma OwnStep(t: Table, lo: int, own: Owner, ev: Event, a: Address, pe: Event, rest: seq<Event>, j: nat)
    requires Owned(t, own) && OwnedEvent(ev, own) && Enabled(t, ev) && ProjectEvent(ev, own, a) == Some(pe)
    requires ValidRun(Project(t, a), lo, [pe] + rest) && j <= |rest|
    ensures Owned(Step(t, ev), own) && ValidRun(Project(Step(t, ev), a), pe.at, rest)
    ensures TableAt(Project(t, a), lo, [pe] + rest, j + 1) == TableAt(Project(Step(t, ev), a), pe.at, rest, j)
  {
    TableFollows(t, own, ev, a);
    assert ([pe] + rest)[1..] == rest;
  }

  /** The table before the i-th statement, projected, is the projected run's own. */
  ghost predicate ProjectedAt(t: Table, now: int, lo: int, evs: seq<Event>, own: Owner, a: Address, i: nat)
    requires ValidRun(t, now, evs) && ValidRun(Project(t, a), lo, ProjectRun(evs, own, a)) && i <= |evs|
  {
    var j := |ProjectRun(evs[..i], own, a)|;
    && j <= |ProjectRun(evs, own, a)|
    && TableAt(Project(t, a), lo, ProjectRun(evs, own, a), j) == Project(TableAt(t, now, evs, i), a)
  }

  lemma {:induction false} OwnedAt(t: Table, now: int, evs: seq<Event>, own: Owner, i: nat)
    requires Owned(t, own) && OwnedRun(evs, own) && ValidRun(t, now, evs) && i <= |evs|
    ensures Owned(TableAt(t, now, evs, i), own)
    decreases evs
  {
    if i > 0 {
      assert OwnedEvent(evs[0], own);
      OwnedStep(t, own, evs[0]);
      OwnedAt(Step(t, evs[0]), evs[0].at, evs[1..], own, i - 1);
    }
  }

  lemma {:induction false} ProjectAt(t: Table, now: int, lo: int, evs: seq<Event>, own: Owner, a: Address, i: nat)
    requires Owned(t, own) && OwnedRun(evs, own) && ValidRun(t, now, evs) && i <= |evs|
    requires ValidRun(Project(t, a), lo, ProjectRun(evs, own, a))
    ensures ProjectedAt(t, now, lo, evs, own, a, i)
    decreases evs, 1
  {
    if i > 0 {
      if ProjectEvent(evs[0], own, a).None? {
        ProjectAtOther(t, now, lo, evs, own, a, i);
      } else {
        ProjectAtOwn(t, now, lo, evs, own, a, i);
      }
    }
  }

  lemma {:induction false} ProjectAtOther(t: Table, now: int, lo: int, evs: seq<Event>, own: Owner, a: Address, i: nat)
    requires Owned(t, own) && OwnedRun(evs, own) && ValidRun(t, now, evs) && 0 < i <= |evs|
    requires ValidRun(Project(t, a), lo, ProjectRun(evs, own, a)) && ProjectEvent(evs[0], own, a).None?
    ensures ProjectedAt(t, now, lo, evs, own, a, i)
    decreases evs, 0
  {
    assert OwnedEvent(evs[0], own);
    TableFollows(t, own, evs[0], a);
    assert evs[..i][0] == evs[0] && evs[..i][1..] == evs[1..][..i - 1];
    ProjectAt(Step(t, evs[0]), evs[0].at, lo, evs[1..], own, a, i - 1);
  }

  lemma {:induction false} ProjectAtOwn(t: Table, now: int, lo: int, evs: seq<Event>, own: Owner, a: Address, i: nat)
    requires Owned(t, own) && OwnedRun(evs, own) && ValidRun(t, now, evs) && 0 < i <= |evs|
    requires ValidRun(Project(t, a), lo, ProjectRun(evs, own, a)) && ProjectEvent(evs[0], own, a).Some?
    ensures ProjectedAt(t, now, lo, evs, own, a, i)
    decreases evs, 0
  {
    var u, pe, rest := Step(t, evs[0]), ProjectEvent(evs[0], own, a).value, evs[1..];
    assert OwnedEvent(evs[0], own);
    OwnHead(evs, own, a, i);
    OwnStep(t, lo, own, evs[0], a, pe, ProjectRun(rest, own, a), |ProjectRun(rest[..i - 1], own, a)|);
    ProjectAt(u, evs[0].at, pe.at, rest, own, a, i - 1);
    assert TableAt(t, now, evs, i) == TableAt(u, evs[0].at, rest, i - 1);
  }

  lemma OwnHead(evs: seq<Event>, own: Owner, a: Address, i: nat)
    requires 0 < i <= |evs| && ProjectEvent(evs[0], own, a).Some?
    ensures var pe, rest := ProjectEvent(evs[0], own, a).value, evs[1..];
            && pe.at == evs[0].at
            && ProjectRun(evs, own, a) == [pe] + ProjectRun(rest, own, a)
            && ProjectRun(evs[..i], own, a) == [pe] + ProjectRun(rest[..i - 1], own, a)
            && |ProjectRun(rest[..i - 1], own, a)| <= |ProjectRun(rest, own, a)|
  {
    ProjectSplit(evs[1..], own, a, i - 1);
    assert evs[..i][0] == evs[0] && evs[..i][1..] == evs[1..][..i - 1];
  }

  lemma ReplyProjects(o: Outcome, u: Table, own: Owner, a: Address, e: ExecutionId, missing: LocalError)
    requires Owned(u, own) && own(e) == a
    ensures Reply(o, Project(u, a), e, missing) == Reply(o, u, e, missing)
  {
    SameExecution(u, own, a, e);
  }

  lemma ResolveReplyProjects(t: Table, u: Table, own: Owner, a: Address, e: ExecutionId, to: NonceState)
    requires Owned(t, own) && Owned(u, own) && own(e) == a
    ensures ResolveReply(Target(Project(t, a), e).Some?, Project(u, a), e, to)
            == ResolveReply(Target(t, e).Some?, u, e, to)
  {
    SameExecution(t, own, a, e);
    SameExecution(u, own, a, e);
  }

  lemma AnswerProjects(t: Table, u: Table, own: Owner, ev: Event, a: Address)
    requires Owned(t, own) && Owned(u, own) && OwnedEvent(ev, own) && Enabled(t, ev)
    requires !ev.Sweep? && ProjectEvent(ev, own, a) == Some(ev)
    ensures Enabled(Project(t, a), ev) && AnswerSeeing(Project(t, a), ev, Project(u, a)) == AnswerSeeing(t, ev, u)
  {
    match ev
    case Reserve(at, s, e, pick) =>
      ReserveOutcomeProjects(t, own, at, s, e, pick);
      ReplyProjects(ReserveOutcome(t, at, s, e, pick), u, own, a, e, DatabaseError);
    case Sync(at, s, e, n) =>
      SyncProjects(t, own, at, s, e, n);
      ReplyProjects(SyncOutcome(t, at, s, e, n), u, own, a, e, Rejected);
    case Resolve(_, e, to) =>
      ResolveReplyProjects(t, u, own, a, e, to);
  }

  /** The command at `i`, whose second statement runs before the statement at `j`, is told
      what it is told when only its address's statements run. */
  lemma LateAnswersProject(t: Table, now: int, evs: seq<Event>, own: Owner, a: Address, i: nat, j: nat)
    requires Owned(t, own) && OwnedRun(evs, own) && ValidRun(t, now, evs) && i < j <= |evs|
    requires !evs[i].Sweep? && ProjectEvent(evs[i], own, a) == Some(evs[i])
    ensures Enabled(TableAt(t, now, evs, i), evs[i])
    ensures var p, pes := Project(t, a), ProjectRun(evs, own, a);
            var x, y := |ProjectRun(evs[..i], own, a)|, |ProjectRun(evs[..j], own, a)|;
            && ValidRun(p, now, pes) && x < y <= |pes| && pes[x] == evs[i] && Enabled(TableAt(p, now, pes, x), pes[x])
            && AnswerSeeing(TableAt(t, now, evs, i), evs[i], TableAt(t, now, evs, j))
               == AnswerSeeing(TableAt(p, now, pes, x), pes[x], TableAt(p, now, pes, y))
  {
    NonInterference(t, now, now, evs, own, a);
    ProjectAt(t, now, now, evs, own, a, i);
    ProjectAt(t, now, now, evs, own, a, j);
    OwnedAt(t, now, evs, own, i);
    OwnedAt(t, now, evs, own, j);
    EnabledAt(t, now, evs, i);
    assert OwnedEvent(evs[i], own);
    AnswerProjects(TableAt(t, now, evs, i), TableAt(t, now, evs, j), own, evs[i], a);
    ProjectSplit(evs, own, a, i);
    ProjectSplit(evs[..j], own, a, i);
    assert evs[..j][..i] == evs[..i];
    assert evs[i..][0] == evs[i] && evs[..j][i..][0] == evs[i];
  }

  lemma SameProjections(t: Table, u: Table)
    requires forall a :: Project(t, a) == Project(u, a)
    ensures t == u
  {
    forall k | k in t ensures k in u && u[k] == t[k] {
      assert k in Project(t, t[k].sender.from);
      assert Project(t, t[k].sender.from) == Project(u, t[k].sender.from);
    }
    forall k | k in u ensures k in t {
      assert k in Project(u, u[k].sender.from);
      assert Project(t, u[k].sender.from) == Project(u, u[k].sender.from);
    }
  }

  /** Two interleavings with the same commands per address end in the same table and tell
      the clients of each address the same. */
  lemma InterleavingsAgree(t: Table, now: int, xs: seq<Event>, ys: seq<Event>, own: Owner)
    requires Owned(t, own) && OwnedRun(xs, own) && OwnedRun(ys, own)
    requires ValidRun(t, now, xs) && ValidRun(t, now, ys)
    requires forall a :: ProjectRun(xs, own, a) == ProjectRun(ys, own, a)
    ensures Run(t, now, xs) == Run(t, now, ys)
    ensures forall a :: AnswersOf(t, now, xs, own, a) == AnswersOf(t, now, ys, own, a)
  {
    forall a
      ensures Project(Run(t, now, xs), a) == Project(Run(t, now, ys), a)
      ensures AnswersOf(t, now, xs, own, a) == AnswersOf(t, now, ys, own, a)
    {
      NonInterference(t, now, now, xs, own, a);
      NonInterference(t, now, now, ys, own, a);
    }
    SameProjections(Run(t, now, xs), Run(t, now, ys));
  }

  /** So two interleavings tell a client the same, when both of its statements find the same
      of its own address's statements before them. */
  lemma LateAnswersAgree(t: Table, now: int, xs: seq<Event>, ys: seq<Event>, own: Owner, a: Address,
                         i: nat, j: nat, i': nat, j': nat)
    requires Owned(t, own) && OwnedRun(xs, own) && OwnedRun(ys, own)
    requires ValidRun(t, now, xs) && ValidRun(t, now, ys) && ProjectRun(xs, own, a) == ProjectRun(ys, own, a)
    requires i < j <= |xs| && i' < j' <= |ys|
    requires !xs[i].Sweep? && ProjectEvent(xs[i], own, a) == Some(xs[i])
    requires !ys[i'].Sweep? && ProjectEvent(ys[i'], own, a) == Some(ys[i'])
    requires ProjectRun(xs[..i], own, a) == ProjectRun(ys[..i'], own, a)
    requires ProjectRun(xs[..j], own, a) == ProjectRun(ys[..j'], own, a)
    ensures Enabled(TableAt(t, now, xs, i), xs[i]) && Enabled(TableAt(t, now, ys, i'), ys[i'])
    ensures AnswerSeeing(TableAt(t, now, xs, i), xs[i], TableAt(t, now, xs, j))
            == AnswerSeeing(TableAt(t, now, ys, i'), ys[i'], TableAt(t, now, ys, j'))
  {
    LateAnswersProject(t, now, xs, own, a, i, j);
    LateAnswersProject(t, now, ys, own, a, i', j');
  }

  // ---- shards --------------------------------------------------------------

  /** `ShardPool::get`: hash of the key modulo the number of shards. */
  function ShardIndex(hash: Address -> nat, a: Address, n: nat): nat
    requires n > 0
  {
    hash(a) % n
  }

  function CommandAddress(ev: Event, own: Owner): Address
    requires !ev.Sweep?
  {
    if ev.Resolve? then own(ev.exec) else ev.sender.from
  }

  predicate NoSweep(evs: seq<Event>) {
    forall i | 0 <= i < |evs| :: !evs[i].Sweep?
  }

  /** The mailbox of a shard: the commands routed to it, in the order they were sent. */
  function Mailbox(evs: seq<Event>, own: Owner, hash: Address -> nat, n: nat, i: nat): seq<Event>
    requires n > 0 && NoSweep(evs)
  {
    if evs == [] then []
    else
      assert !evs[0].Sweep?;
      (if ShardIndex(hash, CommandAddress(evs[0], own), n) == i then [evs[0]] else [])
      + Mailbox(evs[1..], own, hash, n, i)
  }

  lemma MailboxHasNoSweep(evs: seq<Event>, own: Owner, hash: Address -> nat, n: nat, i: nat)
    requires n > 0 && NoSweep(evs)
    ensures NoSweep(Mailbox(evs, own, hash, n, i))
  {
    if evs != [] { MailboxHasNoSweep(evs[1..], own, hash, n, i); }
  }

  /** `run` is what `n` shard actors, each serving its mailbox in order, made of the
      commands in `sent`. */
  ghost predicate ScheduleOf(run: seq<Event>, sent: seq<Event>, own: Owner, hash: Address -> nat, n: nat) {
    n > 0 && NoSweep(run) && NoSweep(sent)
    && forall i | 0 <= i < n :: Mailbox(run, own, hash, n, i) == Mailbox(sent, own, hash, n, i)
  }

  /** An address's commands all sit in its own shard's mailbox, in order. */
  lemma {:induction false} MailboxKeepsAddress(
      evs: seq<Event>, own: Owner, hash: Address -> nat, n: nat, a: Address)
    requires n > 0 && NoSweep(evs)
    ensures ProjectRun(Mailbox(evs, own, hash, n, ShardIndex(hash, a, n)), own, a) == ProjectRun(evs, own, a)
  {
    if evs != [] {
      assert !evs[0].Sweep?;
      var i := ShardIndex(hash, a, n);
      var rest := Mailbox(evs[1..], own, hash, n, i);
      MailboxKeepsAddress(evs[1..], own, hash, n, a);
      if ShardIndex(hash, CommandAddress(evs[0], own), n) == i {
        assert ([evs[0]] + rest)[1..] == rest;
      } else {
        assert [] + rest == rest;
      }
    }
  }

  /** The table and the answers do not depend on the schedule or on the number of shards. */
  lemma ShardsAreTransparent(
      t: Table, now: int, sent: seq<Event>, own: Owner, hash: Address -> nat,
      xs: seq<Event>, n: nat, ys: seq<Event>, m: nat)
    requires Owned(t, own) && OwnedRun(xs, own) && OwnedRun(ys, own)
    requires ScheduleOf(xs, sent, own, hash, n) && ScheduleOf(ys, sent, own, hash, m)
    requires ValidRun(t, now, xs) && ValidRun(t, now, ys)
    ensures Run(t, now, xs) == Run(t, now, ys)
    ensures forall a :: AnswersOf(t, now, xs, own, a) == AnswersOf(t, now, ys, own, a)
  {
    forall a ensures ProjectRun(xs, own, a) == ProjectRun(ys, own, a) {
      MailboxKeepsAddress(xs, own, hash, n, a);
      MailboxKeepsAddress(sent, own, hash, n, a);
      MailboxKeepsAddress(sent, own, hash, m, a);
      MailboxKeepsAddress(ys, own, hash, m, a);
    }
    InterleavingsAgree(t, now, xs, ys, own);
  }
}
