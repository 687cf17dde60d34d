/** Rows keyed by execution and revision, as in every table of the system. */
module Revisions {
  import opened Types

  /** Primary key. */
  datatype Key = Key(exec: ExecutionId, rev: nat)

  ghost predicate IsMaxRev<R>(t: map<Key, R>, e: ExecutionId, m: nat) {
    && (m == 0 || Key(e, m) in t)
    && forall k | k in t && k.exec == e :: k.rev <= m
  }

  /** COALESCE(MAX(revision), 0) of an execution. */
  ghost function MaxRev<R>(t: map<Key, R>, e: ExecutionId): (m: nat)
    ensures IsMaxRev(t, e, m)
  {
    var revs := set k | k in t && k.exec == e :: k.rev as int;
    var m := MaxOf(revs, 0);
    assert forall k | k in t && k.exec == e :: (k.rev as int) in revs;
    m
  }

  /** Each execution's revisions are exactly 1..k. */
  ghost predicate Contiguous<R>(t: map<Key, R>) {
    forall k | k in t :: 1 <= k.rev && forall r | 1 <= r <= k.rev :: Key(k.exec, r) in t
  }

  lemma FreshKey<R>(t: map<Key, R>, e: ExecutionId)
    ensures Key(e, MaxRev(t, e) + 1) !in t
  {
    assert IsMaxRev(t, e, MaxRev(t, e));
  }

  method SelectMaxRevision<R>(t: map<Key, R>, e: ExecutionId) returns (m: nat)
    ensures m == MaxRev(t, e)
  {
    assert IsMaxRev(t, e, MaxRev(t, e));
    if exists k | k in t :: k.exec == e {
      ghost var top := Key(e, MaxRev(t, e));
      assert top in t;
      var k :| k in t && k.exec == e && forall j | j in t && j.exec == e :: j.rev <= k.rev;
      m := k.rev;
    } else {
      m := 0;
    }
  }
}
