/** Bulk rollback of an abandoned load: DMLProc takes over the stale table lock, has every PM
    that owns one of the table's dbroots roll back and clean up, and releases the lock. */
module BulkRollback {

  import opened PmReplies

  datatype LockState = LOADING | CLEANUP

  datatype TableLock = TableLock(id: nat, dbroots: seq<nat>, state: LockState)

  datatype OwnerReply = Changed(ok: bool) | OwnerThrew

  /** What the run meets: the answer to changing the owner, whether the reply queue can be set
      up, the PMs that can be written to, the replies in the order in which they arrive, and
      whether the two calls to the DBRM come back without an exception. */
  datatype Env = Env(owner: OwnerReply, queueOk: bool, links: set<int>, rollbacks: seq<Reply>, stateOk: bool,
                     cleanups: seq<Reply>, releaseOk: bool)

  datatype Action = AskRollback(pm: int) | MoveToCleanup | AskCleanup(pm: int) | Release

  /** A run that ends in Hung is still waiting for a reply. */
  datatype Exit = Returned | Threw | Hung

  datatype Outcome = Outcome(trace: seq<Action>, exit: Exit, lockReleased: bool)

  // ------------------------------------------------------------------ the PM set

  /** The PM that owns a dbroot; looking up an unknown dbroot gives PM 0. */
  function PmOf(owners: map<nat, int>, root: nat): int {
    if root in owners then owners[root] else 0
  }

  predicate Ascending(s: seq<int>) {
    forall i, j :: 0 <= i < j < |s| ==> s[i] < s[j]
  }

  method Insert(s: seq<int>, x: int) returns (r: seq<int>)
    requires Ascending(s)
    ensures Ascending(r) && forall y :: y in r <==> y == x || y in s
  {
    var i := 0;
    while i < |s| && s[i] < x
      invariant i <= |s| && forall k :: 0 <= k < i ==> s[k] < x
    {
      i := i + 1;
    }
    if i < |s| && s[i] == x {
      return s;
    }
    r := s[..i] + [x] + s[i..];
    assert forall y :: y in s <==> y in s[..i] || y in s[i..] by {
      assert s == s[..i] + s[i..];
    }
  }

  /** The PMs to write to: each owner of one of the dbroots once, in ascending order. */
  method PmSet(dbroots: seq<nat>, owners: map<nat, int>) returns (pms: seq<int>)
    ensures Ascending(pms)
    ensures forall pm :: pm in pms <==> exists i :: 0 <= i < |dbroots| && PmOf(owners, dbroots[i]) == pm
  {
    pms := [];
    for k := 0 to |dbroots|
      invariant Ascending(pms)
      invariant forall pm :: pm in pms <==> exists i :: 0 <= i < k && PmOf(owners, dbroots[i]) == pm
    {
      pms := Insert(pms, PmOf(owners, dbroots[k]));
    }
  }

  /** A PM is written to exactly if it owns one of the dbroots; PM 0 also if one has no owner. */
  lemma PmsAre(dbroots: seq<nat>, owners: map<nat, int>, pms: seq<int>, pm: int)
    requires forall p :: p in pms <==> exists i :: 0 <= i < |dbroots| && PmOf(owners, dbroots[i]) == p
    ensures pm in pms <==>
            exists root :: root in dbroots && if root in owners then owners[root] == pm else pm == 0
  {
    if pm in pms {
      var i :| 0 <= i < |dbroots| && PmOf(owners, dbroots[i]) == pm;
      assert dbroots[i] in dbroots;
    }
    if root :| root in dbroots && if root in owners then owners[root] == pm else pm == 0 {
      var i :| 0 <= i < |dbroots| && dbroots[i] == root;
      assert PmOf(owners, dbroots[i]) == pm;
    }
  }

  // ------------------------------------------------------------------ specification

  /** Writing to the PMs in turn, up to the first that has no link. */
  function Asks(pms: seq<int>, links: set<int>, ask: int -> Action): (seq<Action>, bool) {
    if pms == [] then ([], true)
    else if pms[0] !in links then ([], false)
    else
      var (rest, ok) := Asks(pms[1..], links, ask);
      ([ask(pms[0])] + rest, ok)
  }

  /** Reading the cleanup replies.  The first error removes the reply queue, and the next
      read then throws; the code carried out is the first error's, or 1 for an empty reply. */
  function ReadCleanups(need: nat, replies: seq<Reply>, open: bool, rc: nat): (Verdict, nat) {
    if need == 0 then (AllGood, rc)
    else if !open then (Failed, rc)
    else if replies == [] then (Unanswered, rc)
    else if replies[0].Empty? then ReadCleanups(need - 1, replies[1..], false, 1)
    else if replies[0].rc != 0 && rc == 0 then ReadCleanups(need - 1, replies[1..], false, replies[0].rc)
    else ReadCleanups(need - 1, replies[1..], open, rc)
  }

  /** The second half: clean up on every PM, then release. */
  function CleanUp(pms: seq<int>, env: Env): Outcome {
    var (asks, ok) := Asks(pms, env.links, pm => AskCleanup(pm));
    if !ok then Outcome(asks, Threw, true)
    else
      var (verdict, rc) := ReadCleanups(|pms|, env.cleanups, true, 0);
      match verdict
      case Unanswered => Outcome(asks, Hung, true)
      case Failed => Outcome(asks, Threw, true)
      case AllGood =>
        if !env.releaseOk then Outcome(asks, Threw, true)
        else Outcome(asks + [Release], if rc != 0 then Threw else Returned, true)
  }

  function After(trace: seq<Action>, o: Outcome): Outcome {
    o.(trace := trace + o.trace)
  }

  function RollBack(state: LockState, pms: seq<int>, env: Env): Outcome {
    if env.owner != Changed(true) then Outcome([], Threw, false)
    else if !env.queueOk then Outcome([], Threw, true)
    else if state != LOADING then CleanUp(pms, env)
    else
      var (asks, ok) := Asks(pms, env.links, pm => AskRollback(pm));
      if !ok then Outcome(asks, Threw, true)
      else match AwaitAll(|pms|, env.rollbacks)
        case Unanswered => Outcome(asks, Hung, true)
        case Failed => Outcome(asks, Threw, false)
        case AllGood =>
          if !env.stateOk then Outcome(asks, Threw, true)
          else After(asks + [MoveToCleanup], CleanUp(pms, env))
  }

  // ------------------------------------------------------------------ the run

  method WriteAll(pms: seq<int>, links: set<int>, ask: int -> Action) returns (trace: seq<Action>, ok: bool)
    ensures (trace, ok) == Asks(pms, links, ask)
  {
    trace := [];
    assert pms[0..] == pms;
    for i := 0 to |pms|
      invariant Asks(pms, links, ask).0 == trace + Asks(pms[i..], links, ask).0
      invariant Asks(pms, links, ask).1 == Asks(pms[i..], links, ask).1
    {
      if pms[i] !in links {
        assert trace + [] == trace;
        return trace, false;
      }
      assert pms[i..][1..] == pms[i + 1..];
      ghost var rest := Asks(pms[i + 1..], links, ask).0;
      assert trace + ([ask(pms[i])] + rest) == trace + [ask(pms[i])] + rest;
      trace := trace + [ask(pms[i])];
    }
    assert trace + [] == trace;
    return trace, true;
  }

  method AwaitCleanups(need: nat, replies: seq<Reply>) returns (verdict: Verdict, rc: nat)
    ensures (verdict, rc) == ReadCleanups(need, replies, true, 0)
  {
    var n, open := 0, true;
    rc := 0;
    while n < need
      invariant n <= need && n <= |replies|
      invariant ReadCleanups(need - n, replies[n..], open, rc) == ReadCleanups(need, replies, true, 0)
    {
      if !open {
        return Failed, rc;
      }
      if n == |replies| {
        return Unanswered, rc;
      }
      var r := replies[n];
      assert replies[n..][1..] == replies[n + 1..];
      if r.Empty? {
        open, rc := false, 1;
      } else if r.rc != 0 && rc == 0 {
        open, rc := false, r.rc;
      }
      n := n + 1;
    }
    return AllGood, rc;
  }

  /** processBulkRollback. */
  method ProcessBulkRollback(lock: TableLock, owners: map<nat, int>, env: Env)
    returns (pms: seq<int>, trace: seq<Action>, exit: Exit, lockReleased: bool)
    ensures Ascending(pms)
    ensures forall pm :: pm in pms <==> exists i :: 0 <= i < |lock.dbroots| && PmOf(owners, lock.dbroots[i]) == pm
    ensures Outcome(trace, exit, lockReleased) == RollBack(lock.state, pms, env)
  {
    lockReleased := true;
    pms := PmSet(lock.dbroots, owners);
    trace := [];
    if env.owner != Changed(true) {
      return pms, trace, Threw, false;
    }
    if !env.queueOk {
      return pms, trace, Threw, lockReleased;
    }
    if lock.state == LOADING {
      var ok;
      trace, ok := WriteAll(pms, env.links, pm => AskRollback(pm));
      if !ok {
        return pms, trace, Threw, lockReleased;
      }
      var verdict := ReadAll(|pms|, env.rollbacks);
      if verdict == Unanswered {
        return pms, trace, Hung, lockReleased;
      }
      if verdict == Failed {
        return pms, trace, Threw, false;
      }
      if !env.stateOk {
        return pms, trace, Threw, lockReleased;
      }
      trace := trace + [MoveToCleanup];
    }
    var asks, ok := WriteAll(pms, env.links, pm => AskCleanup(pm));
    ghost var before := trace;
    trace := trace + asks;
    if !ok {
      return pms, trace, Threw, lockReleased;
    }
    var verdict, rc := AwaitCleanups(|pms|, env.cleanups);
    if verdict == Unanswered {
      return pms, trace, Hung, lockReleased;
    }
    if verdict == Failed || !env.releaseOk {
      return pms, trace, Threw, lockReleased;
    }
    assert before + (asks + [Release]) == trace + [Release];
    trace := trace + [Release];
    exit := if rc != 0 then Threw else Returned;
  }

  // ------------------------------------------------------------------ properties

  predicate Linked(pms: seq<int>, links: set<int>) {
    forall i :: 0 <= i < |pms| ==> pms[i] in links
  }

  lemma {:induction false} AsksAll(pms: seq<int>, links: set<int>, ask: int -> Action)
    ensures var (trace, ok) := Asks(pms, links, ask);
            (ok <==> Linked(pms, links)) && |trace| <= |pms| && (ok ==> |trace| == |pms|)
            && forall i :: 0 <= i < |trace| ==> trace[i] == ask(pms[i])
  {
    if pms != [] {
      AsksAll(pms[1..], links, ask);
      var (rest, ok) := Asks(pms[1..], links, ask);
      assert Linked(pms, links) <==> pms[0] in links && Linked(pms[1..], links) by {
        assert forall i :: 1 <= i < |pms| ==> pms[i] == pms[1..][i - 1];
        assert forall i :: 0 <= i < |pms| - 1 ==> pms[1..][i] == pms[i + 1];
      }
    }
  }

  /** All cleanup replies are read if and only if none before the last reports an error. */
  lemma {:induction false} CleanupsMean(need: nat, replies: seq<Reply>)
    ensures var (verdict, rc) := ReadCleanups(need, replies, true, 0);
            (verdict == AllGood <==> need == 0 || (need <= |replies| && GoodUpTo(replies, need - 1)))
            && (verdict == Unanswered <==> |replies| < need && GoodUpTo(replies, |replies|))
            && (verdict == AllGood ==> (rc == 0 <==> GoodUpTo(replies, need)))
  {
    if need > 0 && replies != [] {
      CleanupsMean(need - 1, replies[1..]);
      GoodRest(replies, need);
      GoodRest(replies, |replies|);
      if need > 1 {
        GoodRest(replies, need - 1);
      }
    }
  }

  /** The state of affairs in which cleaning up gets as far as releasing the lock. */
  predicate CleansUp(pms: seq<int>, env: Env) {
    && Linked(pms, env.links) && env.releaseOk
    && (pms == [] || (|pms| <= |env.cleanups| && GoodUpTo(env.cleanups, |pms| - 1)))
  }

  lemma CleanUpMeans(pms: seq<int>, env: Env)
    ensures var o := CleanUp(pms, env);
            (Release in o.trace <==> CleansUp(pms, env)) && MoveToCleanup !in o.trace && o.lockReleased
            && (o.exit == Returned <==> CleansUp(pms, env) && GoodUpTo(env.cleanups, |pms|))
  {
    AsksAll(pms, env.links, pm => AskCleanup(pm));
    CleanupsMean(|pms|, env.cleanups);
  }

  /** The table's rollback is confirmed: each of its PMs was asked and as many replies came
      in, all with return code 0. */
  predicate Confirmed(state: LockState, pms: seq<int>, env: Env) {
    state == LOADING ==> Linked(pms, env.links) && GoodUpTo(env.rollbacks, |pms|)
  }

  /** The lock is released exactly when it was taken over, the rollback was confirmed, the
      state moved to CLEANUP, and no cleanup error came before the last cleanup reply. */
  lemma ReleaseExactly(state: LockState, pms: seq<int>, env: Env)
    ensures Release in RollBack(state, pms, env).trace <==>
            && env.owner == Changed(true) && env.queueOk && Confirmed(state, pms, env)
            && (state == LOADING ==> env.stateOk) && CleansUp(pms, env)
  {
    AsksAll(pms, env.links, pm => AskRollback(pm));
    AwaitMeans(|pms|, env.rollbacks);
    CleanUpMeans(pms, env);
  }

  /** On the way to a release of a LOADING table's lock every PM was asked to roll back
      before the state moved, and the state moved before any PM was asked to clean up. */
  lemma ReleaseOrder(pms: seq<int>, env: Env)
    requires Release in RollBack(LOADING, pms, env).trace
    ensures RollBack(LOADING, pms, env).trace == Rollbacks(pms) + [MoveToCleanup] + Cleanups(pms) + [Release]
  {
    ReleaseExactly(LOADING, pms, env);
    AsksAll(pms, env.links, pm => AskRollback(pm));
    AsksAll(pms, env.links, pm => AskCleanup(pm));
    AwaitMeans(|pms|, env.rollbacks);
    CleanupsMean(|pms|, env.cleanups);
    assert Asks(pms, env.links, pm => AskRollback(pm)).0 == Rollbacks(pms);
    assert Asks(pms, env.links, pm => AskCleanup(pm)).0 == Cleanups(pms);
  }

  /** The whole course of a run. */
  function Course(state: LockState, pms: seq<int>): seq<Action> {
    (if state == LOADING then Rollbacks(pms) + [MoveToCleanup] else []) + Cleanups(pms) + [Release]
  }

  function Cleanups(pms: seq<int>): seq<Action> {
    seq(|pms|, i requires 0 <= i < |pms| => AskCleanup(pms[i]))
  }

  function Rollbacks(pms: seq<int>): seq<Action> {
    seq(|pms|, i requires 0 <= i < |pms| => AskRollback(pms[i]))
  }

  lemma CleanUpKeepsCourse(pms: seq<int>, env: Env)
    ensures CleanUp(pms, env).trace <= Cleanups(pms) + [Release]
  {
    AsksAll(pms, env.links, pm => AskCleanup(pm));
    assert Asks(pms, env.links, pm => AskCleanup(pm)).0 <= Cleanups(pms);
  }

  lemma RollbacksKeepCourse(pms: seq<int>, env: Env)
    ensures var (asks, ok) := Asks(pms, env.links, pm => AskRollback(pm));
            asks <= Rollbacks(pms) && (ok <==> Linked(pms, env.links)) && (ok ==> asks == Rollbacks(pms))
            && MoveToCleanup !in asks
  {
    AsksAll(pms, env.links, pm => AskRollback(pm));
  }

  /** Every run, however it ends, keeps to this course up to where it stops; and the state is
      moved exactly when the rollback half got through. */
  lemma KeepsCourse(state: LockState, pms: seq<int>, env: Env)
    ensures RollBack(state, pms, env).trace <= Course(state, pms)
    ensures MoveToCleanup in RollBack(state, pms, env).trace <==> state == LOADING && RolledBack(state, pms, env)
  {
    RollbacksKeepCourse(pms, env);
    CleanUpKeepsCourse(pms, env);
    AwaitMeans(|pms|, env.rollbacks);
    CleanUpMeans(pms, env);
    var rest := Cleanups(pms) + [Release];
    if state == LOADING {
      assert Course(state, pms) == Rollbacks(pms) + [MoveToCleanup] + rest;
    } else {
      assert Course(state, pms) == rest;
    }
  }

  /** When each PM answers once, a release means that every PM answered with code 0. */
  lemma EveryPmConfirmed(pms: seq<int>, env: Env, pm: int)
    requires Release in RollBack(LOADING, pms, env).trace && pm in pms
    requires |env.rollbacks| == |pms|
    requires forall p :: p in pms ==> exists r :: r in env.rollbacks && r.Answer? && r.pm == p
    ensures Answer(0, pm) in env.rollbacks
  {
    ReleaseExactly(LOADING, pms, env);
    var r :| r in env.rollbacks && r.Answer? && r.pm == pm;
    var i :| 0 <= i < |env.rollbacks| && env.rollbacks[i] == r;
    assert Good(env.rollbacks[i]);
  }

  /** Taking over or rolling back was refused, and the run says so. */
  predicate Refused(state: LockState, pms: seq<int>, env: Env) {
    env.owner != Changed(true)
    || (env.queueOk && state == LOADING && Linked(pms, env.links) && !GoodUpTo(env.rollbacks, |pms|))
  }

  /** On every exit, `lockReleased` tells whether the lock was released if and only if the
      run was refused, or it got through: no exception came from the DBRM or from writing
      to a PM, and no cleanup error came before the last cleanup reply. */
  lemma LockReleasedTells(state: LockState, pms: seq<int>, env: Env)
    requires RollBack(state, pms, env).exit != Hung
    ensures var o := RollBack(state, pms, env);
            (o.lockReleased == (Release in o.trace)) <==>
            Refused(state, pms, env) || (env.queueOk && (state == LOADING ==> env.stateOk) && CleansUp(pms, env))
  {
    AsksAll(pms, env.links, pm => AskRollback(pm));
    AwaitMeans(|pms|, env.rollbacks);
    CleanUpMeans(pms, env);
  }

  /** As many good replies as came in, and fewer than there are PMs. */
  predicate Wanting(replies: seq<Reply>, need: nat) {
    |replies| < need && GoodUpTo(replies, |replies|)
  }

  /** The rollback half got through: the lock was taken over, the reply queue set up, and a
      LOADING table was rolled back on every PM and moved to CLEANUP. */
  predicate RolledBack(state: LockState, pms: seq<int>, env: Env) {
    && env.owner == Changed(true) && env.queueOk
    && (state == LOADING ==> Linked(pms, env.links) && GoodUpTo(env.rollbacks, |pms|) && env.stateOk)
  }

  /** How a run ends: it returns exactly if both halves got through and no cleanup reply
      carried an error; it hangs exactly if in one of the halves every PM was asked and too
      few replies came, all of them good; and in every other case it throws. */
  lemma ExitExactly(state: LockState, pms: seq<int>, env: Env)
    ensures var o := RollBack(state, pms, env);
            && (o.exit == Returned <==>
                RolledBack(state, pms, env) && CleansUp(pms, env) && GoodUpTo(env.cleanups, |pms|))
            && (o.exit == Hung <==>
                && Linked(pms, env.links)
                && (|| (env.owner == Changed(true) && env.queueOk && state == LOADING && Wanting(env.rollbacks, |pms|))
                    || (RolledBack(state, pms, env) && Wanting(env.cleanups, |pms|))))
  {
    AsksAll(pms, env.links, pm => AskRollback(pm));
    AsksAll(pms, env.links, pm => AskCleanup(pm));
    AwaitMeans(|pms|, env.rollbacks);
    CleanupsMean(|pms|, env.cleanups);
    CleanUpMeans(pms, env);
  }

  /** The run denies having released the lock exactly if it could not take the lock over, or
      some PM's reply to the rollback carried an error. */
  lemma DeniesExactly(state: LockState, pms: seq<int>, env: Env)
    ensures !RollBack(state, pms, env).lockReleased <==>
            || env.owner != Changed(true)
            || (env.queueOk && state == LOADING && Linked(pms, env.links)
                && !GoodUpTo(env.rollbacks, |pms|) && !Wanting(env.rollbacks, |pms|))
  {
    AsksAll(pms, env.links, pm => AskRollback(pm));
    AwaitMeans(|pms|, env.rollbacks);
    CleanUpMeans(pms, env);
  }

  /** Cleanup errors can keep the lock: with two PMs, an error in the first reply makes the
      next read fail, and the run ends with the lock held but reported as released. */
  lemma CleanupErrorKeepsLock()
    ensures var replies := [Answer(9, 1), Answer(0, 2)];
            var o := RollBack(CLEANUP, [1, 2], Env(Changed(true), true, {1, 2}, [], true, replies, true));
            o.exit == Threw && o.lockReleased && Release !in o.trace
  {
    var replies := [Answer(9, 1), Answer(0, 2)];
    assert !Good(replies[0]);
    CleanUpMeans([1, 2], Env(Changed(true), true, {1, 2}, [], true, replies, true));
    CleanupsMean(2, replies);
  }
}
