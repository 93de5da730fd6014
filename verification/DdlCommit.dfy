/** How DDLProc gets the transaction a DDL statement runs in: an open transaction of the
    session is first committed on every PM and its table locks are released, then a new
    transaction is started, in the serial mode after waiting for other sessions. */
module DdlCommit {

  import opened Bytes
  import opened PmReplies

  datatype Lock = Lock(id: nat, owner: nat)

  /** What one look at the transaction table meets: whether another session is active, this
      session's transaction, the PMs and their replies to a commit, the lock list, the locks
      that can still be released, and what newTxnID gives. */
  datatype Round = Round(other: bool, current: Option<nat>, pmCount: nat, replies: seq<Reply>,
                         locks: seq<Lock>, known: set<nat>, issued: Option<nat>)

  datatype Event =
    | Check(other: bool)
    | Found(current: Option<nat>)
    | Confirmed(txn: nat, replies: seq<Reply>)
    | Fetched(locks: seq<Lock>)
    | Released(id: nat)
    | Committed(txn: nat)
    | NewTxn(issued: Option<nat>)
    | Invoke(txn: nat)

  /** How acquiring a transaction ends: with one, with none this time, with an exception,
      with the waiting time used up, or still waiting for a reply. */
  datatype Result = Got(txn: nat) | Retry | Thrown | Rejected | Waiting

  // ------------------------------------------------------------------ specification

  /** commitTransaction; with no connection at all the request cannot be sent. */
  function Commit(pmCount: nat, replies: seq<Reply>): Verdict {
    if pmCount == 0 then Failed else AwaitAll(pmCount, replies)
  }

  /** Releasing the locks of a transaction, in list order, up to one that is not found. */
  function Unlock(txn: nat, locks: seq<Lock>, known: set<nat>): (seq<Event>, bool) {
    if locks == [] then ([], true)
    else if locks[0].owner != txn then Unlock(txn, locks[1..], known)
    else if locks[0].id !in known then ([], false)
    else
      var (rest, ok) := Unlock(txn, locks[1..], known);
      ([Released(locks[0].id)] + rest, ok)
  }

  function Started(issued: Option<nat>): Result {
    if issued.Some? then Got(issued.value) else Retry
  }

  /** One attempt to start the statement's transaction. */
  function Attempt(r: Round): (seq<Event>, Result) {
    match r.current
    case None => ([Found(None), NewTxn(r.issued)], Started(r.issued))
    case Some(txn) =>
      match Commit(r.pmCount, r.replies)
      case Failed => ([Found(Some(txn))], Thrown)
      case Unanswered => ([Found(Some(txn))], Waiting)
      case AllGood =>
        var begun := [Found(Some(txn)), Confirmed(txn, if r.pmCount <= |r.replies| then r.replies[..r.pmCount] else []),
                      Fetched(r.locks)];
        var (released, ok) := Unlock(txn, r.locks, r.known);
        if !ok then (begun + released, Thrown)
        else (begun + released + [Committed(txn), NewTxn(r.issued)], Started(r.issued))
  }

  /** A visit of the transaction table: the check, and the attempt when no other session is
      active; a transaction that was started goes to the handler. */
  function Visit(r: Round): (seq<Event>, Result) {
    if r.other then ([Check(true)], Retry)
    else
      var (events, result) := Attempt(r);
      var v := [Check(false)] + events;
      (if result.Got? then v + [Invoke(result.txn)] else v, result)
  }

  /** The serial mode.  Outside the timed loop a round that gives nothing is retried at once
      or enters that loop; inside it each such round uses up one of the tries. */
  function Serial(rounds: seq<Round>, i: int, numTries: int, timed: bool): (seq<seq<Event>>, Result)
    decreases |rounds|
  {
    if rounds == [] then ([], Waiting)
    else
      var (v, result) := Visit(rounds[0]);
      if result != Retry then ([v], result)
      else
        var i' := if timed then i + 1 else i;
        if i' >= numTries then ([v], Rejected)
        else
          var (vs, last) := Serial(rounds[1..], i', numTries, timed || rounds[0].other);
          ([v] + vs, last)
  }

  /** The concurrent mode: one attempt, whoever else is active; it must give a transaction. */
  function Concurrent(r: Round): (seq<Event>, Result) {
    var (v, result) := Visit(r.(other := false));
    (v, if result == Retry then Thrown else result)
  }

  // ------------------------------------------------------------------ discipline

  /** The releases of exactly the locks in the list that the transaction owns. */
  function ReleasesOf(txn: nat, locks: seq<Lock>): seq<Event> {
    if locks == [] then []
    else if locks[0].owner == txn then [Released(locks[0].id)] + ReleasesOf(txn, locks[1..])
    else ReleasesOf(txn, locks[1..])
  }

  /** A lock is released exactly if it is in the list and the transaction owns it. */
  lemma {:induction false} ReleasedExactly(txn: nat, locks: seq<Lock>, id: nat)
    ensures Released(id) in ReleasesOf(txn, locks) <==> Lock(id, txn) in locks
  {
    if locks != [] {
      ReleasedExactly(txn, locks[1..], id);
      assert locks == [locks[0]] + locks[1..];
    }
  }

  /** The record of a transaction that was properly put away: confirmed with code 0 by each
      of the PMs, then all its locks and no others released, then marked committed. */
  function PutAway(txn: nat, replies: seq<Reply>, locks: seq<Lock>): seq<Event> {
    [Confirmed(txn, replies), Fetched(locks)] + ReleasesOf(txn, locks) + [Committed(txn)]
  }

  /** A whole visit that replaces the session's transaction, up to the new one. */
  function Replacing(r: Round): seq<Event>
    requires r.current.Some? && r.pmCount <= |r.replies|
  {
    [Check(false), Found(r.current)] + PutAway(r.current.value, r.replies[..r.pmCount], r.locks) + [NewTxn(r.issued)]
  }

  lemma {:induction false} UnlockMeans(txn: nat, locks: seq<Lock>, known: set<nat>)
    ensures var (released, ok) := Unlock(txn, locks, known);
            released <= ReleasesOf(txn, locks) && (ok ==> released == ReleasesOf(txn, locks))
            && (ok <==> forall i :: 0 <= i < |locks| && locks[i].owner == txn ==> locks[i].id in known)
  {
    if locks != [] {
      UnlockMeans(txn, locks[1..], known);
      assert forall i :: 1 <= i < |locks| ==> locks[i] == locks[1..][i - 1];
      assert forall i :: 0 <= i < |locks| - 1 ==> locks[1..][i] == locks[i + 1];
    }
  }

  /** An attempt that gets as far as newTxnID ends with what that gave: the transaction if it
      gave one, and another try if not. */
  predicate Issues(issued: Option<nat>, result: Result) {
    match issued
    case None => result == Retry
    case Some(txn) => result == Got(txn)
  }

  /** What an attempt leaves behind: nothing of the old transaction is touched without all
      PMs' confirmation, and a new transaction is asked for only when there is no old one
      or the old one has been put away. */
  ghost predicate Proper(r: Round, events: seq<Event>, result: Result) {
    match r.current
    case None => events == [Found(None), NewTxn(r.issued)] && Issues(r.issued, result)
    case Some(txn) =>
      var confirmed := 0 < r.pmCount <= |r.replies| && GoodUpTo(r.replies, r.pmCount);
      if !confirmed then
        && events == [Found(Some(txn))]
        && result == if |r.replies| < r.pmCount && GoodUpTo(r.replies, |r.replies|) then Waiting else Thrown
      else
        var all := [Found(Some(txn))] + PutAway(txn, r.replies[..r.pmCount], r.locks) + [NewTxn(r.issued)];
        if forall i :: 0 <= i < |r.locks| && r.locks[i].owner == txn ==> r.locks[i].id in r.known
        then events == all && Issues(r.issued, result)
        else
          && result == Thrown && |events| < |all| - 2
          && events == all[..|events|]
  }

  lemma AttemptProper(r: Round)
    ensures Proper(r, Attempt(r).0, Attempt(r).1)
  {
    if r.current.Some? {
      var txn := r.current.value;
      AwaitMeans(r.pmCount, r.replies);
      if Commit(r.pmCount, r.replies) == AllGood {
        UnlockMeans(txn, r.locks, r.known);
        var released := Unlock(txn, r.locks, r.known).0;
        var replies := r.replies[..r.pmCount];
        var begun := [Found(Some(txn)), Confirmed(txn, replies), Fetched(r.locks)];
        var all := [Found(Some(txn))] + PutAway(txn, replies, r.locks) + [NewTxn(r.issued)];
        assert all == begun + ReleasesOf(txn, r.locks) + [Committed(txn), NewTxn(r.issued)];
        assert all[..3 + |released|] == begun + released;
        if !Unlock(txn, r.locks, r.known).1 {
          UnlockShort(txn, r.locks, r.known);
        }
      }
    }
  }

  lemma {:induction false} UnlockShort(txn: nat, locks: seq<Lock>, known: set<nat>)
    requires !Unlock(txn, locks, known).1
    ensures |Unlock(txn, locks, known).0| < |ReleasesOf(txn, locks)|
  {
    if locks[0].owner != txn || locks[0].id in known {
      UnlockShort(txn, locks[1..], known);
    }
  }

  /** A visit invokes the handler at most once, as its last event, and right after newTxnID
      gave the handler's transaction. */
  predicate InvokesLast(v: seq<Event>, result: Result) {
    && (result.Got? ==> |v| >= 2 && v[|v| - 1] == Invoke(result.txn) && v[|v| - 2] == NewTxn(Some(result.txn)))
    && (forall k :: 0 <= k < |v| && v[k].Invoke? ==> result.Got? && k == |v| - 1)
  }

  lemma {:induction false} ReleasesAre(txn: nat, locks: seq<Lock>)
    ensures forall k :: 0 <= k < |ReleasesOf(txn, locks)| ==> ReleasesOf(txn, locks)[k].Released?
  {
    if locks != [] {
      ReleasesAre(txn, locks[1..]);
    }
  }

  lemma AttemptNoInvoke(r: Round)
    ensures forall k :: 0 <= k < |Attempt(r).0| ==> !Attempt(r).0[k].Invoke?
    ensures var (events, result) := Attempt(r);
            result.Got? ==> |events| > 0 && events[|events| - 1] == NewTxn(Some(result.txn))
  {
    AttemptProper(r);
    if r.current.Some? {
      ReleasesAre(r.current.value, r.locks);
    }
  }

  lemma VisitInvokes(r: Round)
    ensures InvokesLast(Visit(r).0, Visit(r).1)
  {
    if !r.other {
      AttemptNoInvoke(r);
    }
  }

  /** A visit that looked at the session's transaction did so properly. */
  ghost predicate VisitProper(r: Round, v: seq<Event>, result: Result) {
    if r.other then v == [Check(true)]
    else Proper(r, Attempt(r).0, Attempt(r).1) && [Check(false)] + Attempt(r).0 <= v && InvokesLast(v, result)
  }

  /** In the serial mode, whatever the rounds bring: each visit is a proper attempt, only
      the last can invoke the handler, and it does exactly when the search ends with a
      transaction, with that transaction, which newTxnID has just issued. */
  lemma {:induction false} SerialProper(rounds: seq<Round>, i: int, numTries: int, timed: bool)
    ensures var (vs, result) := Serial(rounds, i, numTries, timed);
            |vs| <= |rounds| && (result.Got? ==> vs != [])
            && forall k :: 0 <= k < |vs| ==>
                 VisitProper(rounds[k], vs[k], if k == |vs| - 1 && result != Rejected then result else Retry)
    decreases |rounds|
  {
    if rounds != [] {
      var (v, r) := Visit(rounds[0]);
      AttemptProper(rounds[0]);
      VisitInvokes(rounds[0]);
      var i' := if timed then i + 1 else i;
      if r == Retry && i' < numTries {
        SerialProper(rounds[1..], i', numTries, timed || rounds[0].other);
        var (vs, last) := Serial(rounds[1..], i', numTries, timed || rounds[0].other);
        assert forall k :: 1 <= k < |vs| + 1 ==> ([v] + vs)[k] == vs[k - 1] && rounds[k] == rounds[1..][k - 1];
      }
    }
  }

  /** No transaction of the session is left behind: when the handler is invoked, every
      transaction found on the way was confirmed by all PMs, rid of its locks and marked
      committed in the visit that found it. */
  lemma {:induction false} SerialPutsAway(rounds: seq<Round>, i: int, numTries: int, timed: bool, k: nat)
    requires var (vs, result) := Serial(rounds, i, numTries, timed); result.Got? && k < |vs|
    requires k < |rounds| && !rounds[k].other && rounds[k].current.Some?
    ensures var r := rounds[k];
            0 < r.pmCount <= |r.replies| && GoodUpTo(r.replies, r.pmCount)
            && Replacing(r) <= Serial(rounds, i, numTries, timed).0[k]
    decreases |rounds|
  {
    var (v, result) := Visit(rounds[0]);
    if k == 0 {
      var r := rounds[0];
      AttemptProper(r);
      assert result.Got? || result == Retry;
      assert Replacing(r) == [Check(false)] + Attempt(r).0;
    } else {
      var i' := if timed then i + 1 else i;
      SerialPutsAway(rounds[1..], i', numTries, timed || rounds[0].other, k - 1);
    }
  }

  /** How many tries are left in the timed loop; it always makes one. */
  function Left(i: int, numTries: int): nat {
    if numTries - i < 1 then 1 else numTries - i
  }

  /** A visit in this round gives nothing; sealed, see Unseal. */
  ghost predicate Nothing(r: Round) {
    forall k {:trigger Unseal(k)} :: Unseal(k) ==> Visit(r).1 == Retry
  }

  /** The first n rounds give nothing. */
  ghost predicate Fruitless(rounds: seq<Round>, n: nat) {
    n <= |rounds| && forall k :: 0 <= k < n ==> Nothing(rounds[k])
  }

  /** In the timed loop the statement is rejected exactly when all the tries left give nothing,
      and then after just so many visits. */
  lemma {:induction false} RejectedExactly(rounds: seq<Round>, i: int, numTries: int)
    ensures var (vs, result) := Serial(rounds, i, numTries, true);
            && (result == Rejected <==> Fruitless(rounds, Left(i, numTries)))
            && (result == Rejected ==> |vs| == Left(i, numTries))
    decreases |rounds|
  {
    if rounds != [] {
      var rest := rounds[1..];
      VisitNotRejected(rounds[0]);
      RejectedExactly(rest, i + 1, numTries);
      var n := Left(i, numTries);
      assert Fruitless(rounds, n) <==> Nothing(rounds[0]) && Fruitless(rest, n - 1) by {
        assert forall k :: 1 <= k < |rounds| ==> rounds[k] == rest[k - 1];
        assert forall k :: 0 <= k < |rest| ==> rest[k] == rounds[k + 1];
      }
    }
  }

  lemma VisitNotRejected(r: Round)
    ensures Visit(r).1 != Rejected && (Nothing(r) <==> Visit(r).1 == Retry)
  {
    AttemptProper(r);
    assert Unseal(0);
  }

  /** From the first check on: the tries begin to count once another session was seen active. */
  lemma {:induction false} RejectedFromStart(rounds: seq<Round>, numTries: int)
    requires numTries > 0
    ensures Serial(rounds, 0, numTries, false).1 == Rejected <==>
            exists m :: 0 <= m < |rounds| && SwitchesAt(rounds, m) && Fruitless(rounds[m + 1..], numTries)
    decreases |rounds|
  {
    if rounds != [] {
      var rest := rounds[1..];
      VisitNotRejected(rounds[0]);
      if rounds[0].other {
        RejectedExactly(rest, 0, numTries);
        assert SwitchesAt(rounds, 0);
        assert forall m :: 0 < m < |rounds| ==> !SwitchesAt(rounds, m);
      } else {
        RejectedFromStart(rest, numTries);
        SwitchesLater(rounds, numTries);
      }
    }
  }

  /** Round m is the first to see another session, and those before it give nothing. */
  ghost predicate SwitchesAt(rounds: seq<Round>, m: nat) {
    && m < |rounds| && rounds[m].other && Fruitless(rounds, m)
    && forall k :: 0 <= k < m ==> !rounds[k].other
  }

  lemma SwitchesLater(rounds: seq<Round>, numTries: int)
    requires rounds != [] && !rounds[0].other && numTries > 0
    ensures (exists m :: 0 <= m < |rounds| && SwitchesAt(rounds, m) && Fruitless(rounds[m + 1..], numTries)) <==>
            && Nothing(rounds[0])
            && exists m :: 0 <= m < |rounds[1..]| && SwitchesAt(rounds[1..], m)
                           && Fruitless(rounds[1..][m + 1..], numTries)
  {
    var rest := rounds[1..];
    assert forall k :: 1 <= k < |rounds| ==> rounds[k] == rest[k - 1];
    assert forall k :: 0 <= k < |rest| ==> rest[k] == rounds[k + 1];
    if m :| 0 <= m < |rounds| && SwitchesAt(rounds, m) && Fruitless(rounds[m + 1..], numTries) {
      assert m > 0 && rest[m..] == rounds[m + 1..];
      assert SwitchesAt(rest, m - 1);
    }
    if Nothing(rounds[0]) {
      if m :| 0 <= m < |rest| && SwitchesAt(rest, m) && Fruitless(rest[m + 1..], numTries) {
        assert rest[m + 1..] == rounds[m + 2..];
        assert SwitchesAt(rounds, m + 1);
      }
    }
  }

  /** The same in the concurrent mode, in which getting no transaction is an exception. */
  lemma ConcurrentProper(r: Round)
    ensures var (v, result) := Concurrent(r);
            VisitProper(r.(other := false), v, result)
            && result == (if Attempt(r).1 == Retry then Thrown else Attempt(r).1)
            && (result.Got? && r.current.Some? ==>
                  0 < r.pmCount <= |r.replies| && GoodUpTo(r.replies, r.pmCount)
                  && Replacing(r) <= v)
  {
    var r' := r.(other := false);
    AttemptProper(r');
    VisitInvokes(r');
    assert Attempt(r) == Attempt(r');
    if Concurrent(r).1.Got? && r.current.Some? {
      assert Replacing(r) == [Check(false)] + Attempt(r').0;
    }
  }

  // ------------------------------------------------------------------ the processor

  /** commitTransaction: asks every connected PM and counts the replies. */
  method CommitTransaction(pmCount: nat, replies: seq<Reply>) returns (verdict: Verdict)
    ensures verdict == Commit(pmCount, replies)
  {
    if pmCount == 0 {
      return Failed;
    }
    verdict := ReadAll(pmCount, replies);
  }

  method ReleaseLocks(txn: nat, locks: seq<Lock>, known: set<nat>) returns (events: seq<Event>, ok: bool)
    ensures (events, ok) == Unlock(txn, locks, known)
  {
    events := [];
    assert locks[0..] == locks;
    for k := 0 to |locks|
      invariant Unlock(txn, locks, known).0 == events + Unlock(txn, locks[k..], known).0
      invariant Unlock(txn, locks, known).1 == Unlock(txn, locks[k..], known).1
    {
      assert locks[k..][1..] == locks[k + 1..];
      if locks[k].owner == txn {
        if locks[k].id !in known {
          assert events + [] == events;
          return events, false;
        }
        ghost var rest := Unlock(txn, locks[k + 1..], known).0;
        assert events + ([Released(locks[k].id)] + rest) == events + [Released(locks[k].id)] + rest;
        events := events + [Released(locks[k].id)];
      }
    }
    assert events + [] == events;
    return events, true;
  }

  /** The body both modes share: put the old transaction away, then start a new one. */
  method Acquire(r: Round) returns (events: seq<Event>, result: Result)
    ensures (events, result) == Attempt(r)
  {
    if r.current.None? {
      return [Found(None), NewTxn(r.issued)], Started(r.issued);
    }
    var txn := r.current.value;
    events := [Found(Some(txn))];
    var verdict := CommitTransaction(r.pmCount, r.replies);
    if verdict == Failed {
      return events, Thrown;
    }
    if verdict == Unanswered {
      return events, Waiting;
    }
    var seen := if r.pmCount <= |r.replies| then r.replies[..r.pmCount] else [];
    events := events + [Confirmed(txn, seen), Fetched(r.locks)];
    var released, ok := ReleaseLocks(txn, r.locks, r.known);
    assert events == [Found(Some(txn)), Confirmed(txn, seen), Fetched(r.locks)];
    events := events + released;
    if !ok {
      return events, Thrown;
    }
    events := events + [Committed(txn), NewTxn(r.issued)];
    return events, Started(r.issued);
  }

  method VisitOnce(r: Round) returns (v: seq<Event>, result: Result)
    ensures (v, result) == Visit(r)
  {
    if r.other {
      return [Check(true)], Retry;
    }
    v, result := Acquire(r);
    v := [Check(false)] + v;
    if result.Got? {
      v := v + [Invoke(result.txn)];
    }
  }

  /** The visits made so far, with those the serial mode makes from here, are the whole;
      sealed, see Unseal. */
  ghost predicate Continues(whole: (seq<seq<Event>>, Result), visits: seq<seq<Event>>, rounds: seq<Round>, i: int,
                            numTries: int, timed: bool) {
    forall k {:trigger Unseal(k)} :: Unseal(k) ==>
      var (vs, result) := Serial(rounds, i, numTries, timed); whole == (visits + vs, result)
  }

  lemma StartContinues(rounds: seq<Round>, i: int, numTries: int, timed: bool)
    ensures Continues(Serial(rounds, i, numTries, timed), [], rounds, i, numTries, timed)
  {
    var vs := Serial(rounds, i, numTries, timed).0;
    assert [] + vs == vs;
  }

  /** One visit further: the mode ends there, or continues with the next round. */
  lemma VisitContinues(whole: (seq<seq<Event>>, Result), visits: seq<seq<Event>>, rounds: seq<Round>, i: int,
                       numTries: int, timed: bool)
    requires rounds != [] && Continues(whole, visits, rounds, i, numTries, timed)
    ensures var (v, result) := Visit(rounds[0]);
            var i' := if timed then i + 1 else i;
            if result != Retry then whole == (visits + [v], result)
            else if i' >= numTries then whole == (visits + [v], Rejected)
            else Continues(whole, visits + [v], rounds[1..], i', numTries, timed || rounds[0].other)
  {
    assert Unseal(0);
    var (v, result) := Visit(rounds[0]);
    var vs := Serial(rounds[1..], if timed then i + 1 else i, numTries, timed || rounds[0].other).0;
    assert visits + ([v] + vs) == visits + [v] + vs;
  }

  lemma EndContinues(whole: (seq<seq<Event>>, Result), visits: seq<seq<Event>>, i: int, numTries: int, timed: bool)
    requires Continues(whole, visits, [], i, numTries, timed)
    ensures whole == (visits, Waiting)
  {
    assert Unseal(0);
    assert visits + [] == visits;
  }

  /** The timed loop: checks again up to numTries times. */
  method AcquireTimed(rounds: seq<Round>, numTries: nat) returns (visits: seq<seq<Event>>, result: Result)
    requires numTries > 0
    ensures (visits, result) == Serial(rounds, 0, numTries, true)
  {
    visits := [];
    ghost var whole := Serial(rounds, 0, numTries, true);
    assert rounds[0..] == rounds;
    StartContinues(rounds, 0, numTries, true);
    for i := 0 to numTries
      invariant i <= |rounds|
      invariant if i < numTries then Continues(whole, visits, rounds[i..], i, numTries, true)
                else whole == (visits, Rejected)
    {
      if i == |rounds| {
        EndContinues(whole, visits, i, numTries, true);
        return visits, Waiting;
      }
      VisitContinues(whole, visits, rounds[i..], i, numTries, true);
      assert rounds[i..][1..] == rounds[i + 1..];
      var v;
      v, result := VisitOnce(rounds[i]);
      visits := visits + [v];
      if result != Retry {
        return;
      }
    }
    return visits, Rejected;
  }

  /** The serial mode: the outer loop checks and, once another session was seen active,
      goes over to the timed loop. */
  method AcquireSerial(rounds: seq<Round>, numTries: int) returns (visits: seq<seq<Event>>, result: Result)
    ensures (visits, result) == Serial(rounds, 0, numTries, false)
  {
    visits := [];
    ghost var whole := Serial(rounds, 0, numTries, false);
    assert rounds[0..] == rounds;
    StartContinues(rounds, 0, numTries, false);
    for n := 0 to |rounds|
      invariant Continues(whole, visits, rounds[n..], 0, numTries, false)
    {
      VisitContinues(whole, visits, rounds[n..], 0, numTries, false);
      assert rounds[n..][1..] == rounds[n + 1..];
      var v;
      v, result := VisitOnce(rounds[n]);
      visits := visits + [v];
      if result != Retry {
        return;
      }
      if numTries <= 0 {
        return visits, Rejected;
      }
      if rounds[n].other {
        var more;
        more, result := AcquireTimed(rounds[n + 1..], numTries);
        assert Unseal(0);
        return visits + more, result;
      }
    }
    EndContinues(whole, visits, 0, numTries, false);
    return visits, Waiting;
  }
}
