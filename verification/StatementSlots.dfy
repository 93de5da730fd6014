/** Admission of SQL statements: the counter that limits how many run at once, and the
    session threads that take and give back slots, over every interleaving of any number
    of threads. */
module StatementSlots {

  // ------------------------------------------------------------------ the monitor

  /** The counter's fields; a limit of zero admits everyone. */
  datatype Monitor = Monitor(count: nat, waiting: nat, limit: nat)

  /** What `incr` does while it holds the mutex, up to admission or the next wait.  A
      thread back from a wait first takes itself off the waiting count. */
  function TryEnter(m: Monitor, back: bool): (r: (Monitor, bool))
    requires back ==> m.waiting > 0
  {
    var m1 := if back then m.(waiting := m.waiting - 1) else m;
    if m.limit > 0 && m1.count >= m.limit then (m1.(waiting := m1.waiting + 1), false)
    else (m1.(count := m1.count + 1), true)
  }

  /** What `decr` does while it holds the mutex; the flag says whether it notifies. */
  function Leave(m: Monitor): (r: (Monitor, bool)) {
    if m.count == 0 then (m, false) else (m.(count := m.count - 1), true)
  }

  class ActiveStatementCounter {
    var fStatementCount: nat
    var fStatementsWaiting: nat
    const upperLimit: nat

    function State(): Monitor
      reads this
    {
      Monitor(fStatementCount, fStatementsWaiting, upperLimit)
    }

    constructor (limit: nat)
      ensures State() == Monitor(0, 0, limit)
    {
      fStatementCount, fStatementsWaiting, upperLimit := 0, 0, limit;
    }

    /** `incr` from the lock, or from the end of a wait, to admission or the next wait. */
    method Enter(back: bool) returns (admitted: bool)
      requires back ==> fStatementsWaiting > 0
      modifies this
      ensures (State(), admitted) == TryEnter(old(State()), back)
    {
      if back {
        fStatementsWaiting := fStatementsWaiting - 1;
      }
      if upperLimit > 0 && fStatementCount >= upperLimit {
        fStatementsWaiting := fStatementsWaiting + 1;
        return false;
      }
      fStatementCount := fStatementCount + 1;
      return true;
    }

    /** `decr` under the lock. */
    method Exit() returns (notify: bool)
      modifies this
      ensures (State(), notify) == Leave(old(State()))
    {
      if fStatementCount == 0 {
        return false;
      }
      fStatementCount := fStatementCount - 1;
      return true;
    }
  }

  // ------------------------------------------------------------------ session threads

  /** Where a thread stands with the monitor. */
  datatype Phase =
    | Outside   // not in a call
    | Entering  // in incr, before the lock
    | Sleeping  // in the wait, not notified
    | Notified  // notified, lock not yet taken
    | Awake     // out of the wait without a notification
    | Leaving   // in decr, before the lock

  /** Where a thread stands in its session loop. */
  datatype Pc =
    | Top        // reading the next request
    | NewPlan    // a plan is at hand, no slot asked for yet
    | Admission  // in incr
    | Building   // slot taken, building the job list
    | Tables     // answering table requests
    | Bands      // sending the bands of one table
    | Finishing  // the query is done, its slot still to be given back
    | Giving(next: Pc)  // in decr, to go on at next
    | Aborting   // the front end dropped the query; closing and returning
    | Closing    // left the loop
    | Caught     // in an exception handler
    | Done

  datatype Thread = Thread(pc: Pc, counted: bool, tuples: bool, phase: Phase)

  /** The thread has been admitted and has not yet been taken off the count. */
  predicate Holds(th: Thread) {
    (th.counted && th.phase == Outside) || th.phase == Leaving
  }

  predicate Waits(th: Thread) {
    th.phase == Sleeping || th.phase == Notified || th.phase == Awake
  }

  predicate IsSleeping(th: Thread) { th.phase == Sleeping }
  predicate IsNotified(th: Thread) { th.phase == Notified }

  datatype System = System(m: Monitor, threads: map<nat, Thread>)

  /** Session steps that do not touch the counter: the positions a thread may move to.
      Any of them may also throw, into the handler of the session loop. */
  predicate Moves(from: Pc, to: Pc, tuples: bool) {
    match from
    case Top => to == NewPlan || to == Closing || to == Caught
    case NewPlan => to == Caught
    case Building => to == Tables || to == Caught
    case Tables => to == Tables || to == Bands || to == Finishing || to == Caught
    case Bands => to == Bands || (to == Tables && tuples) || to == Caught
    case Finishing => to == Caught
    case Aborting => to == Done || to == Caught
    case Closing => to == Done || to == Caught
    case Admission => false
    case Giving(_) => false
    case Caught => false
    case Done => false
  }

  /** The places that call decr, and where the thread goes on: a plan that cannot be
      built, a self join or table-mode request for another plan, the end of a table
      outside tuple mode, an aborted projection, the end of a query, and the handlers. */
  predicate Gives(from: Pc, tuples: bool, next: Pc) {
    match from
    case Building => next == Top && tuples
    case Tables => next == NewPlan
    case Bands => (next == Tables && !tuples) || next == Aborting
    case Finishing => next == Top
    case Caught => next == Done
    case _ => false
  }

  datatype Event =
    | Move(t: nat, to: Pc, tuples: bool)
    | CallIncr(t: nat)
    | Lock(t: nat)               // incr takes the mutex, first time or after a wait
    | Spurious(t: nat)           // a wait ends by itself
    | CallDecr(t: nat, next: Pc)
    | Unlock(t: nat, woken: nat) // decr's critical section; woken is the thread notified, if any sleeps

  predicate Enabled(s: System, e: Event) {
    e.t in s.threads &&
    var th := s.threads[e.t];
    match e
    case Move(_, to, tuples) =>
      th.phase == Outside && Moves(th.pc, to, th.tuples) && (th.pc != Top ==> tuples == th.tuples)
    case CallIncr(_) => th.phase == Outside && th.pc == NewPlan
    case Lock(_) => th.phase == Entering || ((th.phase == Notified || th.phase == Awake) && s.m.waiting > 0)
    case Spurious(_) => th.phase == Sleeping
    case CallDecr(_, next) => th.phase == Outside && Gives(th.pc, th.tuples, next)
    case Unlock(_, woken) =>
      && th.phase == Leaving && th.pc.Giving?
      && ((exists w :: w in s.threads && IsSleeping(s.threads[w])) && s.m.count > 0 ==>
            woken in s.threads && IsSleeping(s.threads[woken]))
  }

  function Put(s: System, t: nat, th: Thread): System {
    s.(threads := s.threads[t := th])
  }

  function Do(s: System, e: Event): (s': System)
    requires Enabled(s, e)
  {
    var th := s.threads[e.t];
    match e
    case Move(t, to, tuples) => Put(s, t, th.(pc := to, tuples := tuples))
    case CallIncr(t) =>
      if th.counted then Put(s, t, th.(pc := Building))
      else Put(s, t, th.(pc := Admission, counted := true, phase := Entering))
    case Lock(t) =>
      var (m, admitted) := TryEnter(s.m, th.phase != Entering);
      var s1 := s.(m := m);
      if admitted then Put(s1, t, th.(pc := Building, phase := Outside))
      else Put(s1, t, th.(phase := Sleeping))
    case Spurious(t) => Put(s, t, th.(phase := Awake))
    case CallDecr(t, next) =>
      if !th.counted then Put(s, t, th.(pc := next))
      else Put(s, t, th.(pc := Giving(next), counted := false, phase := Leaving))
    case Unlock(t, woken) =>
      var (m, notify) := Leave(s.m);
      var s1 := Put(s.(m := m), t, th.(pc := th.pc.next, phase := Outside));
      if notify && woken in s1.threads && IsSleeping(s1.threads[woken])
        then Put(s1, woken, s1.threads[woken].(phase := Notified))
      else s1
  }

  // ------------------------------------------------------------------ counting threads

  ghost function Those(threads: map<nat, Thread>, p: Thread -> bool): set<nat> {
    set t | t in threads && p(threads[t])
  }

  function One(b: bool): nat {
    if b then 1 else 0
  }

  lemma SizeWithout(a: set<nat>, t: nat)
    ensures |a| == |a - {t}| + One(t in a)
  {
    if t in a {
      assert a == (a - {t}) + {t};
    } else {
      assert a == a - {t};
    }
  }

  lemma OthersKept(threads: map<nat, Thread>, t: nat, th: Thread, p: Thread -> bool)
    requires t in threads
    ensures Those(threads[t := th], p) - {t} == Those(threads, p) - {t}
    ensures t in Those(threads[t := th], p) <==> p(th)
    ensures t in Those(threads, p) <==> p(threads[t])
  {
    forall x
      ensures x in Those(threads[t := th], p) - {t} <==> x in Those(threads, p) - {t}
    {
    }
  }

  lemma CountAfterPut(threads: map<nat, Thread>, t: nat, th: Thread, p: Thread -> bool)
    requires t in threads
    ensures |Those(threads[t := th], p)| == |Those(threads, p)| - One(p(threads[t])) + One(p(th))
  {
    SizeWithout(Those(threads, p), t);
    SizeWithout(Those(threads[t := th], p), t);
    OthersKept(threads, t, th, p);
  }

  /** The four counts the invariant speaks of, after one thread changes. */
  lemma Recount(threads: map<nat, Thread>, t: nat, th: Thread)
    requires t in threads
    ensures |Those(threads[t := th], Holds)| == |Those(threads, Holds)| - One(Holds(threads[t])) + One(Holds(th))
    ensures |Those(threads[t := th], Waits)| == |Those(threads, Waits)| - One(Waits(threads[t])) + One(Waits(th))
    ensures |Those(threads[t := th], IsSleeping)|
            == |Those(threads, IsSleeping)| - One(IsSleeping(threads[t])) + One(IsSleeping(th))
    ensures |Those(threads[t := th], IsNotified)|
            == |Those(threads, IsNotified)| - One(IsNotified(threads[t])) + One(IsNotified(th))
  {
    CountAfterPut(threads, t, th, Holds);
    CountAfterPut(threads, t, th, Waits);
    CountAfterPut(threads, t, th, IsSleeping);
    CountAfterPut(threads, t, th, IsNotified);
  }

  lemma SomeCounts(threads: map<nat, Thread>, t: nat, p: Thread -> bool)
    requires t in threads && p(threads[t])
    ensures |Those(threads, p)| >= 1
  {
    SizeWithout(Those(threads, p), t);
  }

  lemma CountHas(threads: map<nat, Thread>, p: Thread -> bool) returns (t: nat)
    requires |Those(threads, p)| >= 1
    ensures t in threads && p(threads[t])
  {
    var a := Those(threads, p);
    assert a != {};
    t :| t in a;
  }

  // ------------------------------------------------------------------ the invariant

  /** What is true of every thread: a waiter has no slot and stands in incr, a thread
      back at the top, at a new plan, or finished has none either, and one in tuple mode
      keeps its slot through the whole query. */
  predicate ThreadOk(th: Thread) {
    match th.phase
    case Outside =>
      && th.pc != Admission && !th.pc.Giving?
      && (th.pc in {Top, NewPlan, Aborting, Closing, Done} ==> !th.counted)
      && (th.pc == Building ==> th.counted)
      && (th.pc in {Tables, Bands, Finishing} && th.tuples ==> th.counted)
    case Leaving =>
      && th.pc.Giving? && !th.counted
      && th.pc.next in {Top, NewPlan, Tables, Aborting, Done}
      && (th.pc.next == Tables ==> !th.tuples)
    case _ => th.pc == Admission && th.counted
  }

  ghost predicate Inv(s: System) {
    && (forall t :: t in s.threads ==> ThreadOk(s.threads[t]))
    && s.m.count == |Those(s.threads, Holds)|
    && s.m.waiting == |Those(s.threads, Waits)|
    && (s.m.limit > 0 ==> s.m.count <= s.m.limit)
    && (|Those(s.threads, IsSleeping)| > 0 ==> 0 < s.m.limit <= s.m.count + |Those(s.threads, IsNotified)|)
  }

  /** The parts of the invariant that a step leaves alone when it moves one thread without
      touching any count. */
  lemma QuietStep(s: System, t: nat, th: Thread)
    requires Inv(s) && t in s.threads && ThreadOk(th)
    requires Holds(th) == Holds(s.threads[t]) && Waits(th) == Waits(s.threads[t])
    requires IsNotified(th) == IsNotified(s.threads[t])
    requires IsSleeping(th) ==> IsSleeping(s.threads[t])
    ensures Inv(Put(s, t, th))
  {
    Recount(s.threads, t, th);
  }

  lemma MoveKeeps(s: System, e: Event)
    requires Inv(s) && Enabled(s, e) && (e.Move? || e.CallIncr? || e.CallDecr? || e.Spurious?)
    ensures Inv(Do(s, e))
  {
    var th := s.threads[e.t];
    assert ThreadOk(th);
    var s' := Do(s, e);
    QuietStep(s, e.t, s'.threads[e.t]);
  }

  lemma LockKeeps(s: System, e: Event)
    requires Inv(s) && Enabled(s, e) && e.Lock?
    ensures Inv(Do(s, e))
  {
    var th := s.threads[e.t];
    assert ThreadOk(th);
    var s' := Do(s, e);
    Recount(s.threads, e.t, s'.threads[e.t]);
    if s'.threads[e.t].phase == Outside {
      assert s'.threads == s.threads[e.t := th.(pc := Building, phase := Outside)];
    } else {
      assert s'.threads == s.threads[e.t := th.(phase := Sleeping)];
    }
  }

  /** The counts between giving the slot back and waking a sleeper. */
  lemma GiveBackCounts(s: System, t: nat)
    requires Inv(s) && t in s.threads && s.threads[t].phase == Leaving
    ensures s.m.count > 0 && s.threads[t].pc.Giving?
    ensures var th := s.threads[t].(pc := s.threads[t].pc.next, phase := Outside);
            var mid := s.threads[t := th];
            && ThreadOk(th)
            && |Those(mid, Holds)| == s.m.count - 1 && |Those(mid, Waits)| == s.m.waiting
            && |Those(mid, IsSleeping)| == |Those(s.threads, IsSleeping)|
            && |Those(mid, IsNotified)| == |Those(s.threads, IsNotified)|
  {
    var th := s.threads[t];
    assert ThreadOk(th);
    SomeCounts(s.threads, t, Holds);
    Recount(s.threads, t, th.(pc := th.pc.next, phase := Outside));
  }

  lemma UnlockKeeps(s: System, e: Event)
    requires Inv(s) && Enabled(s, e) && e.Unlock?
    ensures Inv(Do(s, e))
  {
    var th := s.threads[e.t];
    GiveBackCounts(s, e.t);
    var mid := s.threads[e.t := th.(pc := th.pc.next, phase := Outside)];
    if e.woken in mid && IsSleeping(mid[e.woken]) {
      Recount(mid, e.woken, mid[e.woken].(phase := Notified));
      SomeCounts(mid, e.woken, IsSleeping);
    } else {
      assert Those(mid, IsSleeping) == {};
    }
  }

  lemma StepKeeps(s: System, e: Event)
    requires Inv(s) && Enabled(s, e)
    ensures Inv(Do(s, e))
  {
    match e
    case Lock(_) => LockKeeps(s, e);
    case Unlock(_, _) => UnlockKeeps(s, e);
    case _ => MoveKeeps(s, e);
  }

  // ------------------------------------------------------------------ runs

  /** Any number of sessions, none of which has asked for anything yet. */
  predicate Fresh(s: System) {
    && s.m.count == 0 && s.m.waiting == 0
    && forall t :: t in s.threads ==> s.threads[t] == Thread(Top, false, s.threads[t].tuples, Outside)
  }

  ghost predicate Run(s: System, events: seq<Event>, s': System)
    decreases |events|
  {
    if events == [] then s == s'
    else Enabled(s, events[0]) && Run(Do(s, events[0]), events[1..], s')
  }

  lemma FreshInv(s: System)
    requires Fresh(s)
    ensures Inv(s)
  {
    assert Those(s.threads, Holds) == {};
    assert Those(s.threads, Waits) == {};
    assert Those(s.threads, IsSleeping) == {};
  }

  lemma {:induction false} RunKeeps(s: System, events: seq<Event>, s': System)
    requires Inv(s) && Run(s, events, s')
    ensures Inv(s')
    decreases |events|
  {
    if events != [] {
      StepKeeps(s, events[0]);
      RunKeeps(Do(s, events[0]), events[1..], s');
    }
  }

  /** In every state of every interleaving the count is the number of threads that hold a
      slot and never passes the limit; a thread that asks for a slot has none; and a
      session that is over, by whatever exit, has given back all it took. */
  lemma SlotsAreSafe(s0: System, events: seq<Event>, s: System)
    requires Fresh(s0) && Run(s0, events, s)
    ensures s.m.count == |Those(s.threads, Holds)|
    ensures s.m.limit > 0 ==> s.m.count <= s.m.limit
    ensures forall t :: t in s.threads && s.threads[t].pc == NewPlan && s.threads[t].phase == Outside ==>
              !Holds(s.threads[t]) && Do(s, CallIncr(t)).threads[t].phase == Entering
    ensures forall t :: t in s.threads && s.threads[t].pc in {Top, Done} ==>
              !Holds(s.threads[t]) && !s.threads[t].counted
    ensures (forall t :: t in s.threads ==> s.threads[t].pc == Done) ==> s.m.count == 0 && s.m.waiting == 0
  {
    FreshInv(s0);
    RunKeeps(s0, events, s);
    forall t | t in s.threads
      ensures ThreadOk(s.threads[t])
    {
    }
    if forall t :: t in s.threads ==> s.threads[t].pc == Done {
      assert Those(s.threads, Holds) == {};
      assert Those(s.threads, Waits) == {};
    }
  }

  /** No wake-up is lost: whenever a slot is free while someone sleeps, some other waiter
      has been notified and is admitted as soon as it takes the mutex. */
  lemma NoLostWakeup(s0: System, events: seq<Event>, s: System) returns (t: nat)
    requires Fresh(s0) && Run(s0, events, s)
    requires |Those(s.threads, IsSleeping)| > 0 && s.m.count < s.m.limit
    ensures t in s.threads && IsNotified(s.threads[t]) && Enabled(s, Lock(t))
    ensures Holds(Do(s, Lock(t)).threads[t])
  {
    FreshInv(s0);
    RunKeeps(s0, events, s);
    t := CountHas(s.threads, IsNotified);
    SomeCounts(s.threads, t, Waits);
  }

  /** Sleepers are justified: when no thread is part way through a call, all slots are taken. */
  lemma SleepersMeanFull(s0: System, events: seq<Event>, s: System)
    requires Fresh(s0) && Run(s0, events, s)
    requires |Those(s.threads, IsSleeping)| > 0
    requires forall t :: t in s.threads ==> s.threads[t].phase in {Outside, Sleeping}
    ensures s.m.count == s.m.limit == |set t | t in s.threads && s.threads[t].counted && s.threads[t].phase == Outside|
  {
    FreshInv(s0);
    RunKeeps(s0, events, s);
    assert Those(s.threads, IsNotified) == {};
    assert Those(s.threads, Holds) == set t | t in s.threads && s.threads[t].counted && s.threads[t].phase == Outside;
  }

  // ------------------------------------------------------------------ progress

  /** A step that is neither an exception nor a spurious wake-up nor a move to the same place. */
  predicate Calm(s: System, e: Event)
    requires Enabled(s, e)
  {
    !e.Spurious? && (e.Move? ==> e.to != Caught && e.to != s.threads[e.t].pc)
  }

  /** How far a position is from the end of the session on the shortest way there. */
  function PcRank(pc: Pc): nat {
    match pc
    case Done => 0
    case Closing => 1
    case Aborting => 1
    case Top => 2
    case Caught => 4
    case Finishing => 6
    case Tables => 7
    case Building => 8
    case Bands => 11
    case NewPlan => 12
    case Admission => 12
    case Giving(next) => PcRank(next) + 3
  }

  function Rank(th: Thread): nat {
    match th.phase
    case Outside => PcRank(th.pc)
    case Leaving => PcRank(th.pc)
    case Sleeping => 9
    case Notified => 10
    case Awake => 10
    case Entering => 11
  }

  const HIGHEST: nat := 15

  function AtLeast(n: nat): Thread -> bool {
    (th: Thread) => Rank(th) >= n
  }

  /** The ranks of all threads together, counted level by level up to n. */
  ghost function Total(threads: map<nat, Thread>, n: nat): nat {
    if n == 0 then 0 else Total(threads, n - 1) + |Those(threads, AtLeast(n))|
  }

  function Min(a: nat, b: nat): nat {
    if a < b then a else b
  }

  lemma {:induction false} TotalAfterPut(threads: map<nat, Thread>, t: nat, th: Thread, n: nat)
    requires t in threads
    ensures Total(threads[t := th], n) == Total(threads, n) - Min(Rank(threads[t]), n) + Min(Rank(th), n)
  {
    if n > 0 {
      TotalAfterPut(threads, t, th, n - 1);
      CountAfterPut(threads, t, th, AtLeast(n));
    }
  }

  /** All ranks stay within the levels counted. */
  lemma RankBounded(th: Thread)
    requires ThreadOk(th)
    ensures Rank(th) <= HIGHEST
  {
  }

  /** Moving one thread closer to its end lowers the total. */
  lemma Closer(s: System, t: nat, th: Thread)
    requires Inv(s) && t in s.threads && Rank(th) < Rank(s.threads[t])
    ensures Total(s.threads[t := th], HIGHEST) < Total(s.threads, HIGHEST)
  {
    assert ThreadOk(s.threads[t]);
    RankBounded(s.threads[t]);
    TotalAfterPut(s.threads, t, th, HIGHEST);
  }

  /** The way to its end that a thread outside the monitor takes. */
  function Onward(t: nat, th: Thread): Event {
    match th.pc
    case Top => Move(t, Closing, th.tuples)
    case NewPlan => CallIncr(t)
    case Building => Move(t, Tables, th.tuples)
    case Tables => Move(t, Finishing, th.tuples)
    case Bands => if th.tuples then Move(t, Tables, true) else CallDecr(t, Tables)
    case Finishing => CallDecr(t, Top)
    case Caught => CallDecr(t, Done)
    case _ => Move(t, Done, th.tuples)
  }

  lemma OnwardEnabled(s: System, t: nat)
    requires t in s.threads && ThreadOk(s.threads[t]) && s.threads[t].phase == Outside && s.threads[t].pc != Done
    ensures Enabled(s, Onward(t, s.threads[t])) && Calm(s, Onward(t, s.threads[t]))
  {
  }

  lemma OnwardCloser(s: System, t: nat)
    requires t in s.threads && ThreadOk(s.threads[t]) && s.threads[t].phase == Outside && s.threads[t].pc != Done
    requires Enabled(s, Onward(t, s.threads[t]))
    ensures var s' := Do(s, Onward(t, s.threads[t]));
            t in s'.threads && s'.threads == s.threads[t := s'.threads[t]] && Rank(s'.threads[t]) < Rank(s.threads[t])
  {
  }

  /** A thread outside the monitor and not finished can go on by itself. */
  lemma OutsideGoesOn(s: System, t: nat) returns (e: Event)
    requires Inv(s) && t in s.threads && s.threads[t].phase == Outside && s.threads[t].pc != Done
    ensures Enabled(s, e) && Calm(s, e) && Total(Do(s, e).threads, HIGHEST) < Total(s.threads, HIGHEST)
  {
    e := Onward(t, s.threads[t]);
    OnwardEnabled(s, t);
    OnwardCloser(s, t);
    Closer(s, t, Do(s, e).threads[t]);
  }

  /** A thread in decr can finish the call, whoever it has to notify. */
  lemma LeaverGoesOn(s: System, t: nat) returns (e: Event)
    requires Inv(s) && t in s.threads && s.threads[t].phase == Leaving
    ensures Enabled(s, e) && Calm(s, e) && Total(Do(s, e).threads, HIGHEST) < Total(s.threads, HIGHEST)
  {
    var th := s.threads[t];
    assert ThreadOk(th);
    RankBounded(th);
    GiveBackCounts(s, t);
    var th1 := th.(pc := th.pc.next, phase := Outside);
    TotalAfterPut(s.threads, t, th1, HIGHEST);
    if w :| w in s.threads && IsSleeping(s.threads[w]) {
      e := Unlock(t, w);
      var mid := s.threads[t := th1];
      TotalAfterPut(mid, w, mid[w].(phase := Notified), HIGHEST);
    } else {
      e := Unlock(t, t);
    }
  }

  /** A thread that has been woken, or has not slept yet, can take the mutex. */
  lemma WaiterGoesOn(s: System, t: nat) returns (e: Event)
    requires Inv(s) && t in s.threads && s.threads[t].phase in {Entering, Notified, Awake}
    ensures Enabled(s, e) && Calm(s, e) && Total(Do(s, e).threads, HIGHEST) < Total(s.threads, HIGHEST)
  {
    assert ThreadOk(s.threads[t]);
    if s.threads[t].phase != Entering {
      SomeCounts(s.threads, t, Waits);
    }
    e := Lock(t);
    Closer(s, t, Do(s, e).threads[t]);
  }

  /** As long as a session is not over, some thread can take a step that is no exception, and
      that brings the sessions nearer to their end. */
  lemma SomeoneGoesOn(s: System, t: nat) returns (e: Event)
    requires Inv(s) && t in s.threads && s.threads[t].pc != Done
    ensures Enabled(s, e) && Calm(s, e) && Total(Do(s, e).threads, HIGHEST) < Total(s.threads, HIGHEST)
  {
    var u := t;
    if IsSleeping(s.threads[t]) {
      SomeCounts(s.threads, t, IsSleeping);
      if |Those(s.threads, IsNotified)| > 0 {
        u := CountHas(s.threads, IsNotified);
      } else {
        u := CountHas(s.threads, Holds);
      }
    }
    var th := s.threads[u];
    assert ThreadOk(th);
    match th.phase
    case Outside => e := OutsideGoesOn(s, u);
    case Leaving => e := LeaverGoesOn(s, u);
    case _ => e := WaiterGoesOn(s, u);
  }

  /** The sessions never deadlock: in every state of every interleaving in which one of them is
      not over, some thread can take a step that is no exception, no spurious wake-up and no
      move to the same place. */
  lemma NeverStuck(s0: System, events: seq<Event>, s: System, t: nat) returns (e: Event)
    requires Fresh(s0) && Run(s0, events, s)
    requires t in s.threads && s.threads[t].pc != Done
    ensures Enabled(s, e) && Calm(s, e)
  {
    FreshInv(s0);
    RunKeeps(s0, events, s);
    e := SomeoneGoesOn(s, t);
  }

  /** A run all of whose steps are calm. */
  ghost predicate CalmRun(s: System, events: seq<Event>, s': System)
    decreases |events|
  {
    if events == [] then s == s'
    else Enabled(s, events[0]) && Calm(s, events[0]) && CalmRun(Do(s, events[0]), events[1..], s')
  }

  lemma {:induction false} InvFinishes(s: System) returns (events: seq<Event>, s': System)
    requires Inv(s)
    ensures CalmRun(s, events, s') && Inv(s') && forall t :: t in s'.threads ==> s'.threads[t].pc == Done
    decreases Total(s.threads, HIGHEST)
  {
    if t :| t in s.threads && s.threads[t].pc != Done {
      var e := SomeoneGoesOn(s, t);
      StepKeeps(s, e);
      var rest;
      rest, s' := InvFinishes(Do(s, e));
      events := [e] + rest;
    } else {
      events, s' := [], s;
    }
  }

  /** No interleaving leads into a trap: from every state that can be reached all sessions can
      still be brought to their end without an exception, and then no slot is taken. */
  lemma AllCanFinish(s0: System, before: seq<Event>, s: System) returns (after: seq<Event>, s': System)
    requires Fresh(s0) && Run(s0, before, s)
    ensures CalmRun(s, after, s') && s'.m.count == 0 && s'.m.waiting == 0
    ensures forall t :: t in s'.threads ==> s'.threads[t].pc == Done
  {
    FreshInv(s0);
    RunKeeps(s0, before, s);
    after, s' := InvFinishes(s);
    forall t | t in s'.threads
      ensures ThreadOk(s'.threads[t])
    {
    }
    assert Those(s'.threads, Holds) == {};
    assert Those(s'.threads, Waits) == {};
  }
}
