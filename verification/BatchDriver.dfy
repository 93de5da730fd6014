/** How a session's insert packages are handled: a coordinator is found or made for the
    session, the package is sent or the statement is wound up, and the coordinator is taken
    out of the map when its statement ends. */
module BatchDriver {

  import opened BatchCollect
  import opened BatchInsert
  import opened Bytes

  const IDBRANGE_WARNING: nat := 13

  /** A package of a statement: whether it starts the statement and whether it ends it. */
  datatype Request = Request(body: Package, first: bool, last: bool)

  /** What handling a package meets: the error of a table lock that is refused (None when it
      is held or granted), the PM selected, the connections to the PMs, the replies to the
      send, the connections counted and the replies read by the drain, whether the
      end-of-batch message could be written to all, the connections counted from then on, the
      end-of-batch replies, and what bulkSetHWM returns. */
  datatype Env = Env(refused: Option<nat>, pick: Option<nat>, links: set<nat>, replies: seq<Read>,
                     drainCount: nat, drains: seq<Read>, lastOk: bool, count: nat -> nat, ends: seq<EndRead>,
                         hwmRc: nat)

  /** The answer to the client; Hung is none, as the handler is still waiting for a reply. */
  datatype Response = Success | Warning | InsertError | LockError | Exception | Hung

  /** A coordinator in the map: its state and the high-water marks it has gathered. */
  datatype Session = Session(c: Coord, autocommit: bool, marks: seq<seq<Hwm>>)

  /** The outcome: the coordinator left in the map, if any; the answer to the client; and the
      coordinator as it was when its end-of-batch replies were read, if they were. */
  datatype Effect = Effect(left: Option<Session>, response: Response, wound: Option<Session>)

  predicate Fatal(rc: nat) {
    rc != 0 && rc != IDBRANGE_WARNING
  }

  function Verdict(rc: nat): Response {
    if rc == 0 then Success else if rc == IDBRANGE_WARNING then Warning else InsertError
  }

  // ------------------------------------------------------------------ specification

  function Handed(s: Session, req: Request): Coord {
    s.c.(queue := s.c.queue + [req.body])
  }

  /** Sending one more package: the general send, or the one for a single package. */
  function Send(s: Session, req: Request, env: Env): (Coord, Outcome) {
    if req.first && req.last then SendFirst(Handed(s, req), env.pick, env.links)
    else
      var (c, n, out) := SendNext(Handed(s, req), env.pick, env.replies, env.links);
      (c, out)
  }

  /** The coordinator after the end-of-batch message, which fails without a connection. */
  function Ended(s: Session, c: Coord, env: Env): Session {
    s.(c := if env.lastOk && env.count(0) > 0 then c else c.(error := INSERT_ERROR))
  }

  /** Reading the end-of-batch replies and setting the marks. */
  function Collected(s: Session, env: Env): Collection {
    Collect(env.count, env.ends, s.autocommit, s.marks, s.c.error, env.hwmRc)
  }

  /** Winding up: drain, end of batch, collect, and out of the map.  The answer is decided
      after the drain, before the end-of-batch message is sent. */
  function WindUp(s: Session, c: Coord, env: Env, failed: bool): Effect {
    var (c1, n, end) := ReceiveOutstanding(c, env.drainCount, env.drains);
    if end == DrainWaiting then Effect(Some(s.(c := c1)), Hung, None)
    else
      var s1 := Ended(s, c1, env);
      var k := Collected(s1, env);
      if k.finish == Waiting then Effect(Some(s1.(c := s1.c.(error := k.error), marks := k.marks)), Hung, None)
      else Effect(None, if failed then InsertError else Verdict(c1.error), Some(s1))
  }

  function Handle(s: Session, req: Request, env: Env): Effect {
    if req.first && env.refused.Some? then Effect(Some(s.(c := s.c.(error := env.refused.value))), LockError, None)
    else if Fatal(s.c.error) && !(req.first && req.last) then WindUp(s, s.c, env, true)
    else
      var (c, out) := Send(s, req, env);
      match out
      case WriteThrew => Effect(Some(s.(c := c)), Exception, None)
      case ReadThrew => Effect(Some(s.(c := c)), Exception, None)
      case StillWaiting => Effect(Some(s.(c := c)), Hung, None)
      case _ =>
        if req.last then WindUp(s, c, env, false)
        else Effect(Some(s.(c := c)), if s.c.error == IDBRANGE_WARNING then Warning else Success, None)
  }

  // ------------------------------------------------------------------ the handler

  class Handler {
    const proc: BatchInsertProc

    constructor (proc: BatchInsertProc)
      ensures this.proc == proc
    {
      this.proc := proc;
    }

    function Value(): Session
      reads this, proc
    {
      Session(proc.State(), proc.fIsAutocommitOn, proc.fHwmArgsAllPms)
    }

    /** sendlastBatch. */
    method SendLastBatch(env: Env)
      modifies proc
      ensures Value() == Ended(old(Value()), old(Value()).c, env)
    {
      if !env.lastOk || env.count(0) == 0 {
        proc.fErrorCode := INSERT_ERROR;
      }
    }

    method WindUpProc(env: Env, failed: bool) returns (keep: bool, response: Response, call: Option<seq<Hwm>>)
      requires Falling(env.count)
      modifies proc
      ensures var e := WindUp(old(Value()), old(Value()).c, env, failed);
              && response == e.response && keep == e.left.Some? && (keep ==> Value() == e.left.value)
              && call == if e.wound.Some? then HwmCall(Collected(e.wound.value, env).passed) else None
    {
      var n, end := proc.ReceiveOutstandingMsg(env.drainCount, env.drains);
      if end == DrainWaiting {
        return true, Hung, None;
      }
      var rc := proc.fErrorCode;
      SendLastBatch(env);
      ghost var passed;
      var received, finish;
      passed, received, finish, call := proc.ReceiveAllMsg(env.count, env.ends, env.hwmRc);
      if finish == Waiting {
        return true, Hung, None;
      }
      keep, response := false, if failed then InsertError else Verdict(rc);
    }

    /** Hands the package in and sends the next one. */
    method SendPackage(req: Request, env: Env) returns (outcome: Outcome)
      modifies proc
      ensures var (c, out) := Send(old(Value()), req, env);
              outcome == out && Value() == old(Value()).(c := c)
    {
      proc.AddPkg(req.body);
      if req.first && req.last {
        outcome := proc.SendFirstBatch(env.pick, env.links);
      } else {
        var n;
        n, outcome := proc.SendNextBatch(env.pick, env.replies, env.links);
      }
    }

    /** The batch-insert branch of the package handler.  `keep` says that the coordinator
        stays in the map, `call` is the argument of bulkSetHWM, if it is called. */
    method Run(req: Request, env: Env) returns (keep: bool, response: Response, call: Option<seq<Hwm>>)
      requires Falling(env.count)
      modifies proc
      ensures var e := Handle(old(Value()), req, env);
              && response == e.response && keep == e.left.Some? && (keep ==> Value() == e.left.value)
              && call == if e.wound.Some? then HwmCall(Collected(e.wound.value, env).passed) else None
    {
      keep, call := true, None;
      if req.first && env.refused.Some? {
        proc.fErrorCode := env.refused.value;
        return keep, LockError, call;
      }
      var rc := proc.fErrorCode;
      if Fatal(rc) && !(req.first && req.last) {
        keep, response, call := WindUpProc(env, true);
        return;
      }
      var outcome := SendPackage(req, env);
      if outcome == WriteThrew || outcome == ReadThrew {
        return keep, Exception, call;
      }
      if outcome == StillWaiting {
        return keep, Hung, call;
      }
      if req.last {
        keep, response, call := WindUpProc(env, false);
        return;
      }
      return keep, if rc == IDBRANGE_WARNING then Warning else Success, call;
    }
  }

  // ------------------------------------------------------------------ runs

  /** A session's coordinator as it is made for the first package of a statement. */
  predicate New(s: Session) {
    Fresh(World(s.c, multiset{}, [])) && s.marks == []
  }

  /** The packages of one session, in order, with what each meets.  A package that finds no
      coordinator gets a new one. */
  datatype Step = Step(req: Request, env: Env, made: Session)

  function Current(held: Option<Session>, step: Step): Session {
    if held.Some? then held.value else step.made
  }

  /** The effects of a run, given the coordinator in the map.  The client sends a package when
      it has the answer to the one before, so a handler that hangs ends the run. */
  function Effects(held: Option<Session>, steps: seq<Step>): (es: seq<Effect>)
    ensures |es| <= |steps|
    decreases |steps|
  {
    if steps == [] then []
    else
      var e := Handle(Current(held, steps[0]), steps[0].req, steps[0].env);
      if e.response == Hung then [e] else [e] + Effects(e.left, steps[1..])
  }

  /** No vector has been gathered by a coordinator that is still in the map. */
  predicate Unread(held: Option<Session>) {
    held.Some? ==> held.value.marks == []
  }

  /** What a package leaves in the map has gathered nothing, unless its handler hangs. */
  predicate Tidied(e: Effect) {
    && (e.wound.Some? ==> e.wound.value.marks == [] && e.left == None)
    && (e.response != Hung ==> Unread(e.left))
  }

  lemma WindUpTidied(s: Session, c: Coord, env: Env, failed: bool)
    requires s.marks == []
    ensures Tidied(WindUp(s, c, env, failed))
  {
  }

  lemma HandleTidied(s: Session, req: Request, env: Env)
    requires s.marks == []
    ensures Tidied(Handle(s, req, env))
  {
    WindUpTidied(s, s.c, env, true);
    WindUpTidied(s, Send(s, req, env).0, env, false);
  }

  lemma EffectAt(held: Option<Session>, steps: seq<Step>, i: nat, e: Effect)
    requires 0 < i < |Effects(held, steps)| && e == Handle(Current(held, steps[0]), steps[0].req, steps[0].env)
    ensures e.response != Hung && i - 1 < |Effects(e.left, steps[1..])|
    ensures Effects(held, steps)[i] == Effects(e.left, steps[1..])[i - 1]
  {
  }

  lemma {:induction false} RunTidied(held: Option<Session>, steps: seq<Step>, i: nat)
    requires Unread(held) && (forall k :: 0 <= k < |steps| ==> steps[k].made.marks == []) && i < |Effects(held, steps)|
    ensures Tidied(Effects(held, steps)[i])
    decreases |steps|
  {
    HandleTidied(Current(held, steps[0]), steps[0].req, steps[0].env);
    if i > 0 {
      var e := Handle(Current(held, steps[0]), steps[0].req, steps[0].env);
      EffectAt(held, steps, i, e);
      RunTidied(e.left, steps[1..], i - 1);
    }
  }

  /** Over every run of a session's packages, whatever goes wrong: a coordinator is wound up at
      most once; what is then passed on to bulkSetHWM are vectors of that statement's replies
      alone; and with autocommit off they are those of all the PMs asked if and only if all
      their replies were read without an exception and no connection was lost until the last
      vector was copied.  The call then sets every mark of every PM asked, and never another. */
  lemma EveryCollection(held: Option<Session>, steps: seq<Step>, i: nat, h: Hwm)
    requires Unread(held) && (forall k :: 0 <= k < |steps| ==> New(steps[k].made)) && i < |Effects(held, steps)|
    requires Effects(held, steps)[i].wound.Some? && !Effects(held, steps)[i].wound.value.autocommit
    requires Falling(steps[i].env.count)
    ensures Effects(held, steps)[i].left == None
    ensures var (count, ends) := (steps[i].env.count, steps[i].env.ends);
            var passed := Collected(Effects(held, steps)[i].wound.value, steps[i].env).passed;
            && (passed.Some? ==> |passed.value| <= |ends| && passed.value == AllMarks(ends[..|passed.value|]))
            && (count(0) <= |ends| && passed == Some(AllMarks(ends[..count(0)])) <==>
                NoneThrown(ends, count(0)) && Steady(count))
            && (Sets(HwmCall(passed), h) ==> exists j :: 0 <= j < count(0) && j < |ends| && h in Marks(ends[j]))
            && (NoneThrown(ends, count(0)) && Steady(count) ==>
                  (Sets(HwmCall(passed), h) <==> exists j :: 0 <= j < count(0) && h in Marks(ends[j])))
  {
    RunTidied(held, steps, i);
    var s, env := Effects(held, steps)[i].wound.value, steps[i].env;
    MarksSet(env.count, env.ends, s.c.error, env.hwmRc, h);
    AllMarksExactly(env.count, env.ends, s.c.error, env.hwmRc);
    if Collected(s, env).passed.Some? {
      PassedPrefix(env.count, env.ends, s.c.error, env.hwmRc);
    }
  }

  // ------------------------------------------------------------------ what the client is told

  /** How the end-of-batch replies are read does not depend on the coordinator. */
  lemma {:induction false} FinishAlike(count: nat -> nat, i: nat, ends: seq<EndRead>, ac: bool, m: seq<seq<Hwm>>,
                                       e: nat,
                                       ac': bool, m': seq<seq<Hwm>>, e': nat)
    ensures Gather(count, i, ends, ac, m, e).3 == Gather(count, i, ends, ac', m', e').3
    decreases |ends|
  {
    if ends != [] && ends[0] != EndThrown {
      var v, rest := Marks(ends[0]), ends[1..];
      FinishAlike(count, i + 1, rest, ac, if ac then m else m + [v], EndError(ends[0], e),
                  ac', if ac' then m' else m' + [v], EndError(ends[0], e'));
    }
  }

  /** Reading the end-of-batch replies comes to an end. */
  predicate Finishes(env: Env) {
    Gather(env.count, 0, env.ends, true, [], 0).3 != Waiting
  }

  /** The coordinator when the handler is done with it or hangs: what has been written so far. */
  function Coordinator(e: Effect): Option<Coord> {
    if e.wound.Some? then Some(e.wound.value.c) else if e.left.Some? then Some(e.left.value.c) else None
  }

  lemma {:induction false} DrainKeepsWire(c: Coord, need: nat, replies: seq<Read>)
    ensures var (c', n, end) := Drain(c, need, replies); c' == c.(free := c'.free, error := c'.error)
    decreases |replies|
  {
    if need > 0 && replies != [] {
      match replies[0]
      case Empty => DrainKeepsWire(c.(error := INSERT_ERROR), need, replies[1..]);
      case Thrown =>
      case Reply(rc, pm) =>
        var error := if rc != 0 then rc else c.error;
        DrainKeepsWire(c.(free := c.free[pm := true], error := error), need - 1, replies[1..]);
    }
  }

  /** None of the first n reads of the drain brought an error. */
  predicate Quiet(drains: seq<Read>, n: nat) {
    n <= |drains| && forall j :: 0 <= j < n ==> DrainCode(drains[j]) == 0
  }

  /** Winding up answers exactly when the drain and the reading of the end-of-batch replies
      come to an end, and neither writes nor drops a package.  The answer is success exactly
      when there was no error before and no read of the drain brought one. */
  lemma WindUpAnswers(s: Session, c: Coord, env: Env, failed: bool)
    ensures var e := WindUp(s, c, env, failed);
            var (c1, n, end) := ReceiveOutstanding(c, env.drainCount, env.drains);
            && (e.response != Hung <==> end != DrainWaiting && Finishes(env))
            && (e.response != Hung ==>
                  && e.response == (if failed then InsertError else Verdict(c1.error))
                  && e.left == None && e.wound == Some(Ended(s, c1, env)))
            && n <= |env.drains| && LastCode(env.drains, n, c.error, c1.error)
            && (e.response == Success <==> e.response != Hung && !failed && c.error == 0 && Quiet(env.drains, n))
            && (e.response == Warning <==> e.response != Hung && !failed && c1.error == IDBRANGE_WARNING)
            && (e.response == Hung ==> e.left.Some? && e.wound == None)
            && Coordinator(e).value.wire == c.wire && Coordinator(e).value.queue == c.queue
  {
    DrainKeepsWire(c, Outstanding(c.pms, c.free), env.drains);
    DrainError(c, Outstanding(c.pms, c.free), env.drains);
    var c1 := ReceiveOutstanding(c, env.drainCount, env.drains).0;
    var s1 := Ended(s, c1, env);
    FinishAlike(env.count, 0, env.ends, s1.autocommit, s1.marks, s1.c.error, true, [], 0);
  }

  /** After an error nothing more of the statement is sent: the next package, unless it is a
      statement of its own, only winds the coordinator up, and is answered with an error
      exactly when the outstanding and the end-of-batch replies have come. */
  lemma NothingSentAfterError(s: Session, req: Request, env: Env)
    requires Fatal(s.c.error) && !(req.first && (req.last || env.refused.Some?))
    ensures var e := Handle(s, req, env);
            && Coordinator(e).Some? && Coordinator(e).value.wire == s.c.wire && Coordinator(e).value.queue == s.c.queue
            && e.response in {InsertError, Hung} && (e.left == None <==> e.response == InsertError)
            && (e.response == InsertError <==>
                ReceiveOutstanding(s.c, env.drainCount, env.drains).2 != DrainWaiting && Finishes(env))
  {
    WindUpAnswers(s, s.c, env, true);
  }

  /** What happens from the end-of-batch message on never changes an answer that is given: an
      error that shows only there, or in setting the marks, is not reported. */
  lemma EndNotReported(s: Session, req: Request, env: Env, lastOk: bool, count: nat -> nat, ends: seq<EndRead>,
                       hwmRc: nat)
    ensures var r := Handle(s, req, env).response;
            var r' := Handle(s, req, env.(lastOk := lastOk, count := count, ends := ends, hwmRc := hwmRc)).response;
            r != Hung && r' != Hung ==> r == r'
  {
  }

  lemma CollectedError(s: Session, env: Env)
    ensures var (m, e, r, finish) := Gather(env.count, 0, env.ends, s.autocommit, s.marks, s.c.error);
            var n := r + if finish == CutShort then 1 else 0;
            n <= |env.ends| &&
            (Collected(s, env).error != 0 <==>
             || s.c.error != 0 || (exists j :: 0 <= j < n && Failing(env.ends[j]))
             || (HwmCall(Collected(s, env).passed).Some? && env.hwmRc != 0))
  {
    GatherError(env.count, 0, env.ends, s.autocommit, s.marks, s.c.error);
  }

  /** A client is told of success while the statement ended in an error exactly when the drain
      brought no error and the end did: the message could not be sent, a reply that was read is
      failing, or the marks could not be set. */
  lemma HiddenExactly(s: Session, c: Coord, env: Env)
    requires WindUp(s, c, env, false).wound.Some?
    ensures var e := WindUp(s, c, env, false);
            var (m, error, r, finish) := Gather(env.count, 0, env.ends, s.autocommit, s.marks, e.wound.value.c.error);
            var n := r + if finish == CutShort then 1 else 0;
            n <= |env.ends| &&
            (e.response == Success && Collected(e.wound.value, env).error != 0 <==>
             && c.error == 0 && Quiet(env.drains, ReceiveOutstanding(c, env.drainCount, env.drains).1)
             && (|| !env.lastOk || env.count(0) == 0 || (exists j :: 0 <= j < n && Failing(env.ends[j]))
                 || (HwmCall(Collected(e.wound.value, env).passed).Some? && env.hwmRc != 0)))
  {
    CollectedError(WindUp(s, c, env, false).wound.value, env);
    WindUpAnswers(s, c, env, false);
  }

  lemma {:induction false} OneBusy(pms: seq<nat>, free: map<nat, bool>, pm: nat)
    requires Distinct(pms) && pm in pms && forall p :: p in pms ==> !Busy(free, p)
    ensures Outstanding(pms, free[pm := false]) == 1
  {
    OutstandingLess(pms, free[pm := false], pm);
    assert free[pm := false][pm := true] == free[pm := true];
    NoneOutstanding(pms, free[pm := true]);
  }

  /** A statement of a single package is written, and is answered, once the end-of-batch replies
      have come, with the code of its PM's answer, or if that is zero with the error its
      coordinator already had: with success if and only if both are zero.  Without a connection
      the answer is not read, and its code does not count. */
  lemma SingleAnswer(s: Session, req: Request, env: Env, pm: nat, rc: byte)
    requires req.first && req.last && env.refused.None? && s.c.queue == []
    requires Distinct(s.c.pms) && pm in s.c.pms && forall p :: p in s.c.pms ==> !Busy(s.c.free, p)
    requires pm != 0 && env.pick == Some(pm) && pm in env.links && env.drains == [Reply(rc, pm)]
    ensures var e := Handle(s, req, env);
            && Coordinator(e).Some? && Coordinator(e).value.wire == s.c.wire + [Sent(pm, req.body)]
            && var told := if env.drainCount > 0 && rc != 0 then rc else s.c.error;
               e.response == (if Finishes(env) then Verdict(told) else Hung)
               && (e.response == Success <==> Finishes(env) && s.c.error == 0 && (rc == 0 || env.drainCount == 0))
  {
    var c := Send(s, req, env).0;
    assert c.wire == s.c.wire + [Sent(pm, req.body)] && c.free == s.c.free[pm := false] && c.pms == s.c.pms;
    OneBusy(s.c.pms, s.c.free, pm);
    var rest := env.drains[1..];
    assert rest == [];
    var c1 := c.(free := c.free[pm := true], error := if rc != 0 then rc else c.error);
    assert Drain(c1, 0, rest) == (c1, 0, Drained);
    assert Drain(c, 1, env.drains) == (c1, 1, Drained);
    WindUpAnswers(s, c, env, false);
  }

  /** A refused table lock leaves the coordinator and its error in the map: the session's
      next statement, of a single package whose PM answers without an error, is written and
      answered with an error. */
  lemma RefusedLockStays(s: Session, refused: Request, env0: Env, req: Request, env: Env, pm: nat)
    requires refused.first && env0.refused.Some? && Fatal(env0.refused.value) && s.c.queue == []
    requires req.first && req.last && env.refused.None? && Finishes(env)
    requires Distinct(s.c.pms) && pm in s.c.pms && forall p :: p in s.c.pms ==> !Busy(s.c.free, p)
    requires pm != 0 && env.pick == Some(pm) && pm in env.links && env.drains == [Reply(0, pm)]
    ensures var e0 := Handle(s, refused, env0);
            && e0.response == LockError && e0.left.Some?
            && var e := Handle(e0.left.value, req, env);
               e.response == InsertError && Coordinator(e).Some?
               && Coordinator(e).value.wire == s.c.wire + [Sent(pm, req.body)]
  {
    SingleAnswer(Handle(s, refused, env0).left.value, req, env, pm, 0);
  }

  /** One connection, always there. */
  function One(t: nat): nat {
    1
  }

  /** So a statement whose only PM fails at the end of the batch is answered with success. */
  lemma EndErrorHidden()
    ensures var s := Session(Coord([1], [], map[1 := true], 0, 0, []), false, []);
            var env := Env(None, Some(1), {1}, [], 1, [Reply(0, 1)], true, One, [End(7, [])], 0);
            var e := Handle(s, Request([5], true, true), env);
            e.response == Success && e.wound.Some? && Collected(e.wound.value, env).error == 7
  {
    var s := Session(Coord([1], [], map[1 := true], 0, 0, []), false, []);
    var env := Env(None, Some(1), {1}, [], 1, [Reply(0, 1)], true, One, [End(7, [])], 0);
    assert env.ends[1..] == [];
    assert Gather(One, 1, env.ends[1..], true, [], 7).3 == Done;
    SingleAnswer(s, Request([5], true, true), env, 1, 0);
    var c := Send(s, Request([5], true, true), env).0;
    OneBusy(s.c.pms, s.c.free, 1);
    assert env.drains[1..] == [];
    WindUpAnswers(s, c, env, false);
    var s1 := Handle(s, Request([5], true, true), env).wound.value;
    assert Flatten([[]][..0]) == [] && Flatten([[]]) == [];
    assert Gather(One, 0, env.ends, false, [], 0) == ([] + [[]], 7, 1, Done);
  }

  // ------------------------------------------------------------------ what success means

  /** Sending the package brought no error: a PM was selected for it, and no reply read while
      it waited carried one. */
  predicate SendQuiet(s: Session, req: Request, env: Env) {
    env.pick.Some? &&
    if req.first && req.last then env.pick.value != 0
    else
      var n := SendNext(Handed(s, req), env.pick, env.replies, env.links).1;
      n <= |env.replies| && forall j :: 0 <= j < n ==> AwaitCode(env.replies[j]) == 0
  }

  lemma SendError(s: Session, req: Request, env: Env)
    ensures Send(s, req, env).0.error == 0 <==> s.c.error == 0 && SendQuiet(s, req, env)
  {
    var c := Handed(s, req);
    if !(req.first && req.last) && env.pick.Some? {
      AwaitMeans(c.(current := env.pick.value, queue := c.queue[1..]), env.replies, 0);
    }
  }

  /** The error after the send: of a PM that could not be selected, of the last reply read while
      waiting, or the one there was. */
  lemma SendErrorIs(s: Session, req: Request, env: Env)
    ensures var c := Send(s, req, env).0;
            var n := SendNext(Handed(s, req), env.pick, env.replies, env.links).1;
            if env.pick.None? || (req.first && req.last && env.pick.value == 0) then c.error == 1
            else if (req.first && req.last) || n == 0 then c.error == s.c.error
            else n <= |env.replies|
                 && c.error == if AwaitCode(env.replies[n - 1]) != 0 then AwaitCode(env.replies[n - 1]) else s.c.error
  {
    var c := Handed(s, req);
    if !(req.first && req.last) && env.pick.Some? {
      var c1 := c.(current := env.pick.value, queue := c.queue[1..]);
      AwaitMeans(c1, env.replies, 0);
    }
  }

  /** The package is lost on the way to its PM. */
  predicate SendLoses(s: Session, req: Request, env: Env) {
    if req.first && req.last then env.pick.Some? && env.pick.value != 0 && env.pick.value !in env.links
    else Loses(Handed(s, req), env.pick, env.replies, env.links)
  }

  /** What a package that does not wind the statement up is answered with: a lock error exactly
      if it starts the statement and the table lock is refused; after that an exception exactly
      if it is lost; and otherwise success, or a warning if there was one before it was sent. */
  lemma MiddleAnswer(s: Session, req: Request, env: Env)
    ensures var r := Handle(s, req, env).response;
            var refused := req.first && env.refused.Some?;
            var ended := Fatal(s.c.error) && !(req.first && req.last);
            && (r == LockError <==> refused)
            && (r == Exception <==> !refused && !ended && SendLoses(s, req, env))
            && (!refused && !ended && !req.last && r != Exception && r != Hung ==>
                  r == if s.c.error == IDBRANGE_WARNING then Warning else Success)
  {
    var c := Handed(s, req);
    SendNextConserves(c, env.pick, env.replies, env.links);
    WindUpAnswers(s, s.c, env, true);
    WindUpAnswers(s, Send(s, req, env).0, env, false);
  }

  lemma SuccessOfOne(s: Session, req: Request, env: Env)
    ensures var e := Handle(s, req, env);
            && (e.wound.Some? && e.response == Success ==>
                  s.c.error == 0 && SendQuiet(s, req, env)
                  && Quiet(env.drains, ReceiveOutstanding(Send(s, req, env).0, env.drainCount, env.drains).1))
            && (e.left.Some? && e.response != Hung && e.left.value.c.error == 0 ==>
                  || (req.first && env.refused.Some?)
                  || (s.c.error == 0 && SendQuiet(s, req, env)))
  {
    SendError(s, req, env);
    WindUpAnswers(s, s.c, env, true);
    WindUpAnswers(s, Send(s, req, env).0, env, false);
  }

  /** The coordinator that package k of a run finds. */
  function Before(s: Session, steps: seq<Step>, k: nat): Option<Session>
    requires k <= |Effects(Some(s), steps)|
  {
    if k == 0 then Some(s) else Effects(Some(s), steps)[k - 1].left
  }

  /** A statement: only its first package starts one, its last winds the coordinator up, and
      the others keep it. */
  ghost predicate Whole(s: Session, steps: seq<Step>) {
    var es := Effects(Some(s), steps);
    && 0 < |es| == |steps| && es[|es| - 1].wound.Some? && es[|es| - 1].response != Hung
    && (forall i :: 0 <= i < |es| - 1 ==> es[i].left.Some? && es[i].response != Hung)
    && (forall i :: 0 < i < |steps| ==> !steps[i].req.first)
  }

  lemma WholeRest(s: Session, steps: seq<Step>, s1: Session)
    requires Whole(s, steps) && |steps| > 1 && Handle(s, steps[0].req, steps[0].env).left == Some(s1)
    ensures Effects(Some(s), steps)[1..] == Effects(Some(s1), steps[1..]) && Whole(s1, steps[1..])
  {
    var es, rest := Effects(Some(s), steps), steps[1..];
    assert es[0] == Handle(s, steps[0].req, steps[0].env);
    assert es == [es[0]] + Effects(Some(s1), rest);
    assert forall i :: 0 <= i < |rest| ==> rest[i] == steps[i + 1] && es[1..][i] == es[i + 1];
  }

  /** The package was sent without an error before it or on the way. */
  predicate WentWell(s: Option<Session>, step: Step) {
    s.Some? && s.value.c.error == 0 && SendQuiet(s.value, step.req, step.env)
  }

  /** A statement is answered with success at its end only if every package of it, whatever the
      packages met, was sent without a reply that carried an error, except that the first may
      have been told that its table lock is refused. */
  lemma {:induction false} SuccessTells(s: Session, steps: seq<Step>, k: nat)
    requires Whole(s, steps) && Effects(Some(s), steps)[|steps| - 1].response == Success && k < |steps|
    ensures WentWell(Before(s, steps, k), steps[k]) || (k == 0 && steps[0].req.first && steps[0].env.refused.Some?)
    decreases |steps|
  {
    var step := steps[0];
    var e := Handle(s, step.req, step.env);
    SuccessOfOne(s, step.req, step.env);
    if |steps| > 1 {
      assert Effects(Some(s), steps)[0] == e;
      var s1, rest := e.left.value, steps[1..];
      WholeRest(s, steps, s1);
      var es := Effects(Some(s), steps);
      assert Effects(Some(s1), rest)[|rest| - 1] == es[1..][|rest| - 1] == es[|steps| - 1];
      SuccessTells(s1, rest, 0);
      if k > 0 {
        SuccessTells(s1, rest, k - 1);
        assert Before(s1, rest, k - 1) == Before(s, steps, k) && rest[k - 1] == steps[k];
      }
    }
  }

  // ------------------------------------------------------------------ a statement that goes well

  /** The package and what it meets are those of a smooth turn. */
  predicate Meets(step: Step, t: Turn, links: set<nat>) {
    && step.req.body == t.body && step.env.pick == Some(t.pm) && step.env.links == links
    && step.env.replies == Oks(t.answers) && step.env.refused.None? && !(step.req.first && step.req.last)
  }

  lemma SmoothSend(s: Session, w: World, t: Turn, step: Step, links: set<nat>)
    requires w.c == s.c && Tidy(w) && Smooth(w, t, links) && Meets(step, t, links)
    ensures Send(s, step.req, step.env) == (TakeTurn(w, t, links).c, Written)
  {
    TurnTidy(w, t, links);
    var c := BatchInsert.Handed(w, t);
    AwaitSettles(c.(current := t.pm, queue := c.queue[1..]), Oks(t.answers));
  }

  /** The end of a statement that goes well: the connections are those of the sends, the
      answers are those outstanding, and the end-of-batch replies come to an end. */
  ghost predicate GoodEnd(env: Env, links: set<nat>, unread: multiset<nat>, answers: seq<nat>) {
    env.drainCount == |links| && env.drains == Oks(answers) && multiset(answers) == unread && Finishes(env)
  }

  /** The last package of a statement: everything is drained, and the answer is success. */
  lemma SmoothLast(s: Session, w: World, t: Turn, step: Step, links: set<nat>, answers: seq<nat>)
    requires w.c == s.c && Tidy(w) && Smooth(w, t, links) && Meets(step, t, links) && step.req.last
    requires (forall pm :: pm in w.unread ==> pm in links)
    requires GoodEnd(step.env, links, TakeTurn(w, t, links).unread, answers)
    ensures var e := Handle(s, step.req, step.env);
            && e.response == Success && e.left == None && e.wound.Some?
            && e.wound.value.c.wire == w.c.wire + [Sent(t.pm, t.body)]
            && forall pm :: pm in w.c.pms ==> !Busy(e.wound.value.c.free, pm)
  {
    SmoothSend(s, w, t, step, links);
    TurnTidy(w, t, links);
    var w1 := TakeTurn(w, t, links);
    TurnStaysLinked(w, t, links);
    forall pm
      ensures w1.unread[pm] <= 1
    {
      if pm in w1.unread {
        assert pm in w1.c.pms;
      }
    }
    SubsetUnread(w1.unread, links);
    DrainExactly(w1, |links|, answers);
    WindUpAnswers(s, w1.c, step.env, false);
  }

  lemma SmoothMiddle(s: Session, w: World, t: Turn, step: Step, links: set<nat>)
    requires w.c == s.c && Tidy(w) && Smooth(w, t, links) && Meets(step, t, links) && !step.req.last
    ensures Handle(s, step.req, step.env) == Effect(Some(s.(c := TakeTurn(w, t, links).c)), Success, None)
  {
    SmoothSend(s, w, t, step, links);
  }

  /** The packages of a statement and the turns they are; only the last one ends it. */
  predicate Matching(steps: seq<Step>, turns: seq<Turn>, links: set<nat>) {
    && 0 < |steps| == |turns|
    && forall i :: 0 <= i < |steps| ==> Meets(steps[i], turns[i], links) && (steps[i].req.last <==> i == |steps| - 1)
  }

  lemma MatchingRest(steps: seq<Step>, turns: seq<Turn>, links: set<nat>)
    requires Matching(steps, turns, links) && |steps| > 1
    ensures Matching(steps[1..], turns[1..], links) && !steps[0].req.last
  {
    var rest, later := steps[1..], turns[1..];
    assert forall i :: 0 <= i < |rest| ==> rest[i] == steps[i + 1] && later[i] == turns[i + 1];
  }

  /** The statement's last effect: success, everything written in order, nothing unread. */
  predicate Concluded(s: Session, e: Effect, added: seq<Package>) {
    && e.response == Success && e.left == None && e.wound.Some? && Bodies(e.wound.value.c.wire) == added
    && forall pm :: pm in s.c.pms ==> !Busy(e.wound.value.c.free, pm)
  }

  /** The coordinator is where a smooth run has brought it; sealed, see Unseal. */
  ghost predicate Ready(s: Session, w: World, links: set<nat>) {
    forall k {:trigger Unseal(k)} :: Unseal(k) ==>
      w.c == s.c && Tidy(w) && forall pm :: pm in w.unread ==> pm in links
  }

  lemma ReadyNext(s: Session, w: World, t: Turn, step: Step, links: set<nat>)
    requires Ready(s, w, links) && Smooth(w, t, links) && Meets(step, t, links) && !step.req.last
    ensures var w1 := TakeTurn(w, t, links);
            Ready(s.(c := w1.c), w1, links)
            && Handle(s, step.req, step.env) == Effect(Some(s.(c := w1.c)), Success, None) && w1.c.pms == s.c.pms
  {
    assert Unseal(0);
    SmoothMiddle(s, w, t, step, links);
    TurnTidy(w, t, links);
    TurnStaysLinked(w, t, links);
  }

  lemma EffectsGoOn(s: Session, steps: seq<Step>, s1: Session)
    requires steps != [] && Handle(s, steps[0].req, steps[0].env) == Effect(Some(s1), Success, None)
    ensures Effects(Some(s), steps) == [Effect(Some(s1), Success, None)] + Effects(Some(s1), steps[1..])
  {
  }

  lemma LastConcludes(s: Session, w: World, t: Turn, step: Step, links: set<nat>, answers: seq<nat>)
    requires Ready(s, w, links) && Smooth(w, t, links) && Meets(step, t, links) && step.req.last
    requires GoodEnd(step.env, links, TakeTurn(w, t, links).unread, answers)
    ensures Concluded(s, Handle(s, step.req, step.env), TakeTurn(w, t, links).added)
  {
    assert Unseal(0);
    SmoothLast(s, w, t, step, links, answers);
    TurnTidy(w, t, links);
    var c := TakeTurn(w, t, links).c;
    assert Account(c) == Bodies(c.wire);
  }

  lemma {:induction false} ReadySucceeds(s: Session, w: World, steps: seq<Step>, turns: seq<Turn>, links: set<nat>,
                                         w': World, answers: seq<nat>, k: nat)
    requires Ready(s, w, links) && SmoothRun(w, turns, links, w') && Matching(steps, turns, links) && k < |steps|
    requires GoodEnd(steps[|steps| - 1].env, links, w'.unread, answers)
    ensures |Effects(Some(s), steps)| == |steps|
    ensures var e := Effects(Some(s), steps)[k];
            if k < |steps| - 1 then e.response == Success && e.left.Some? else Concluded(s, e, w'.added)
    decreases |steps|
  {
    var t, step := turns[0], steps[0];
    var w1 := TakeTurn(w, t, links);
    if |steps| == 1 {
      assert w' == w1;
      LastConcludes(s, w, t, step, links, answers);
    } else {
      MatchingRest(steps, turns, links);
      ReadyNext(s, w, t, step, links);
      EffectsGoOn(s, steps, s.(c := w1.c));
      ReadySucceeds(s.(c := w1.c), w1, steps[1..], turns[1..], links, w', answers, if k > 0 then k - 1 else 0);
    }
  }

  /** A whole statement of several packages in which nothing fails: every package is answered
      with success, and at the end all of them have been written in order, every answer has
      been read, and the coordinator is gone. */
  lemma StatementSucceeds(s: Session, steps: seq<Step>, turns: seq<Turn>, links: set<nat>, w': World,
                          answers: seq<nat>, k: nat)
    requires New(s) && SmoothRun(World(s.c, multiset{}, []), turns, links, w')
    requires Matching(steps, turns, links) && k < |steps| && GoodEnd(steps[|steps| - 1].env, links, w'.unread, answers)
    ensures |Effects(Some(s), steps)| == |steps|
    ensures var e := Effects(Some(s), steps)[k];
            if k < |steps| - 1 then e.response == Success && e.left.Some? else Concluded(s, e, w'.added)
  {
    var w := World(s.c, multiset{}, []);
    assert Account(s.c) == [];
    ReadySucceeds(s, w, steps, turns, links, w', answers, k);
  }
}
