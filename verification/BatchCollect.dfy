/** The end of a batch insert: reading the replies of the PMs and setting their high-water
    marks.  The number of connections is asked for again before every read, for the size
    test and for every vector copied, and a lost connection lowers it in between. */
module BatchCollect {

  import opened Bytes

  const INSERT_ERROR: nat := 1
  const NETWORK_ERROR: nat := 2

  /** A PM's high-water mark for one column segment. */
  datatype Hwm = Hwm(oid: nat, partition: nat, segment: nat, hwm: nat)

  /** An end-of-batch reply: an empty message, an exception, or a code with the PM's marks. */
  datatype EndRead = EndEmpty | EndThrown | End(rc: byte, marks: seq<Hwm>)

  /** The connections counted from the end-of-batch write on: 0 is the count at the write,
      i + 1 the one before read i; then come the size test and the vectors copied.  Once
      set up, connections only get lost. */
  ghost predicate Falling(count: nat -> nat) {
    forall i: nat, j: nat :: i <= j ==> count(j) <= count(i)
  }

  /** The read loop ended with as many replies as connections, or by an exception, or it is
      still reading. */
  datatype Finish = Done | CutShort | Waiting

  /** Before read i, the loop has as many replies as there are connections. */
  predicate Enough(count: nat -> nat, i: nat) {
    count(i + 1) == i
  }

  /** The vector a reply brings. */
  function Marks(r: EndRead): seq<Hwm> {
    if r.End? then r.marks else []
  }

  /** The error after a reply that could be read. */
  function EndError(r: EndRead, error: nat): nat {
    if r.End? then if r.rc != 0 then r.rc else error else NETWORK_ERROR
  }

  /** The loop from its i-th read on: the vectors (one per reply when autocommit is off), the
      error set last, the number of replies, and how it ended. */
  function Gather(count: nat -> nat, i: nat, replies: seq<EndRead>, autocommit: bool, marks: seq<seq<Hwm>>, error: nat)
    : (seq<seq<Hwm>>, nat, nat, Finish)
    decreases |replies|
  {
    if Enough(count, i) then (marks, error, i, Done)
    else if replies == [] then (marks, error, i, Waiting)
    else if replies[0] == EndThrown then (marks, INSERT_ERROR, i, CutShort)
    else Gather(count, i + 1, replies[1..], autocommit, if autocommit then marks else marks + [Marks(replies[0])],
                EndError(replies[0], error))
  }

  /** There is a vector for connection j, when the copying loop that began at base gets to it. */
  predicate Connected(count: nat -> nat, base: nat, j: nat) {
    j < count(base + j)
  }

  /** The copying loop, which asks for the count before every vector: how many it takes. */
  function Copied(count: nat -> nat, base: nat, j: nat, n: nat): (m: nat)
    requires j <= n
    ensures j <= m <= n
    decreases n - j
  {
    if j < n && Connected(count, base, j) then Copied(count, base, j + 1, n) else j
  }

  function Flatten(vs: seq<seq<Hwm>>): seq<Hwm> {
    if vs == [] then [] else Flatten(vs[..|vs| - 1]) + vs[|vs| - 1]
  }

  /** The outcome of receiveAllMsg; `passed` are the vectors that setHwm puts together. */
  datatype Collection = Collection(marks: seq<seq<Hwm>>, error: nat, received: nat, finish: Finish,
                                   passed: Option<seq<seq<Hwm>>>)

  /** bulkSetHWM is called with the marks of the vectors passed, if there are any. */
  function HwmCall(passed: Option<seq<seq<Hwm>>>): Option<seq<Hwm>> {
    if passed.Some? && |Flatten(passed.value)| > 0 then Some(Flatten(passed.value)) else None
  }

  function Passed(count: nat -> nat, r: nat, finish: Finish, autocommit: bool, marks: seq<seq<Hwm>>)
    : Option<seq<seq<Hwm>>>
  {
    if finish != Waiting && !autocommit && |marks| == count(r + 2)
    then Some(marks[..Copied(count, r + 3, 0, |marks|)]) else None
  }

  /** receiveAllMsg; `hwmRc` is what bulkSetHWM returns, if it is called. */
  function Collect(count: nat -> nat, replies: seq<EndRead>, autocommit: bool, marks: seq<seq<Hwm>>, error: nat,
                   hwmRc: nat)
    : Collection
  {
    var (m, e, r, finish) := Gather(count, 0, replies, autocommit, marks, error);
    var passed := Passed(count, r, finish, autocommit, m);
    Collection(m, if HwmCall(passed).Some? && hwmRc != 0 then hwmRc else e, r, finish, passed)
  }

  // ------------------------------------------------------------------ what is gathered

  function AllMarks(replies: seq<EndRead>): seq<seq<Hwm>> {
    seq(|replies|, i requires 0 <= i < |replies| => Marks(replies[i]))
  }

  predicate NoneThrown(replies: seq<EndRead>, n: nat) {
    n <= |replies| && forall j :: 0 <= j < n ==> replies[j] != EndThrown
  }

  /** The loop gathers one vector per reply, in order, and stops at the first moment at which
      the count equals the number of replies, at an exception, or not at all. */
  lemma {:induction false} GatherMeans(count: nat -> nat, i: nat, replies: seq<EndRead>, marks: seq<seq<Hwm>>,
                                       error: nat)
    ensures var (m, e, r, finish) := Gather(count, i, replies, false, marks, error);
            && i <= r && NoneThrown(replies, r - i) && m == marks + AllMarks(replies[..r - i])
            && (forall j :: i <= j < r ==> !Enough(count, j))
            && (finish == Done <==> Enough(count, r))
            && (finish == CutShort ==> r - i < |replies| && replies[r - i] == EndThrown)
            && (finish == Waiting ==> r - i == |replies|)
    decreases |replies|
  {
    if Enough(count, i) || replies == [] || replies[0] == EndThrown {
      assert marks + AllMarks(replies[..0]) == marks;
    } else {
      var rest, v := replies[1..], Marks(replies[0]);
      var error' := EndError(replies[0], error);
      GatherMeans(count, i + 1, rest, marks + [v], error');
      var r := Gather(count, i + 1, rest, false, marks + [v], error').2;
      GatherOne(replies, marks, r - i);
    }
  }

  lemma GatherOne(replies: seq<EndRead>, marks: seq<seq<Hwm>>, n: nat)
    requires 1 <= n && n - 1 <= |replies| - 1 && replies[0] != EndThrown && NoneThrown(replies[1..], n - 1)
    ensures marks + [Marks(replies[0])] + AllMarks(replies[1..][..n - 1]) == marks + AllMarks(replies[..n])
    ensures NoneThrown(replies, n)
  {
    var rest := replies[1..];
    assert AllMarks(replies[..n]) == [Marks(replies[0])] + AllMarks(rest[..n - 1]);
    assert forall j :: 1 <= j < n ==> replies[j] == rest[j - 1];
  }

  /** The error a reply brings: zero for one without an error. */
  function EndCode(r: EndRead): nat {
    match r
    case EndEmpty => NETWORK_ERROR
    case EndThrown => INSERT_ERROR
    case End(rc, _) => rc
  }

  predicate Failing(r: EndRead) {
    EndCode(r) != 0
  }

  /** The error after the first n replies: the last one they brought, or the one there was. */
  predicate LastEndCode(replies: seq<EndRead>, n: nat, before: nat, after: nat) {
    n <= |replies| &&
    if exists j :: 0 <= j < n && Failing(replies[j])
    then exists j :: 0 <= j < n && Failing(replies[j]) && after == EndCode(replies[j])
                     && forall k :: j < k < n ==> !Failing(replies[k])
    else after == before
  }

  lemma LastEndCodeRest(replies: seq<EndRead>, n: nat, before: nat, after: nat)
    requires 0 < n <= |replies|
    requires LastEndCode(replies[1..], n - 1, if Failing(replies[0]) then EndCode(replies[0]) else before, after)
    ensures LastEndCode(replies, n, before, after)
  {
    var rest := replies[1..];
    assert forall j :: 1 <= j < n ==> replies[j] == rest[j - 1];
    if exists j :: 0 <= j < n - 1 && Failing(rest[j]) {
      var j :| 0 <= j < n - 1 && Failing(rest[j]) && after == EndCode(rest[j])
               && forall k :: j < k < n - 1 ==> !Failing(rest[k]);
      assert Failing(replies[j + 1]) && after == EndCode(replies[j + 1]);
    }
  }

  /** An error shows exactly when some reply that was read is failing, and is the last such. */
  lemma {:induction false} GatherError(count: nat -> nat, i: nat, replies: seq<EndRead>, autocommit: bool,
                                       marks: seq<seq<Hwm>>, error: nat)
    ensures var (m, e, r, finish) := Gather(count, i, replies, autocommit, marks, error);
            var n := r - i + if finish == CutShort then 1 else 0;
            0 <= n <= |replies| && LastEndCode(replies, n, error, e)
            && (e != 0 <==> error != 0 || exists j :: 0 <= j < n && Failing(replies[j]))
    decreases |replies|
  {
    if !Enough(count, i) && replies != [] {
      var rest := replies[1..];
      if replies[0] == EndThrown {
        LastEndCodeRest(replies, 1, error, INSERT_ERROR);
      } else {
        var marks' := if autocommit then marks else marks + [Marks(replies[0])];
        var error' := EndError(replies[0], error);
        GatherError(count, i + 1, rest, autocommit, marks', error');
        var (m, e, r, finish) := Gather(count, i + 1, rest, autocommit, marks', error');
        LastEndCodeRest(replies, r - i + if finish == CutShort then 1 else 0, error, e);
      }
    }
  }

  // ------------------------------------------------------------------ all marks or some

  lemma {:induction false} CopiedAll(count: nat -> nat, base: nat, j: nat, n: nat)
    requires j <= n && forall k :: j <= k < n ==> Connected(count, base, k)
    ensures Copied(count, base, j, n) == n
    decreases n - j
  {
    if j < n {
      CopiedAll(count, base, j + 1, n);
    }
  }

  lemma {:induction false} CopiedLast(count: nat -> nat, base: nat, j: nat, n: nat)
    requires j < n && Copied(count, base, j, n) == n
    ensures Connected(count, base, n - 1)
    decreases n - j
  {
    if j + 1 < n {
      CopiedLast(count, base, j + 1, n);
    }
  }

  /** What is passed on: a prefix of the vectors in the order of the replies, never of an
      earlier statement, and no more than there were connections at the write. */
  lemma PassedPrefix(count: nat -> nat, replies: seq<EndRead>, error: nat, hwmRc: nat)
    requires Falling(count) && Collect(count, replies, false, [], error, hwmRc).passed.Some?
    ensures var vs := Collect(count, replies, false, [], error, hwmRc).passed.value;
            |vs| <= count(0) && NoneThrown(replies, |vs|) && vs == AllMarks(replies[..|vs|])
  {
    GatherMeans(count, 0, replies, [], error);
    var (m, e, r, finish) := Gather(count, 0, replies, false, [], error);
    assert m == AllMarks(replies[..r]);
    var k := Copied(count, r + 3, 0, |m|);
    assert m[..k] == AllMarks(replies[..k]);
  }

  /** The connections are all there until the last vector has been copied. */
  predicate Steady(count: nat -> nat) {
    count(2 * count(0) + 2) == count(0)
  }

  lemma SteadyCounts(count: nat -> nat, t: nat)
    requires Falling(count) && Steady(count) && t <= 2 * count(0) + 2
    ensures count(t) == count(0)
  {
  }

  lemma SteadyGathers(count: nat -> nat, replies: seq<EndRead>, error: nat)
    requires Falling(count) && Steady(count) && NoneThrown(replies, count(0))
    ensures var (m, e, r, finish) := Gather(count, 0, replies, false, [], error);
            r == count(0) && finish == Done && m == AllMarks(replies[..count(0)])
  {
    var asked := count(0);
    GatherMeans(count, 0, replies, [], error);
    var (m, e, r, finish) := Gather(count, 0, replies, false, [], error);
    SteadyCounts(count, asked + 1);
    assert Enough(count, asked);
    assert r <= asked;
    SteadyCounts(count, r + 1);
  }

  lemma SteadyCopies(count: nat -> nat)
    requires Falling(count) && Steady(count)
    ensures Copied(count, count(0) + 3, 0, count(0)) == count(0)
  {
    var asked, base: nat := count(0), count(0) + 3;
    forall k: nat | k < asked
      ensures Connected(count, base, k)
    {
      SteadyCounts(count, base + k);
    }
    CopiedAll(count, base, 0, asked);
  }

  lemma SteadyPasses(count: nat -> nat, replies: seq<EndRead>, error: nat, hwmRc: nat)
    requires Falling(count) && Steady(count) && NoneThrown(replies, count(0))
    ensures Collect(count, replies, false, [], error, hwmRc).finish == Done
    ensures Collect(count, replies, false, [], error, hwmRc).passed == Some(AllMarks(replies[..count(0)]))
  {
    SteadyGathers(count, replies, error);
    SteadyCopies(count);
    SteadyCounts(count, count(0) + 2);
    var m := AllMarks(replies[..count(0)]);
    assert m[..count(0)] == m;
  }

  /** Putting vectors together: nothing from none, a vector from itself, and what comes first
      stays first. */
  lemma {:induction false} FlattenConcat(a: seq<seq<Hwm>>, b: seq<seq<Hwm>>)
    ensures Flatten([]) == [] && Flatten(a + b) == Flatten(a) + Flatten(b)
    decreases |b|
  {
    if b == [] {
      assert a + b == a;
    } else {
      var front, v := b[..|b| - 1], b[|b| - 1];
      assert (a + b)[..|a + b| - 1] == a + front;
      FlattenConcat(a, front);
    }
  }

  lemma FlattenOne(v: seq<Hwm>)
    ensures Flatten([v]) == v
  {
    assert Flatten([v]) == Flatten([v][..0]) + v;
  }

  lemma {:induction false} FlattenMembers(vs: seq<seq<Hwm>>, h: Hwm)
    ensures h in Flatten(vs) <==> exists i :: 0 <= i < |vs| && h in vs[i]
  {
    if vs != [] {
      var front, v := vs[..|vs| - 1], vs[|vs| - 1];
      FlattenMembers(front, h);
      if i :| 0 <= i < |vs| && h in vs[i] {
        assert i < |front| ==> h in front[i];
      }
      if h in v {
        assert h in vs[|vs| - 1];
      }
      if i :| 0 <= i < |front| && h in front[i] {
        assert h in vs[i];
      }
    }
  }

  /** bulkSetHWM is called to set h. */
  predicate Sets(call: Option<seq<Hwm>>, h: Hwm) {
    call.Some? && h in call.value
  }

  /** bulkSetHWM is called if and only if some vector passed on has a mark, and then with the
      marks of all of them and no others. */
  lemma CallMeans(passed: Option<seq<seq<Hwm>>>, h: Hwm)
    ensures Sets(HwmCall(passed), h) <==> passed.Some? && exists i :: 0 <= i < |passed.value| && h in passed.value[i]
    ensures HwmCall(passed).Some? <==> passed.Some? && exists i :: 0 <= i < |passed.value| && passed.value[i] != []
  {
    if passed.Some? {
      var vs := passed.value;
      FlattenMembers(vs, h);
      if i :| 0 <= i < |vs| && vs[i] != [] {
        assert vs[i][0] in vs[i];
        FlattenMembers(vs, vs[i][0]);
      }
      if |Flatten(vs)| > 0 {
        assert Flatten(vs)[0] in Flatten(vs);
        FlattenMembers(vs, Flatten(vs)[0]);
      }
    }
  }

  lemma {:induction false} FlattenMarks(replies: seq<EndRead>, n: nat, h: Hwm)
    requires n <= |replies|
    ensures (exists i :: 0 <= i < n && h in AllMarks(replies[..n])[i]) <==>
            exists i :: 0 <= i < n && h in Marks(replies[i])
  {
    assert forall i :: 0 <= i < n ==> AllMarks(replies[..n])[i] == Marks(replies[i]);
    if i :| 0 <= i < n && h in Marks(replies[i]) {
      assert h in AllMarks(replies[..n])[i];
    }
  }

  /** On a fresh coordinator with autocommit off, the call sets no marks but those of the
      PMs asked, and all of them, in the order of the replies, if all the replies were read
      without an exception and no connection was lost before the last vector was copied. */
  lemma MarksSet(count: nat -> nat, replies: seq<EndRead>, error: nat, hwmRc: nat, h: Hwm)
    requires Falling(count)
    ensures var asked := count(0);
            var call := HwmCall(Collect(count, replies, false, [], error, hwmRc).passed);
            && (Sets(call, h) ==> exists i :: 0 <= i < asked && i < |replies| && h in Marks(replies[i]))
            && (NoneThrown(replies, asked) && Steady(count) ==>
                  && (Sets(call, h) <==> exists i :: 0 <= i < asked && h in Marks(replies[i]))
                  && (call.Some? ==> call.value == Flatten(AllMarks(replies[..asked]))))
  {
    var asked := count(0);
    var passed := Collect(count, replies, false, [], error, hwmRc).passed;
    CallMeans(passed, h);
    AllMarksExactly(count, replies, error, hwmRc);
    if passed.Some? {
      PassedPrefix(count, replies, error, hwmRc);
      FlattenMarks(replies, |passed.value|, h);
    }
    if NoneThrown(replies, asked) && Steady(count) {
      FlattenMarks(replies, asked, h);
    }
  }

  /** On a fresh coordinator with autocommit off, the vectors of all the PMs that were asked
      are put together if and only if all their replies were read without an exception and no
      connection was lost before the last vector was copied. */
  lemma AllMarksExactly(count: nat -> nat, replies: seq<EndRead>, error: nat, hwmRc: nat)
    requires Falling(count)
    ensures var asked := count(0);
            var passed := Collect(count, replies, false, [], error, hwmRc).passed;
            asked <= |replies| && passed == Some(AllMarks(replies[..asked])) <==>
            NoneThrown(replies, asked) && Steady(count)
  {
    var asked := count(0);
    if NoneThrown(replies, asked) && Steady(count) {
      SteadyPasses(count, replies, error, hwmRc);
    }
    var passed := Collect(count, replies, false, [], error, hwmRc).passed;
    if asked <= |replies| && passed == Some(AllMarks(replies[..asked])) {
      GatherMeans(count, 0, replies, [], error);
      var (m, e, r, finish) := Gather(count, 0, replies, false, [], error);
      assert |m| == r && r == count(r + 2) && |passed.value| == asked;
      assert r == asked;
      if asked > 0 {
        CopiedLast(count, r + 3, 0, asked);
      }
    }
  }

  /** Two connections, one of which is lost after t looks. */
  function Losing(t: nat): nat -> nat {
    (i: nat) => if i <= t then 2 else 1
  }

  /** Marks can be set without those of a PM that was asked: its connection goes before the
      loop looks at the count again. */
  lemma SomeMarksSet(v: seq<Hwm>)
    requires v != []
    ensures var count := Losing(1);
            var k := Collect(count, [End(0, v), EndEmpty], false, [], 0, 0);
            Falling(count) && k.passed == Some([v]) && HwmCall(k.passed) == Some(v)
  {
    var count := Losing(1);
    var replies := [End(0, v), EndEmpty];
    assert [v][..0] == [] && Flatten([v]) == Flatten([]) + v == v && [v][..1] == [v];
    assert Gather(count, 1, replies[1..], false, [v], 0) == ([v], 0, 1, Done);
    assert [] + [v] == [v];
    assert Gather(count, 0, replies, false, [], 0) == ([v], 0, 1, Done);
    assert Copied(count, 4, 0, 1) == 1;
  }

  /** With autocommit on no marks are gathered and none are set. */
  lemma {:induction false} AutocommitGathers(count: nat -> nat, i: nat, replies: seq<EndRead>, marks: seq<seq<Hwm>>,
                                             error: nat)
    ensures Gather(count, i, replies, true, marks, error).0 == marks
    decreases |replies|
  {
    if replies != [] && replies[0] != EndThrown {
      AutocommitGathers(count, i + 1, replies[1..], marks, EndError(replies[0], error));
    }
  }

  lemma AutocommitSetsNone(count: nat -> nat, replies: seq<EndRead>, marks: seq<seq<Hwm>>, error: nat, hwmRc: nat)
    ensures var k := Collect(count, replies, true, marks, error, hwmRc);
            k.marks == marks && k.passed == None && HwmCall(k.passed) == None
  {
    AutocommitGathers(count, 0, replies, marks, error);
  }

  // ------------------------------------------------------------------ does the loop end

  /** Once the count is below the number of replies the loop ends only by an exception. */
  lemma {:induction false} MissedForGood(count: nat -> nat, i: nat, replies: seq<EndRead>, autocommit: bool,
                                         marks: seq<seq<Hwm>>, error: nat)
    requires Falling(count) && count(i + 1) < i && NoneThrown(replies, |replies|)
    ensures Gather(count, i, replies, autocommit, marks, error).3 == Waiting
    decreases |replies|
  {
    if replies != [] {
      var r, rest := replies[0], replies[1..];
      assert forall j :: 0 <= j < |rest| ==> rest[j] == replies[j + 1];
      MissedForGood(count, i + 1, rest, autocommit, if autocommit then marks else marks + [Marks(r)],
                    EndError(r, error));
    }
  }

  /** With replies enough and no exception the loop ends if and only if at some moment the
      count it sees equals the number of replies it has read. */
  lemma FinishExactly(count: nat -> nat, replies: seq<EndRead>, error: nat)
    requires Falling(count) && count(0) <= |replies| && NoneThrown(replies, |replies|)
    ensures Gather(count, 0, replies, false, [], error).3 == Done <==>
            exists k: nat :: k <= count(0) && Enough(count, k)
  {
    GatherMeans(count, 0, replies, [], error);
    var r := Gather(count, 0, replies, false, [], error).2;
  }

  /** A connection lost between the reads of its empty message and the next look makes the
      loop miss that moment: two PMs, two replies read, and the loop goes on reading whatever
      else arrives. */
  lemma LoopGoesOn(v: seq<Hwm>, more: seq<EndRead>)
    requires NoneThrown(more, |more|)
    ensures var count := Losing(2);
            Falling(count) && Collect(count, [End(0, v), EndEmpty] + more, false, [], 0, 0).finish == Waiting
  {
    var count := Losing(2);
    var replies := [End(0, v), EndEmpty] + more;
    assert replies[1..] == [EndEmpty] + more && replies[1..][1..] == more;
    MissedForGood(count, 2, more, false, [] + [v] + [[]], NETWORK_ERROR);
    var rest := Gather(count, 2, more, false, [] + [v] + [[]], NETWORK_ERROR);
    assert Gather(count, 1, replies[1..], false, [] + [v], 0) == rest;
  }
}
