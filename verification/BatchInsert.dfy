/** The batch-insert coordinator: insert packages are queued, each goes to the PM chosen for
    it once that PM has answered its previous package, and at the end the outstanding
    answers are drained and the high-water marks of all PMs are collected. */
module BatchInsert {

  import opened BatchCollect
  import opened Bytes

  type Package = seq<byte>

  /** A package on its way to a PM. */
  datatype Sent = Sent(pm: nat, body: Package)

  /** What one read of the reply queue gives: an empty message (connection lost), an
      exception, or a PM's answer to a package. */
  datatype Read = Empty | Thrown | Reply(rc: byte, pm: nat)

  /** The coordinator's fields.  `free[pm]` says that pm has answered everything sent to it;
      `wire` is what has been written so far. */
  datatype Coord = Coord(pms: seq<nat>, queue: seq<Package>, free: map<nat, bool>, current: nat,
                         error: nat, wire: seq<Sent>)

  /** How a send ended. */
  datatype Outcome = Written | NotSelected | WriteThrew | ReadThrew | StillWaiting

  datatype Stop = Ready | ReadFailed | Starved

  function Busy(free: map<nat, bool>, pm: nat): bool {
    pm !in free || !free[pm]
  }

  /** Writing to the current PM fails when there is no link to it; otherwise the PM is busy. */
  function Write(c: Coord, body: Package, links: set<nat>): (Coord, Outcome) {
    if c.current in links
    then (c.(wire := c.wire + [Sent(c.current, body)], free := c.free[c.current := false]), Written)
    else (c, WriteThrew)
  }

  /** Reading replies until the current PM's arrives, or an empty or failing one: the new
      state, the number of reads, and why it stopped. */
  function Await(c: Coord, replies: seq<Read>): (Coord, nat, Stop)
    decreases |replies|
  {
    if replies == [] then (c, 0, Starved)
    else match replies[0]
      case Empty => (c.(error := NETWORK_ERROR), 1, Ready)
      case Thrown => (c, 1, ReadFailed)
      case Reply(rc, pm) =>
        var c1 := c.(free := c.free[pm := true]);
        if rc != 0 then (c1.(error := rc), 1, Ready)
        else if pm == c.current then (c1, 1, Ready)
        else
          var (c2, n, stop) := Await(c1, replies[1..]);
          (c2, n + 1, stop)
  }

  /** Takes the next package off the queue for the PM picked, waits for that PM if it is
      busy, and writes the package to it. */
  function SendNext(c: Coord, pick: Option<nat>, replies: seq<Read>, links: set<nat>): (Coord, nat, Outcome)
    requires c.queue != []
  {
    match pick
    case None => (c.(error := INSERT_ERROR), 0, NotSelected)
    case Some(pm) =>
      var c1 := c.(current := pm, queue := c.queue[1..]);
      if !Busy(c.free, pm) then
        var (c2, out) := Write(c1, c.queue[0], links);
        (c2, 0, out)
      else
        var (c2, n, stop) := Await(c1, replies);
        match stop
        case Ready =>
          var (c3, out) := Write(c2, c.queue[0], links);
          (c3, n, out)
        case ReadFailed => (c2, n, ReadThrew)
        case Starved => (c2, n, StillWaiting)
  }

  /** The only package of a statement: no PM can be busy yet, so nothing is awaited. */
  function SendFirst(c: Coord, pick: Option<nat>, links: set<nat>): (Coord, Outcome)
    requires c.queue != []
  {
    if pick.None? || pick.value == 0 then (c.(error := INSERT_ERROR), NotSelected)
    else Write(c.(current := pick.value, queue := c.queue[1..]), c.queue[0], links)
  }

  /** The number of listed PMs that have not answered. */
  function Outstanding(pms: seq<nat>, free: map<nat, bool>): nat {
    if pms == [] then 0 else (if Busy(free, pms[0]) then 1 else 0) + Outstanding(pms[1..], free)
  }

  /** The drain read all it was waiting for (or had nothing to wait for), gave up at an
      exception, or is still waiting. */
  datatype DrainEnd = Drained | GaveUp | DrainWaiting

  /** Reading `need` replies; empty ones are not counted and an exception gives up. */
  function Drain(c: Coord, need: nat, replies: seq<Read>): (Coord, nat, DrainEnd)
    decreases |replies|
  {
    if need == 0 then (c, 0, Drained)
    else if replies == [] then (c, 0, DrainWaiting)
    else match replies[0]
      case Empty =>
        var (c1, n, end) := Drain(c.(error := INSERT_ERROR), need, replies[1..]);
        (c1, n + 1, end)
      case Thrown => (c.(error := NETWORK_ERROR), 1, GaveUp)
      case Reply(rc, pm) =>
        var (c1, n, end) := Drain(c.(free := c.free[pm := true], error := if rc != 0 then rc else c.error), need - 1,
                                  replies[1..]);
        (c1, n + 1, end)
  }

  function ReceiveOutstanding(c: Coord, pmCount: nat, replies: seq<Read>): (Coord, nat, DrainEnd) {
    var need := Outstanding(c.pms, c.free);
    if 0 < need <= pmCount then Drain(c, need, replies) else (c, 0, Drained)
  }

  // ------------------------------------------------------------------ conservation

  function Bodies(wire: seq<Sent>): seq<Package> {
    seq(|wire|, i requires 0 <= i < |wire| => wire[i].body)
  }

  /** Everything the coordinator accounts for: what it wrote, then what it still holds. */
  function Account(c: Coord): seq<Package> {
    Bodies(c.wire) + c.queue
  }

  /** The wait for pm comes to an end with these replies, by pm's answer, a refusal or a
      lost connection, and not by an exception. */
  predicate Settles(pm: nat, replies: seq<Read>)
    decreases |replies|
  {
    replies != [] &&
    match replies[0]
    case Empty => true
    case Thrown => false
    case Reply(rc, from) => rc != 0 || from == pm || Settles(pm, replies[1..])
  }

  /** The wait for pm comes to an end by an exception. */
  predicate Fails(pm: nat, replies: seq<Read>)
    decreases |replies|
  {
    replies != [] &&
    match replies[0]
    case Empty => false
    case Thrown => true
    case Reply(rc, from) => rc == 0 && from != pm && Fails(pm, replies[1..])
  }

  lemma {:induction false} AwaitSettles(c: Coord, replies: seq<Read>)
    ensures var (c', n, stop) := Await(c, replies);
            (stop == Ready <==> Settles(c.current, replies)) && (stop == ReadFailed <==> Fails(c.current, replies))
            && c' == c.(free := c'.free, error := c'.error) && n <= |replies|
    decreases |replies|
  {
    if replies != [] && replies[0].Reply? {
      AwaitSettles(c.(free := c.free[replies[0].pm := true]), replies[1..]);
    }
  }

  /** The code a read of the wait brings: zero for an answer without an error. */
  function AwaitCode(r: Read): nat {
    match r
    case Empty => NETWORK_ERROR
    case Thrown => 0
    case Reply(rc, _) => rc
  }

  /** Among the first n reads is an answer of pm. */
  predicate Answered(replies: seq<Read>, n: nat, pm: nat) {
    n <= |replies| && exists j :: 0 <= j < n && replies[j].Reply? && replies[j].pm == pm
  }

  lemma AnsweredRest(replies: seq<Read>, n: nat, pm: nat)
    requires 0 < n <= |replies|
    ensures Answered(replies, n, pm) <==>
            (replies[0].Reply? && replies[0].pm == pm) || Answered(replies[1..], n - 1, pm)
  {
    var rest := replies[1..];
    if j :| 0 <= j < n && replies[j].Reply? && replies[j].pm == pm {
      assert j > 0 ==> rest[j - 1].Reply?;
    }
    if j :| 0 <= j < n - 1 && rest[j].Reply? && rest[j].pm == pm {
      assert replies[j + 1].Reply?;
    }
  }

  /** What the wait reads and leaves: only its last read can bring an error, which is then the
      coordinator's; otherwise the error stays.  A PM is busy afterwards exactly if it was and
      has not been heard of. */
  lemma {:induction false} AwaitMeans(c: Coord, replies: seq<Read>, pm: nat)
    ensures var (c', n, stop) := Await(c, replies);
            && n <= |replies| && (forall j :: 0 <= j < n - 1 ==> AwaitGoesOn(c, replies[j]))
            && (stop == Starved <==> n == |replies| && forall j :: 0 <= j < n ==> AwaitGoesOn(c, replies[j]))
            && (stop != Starved ==> n > 0 && !AwaitGoesOn(c, replies[n - 1]))
            && (stop == ReadFailed <==> n > 0 && replies[n - 1] == Thrown)
            && c'.error == (if stop == Ready && AwaitCode(replies[n - 1]) != 0 then AwaitCode(replies[n - 1])
                            else c.error)
            && (Busy(c'.free, pm) <==> Busy(c.free, pm) && !Answered(replies, n, pm))
    decreases |replies|
  {
    if replies != [] {
      var r := replies[0];
      AnsweredRest(replies, 1, pm);
      if r.Reply? && r.rc == 0 && r.pm != c.current {
        var c1, rest := c.(free := c.free[r.pm := true]), replies[1..];
        AwaitMeans(c1, rest, pm);
        var (c', n, stop) := Await(c1, rest);
        AnsweredRest(replies, n + 1, pm);
        assert forall j :: 1 <= j < n + 1 ==> replies[j] == rest[j - 1];
      }
    }
  }

  /** An answer without an error of another PM than the one waited for. */
  predicate AwaitGoesOn(c: Coord, r: Read) {
    r.Reply? && r.rc == 0 && r.pm != c.current
  }

  lemma WriteAccounts(c: Coord, body: Package, links: set<nat>)
    ensures var (c', out) := Write(c, body, links);
            if c.current in links then out == Written && Account(c') == Bodies(c.wire) + ([body] + c.queue)
            else out == WriteThrew && Account(c') == Account(c)
  {
    var (c', out) := Write(c, body, links);
    if c.current in links {
      assert Bodies(c'.wire) == Bodies(c.wire) + [body];
      assert Bodies(c.wire) + [body] + c.queue == Bodies(c.wire) + ([body] + c.queue);
    }
  }

  /** The package taken off the queue is dropped: its PM has no link when it is to be written,
      or reading while it waits for a busy PM throws. */
  predicate Loses(c: Coord, pick: Option<nat>, replies: seq<Read>, links: set<nat>) {
    pick.Some? &&
    if Busy(c.free, pick.value) then
      Fails(pick.value, replies) || (Settles(pick.value, replies) && pick.value !in links)
    else pick.value !in links
  }

  /** The package in hand while a send waits. */
  function InHand(c: Coord, out: Outcome): seq<Package>
    requires c.queue != []
  {
    if out == StillWaiting then [c.queue[0]] else []
  }

  /** Nothing is lost or reordered, written, in hand or queued, if and only if the send is not
      one that loses its package; one that does drops exactly the head of the queue.  A send is
      still waiting exactly when the chosen PM is busy and the replies neither settle nor fail. */
  lemma SendNextConserves(c: Coord, pick: Option<nat>, replies: seq<Read>, links: set<nat>)
    requires c.queue != []
    ensures var (c', n, out) := SendNext(c, pick, replies, links);
            && (Bodies(c'.wire) + InHand(c, out) + c'.queue == Account(c) <==> !Loses(c, pick, replies, links))
            && (Loses(c, pick, replies, links) <==> out == WriteThrew || out == ReadThrew)
            && (Loses(c, pick, replies, links) ==> Account(c') == Bodies(c.wire) + c.queue[1..])
            && (out == StillWaiting <==> pick.Some? && Busy(c.free, pick.value) && !Settles(pick.value, replies)
                                         && !Fails(pick.value, replies))
  {
    var (c', n, out) := SendNext(c, pick, replies, links);
    assert Bodies(c'.wire) + [] == Bodies(c'.wire);
    if pick.Some? {
      var pm := pick.value;
      var c1 := c.(current := pm, queue := c.queue[1..]);
      assert c.queue == [c.queue[0]] + c.queue[1..];
      assert Bodies(c.wire) + [c.queue[0]] + c.queue[1..] == Bodies(c.wire) + c.queue;
      AwaitSettles(c1, replies);
      WriteAccounts(c1, c.queue[0], links);
      WriteAccounts(Await(c1, replies).0, c.queue[0], links);
      SettlesOrFails(pm, replies);
    }
  }

  lemma {:induction false} SettlesOrFails(pm: nat, replies: seq<Read>)
    ensures !(Settles(pm, replies) && Fails(pm, replies))
    decreases |replies|
  {
    if replies != [] && replies[0].Reply? {
      SettlesOrFails(pm, replies[1..]);
    }
  }

  /** The same law for the only package of a statement. */
  lemma SendFirstConserves(c: Coord, pick: Option<nat>, links: set<nat>)
    requires c.queue != []
    ensures var (c', out) := SendFirst(c, pick, links);
            var kept := pick.None? || pick.value == 0 || pick.value in links;
            (Account(c') == Account(c) <==> kept) && (!kept ==> Account(c') == Bodies(c.wire) + c.queue[1..])
  {
    if pick.Some? && pick.value != 0 {
      var c1 := c.(current := pick.value, queue := c.queue[1..]);
      assert c.queue == [c.queue[0]] + c.queue[1..];
      WriteAccounts(c1, c.queue[0], links);
    }
  }

  /** On a PM that is free the two sends do the same, so what is proved of a run of
      packages holds for a statement with a single one as well. */
  lemma FirstLikeNext(c: Coord, pm: nat, replies: seq<Read>, links: set<nat>)
    requires c.queue != [] && pm != 0 && !Busy(c.free, pm)
    ensures var (c', n, out) := SendNext(c, Some(pm), replies, links);
            n == 0 && SendFirst(c, Some(pm), links) == (c', out)
  {
  }

  /** Any package of a statement, with whatever its send meets. */
  datatype AnyTurn = AnyTurn(body: Package, pick: Option<nat>, replies: seq<Read>, links: set<nat>)

  function Add(c: Coord, body: Package): Coord {
    c.(queue := c.queue + [body])
  }

  function After(c: Coord, t: AnyTurn): Coord {
    SendNext(Add(c, t.body), t.pick, t.replies, t.links).0
  }

  /** The turn comes back, without waiting for ever and without losing a package. */
  predicate Kept(c: Coord, t: AnyTurn) {
    var out := SendNext(Add(c, t.body), t.pick, t.replies, t.links).2;
    out == Written || out == NotSelected
  }

  /** The turns of a run, each from where the last one left the coordinator. */
  function AfterAll(c: Coord, turns: seq<AnyTurn>): Coord
    decreases |turns|
  {
    if turns == [] then c else AfterAll(After(c, turns[0]), turns[1..])
  }

  ghost predicate AllKept(c: Coord, turns: seq<AnyTurn>)
    decreases |turns|
  {
    turns == [] || (Kept(c, turns[0]) && AllKept(After(c, turns[0]), turns[1..]))
  }

  function BodiesOf(turns: seq<AnyTurn>): seq<Package> {
    seq(|turns|, i requires 0 <= i < |turns| => turns[i].body)
  }

  lemma TurnAccount(c: Coord, t: AnyTurn)
    ensures Kept(c, t) ==> Account(After(c, t)) == Account(c) + [t.body]
    ensures !Kept(c, t) ==> |Account(After(c, t))| == |Account(c)|
  {
    var c1 := Add(c, t.body);
    SendNextConserves(c1, t.pick, t.replies, t.links);
    assert Account(c1) == Account(c) + [t.body];
    var c' := After(c, t);
    assert Bodies(c'.wire) + [] + c'.queue == Account(c');
    if !Kept(c, t) {
      StopKeepsWire(c1, t.pick, t.replies, t.links);
    }
  }

  lemma StopKeepsWire(c: Coord, pick: Option<nat>, replies: seq<Read>, links: set<nat>)
    requires c.queue != []
    ensures var (c', n, out) := SendNext(c, pick, replies, links);
            out != Written && out != NotSelected ==> c'.wire == c.wire && c'.queue == c.queue[1..]
  {
    if pick.Some? {
      AwaitSettles(c.(current := pick.value, queue := c.queue[1..]), replies);
    }
  }

  lemma {:induction false} RunAccount(c: Coord, turns: seq<AnyTurn>)
    ensures |Account(AfterAll(c, turns))| <= |Account(c)| + |turns|
    ensures AllKept(c, turns) ==> Account(AfterAll(c, turns)) == Account(c) + BodiesOf(turns)
    ensures !AllKept(c, turns) ==> |Account(AfterAll(c, turns))| < |Account(c)| + |turns|
    decreases |turns|
  {
    if turns == [] {
      assert Account(c) + BodiesOf(turns) == Account(c);
    } else {
      TurnAccount(c, turns[0]);
      RunAccount(After(c, turns[0]), turns[1..]);
      assert BodiesOf(turns) == [turns[0].body] + BodiesOf(turns[1..]);
      assert Account(c) + [turns[0].body] + BodiesOf(turns[1..]) == Account(c) + BodiesOf(turns);
    }
  }

  /** Over any run, with any answers, failures and losses: what was written followed by what is
      queued is what there was and what was handed in, in order, if and only if every turn
      was kept. */
  lemma RunConserves(c: Coord, turns: seq<AnyTurn>)
    ensures Account(AfterAll(c, turns)) == Account(c) + BodiesOf(turns) <==> AllKept(c, turns)
  {
    RunAccount(c, turns);
  }

  /** A package is lost: its PM went away after it was chosen. */
  lemma PackageLost()
    ensures var c := Coord([1], [[7]], map[1 := true], 0, 0, []);
            var (c', n, out) := SendNext(c, Some(1), [], {});
            out == WriteThrew && c'.queue == [] && c'.wire == []
  {
  }

  // ------------------------------------------------------------------ flow control

  /** The coordinator with what is in flight: for each PM the number of its packages whose
      answer has not been read, and all packages handed in so far. */
  datatype World = World(c: Coord, unread: multiset<nat>, added: seq<Package>)

  predicate Distinct(s: seq<nat>) {
    forall i, j :: 0 <= i < j < |s| ==> s[i] != s[j]
  }

  /** A PM has an unread answer exactly when its state says busy, and then only one. */
  predicate Matches(pms: seq<nat>, free: map<nat, bool>, unread: multiset<nat>) {
    && (forall pm :: pm in pms ==> pm in free && unread[pm] == if free[pm] then 0 else 1)
    && (forall pm :: pm in unread ==> pm in pms)
  }

  predicate Tidy(w: World) {
    && Distinct(w.c.pms) && Matches(w.c.pms, w.c.free, w.unread)
    && w.c.queue == [] && w.c.error == 0 && Account(w.c) == w.added
  }

  /** Answers without an error, in the order in which they arrive. */
  function Oks(answers: seq<nat>): (r: seq<Read>)
    ensures |r| == |answers|
  {
    seq(|answers|, i requires 0 <= i < |answers| => Reply(0, answers[i]))
  }

  lemma OksSplit(answers: seq<nat>)
    requires answers != []
    ensures Oks(answers)[0] == Reply(0, answers[0]) && Oks(answers)[1..] == Oks(answers[1..])
    ensures answers == [answers[0]] + answers[1..]
    ensures multiset(answers) == multiset{answers[0]} + multiset(answers[1..])
  {
    assert answers == [answers[0]] + answers[1..];
  }

  lemma AnswerMatches(pms: seq<nat>, free: map<nat, bool>, answers: seq<nat>)
    requires answers != [] && Matches(pms, free, multiset(answers))
    ensures answers[0] in pms && Busy(free, answers[0])
    ensures Matches(pms, free[answers[0] := true], multiset(answers[1..]))
  {
    OksSplit(answers);
    var a := answers[0];
    assert multiset(answers)[a] >= 1;
    assert a in multiset(answers);
    forall pm | pm in pms
      ensures multiset(answers[1..])[pm] == if free[a := true][pm] then 0 else 1
    {
      assert multiset(answers)[pm] == multiset{a}[pm] + multiset(answers[1..])[pm];
    }
    forall pm | pm in multiset(answers[1..])
      ensures pm in pms
    {
      assert pm in multiset(answers);
    }
  }

  /** The wait ends: whatever the order of the answers, the current PM's is among them, and
      the states still match what is unread when it has come. */
  lemma {:induction false} AwaitFinds(c: Coord, answers: seq<nat>)
    requires Matches(c.pms, c.free, multiset(answers)) && c.current in c.pms && Busy(c.free, c.current)
    ensures var (c', n, stop) := Await(c, Oks(answers));
            stop == Ready && 0 < n <= |answers| && c' == c.(free := c'.free)
            && Matches(c.pms, c'.free, multiset(answers[n..])) && !Busy(c'.free, c.current)
    decreases |answers|
  {
    assert multiset(answers)[c.current] == 1;
    assert answers != [];
    OksSplit(answers);
    AnswerMatches(c.pms, c.free, answers);
    var c1 := c.(free := c.free[answers[0] := true]);
    if answers[0] != c.current {
      AwaitFinds(c1, answers[1..]);
      var (c', n, stop) := Await(c1, Oks(answers[1..]));
      assert answers[1..][n..] == answers[n + 1..];
    }
  }

  lemma BusyAgain(pms: seq<nat>, free: map<nat, bool>, unread: multiset<nat>, pm: nat)
    requires Matches(pms, free, unread) && pm in pms && !Busy(free, pm)
    ensures Matches(pms, free[pm := false], unread + multiset{pm})
  {
  }

  /** One package of a statement: it is handed in, a PM is picked, and the answers still to
      come arrive in the order `answers`. */
  datatype Turn = Turn(body: Package, pm: nat, answers: seq<nat>)

  /** A turn in which nothing goes wrong: the PM is listed and linked, and the answers that
      can arrive are those of the packages not answered yet. */
  predicate Smooth(w: World, t: Turn, links: set<nat>) {
    t.pm in w.c.pms && t.pm in links && multiset(t.answers) == w.unread
  }

  function Handed(w: World, t: Turn): Coord {
    w.c.(queue := w.c.queue + [t.body])
  }

  function TakeTurn(w: World, t: Turn, links: set<nat>): World {
    var (c', n, out) := SendNext(Handed(w, t), Some(t.pm), Oks(t.answers), links);
    var left := if n <= |t.answers| then multiset(t.answers[n..]) else multiset{};
    World(c', left + multiset{t.pm}, w.added + [t.body])
  }

  lemma TurnAccounts(w: World, t: Turn, links: set<nat>)
    requires w.c.queue == [] && Account(w.c) == w.added && t.pm in links
    requires Busy(w.c.free, t.pm) ==> Settles(t.pm, Oks(t.answers))
    ensures Account(TakeTurn(w, t, links).c) == TakeTurn(w, t, links).added
  {
    var c := Handed(w, t);
    SendNextConserves(c, Some(t.pm), Oks(t.answers), links);
    SettlesOrFails(t.pm, Oks(t.answers));
    var c' := TakeTurn(w, t, links).c;
    assert Bodies(c'.wire) + [] == Bodies(c'.wire);
    assert Account(c) == Account(w.c) + [t.body];
  }

  /** Every turn that goes well leaves the world tidy: the package is written to the PM
      picked, and no PM has two packages unanswered. */
  lemma TurnTidy(w: World, t: Turn, links: set<nat>)
    requires Tidy(w) && Smooth(w, t, links)
    ensures Tidy(TakeTurn(w, t, links))
    ensures TakeTurn(w, t, links).c.wire == w.c.wire + [Sent(t.pm, t.body)]
    ensures TakeTurn(w, t, links).c.pms == w.c.pms
  {
    var c := Handed(w, t);
    assert c.queue == [t.body];
    var c1 := c.(current := t.pm, queue := c.queue[1..]);
    assert c1.queue == [];
    if Busy(c.free, t.pm) {
      AwaitFinds(c1, t.answers);
      AwaitSettles(c1, Oks(t.answers));
      var (c2, n, stop) := Await(c1, Oks(t.answers));
      BusyAgain(c.pms, c2.free, multiset(t.answers[n..]), t.pm);
    } else {
      assert t.answers[0..] == t.answers;
      BusyAgain(c.pms, c.free, w.unread, t.pm);
    }
    TurnAccounts(w, t, links);
  }

  ghost predicate SmoothRun(w: World, turns: seq<Turn>, links: set<nat>, w': World)
    decreases |turns|
  {
    if turns == [] then w == w'
    else Smooth(w, turns[0], links) && SmoothRun(TakeTurn(w, turns[0], links), turns[1..], links, w')
  }

  /** A new coordinator: nothing sent, every PM free. */
  predicate Fresh(w: World) {
    && Distinct(w.c.pms) && w.c.queue == [] && w.c.wire == [] && w.c.error == 0 && w.added == []
    && w.unread == multiset{}
    && forall pm :: pm in w.c.pms ==> pm in w.c.free && w.c.free[pm]
  }

  lemma {:induction false} RunTidy(w: World, turns: seq<Turn>, links: set<nat>, w': World)
    requires Tidy(w) && SmoothRun(w, turns, links, w')
    ensures Tidy(w')
    decreases |turns|
  {
    if turns != [] {
      TurnTidy(w, turns[0], links);
      RunTidy(TakeTurn(w, turns[0], links), turns[1..], links, w');
    }
  }

  /** Over any run of packages without a failing answer: everything handed in has been
      written, in order; every PM has at most one package unanswered, and its state is
      false exactly when it has one. */
  lemma FlowControl(w: World, turns: seq<Turn>, links: set<nat>, w': World)
    requires Fresh(w) && SmoothRun(w, turns, links, w')
    ensures Bodies(w'.c.wire) == w'.added && w'.c.queue == []
    ensures forall pm :: w'.unread[pm] <= 1
    ensures forall pm :: pm in w'.c.pms ==> (Busy(w'.c.free, pm) <==> w'.unread[pm] == 1)
  {
    RunTidy(w, turns, links, w');
    assert Account(w'.c) == Bodies(w'.c.wire);
    forall pm
      ensures w'.unread[pm] <= 1
    {
      if pm in w'.unread {
        assert pm in w'.c.pms;
      }
    }
  }

  // ------------------------------------------------------------------ draining

  lemma {:induction false} OutstandingLess(pms: seq<nat>, free: map<nat, bool>, pm: nat)
    requires Distinct(pms)
    ensures Outstanding(pms, free[pm := true])
            == Outstanding(pms, free) - (if pm in pms && Busy(free, pm) then 1 else 0)
    decreases |pms|
  {
    if pms != [] {
      assert forall q :: q in pms <==> q == pms[0] || q in pms[1..];
      if pms[0] == pm {
        assert pm !in pms[1..];
      }
      OutstandingLess(pms[1..], free, pm);
    }
  }

  lemma {:induction false} NoneOutstanding(pms: seq<nat>, free: map<nat, bool>)
    requires forall pm :: pm in pms ==> !Busy(free, pm)
    ensures Outstanding(pms, free) == 0
  {
    if pms != [] {
      assert pms[0] in pms;
      NoneOutstanding(pms[1..], free);
    }
  }

  /** The coordinator's count of busy PMs is the number of answers it has not read. */
  lemma {:induction false} OutstandingIsUnread(pms: seq<nat>, free: map<nat, bool>, answers: seq<nat>)
    requires Distinct(pms) && Matches(pms, free, multiset(answers))
    ensures Outstanding(pms, free) == |answers|
    decreases |answers|
  {
    if answers == [] {
      NoneOutstanding(pms, free);
    } else {
      AnswerMatches(pms, free, answers);
      OutstandingLess(pms, free, answers[0]);
      OutstandingIsUnread(pms, free[answers[0] := true], answers[1..]);
    }
  }

  /** The error a read of the drain brings: zero for an answer without one. */
  function DrainCode(r: Read): nat {
    match r
    case Empty => INSERT_ERROR
    case Thrown => NETWORK_ERROR
    case Reply(rc, _) => rc
  }

  /** The error after the first n reads: the last one they brought, or the one there was. */
  predicate LastCode(replies: seq<Read>, n: nat, before: nat, after: nat) {
    n <= |replies| &&
    if forall j :: 0 <= j < n ==> DrainCode(replies[j]) == 0 then after == before
    else exists j :: 0 <= j < n && after == DrainCode(replies[j]) != 0
                     && forall k :: j < k < n ==> DrainCode(replies[k]) == 0
  }

  lemma LastCodeRest(replies: seq<Read>, n: nat, before: nat, after: nat)
    requires 0 < n <= |replies|
    requires LastCode(replies[1..], n - 1, if DrainCode(replies[0]) != 0 then DrainCode(replies[0]) else before, after)
    ensures LastCode(replies, n, before, after)
  {
    var rest := replies[1..];
    assert forall j :: 0 <= j < n - 1 ==> rest[j] == replies[j + 1];
    if forall j :: 0 <= j < n - 1 ==> DrainCode(rest[j]) == 0 {
      forall j | 1 <= j < n
        ensures DrainCode(replies[j]) == 0
      {
        assert rest[j - 1] == replies[j];
      }
    } else {
      var j :| 0 <= j < n - 1 && after == DrainCode(rest[j]) != 0
               && forall k :: j < k < n - 1 ==> DrainCode(rest[k]) == 0;
      assert after == DrainCode(replies[j + 1]);
      forall k | j + 1 < k < n
        ensures DrainCode(replies[k]) == 0
      {
        assert rest[k - 1] == replies[k];
      }
    }
  }

  /** How many of the reads are answers. */
  function Answers(replies: seq<Read>): nat {
    if replies == [] then 0 else (if replies[0].Reply? then 1 else 0) + Answers(replies[1..])
  }

  /** The coordinator after one read of the drain, and the answers then needed. */
  function DrainNext(c: Coord, r: Read): Coord {
    match r
    case Empty => c.(error := INSERT_ERROR)
    case Thrown => c.(error := NETWORK_ERROR)
    case Reply(rc, pm) => c.(free := c.free[pm := true], error := if rc != 0 then rc else c.error)
  }

  /** The drain leaves the error that a read brought last, or the one there was. */
  lemma {:induction false} DrainError(c: Coord, need: nat, replies: seq<Read>)
    ensures var (c', n, end) := Drain(c, need, replies); LastCode(replies, n, c.error, c'.error)
    decreases |replies|
  {
    if need > 0 && replies != [] {
      var r, rest := replies[0], replies[1..];
      if r == Thrown {
        LastCodeRest(replies, 1, c.error, NETWORK_ERROR);
      } else {
        var c1, left := DrainNext(c, r), if r == Empty then need else need - 1;
        DrainError(c1, left, rest);
        var (c', n, end) := Drain(c1, left, rest);
        LastCodeRest(replies, n + 1, c.error, c'.error);
      }
    }
  }

  lemma AnswersSnoc(r: Read, rest: seq<Read>, n: nat)
    requires n <= |rest|
    ensures Answers(([r] + rest)[..n + 1]) == (if r.Reply? then 1 else 0) + Answers(rest[..n])
  {
    assert ([r] + rest)[..n + 1] == [r] + rest[..n];
    assert ([r] + rest[..n])[1..] == rest[..n];
  }

  /** The drain ends when as many answers have come as it needs, or at an exception. */
  lemma {:induction false} DrainEnds(c: Coord, need: nat, replies: seq<Read>)
    ensures var (c', n, end) := Drain(c, need, replies);
            && n <= |replies| && (end == Drained <==> Answers(replies[..n]) == need) && Answers(replies[..n]) <= need
            && (end == GaveUp <==> n > 0 && replies[n - 1] == Thrown)
            && (forall j :: 0 <= j < n - 1 ==> replies[j] != Thrown) && (end == DrainWaiting ==> n == |replies|)
            && (end == Drained && n > 0 ==> replies[n - 1].Reply?)
    decreases |replies|
  {
    if need > 0 && replies != [] {
      var r, rest := replies[0], replies[1..];
      assert replies == [r] + rest;
      if r == Thrown {
        AnswersSnoc(r, rest, 0);
      } else {
        var c1, left := DrainNext(c, r), if r == Empty then need else need - 1;
        DrainEnds(c1, left, rest);
        var n := Drain(c1, left, rest).1;
        AnswersSnoc(r, rest, n);
      }
    }
  }

  /** After the drain a PM is busy exactly if it was and has not answered. */
  lemma {:induction false} DrainFrees(c: Coord, need: nat, replies: seq<Read>, pm: nat)
    ensures var (c', n, end) := Drain(c, need, replies);
            n <= |replies| && (Busy(c'.free, pm) <==> Busy(c.free, pm) && !Answered(replies, n, pm))
    decreases |replies|
  {
    if need > 0 && replies != [] {
      var r, rest := replies[0], replies[1..];
      AnsweredRest(replies, 1, pm);
      if r != Thrown {
        var c1, left := DrainNext(c, r), if r == Empty then need else need - 1;
        DrainFrees(c1, left, rest, pm);
        AnsweredRest(replies, Drain(c1, left, rest).1 + 1, pm);
      }
    }
  }

  lemma {:induction false} DrainReadsAll(c: Coord, answers: seq<nat>)
    requires Matches(c.pms, c.free, multiset(answers))
    ensures var (c', n, end) := Drain(c, |answers|, Oks(answers));
            && n == |answers| && end == Drained && c' == c.(free := c'.free)
            && forall pm :: pm in c.pms ==> !Busy(c'.free, pm)
    decreases |answers|
  {
    if answers != [] {
      OksSplit(answers);
      AnswerMatches(c.pms, c.free, answers);
      DrainReadsAll(c.(free := c.free[answers[0] := true]), answers[1..]);
    }
  }

  /** In a tidy world, receiveOutstandingMsg reads every answer still to come, and leaves
      every PM free, if and only if there are no more of them than connections. */
  lemma DrainExactly(w: World, pmCount: nat, answers: seq<nat>)
    requires Tidy(w) && multiset(answers) == w.unread
    ensures var (c', n, end) := ReceiveOutstanding(w.c, pmCount, Oks(answers));
            && (n == |answers| <==> |w.unread| <= pmCount) && end == Drained
            && (|w.unread| <= pmCount ==>
                  c' == w.c.(free := c'.free) && forall pm :: pm in c'.pms ==> !Busy(c'.free, pm))
            && (|w.unread| > pmCount ==> c' == w.c && n == 0)
  {
    OutstandingIsUnread(w.c.pms, w.c.free, answers);
    DrainReadsAll(w.c, answers);
    assert |w.unread| == |answers|;
    if answers == [] {
      assert forall pm :: pm in w.c.pms ==> !Busy(w.c.free, pm);
    }
  }

  lemma {:induction false} SubsetUnread(unread: multiset<nat>, links: set<nat>)
    requires forall pm :: unread[pm] <= 1
    requires forall pm :: pm in unread ==> pm in links
    ensures |unread| <= |links|
    decreases |links|
  {
    if unread == multiset{} {
    } else {
      var pm :| pm in unread;
      SubsetUnread(unread - multiset{pm}, links - {pm});
    }
  }

  lemma TurnStaysLinked(w: World, t: Turn, links: set<nat>)
    requires Smooth(w, t, links) && forall pm :: pm in w.unread ==> pm in links
    ensures forall pm :: pm in TakeTurn(w, t, links).unread ==> pm in links
  {
    var (c', n, out) := SendNext(Handed(w, t), Some(t.pm), Oks(t.answers), links);
    if n <= |t.answers| {
      assert t.answers == t.answers[..n] + t.answers[n..];
      assert w.unread == multiset(t.answers[..n]) + multiset(t.answers[n..]);
    }
  }

  lemma {:induction false} RunStaysLinked(w: World, turns: seq<Turn>, links: set<nat>, w': World)
    requires SmoothRun(w, turns, links, w') && forall pm :: pm in w.unread ==> pm in links
    ensures forall pm :: pm in w'.unread ==> pm in links
    decreases |turns|
  {
    if turns != [] {
      TurnStaysLinked(w, turns[0], links);
      RunStaysLinked(TakeTurn(w, turns[0], links), turns[1..], links, w');
    }
  }

  /** After any run without a failing answer, with the connections unchanged, nothing is
      left unread once receiveOutstandingMsg has returned. */
  lemma DrainedAfterRun(w: World, turns: seq<Turn>, links: set<nat>, w': World, answers: seq<nat>)
    requires Fresh(w) && SmoothRun(w, turns, links, w') && multiset(answers) == w'.unread
    ensures var (c', n, end) := ReceiveOutstanding(w'.c, |links|, Oks(answers));
            && n == |answers| && end == Drained && c' == w'.c.(free := c'.free)
            && forall pm :: pm in c'.pms ==> !Busy(c'.free, pm)
  {
    RunTidy(w, turns, links, w');
    FlowControl(w, turns, links, w');
    RunStaysLinked(w, turns, links, w');
    SubsetUnread(w'.unread, links);
    DrainExactly(w', |links|, answers);
  }

  /** A whole statement that goes well: the drain takes every answer to a package, so the
      replies read afterwards are the end-of-batch replies and all of them, and with
      autocommit off the marks of all PMs are set together. */
  lemma StatementCollects(w: World, turns: seq<Turn>, links: set<nat>, w': World, answers: seq<nat>,
                          count: nat -> nat, ends: seq<EndRead>, hwmRc: nat)
    requires Fresh(w) && SmoothRun(w, turns, links, w') && multiset(answers) == w'.unread
    requires Falling(count) && Steady(count) && |ends| == count(0) && forall i :: 0 <= i < |ends| ==> ends[i].End?
    ensures var (c', n, end) := ReceiveOutstanding(w'.c, |links|, Oks(answers));
            var k := Collect(count, ends, false, [], c'.error, hwmRc);
            && n == |answers| && end == Drained
            && k.received == |ends| && k.finish == Done && k.passed == Some(AllMarks(ends))
  {
    DrainedAfterRun(w, turns, links, w', answers);
    var c' := ReceiveOutstanding(w'.c, |links|, Oks(answers)).0;
    SteadyGathers(count, ends, c'.error);
    SteadyPasses(count, ends, c'.error, hwmRc);
    assert ends[..|ends|] == ends;
  }

  // ------------------------------------------------------------------ the coordinator

  class BatchInsertProc {
    const fPMs: seq<nat>
    const fIsAutocommitOn: bool
    var fInsertPkgQueue: seq<Package>
    var fPmState: map<nat, bool>
    var fCurrentPMid: nat
    var fErrorCode: nat
    var fHwmArgsAllPms: seq<seq<Hwm>>
    var wire: seq<Sent>  // what has been written to the PMs

    function State(): Coord
      reads this
    {
      Coord(fPMs, fInsertPkgQueue, fPmState, fCurrentPMid, fErrorCode, wire)
    }

    constructor (pms: seq<nat>, autocommit: bool)
      requires Distinct(pms)
      ensures Fresh(World(State(), multiset{}, [])) && fPMs == pms && fIsAutocommitOn == autocommit
      ensures fHwmArgsAllPms == []
    {
      fPMs, fIsAutocommitOn := pms, autocommit;
      fInsertPkgQueue, fCurrentPMid, fErrorCode, fHwmArgsAllPms, wire := [], 0, 0, [], [];
      fPmState := map[];
      new;
      for i := 0 to |pms|
        invariant fPMs == pms && fIsAutocommitOn == autocommit
        invariant fInsertPkgQueue == [] && fErrorCode == 0 && fHwmArgsAllPms == [] && wire == []
        invariant forall k :: 0 <= k < i ==> pms[k] in fPmState && fPmState[pms[k]]
      {
        fPmState := fPmState[pms[i] := true];
      }
    }

    method AddPkg(body: Package)
      modifies this
      ensures State() == old(State()).(queue := old(fInsertPkgQueue) + [body])
      ensures fHwmArgsAllPms == old(fHwmArgsAllPms)
    {
      fInsertPkgQueue := fInsertPkgQueue + [body];
    }

    method GetPkg() returns (body: Package)
      requires fInsertPkgQueue != []
      modifies this
      ensures [body] + fInsertPkgQueue == old(fInsertPkgQueue)
      ensures State() == old(State()).(queue := old(fInsertPkgQueue)[1..])
      ensures fHwmArgsAllPms == old(fHwmArgsAllPms)
    {
      body := fInsertPkgQueue[0];
      fInsertPkgQueue := fInsertPkgQueue[1..];
    }

    /** Writes a package to the current PM and marks the PM busy, unless there is no link. */
    method WriteToCurrent(body: Package, links: set<nat>) returns (outcome: Outcome)
      modifies this
      ensures (State(), outcome) == Write(old(State()), body, links)
      ensures fHwmArgsAllPms == old(fHwmArgsAllPms)
    {
      if fCurrentPMid !in links {
        return WriteThrew;
      }
      wire := wire + [Sent(fCurrentPMid, body)];
      fPmState := fPmState[fCurrentPMid := false];
      return Written;
    }

    method SendFirstBatch(pick: Option<nat>, links: set<nat>) returns (outcome: Outcome)
      requires fInsertPkgQueue != []
      modifies this
      ensures (State(), outcome) == SendFirst(old(State()), pick, links)
      ensures fHwmArgsAllPms == old(fHwmArgsAllPms)
    {
      if pick.None? || pick.value == 0 {
        fErrorCode := INSERT_ERROR;
        return NotSelected;
      }
      fCurrentPMid := pick.value;
      var body := GetPkg();
      outcome := WriteToCurrent(body, links);
    }

    /** The read loop of sendNextBatch. */
    method AwaitCurrent(replies: seq<Read>) returns (n: nat, stop: Stop)
      modifies this
      ensures (State(), n, stop) == Await(old(State()), replies)
      ensures fHwmArgsAllPms == old(fHwmArgsAllPms)
    {
      n := 0;
      while n < |replies|
        invariant n <= |replies|
        invariant fHwmArgsAllPms == old(fHwmArgsAllPms)
        invariant var (c, m, st) := Await(State(), replies[n..]); Await(old(State()), replies) == (c, n + m, st)
      {
        var r := replies[n];
        n := n + 1;
        assert replies[n - 1..][1..] == replies[n..];
        match r {
          case Empty =>
            fErrorCode := NETWORK_ERROR;
            return n, Ready;
          case Thrown =>
            return n, ReadFailed;
          case Reply(rc, pm) =>
            fPmState := fPmState[pm := true];
            if rc != 0 {
              fErrorCode := rc;
              return n, Ready;
            }
            if pm == fCurrentPMid {
              return n, Ready;
            }
        }
      }
      return n, Starved;
    }

    method SendNextBatch(pick: Option<nat>, replies: seq<Read>, links: set<nat>) returns (n: nat, outcome: Outcome)
      requires fInsertPkgQueue != []
      modifies this
      ensures (State(), n, outcome) == SendNext(old(State()), pick, replies, links)
      ensures fHwmArgsAllPms == old(fHwmArgsAllPms)
    {
      if pick.None? {
        fErrorCode := INSERT_ERROR;
        return 0, NotSelected;
      }
      fCurrentPMid := pick.value;
      var body := GetPkg();
      n := 0;
      if Busy(fPmState, fCurrentPMid) {
        var stop: Stop;
        n, stop := AwaitCurrent(replies);
        if stop == ReadFailed {
          return n, ReadThrew;
        }
        if stop == Starved {
          return n, StillWaiting;
        }
      }
      outcome := WriteToCurrent(body, links);
    }

    method CountOutstanding() returns (need: nat)
      ensures need == Outstanding(fPMs, fPmState)
    {
      need := 0;
      for i := 0 to |fPMs|
        invariant need + Outstanding(fPMs[i..], fPmState) == Outstanding(fPMs, fPmState)
      {
        assert fPMs[i..][1..] == fPMs[i + 1..];
        if Busy(fPmState, fPMs[i]) {
          need := need + 1;
        }
      }
    }

    method ReceiveOutstandingMsg(pmCount: nat, replies: seq<Read>) returns (n: nat, end: DrainEnd)
      modifies this
      ensures (State(), n, end) == ReceiveOutstanding(old(State()), pmCount, replies)
      ensures fHwmArgsAllPms == old(fHwmArgsAllPms)
    {
      var need := CountOutstanding();
      n, end := 0, Drained;
      if need == 0 || need > pmCount {
        return;
      }
      var received := 0;
      while received < need
        invariant received <= need && n <= |replies|
        invariant fHwmArgsAllPms == old(fHwmArgsAllPms)
        invariant var (c, m, e) := Drain(State(), need - received, replies[n..]);
                  Drain(old(State()), need, replies) == (c, n + m, e)
        decreases |replies| - n
      {
        if n == |replies| {
          return n, DrainWaiting;
        }
        var r := replies[n];
        n := n + 1;
        assert replies[n - 1..][1..] == replies[n..];
        match r {
          case Empty =>
            fErrorCode := INSERT_ERROR;
          case Thrown =>
            fErrorCode := NETWORK_ERROR;
            return n, GaveUp;
          case Reply(rc, pm) =>
            fPmState := fPmState[pm := true];
            received := received + 1;
            if rc != 0 {
              fErrorCode := rc;
            }
        }
      }
    }

    /** The read loop of receiveAllMsg. */
    method GatherMarks(count: nat -> nat, replies: seq<EndRead>) returns (received: nat, finish: Finish)
      modifies this
      ensures (fHwmArgsAllPms, fErrorCode, received, finish)
              == Gather(count, 0, replies, fIsAutocommitOn, old(fHwmArgsAllPms), old(fErrorCode))
      ensures State() == old(State()).(error := fErrorCode)
    {
      received := 0;
      ghost var whole := Gather(count, 0, replies, fIsAutocommitOn, fHwmArgsAllPms, fErrorCode);
      while received != count(received + 1)
        invariant received <= |replies|
        invariant State() == old(State()).(error := fErrorCode)
        invariant whole == Gather(count, received, replies[received..], fIsAutocommitOn, fHwmArgsAllPms, fErrorCode)
        decreases |replies| - received
      {
        if received == |replies| {
          return received, Waiting;
        }
        var r := replies[received];
        assert replies[received..][1..] == replies[received + 1..];
        match r {
          case EndThrown =>
            fErrorCode := INSERT_ERROR;
            return received, CutShort;
          case EndEmpty =>
            fErrorCode := NETWORK_ERROR;
            if !fIsAutocommitOn {
              fHwmArgsAllPms := fHwmArgsAllPms + [[]];
            }
          case End(rc, marks) =>
            if !fIsAutocommitOn {
              fHwmArgsAllPms := fHwmArgsAllPms + [marks];
            }
            if rc != 0 {
              fErrorCode := rc;
            }
        }
        received := received + 1;
      }
      return received, Done;
    }

    /** The copying loop of setHwm: it asks for the number of connections before every vector. */
    method CollectHwm(count: nat -> nat, base: nat) returns (n: nat, all: seq<Hwm>)
      requires Falling(count) && base > 0 && count(base - 1) == |fHwmArgsAllPms|
      ensures n == Copied(count, base, 0, |fHwmArgsAllPms|) && all == Flatten(fHwmArgsAllPms[..n])
    {
      n, all := 0, [];
      while n < count(base + n)
        invariant n <= |fHwmArgsAllPms| && all == Flatten(fHwmArgsAllPms[..n])
        invariant Copied(count, base, n, |fHwmArgsAllPms|) == Copied(count, base, 0, |fHwmArgsAllPms|)
        decreases |fHwmArgsAllPms| - n
      {
        assert count(base + n) <= count(base - 1);
        assert fHwmArgsAllPms[..n + 1][..n] == fHwmArgsAllPms[..n];
        all := all + fHwmArgsAllPms[n];
        n := n + 1;
      }
    }

    /** receiveAllMsg: reads the end-of-batch replies and sets the marks; `call` is the
        argument of bulkSetHWM, if it is called. */
    method ReceiveAllMsg(count: nat -> nat, replies: seq<EndRead>, hwmRc: nat)
      returns (ghost passed: Option<seq<seq<Hwm>>>, received: nat, finish: Finish, call: Option<seq<Hwm>>)
      requires Falling(count)
      modifies this
      ensures Collection(fHwmArgsAllPms, fErrorCode, received, finish, passed)
              == Collect(count, replies, fIsAutocommitOn, old(fHwmArgsAllPms), old(fErrorCode), hwmRc)
      ensures call == HwmCall(passed)
      ensures State() == old(State()).(error := fErrorCode)
    {
      received, finish := GatherMarks(count, replies);
      passed, call := None, None;
      if finish != Waiting && !fIsAutocommitOn && |fHwmArgsAllPms| == count(received + 2) {
        var n, all := CollectHwm(count, received + 3);
        passed := Some(fHwmArgsAllPms[..n]);
        if |all| > 0 {
          call := Some(all);
          if hwmRc != 0 {
            fErrorCode := hwmRc;
          }
        }
      }
    }
  }
}
