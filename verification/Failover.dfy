/** The standby's watch over the active OAM parent module: when it may take over. */
module Failover {

  import opened Bytes

  /** What is fixed for a watch: the heartbeat count, how many peers can be asked, whether
      the system runs on Amazon, and the storage configuration. */
  datatype Config = Config(heartbeat: int, peers: nat, amazon: bool, internalStorage: bool, gluster: bool)

  /** The local interface: its state could not be read, it is up, or it is down. */
  datatype Nic = Unknown | Up | Down

  /** The parent's instance: running, stopped and brought up again or not, or terminated. */
  datatype Instance = Running | Stopped(restarted: bool) | Terminated

  /** What one round meets: a failover signal, the parent's answer to the ping, the local
      interface, the peers' answers in the order in which they are asked (none past the
      end), the disable flag (None when reading it throws), and the parent's instance. */
  datatype Round = Round(signal: bool, ping: bool, nic: Nic, answers: seq<bool>, disabled: Option<bool>,
                         instance: Instance)

  // ------------------------------------------------------------------ asking the peers

  function Asked(cfg: Config): nat {
    if cfg.heartbeat < 0 then 0 else (cfg.heartbeat + 1) * cfg.peers
  }

  predicate Answers(r: Round, k: nat) {
    k < |r.answers| && r.answers[k]
  }

  /** Some peer answered within n pings. */
  ghost predicate Ack(r: Round, n: nat) {
    exists k: nat :: k < n && Answers(r, k)
  }

  /** The very first ping was answered, so that no peer failed to answer. */
  predicate FirstAnswers(cfg: Config, r: Round) {
    Asked(cfg) > 0 && Answers(r, 0)
  }

  lemma NextSweep(peers: nat, count: nat, last: nat)
    requires count <= last
    ensures (count + 1) * peers == count * peers + peers <= (last + 1) * peers
  {
    assert (last + 1) * peers == (count + 1) * peers + (last - count) * peers;
  }

  /** Asks the peers in turn, at most heartbeat+1 times each, until one answers. */
  method AskPeers(cfg: Config, r: Round) returns (ack: bool, noack: bool)
    ensures ack <==> Ack(r, Asked(cfg))
    ensures noack <==> Asked(cfg) > 0 && !FirstAnswers(cfg, r)
  {
    ack, noack := false, false;
    var count, k := 0, 0;
    while count <= cfg.heartbeat
      invariant 0 <= count && (count <= cfg.heartbeat + 1 || count == 0)
      invariant k == count * cfg.peers && !ack && !Ack(r, k)
      invariant noack <==> k > 0
      decreases cfg.heartbeat + 1 - count
    {
      NextSweep(cfg.peers, count, cfg.heartbeat);
      for i := 0 to cfg.peers
        invariant k == count * cfg.peers + i && !ack && !Ack(r, k)
        invariant noack <==> k > 0
      {
        if k < |r.answers| && r.answers[k] {
          ack := true;
          assert Answers(r, k);
          break;
        }
        noack := true;
        k := k + 1;
      }
      if ack {
        break;
      }
      count := count + 1;
    }
    if !ack && cfg.heartbeat >= 0 {
      assert k == Asked(cfg);
    }
  }

  // ------------------------------------------------------------------ what the history says

  /** The number of rounds at the end of the history in which the parent did not answer. */
  function Failures(history: seq<Round>): nat {
    if history == [] || history[|history| - 1].ping then 0 else Failures(history[..|history| - 1]) + 1
  }

  /** The last round of the history went as far as judging the outage: no signal, enough
      failed pings in a row, and the local interface is up. */
  predicate Judged(cfg: Config, history: seq<Round>) {
    history != [] &&
    var r := history[|history| - 1];
    !r.signal && !r.ping && Failures(history) >= cfg.heartbeat && r.nic == Up
  }

  /** Some peers answered and some did not. */
  ghost predicate Partial(cfg: Config, history: seq<Round>) {
    Judged(cfg, history) && Ack(history[|history| - 1], Asked(cfg)) && !FirstAnswers(cfg, history[|history| - 1])
  }

  /** Some round of the history saw a partial outage. */
  ghost predicate SeenPartial(cfg: Config, history: seq<Round>) {
    history != [] && (Partial(cfg, history) || SeenPartial(cfg, history[..|history| - 1]))
  }

  /** An outage calls for a failover: there is no peer to ask, or the first one asked
      answers, or this is not the first round to see a partial outage. */
  ghost predicate Outage(cfg: Config, history: seq<Round>) {
    && Judged(cfg, history)
    && (cfg.peers == 0 || FirstAnswers(cfg, history[|history| - 1])
        || (Partial(cfg, history) && SeenPartial(cfg, history[..|history| - 1])))
  }

  /** What stands against a failover: it is disabled, the parent's instance comes back, or
      the storage is internal and not shared. */
  predicate Vetoed(cfg: Config, r: Round) {
    || r.disabled == Some(true)
    || (cfg.amazon && r.instance in {Running, Stopped(true)})
    || (cfg.internalStorage && !cfg.gluster)
  }

  /** The standby leaves its watch in the last round of the history. */
  ghost predicate Leaves(cfg: Config, history: seq<Round>) {
    forall k {:trigger Unseal(k)} :: Unseal(k) ==>
      && history != []
      && (history[|history| - 1].signal || (Outage(cfg, history) && !Vetoed(cfg, history[|history| - 1])))
  }

  // ------------------------------------------------------------------ the watch

  /** One judgement of an outage, given whether a partial one was seen before. */
  method Judge(cfg: Config, r: Round, recoveryTest: bool) returns (failover: bool, recovery: bool, cold: bool)
    ensures failover <==> r.nic == Up && (cfg.peers == 0 || FirstAnswers(cfg, r)
                            || (Ack(r, Asked(cfg)) && recoveryTest))
    ensures recovery <==> recoveryTest || (r.nic == Up && Ack(r, Asked(cfg)) && !FirstAnswers(cfg, r))
    ensures cold <==> r.nic == Down || (r.nic == Up && Asked(cfg) > 0 && !Ack(r, Asked(cfg)))
  {
    failover, recovery, cold := false, recoveryTest, false;
    if r.nic == Unknown {
      return;
    }
    var ack, noack := false, false;
    if r.nic == Up {
      if cfg.peers > 0 {
        ack, noack := AskPeers(cfg, r);
      } else {
        failover := true;
      }
    } else {
      noack := true;
    }
    if !ack && noack {
      cold := true;
    } else if ack && !noack {
      failover := true;
    } else if ack && noack && !recoveryTest {
      recovery := true;
    } else if ack && noack {
      failover := true;
    }
  }

  /** The checks that may still call a failover off. */
  method Reconsider(cfg: Config, r: Round) returns (failover: bool)
    ensures failover <==> !Vetoed(cfg, r)
  {
    failover := true;
    if r.disabled == Some(true) {
      failover := false;
    }
    if cfg.amazon {
      var gone := match r.instance
        case Running => false
        case Stopped(restarted) => !restarted
        case Terminated => true;
      if !gone {
        failover := false;
      }
    }
    if cfg.internalStorage && failover && !cfg.gluster {
      failover := false;
    }
  }

  /** One round of the loop, given the rounds before it. */
  method Observe(cfg: Config, ghost before: seq<Round>, r: Round, pingFailure: nat, recoveryTest: bool)
    returns (leave: bool, failures: nat, recovery: bool)
    requires pingFailure == Failures(before) && recoveryTest == SeenPartial(cfg, before)
    ensures leave <==> Leaves(cfg, before + [r])
    ensures !leave ==> failures == Failures(before + [r]) && recovery == SeenPartial(cfg, before + [r])
  {
    assert Unseal(0);
    ghost var history := before + [r];
    assert history[..|history| - 1] == before;
    if r.signal {
      return true, pingFailure, recoveryTest;
    }
    if r.ping {
      return false, 0, recoveryTest;
    }
    failures, recovery := pingFailure + 1, recoveryTest;
    leave := false;
    if failures >= cfg.heartbeat {
      var failover, cold;
      failover, recovery, cold := Judge(cfg, r, recoveryTest);
      if failover {
        leave := Reconsider(cfg, r);
      }
    }
  }

  /** The watch over a whole run of rounds.  It ends in the first round whose history says
      so, and otherwise goes on to the last round. */
  method Watch(cfg: Config, rounds: seq<Round>) returns (left: Option<nat>)
    ensures left.Some? ==> 0 < left.value <= |rounds| && Leaves(cfg, rounds[..left.value])
    ensures forall k :: 0 < k <= |rounds| && (left.Some? ==> k < left.value) ==> !Leaves(cfg, rounds[..k])
  {
    var pingFailure: nat, recoveryTest := 0, false;
    for n := 0 to |rounds|
      invariant pingFailure == Failures(rounds[..n]) && recoveryTest == SeenPartial(cfg, rounds[..n])
      invariant forall k :: 0 < k <= n ==> !Leaves(cfg, rounds[..k])
    {
      var leave;
      leave, pingFailure, recoveryTest := Observe(cfg, rounds[..n], rounds[n], pingFailure, recoveryTest);
      assert rounds[..n] + [rounds[n]] == rounds[..n + 1];
      if leave {
        return Some(n + 1);
      }
    }
    return None;
  }

  // ------------------------------------------------------------------ the guard

  lemma {:induction false} FailuresInARow(history: seq<Round>, i: nat)
    requires i < Failures(history)
    ensures Failures(history) <= |history| && !history[|history| - 1 - i].ping
    decreases |history|
  {
    if i > 0 {
      FailuresInARow(history[..|history| - 1], i - 1);
    } else if Failures(history) > 1 {
      FailuresInARow(history[..|history| - 1], 0);
    }
  }

  lemma {:induction false} SeenWhere(cfg: Config, history: seq<Round>) returns (k: nat)
    requires SeenPartial(cfg, history)
    ensures 0 < k <= |history| && Partial(cfg, history[..k])
  {
    if Partial(cfg, history) {
      k := |history|;
      assert history[..k] == history;
    } else {
      k := SeenWhere(cfg, history[..|history| - 1]);
      assert history[..|history| - 1][..k] == history[..k];
    }
  }

  /** Over every run: without a signal the standby leaves its watch only after the parent
      failed to answer in at least heartbeat rounds in a row, with its own interface up, and
      with no peer to ask or some peer answering; never with internal storage that is not
      shared, never while disabled, and on Amazon only if the parent's instance is terminated
      or stopped for good. */
  lemma LeavesGuarded(cfg: Config, history: seq<Round>)
    requires history != [] && Leaves(cfg, history) && !history[|history| - 1].signal
    ensures var r := history[|history| - 1];
            && r.nic == Up && (cfg.peers == 0 || Ack(r, Asked(cfg)))
            && !(cfg.internalStorage && !cfg.gluster) && r.disabled != Some(true)
            && (cfg.amazon ==> r.instance == Terminated || r.instance == Stopped(false))
    ensures 1 <= Failures(history) <= |history| && cfg.heartbeat <= Failures(history)
    ensures forall i :: |history| - Failures(history) <= i < |history| ==> !history[i].ping
  {
    assert Unseal(0);
    FailuresInARow(history, 0);
    forall i | |history| - Failures(history) <= i < |history|
      ensures !history[i].ping
    {
      FailuresInARow(history, |history| - 1 - i);
    }
  }

  /** The count of failures: at least n exactly if the last n rounds went unanswered. */
  lemma {:induction false} FailuresExactly(history: seq<Round>, n: nat)
    ensures Failures(history) >= n <==>
            n <= |history| && forall i :: |history| - n <= i < |history| ==> !history[i].ping
    decreases n
  {
    if n > 0 && history != [] {
      var last := |history| - 1;
      FailuresExactly(history[..last], n - 1);
      assert forall i :: 0 <= i < last ==> history[..last][i] == history[i];
    }
  }

  lemma {:induction false} SeenExactly(cfg: Config, history: seq<Round>)
    ensures SeenPartial(cfg, history) <==> exists k :: 0 < k <= |history| && Partial(cfg, history[..k])
  {
    if SeenPartial(cfg, history) {
      var k := SeenWhere(cfg, history);
    }
    if k :| 0 < k <= |history| && Partial(cfg, history[..k]) {
      SeenSince(cfg, history, k);
    }
  }

  lemma {:induction false} SeenSince(cfg: Config, history: seq<Round>, k: nat)
    requires 0 < k <= |history| && Partial(cfg, history[..k])
    ensures SeenPartial(cfg, history)
    decreases |history|
  {
    if k == |history| {
      assert history[..k] == history;
    } else {
      assert history[..|history| - 1][..k] == history[..k];
      SeenSince(cfg, history[..|history| - 1], k);
    }
  }

  /** Exactly when the standby leaves its watch: on a signal; or when the parent has not
      answered for heartbeat rounds, the own interface is up, the peers say that the parent is
      gone (there is none, or the first one asked answers, or some do and some do not, for the
      second time), and nothing calls the failover off. */
  lemma LeavesExactly(cfg: Config, history: seq<Round>)
    requires history != []
    ensures var r := history[|history| - 1];
            Leaves(cfg, history) <==>
            || r.signal
            || (&& !r.ping && Failures(history) >= cfg.heartbeat && r.nic == Up
                && (|| cfg.peers == 0 || FirstAnswers(cfg, r)
                    || (Ack(r, Asked(cfg)) && exists k :: 0 < k < |history| && Partial(cfg, history[..k])))
                && r.disabled != Some(true)
                && (cfg.amazon ==> r.instance == Terminated || r.instance == Stopped(false))
                && (cfg.internalStorage ==> cfg.gluster))
  {
    assert Unseal(0);
    var before := history[..|history| - 1];
    SeenExactly(cfg, before);
    assert forall k :: 0 < k < |history| ==> before[..k] == history[..k];
  }

  /** A partial outage leads to a failover only when an earlier round saw one too. */
  lemma PartialSeenTwice(cfg: Config, history: seq<Round>) returns (k: nat)
    requires history != [] && Leaves(cfg, history) && !history[|history| - 1].signal
    requires cfg.peers > 0 && !FirstAnswers(cfg, history[|history| - 1])
    ensures 0 < k < |history| && Partial(cfg, history[..k]) && Partial(cfg, history)
  {
    assert Unseal(0);
    var before := history[..|history| - 1];
    k := SeenWhere(cfg, before);
    assert before[..k] == history[..k];
  }

  /** The two rounds need not belong to one outage: the parent may answer in between. */
  lemma PartialNotConsecutive()
    ensures var cfg := Config(1, 2, false, false, false);
            var out := Round(false, false, Up, [false, true], None, Running);
            var fine := Round(false, true, Up, [], None, Running);
            Leaves(cfg, [out, fine, out])
  {
    var cfg := Config(1, 2, false, false, false);
    var out := Round(false, false, Up, [false, true], None, Running);
    var fine := Round(false, true, Up, [], None, Running);
    assert Answers(out, 1);
    assert Ack(out, Asked(cfg));
    assert [out][..0] == [];
    assert Partial(cfg, [out]);
    assert [out, fine][..1] == [out];
    assert SeenPartial(cfg, [out, fine]);
    assert [out, fine, out][..2] == [out, fine];
    assert Failures([out, fine]) == 0;
  }
}
