/** Waiting for a reply of every PM that was asked, up to the first that fails. */
module PmReplies {

  /** A PM's reply: an empty message (the connection is lost) or a return code. */
  datatype Reply = Empty | Answer(rc: nat, pm: int)

  /** All replies came with code 0, one failed, or some are still to come. */
  datatype Verdict = AllGood | Failed | Unanswered

  predicate Good(r: Reply) {
    r.Answer? && r.rc == 0
  }

  predicate GoodUpTo(replies: seq<Reply>, n: nat) {
    n <= |replies| && forall i :: 0 <= i < n ==> Good(replies[i])
  }

  function AwaitAll(need: nat, replies: seq<Reply>): Verdict {
    if need == 0 then AllGood
    else if replies == [] then Unanswered
    else if !Good(replies[0]) then Failed
    else AwaitAll(need - 1, replies[1..])
  }

  method ReadAll(need: nat, replies: seq<Reply>) returns (verdict: Verdict)
    ensures verdict == AwaitAll(need, replies)
  {
    var n := 0;
    while n < need
      invariant n <= need && n <= |replies|
      invariant AwaitAll(need - n, replies[n..]) == AwaitAll(need, replies)
    {
      if n == |replies| {
        return Unanswered;
      }
      var r := replies[n];
      if r.Empty? || r.rc != 0 {
        return Failed;
      }
      assert replies[n..][1..] == replies[n + 1..];
      n := n + 1;
    }
    return AllGood;
  }

  lemma GoodRest(replies: seq<Reply>, need: nat)
    requires need > 0 && replies != []
    ensures GoodUpTo(replies, need) <==> Good(replies[0]) && GoodUpTo(replies[1..], need - 1)
  {
    assert forall i :: 1 <= i < |replies| ==> replies[i] == replies[1..][i - 1];
    assert forall i :: 0 <= i < |replies| - 1 ==> replies[1..][i] == replies[i + 1];
  }

  /** The wait passes exactly when as many replies as PMs came in, all with code 0, and goes on
      exactly when too few have come and none of them fails. */
  lemma {:induction false} AwaitMeans(need: nat, replies: seq<Reply>)
    ensures AwaitAll(need, replies) == AllGood <==> GoodUpTo(replies, need)
    ensures AwaitAll(need, replies) == Unanswered <==> |replies| < need && GoodUpTo(replies, |replies|)
  {
    if need > 0 && replies != [] {
      AwaitMeans(need - 1, replies[1..]);
      GoodRest(replies, need);
      GoodRest(replies, |replies|);
    }
  }
}
