/** The RetrySender of AMOPImpl::asyncSendMessageByTopic. It sends to a node chosen
    at random from its list and erases the first of the list, which need not be
    the node it chose. */
module AMOPRetry {
  import opened Sequences

  /** What sends to the nodes of a list may look like: at the i-th, i nodes have
      been erased from the front. */
  predicate Choices(ids: seq<string>, sent: seq<string>) {
    |sent| <= |ids| && forall i :: 0 <= i < |sent| ==> sent[i] in ids[i..]
  }

  /** randomChoose on a copy of the list. */
  type Chooser = c: seq<string> -> string | forall s :: s != [] ==> c(s) in s
    witness (s: seq<string>) => if s == [] then "" else s[0]

  class RetrySender {
    var nodeIDs: seq<string>
    var sent: seq<string>             // the nodes sent to, in order
    var failures: nat                 // how often failure was reported
    ghost const all: seq<string>

    ghost predicate Valid()
      reads this
    {
      |sent| + |nodeIDs| == |all| && nodeIDs == all[|sent|..] && Choices(all, sent)
    }

    constructor (ids: seq<string>)
      ensures Valid() && all == ids && nodeIDs == ids && sent == [] && failures == 0
    {
      nodeIDs, sent, failures, all := ids, [], 0, ids;
    }

    /** Called at first and after each error: it sends once more until it has sent
        as often as there were nodes. */
    method SendMessage(choose: Chooser)
      requires Valid()
      modifies this
      ensures Valid()
      ensures if |old(sent)| == |all| then sent == old(sent) && failures == old(failures) + 1
        else sent == old(sent) + [choose(old(nodeIDs))] && failures == old(failures)
    {
      if nodeIDs == [] {
        failures := failures + 1;
        return;
      }
      var chosen := choose(nodeIDs);
      nodeIDs := nodeIDs[1..];
      sent := sent + [chosen];
    }
  }

  /** The code means not to select a node twice. Whatever the shuffles do, it
      keeps to that if and only if the topic has at most one node. */
  lemma NeverRepeatsExactly(ids: seq<string>)
    requires Distinct(ids)
    ensures (forall sent :: Choices(ids, sent) && |sent| == |ids| ==> Distinct(sent)) <==> |ids| <= 1
  {
    if |ids| >= 2 {
      var sent := RepeatPossible(ids);
      assert Choices(ids, sent);
    }
  }

  /** A single run that fails throughout repeats no node exactly if it chose the
      first of its list each time. */
  lemma {:induction false} DistinctExactly(ids: seq<string>, sent: seq<string>)
    requires Distinct(ids) && Choices(ids, sent) && |sent| == |ids|
    ensures Distinct(sent) <==> sent == ids
  {
    if Distinct(sent) {
      SameFrom(ids, sent, 0);
    }
  }

  lemma {:induction false} SameFrom(ids: seq<string>, sent: seq<string>, k: nat)
    requires Distinct(sent) && Choices(ids, sent) && k <= |sent| == |ids|
    ensures forall i :: k <= i < |ids| ==> sent[i] == ids[i]
    decreases |ids| - k
  {
    if k < |ids| {
      SameFrom(ids, sent, k + 1);
      var j := ChosenAt(ids, sent, k);
      hide Choices;
      assert j == k;
    }
  }

  lemma ChosenAt(ids: seq<string>, sent: seq<string>, k: nat) returns (j: nat)
    requires Choices(ids, sent) && k < |sent|
    ensures k <= j < |ids| && ids[j] == sent[k]
  {
    assert sent[k] in ids[k..];
    var i :| 0 <= i < |ids[k..]| && ids[k..][i] == sent[k];
    j := k + i;
  }

  /** With two nodes or more the same node can be tried twice and another never. */
  lemma RepeatPossible(ids: seq<string>) returns (sent: seq<string>)
    requires Distinct(ids) && |ids| >= 2
    ensures Choices(ids, sent) && |sent| == |ids| && !Distinct(sent) && ids[0] !in sent
  {
    sent := [ids[1]] + ids[1..];
    assert sent[0] == sent[1];
  }
}
