/** TopicManager: the topics the local clients subscribed to, with the counter of
    their changes, and the topics reported by the other gateways. It publishes
    the union over its clients; every change and its count are under one lock. */
module Topics {
  import opened Wrappers
  import opened Bytes
  import opened Gossip

  type Items = set<string>

  /** The topics of all clients together. */
  function Union(clients: map<string, Items>): Items {
    set c, t | c in clients && t in clients[c] :: t
  }

  class TopicManager {
    var client2TopicItems: map<string, Items>
    var topicSeq: uint32
    var nodeID2TopicSeq: map<string, uint32>
    var nodeID2TopicItems: map<string, Items>
    ghost var history: seq<Items>                // the union under each counter value

    ghost predicate Valid()
      reads this
    {
      && history != [] && topicSeq == |history| % TWO_32
      && history[|history| - 1] == Union(client2TopicItems)
      && nodeID2TopicSeq.Keys == nodeID2TopicItems.Keys
    }

    /** This gateway as the publisher of the gossip protocol. */
    ghost function Published(): System<Items>
      requires Valid()
      reads this
    {
      System(history, Union(client2TopicItems), Idle, None, [])
    }

    /** What is held for node id, as the subscriber sees it. */
    ghost function Held(id: string, at: nat): Option<Snapshot<Items>>
      requires Valid()
      reads this
    {
      if id in nodeID2TopicSeq then Some(Snapshot(nodeID2TopicSeq[id], nodeID2TopicItems[id], at)) else None
    }

    constructor ()
      ensures Valid() && Published() == Init({}) && topicSeq == 1
    {
      client2TopicItems, topicSeq, nodeID2TopicSeq, nodeID2TopicItems := map[], 1, map[], map[];
      history := [{}];
    }

    method IncTopicSeq()
      modifies `topicSeq
      ensures topicSeq == (old(topicSeq) + 1) % TWO_32
    {
      topicSeq := (topicSeq + 1) % TWO_32;
    }

    // ---------------------------------------------------------------- publisher

    /** Replaces what the client subscribed to. */
    method SubTopic(client: string, items: Items)
      requires Valid()
      modifies `client2TopicItems, `topicSeq, `history
      ensures Valid() && client2TopicItems == old(client2TopicItems)[client := items]
      ensures topicSeq == (old(topicSeq) + 1) % TWO_32
      ensures Published() == Step(old(Published()), Change(Union(client2TopicItems)))
    {
      client2TopicItems := client2TopicItems[client := items];
      IncTopicSeq();
      history := history + [Union(client2TopicItems)];
    }

    /** For an unknown client it returns without counting. */
    method RemoveTopics(client: string, topics: seq<string>)
      requires Valid()
      modifies `client2TopicItems, `topicSeq, `history
      ensures Valid()
      ensures client !in old(client2TopicItems) ==> unchanged(this)
      ensures client in old(client2TopicItems) ==>
        && client2TopicItems == old(client2TopicItems)[client := old(client2TopicItems)[client] - (set t | t in topics)]
        && Published() == Step(old(Published()), Change(Union(client2TopicItems)))
    {
      if client !in client2TopicItems {
        return;
      }
      ghost var items := client2TopicItems[client];
      for i := 0 to |topics|
        invariant unchanged(`history) && unchanged(`topicSeq)
        invariant client2TopicItems.Keys == old(client2TopicItems).Keys
        invariant client2TopicItems[client] == items - (set t | t in topics[..i])
        invariant forall c :: c in client2TopicItems && c != client ==>
          client2TopicItems[c] == old(client2TopicItems)[c]
      {
        if topics[i] in client2TopicItems[client] {
          client2TopicItems := client2TopicItems[client := client2TopicItems[client] - {topics[i]}];
        }
      }
      assert topics[..|topics|] == topics;
      IncTopicSeq();
      history := history + [Union(client2TopicItems)];
    }

    /** It counts even when it removes nothing. */
    method RemoveTopicsByClients(clients: seq<string>)
      requires Valid()
      modifies `client2TopicItems, `topicSeq, `history
      ensures Valid() && client2TopicItems == old(client2TopicItems) - (set c | c in clients)
      ensures topicSeq == (old(topicSeq) + 1) % TWO_32
      ensures Published() == Step(old(Published()), Change(Union(client2TopicItems)))
    {
      for i := 0 to |clients|
        invariant unchanged(`history) && unchanged(`topicSeq)
        invariant client2TopicItems == old(client2TopicItems) - (set c | c in clients[..i])
      {
        if clients[i] in client2TopicItems {
          client2TopicItems := client2TopicItems - {clients[i]};
        }
      }
      assert clients[..|clients|] == clients;
      IncTopicSeq();
      history := history + [Union(client2TopicItems)];
    }

    /** The report sent for a request: counter and union, read under one lock. */
    method QueryTopicsSubByClient() returns (seqNo: uint32, items: Items)
      requires Valid()
      ensures Published().history != []
      ensures seqNo == Take(Published()).seqNo && items == Take(Published()).content
      ensures seqNo == topicSeq
      ensures forall t :: t in items <==> exists c :: c in client2TopicItems && t in client2TopicItems[c]
    {
      seqNo, items := topicSeq, {};
      var todo := client2TopicItems.Keys;
      while todo != {}
        invariant todo <= client2TopicItems.Keys
        invariant items == set c, t | c in client2TopicItems && c !in todo && t in client2TopicItems[c] :: t
      {
        var c :| c in todo;
        todo := todo - {c};
        items := items + client2TopicItems[c];
      }
    }

    // --------------------------------------------------------------- subscriber

    method CheckTopicSeq(id: string, seqNo: uint32) returns (changed: bool)
      requires Valid()
      ensures changed <==> SeqChanged(Held(id, 0), seqNo)
      ensures changed <==> !(id in nodeID2TopicSeq && nodeID2TopicSeq[id] == seqNo)
    {
      if id in nodeID2TopicSeq && nodeID2TopicSeq[id] == seqNo {
        return false;
      }
      return true;
    }

    method UpdateSeqAndTopicsByNodeID(id: string, seqNo: uint32, items: Items)
      requires Valid()
      modifies `nodeID2TopicSeq, `nodeID2TopicItems
      ensures Valid() && Held(id, 0) == Some(Snapshot(seqNo, items, 0))
      ensures forall other :: other != id ==> Held(other, 0) == old(Held(other, 0))
      ensures nodeID2TopicSeq == old(nodeID2TopicSeq)[id := seqNo]
      ensures nodeID2TopicItems == old(nodeID2TopicItems)[id := items]
    {
      nodeID2TopicSeq := nodeID2TopicSeq[id := seqNo];
      nodeID2TopicItems := nodeID2TopicItems[id := items];
    }

    /** Keeps what is held for the nodes online and forgets the others. */
    method NotifyNodeIDs(online: seq<string>)
      requires Valid()
      modifies `nodeID2TopicSeq, `nodeID2TopicItems
      ensures Valid()
      ensures forall id :: Held(id, 0) == if id in online then old(Held(id, 0)) else None
      ensures forall id :: id in nodeID2TopicItems <==> id in old(nodeID2TopicItems) && id in online
      ensures forall id :: id in nodeID2TopicItems ==> nodeID2TopicItems[id] == old(nodeID2TopicItems)[id]
    {
      ghost var seqs, items := nodeID2TopicSeq, nodeID2TopicItems;
      var todo := nodeID2TopicSeq.Keys;
      while todo != {}
        invariant todo <= seqs.Keys && unchanged(`history) && unchanged(`topicSeq) && unchanged(`client2TopicItems)
        invariant nodeID2TopicSeq == map id | id in seqs && (id in todo || id in online) :: seqs[id]
        invariant nodeID2TopicItems == map id | id in items && (id in todo || id in online) :: items[id]
      {
        var id :| id in todo;
        todo := todo - {id};
        if id !in online {
          nodeID2TopicItems := nodeID2TopicItems - {id};
          nodeID2TopicSeq := nodeID2TopicSeq - {id};
        }
      }
    }

    // ------------------------------------------------------------------ queries

    /** The connected nodes that reported the topic, each once. */
    method QueryNodeIDsByTopic(topic: string, connected: string -> bool) returns (ids: seq<string>)
      requires Valid()
      ensures forall id :: id in ids <==>
        id in nodeID2TopicItems && topic in nodeID2TopicItems[id] && connected(id)
      ensures forall i, j :: 0 <= i < j < |ids| ==> ids[i] != ids[j]
    {
      ids := [];
      var todo := nodeID2TopicItems.Keys;
      while todo != {}
        invariant todo <= nodeID2TopicItems.Keys
        invariant forall id :: id in ids <==>
          id in nodeID2TopicItems && id !in todo && topic in nodeID2TopicItems[id] && connected(id)
        invariant forall i, j :: 0 <= i < j < |ids| ==> ids[i] != ids[j]
      {
        var id :| id in todo;
        todo := todo - {id};
        if topic in nodeID2TopicItems[id] && connected(id) {
          ids := ids + [id];
        }
      }
    }

    /** The clients that subscribed to the topic; there is one exactly when the
        topic is published. */
    method QueryClientsByTopic(topic: string) returns (clients: seq<string>)
      requires Valid()
      ensures forall c :: c in clients <==> c in client2TopicItems && topic in client2TopicItems[c]
      ensures clients != [] <==> topic in Published().current
    {
      clients := [];
      var todo := client2TopicItems.Keys;
      while todo != {}
        invariant todo <= client2TopicItems.Keys
        invariant forall c :: c in clients <==> c in client2TopicItems && c !in todo && topic in client2TopicItems[c]
      {
        var c :| c in todo;
        todo := todo - {c};
        if topic in client2TopicItems[c] {
          clients := clients + [c];
        }
      }
      if clients != [] {
        assert clients[0] in clients;
      }
    }
  }

  /** Main result on the topic gossip, over every run: a stored report is a union
      that was published, with the counter it had. If checkTopicSeq answers that
      the counter in a heartbeat is not new, the topics held are those published
      under it, as long as the peer's counter has not wrapped. */
  lemma KnownSeqKnownTopics(events: seq<Event<Items>>, seqNo: uint32, n: nat)
    requires forall e :: e in events ==> !e.BeginSweep?
    requires var s := Exec(Init({}), events);
      && |s.history| <= TWO_32
      && !SeqChanged(s.stored, seqNo)
      && n < |s.history| && seqNo == (n + 1) % TWO_32
    ensures var s := Exec(Init({}), events);
      s.stored.value.content == s.history[n]
  {
    GenuineWithoutSweeps(Init({}), events);
    var s := Exec(Init({}), events);
    OneContentPerSeq(s, s.stored.value, Snapshot(seqNo, s.history[n], n));
  }
}
