/** GatewayNodeManager and DynamicGatewayNodeManager: the front services
    registered at this gateway with the counter of their changes, and what the
    other gateways reported. */
module NodeManager {
  import opened Wrappers
  import opened Bytes
  import opened NodeIndex
  import opened Gossip
  import opened FrontServices

  /** The index is the one of the reports held. */
  ghost predicate PeerInv(ix: Index, seqs: map<string, uint32>, views: map<string, View>) {
    NoEmpties(ix) && ix == Build(views) && seqs.Keys == views.Keys
  }

  /** The reports held, with the positions that the proofs record. */
  ghost function Reports(seqs: map<string, uint32>, views: map<string, View>, at: map<string, nat>)
    : map<string, Snapshot<View>>
  {
    map p | p in seqs && p in views && p in at :: Snapshot(seqs[p], views[p], at[p])
  }

  lemma PeerUpdated(ix: Index, seqs: map<string, uint32>, left: map<string, View>,
      p: string, seqNo: uint32, view: View)
    requires NoEmpties(ix) && ix == Build(left[p := view]) && seqs.Keys - {p} == left.Keys
    ensures PeerInv(ix, seqs[p := seqNo], left[p := view])
  {
    hide NoEmpties, Build;
  }

  lemma ReportsAdd(seqs: map<string, uint32>, views: map<string, View>, at: map<string, nat>,
      p: string, report: Snapshot<View>)
    ensures Reports(seqs[p := report.seqNo], views[p := report.content], at[p := report.at])
      == Reports(seqs, views, at)[p := report]
    ensures Reports(seqs - {p}, views - {p}, at - {p}) == Reports(seqs, views, at) - {p}
  {
  }

  // ------------------------------------------------------------------ the class

  class GatewayNodeManager {
    const p2pNodeID: string
    var statusSeq: uint32
    var peerGatewayNodes: Index                  // group -> node -> gateways
    var p2pID2Seq: map<string, uint32>           // gateway -> counter of its last report
    var nodeIDInfo: map<string, View>            // gateway -> its last report
    var frontServiceInfos: Fronts
    ghost var history: seq<View>                 // the published view under each counter value
    ghost var edit: Edit                         // whether a sweep is under way
    ghost var positions: map<string, nat>        // where in its history each report was read

    /** Holds whenever the locks are free, also for the readers between two steps
        of a sweep. The counter counts the history, the history ends with the
        present view unless a sweep has changed it, and the index is the one built
        from scratch from the reports held. */
    ghost predicate Valid()
      reads this
    {
      && NodeInv(State()) && statusSeq == |history| % TWO_32
      && PeerInv(peerGatewayNodes, p2pID2Seq, nodeIDInfo) && positions.Keys == p2pID2Seq.Keys
    }

    ghost function State(): Node
      reads this
    {
      Node(frontServiceInfos, history, edit, Reports(p2pID2Seq, nodeIDInfo, positions))
    }

    /** This gateway as the publisher of the gossip protocol. */
    ghost function Published(): System<View>
      requires Valid()
      reads this
    {
      Publishing(State(), None, [])
    }

    constructor (id: string)
      ensures Valid() && p2pNodeID == id
      ensures State() == NEW_NODE && Published() == Init(map[]) && statusSeq == 1
    {
      p2pNodeID := id;
      statusSeq := 1;
      peerGatewayNodes, p2pID2Seq, nodeIDInfo, frontServiceInfos := map[], map[], map[], map[];
      history, edit, positions := [map[]], Idle, map[];
      new;
      IsBuild(peerGatewayNodes, nodeIDInfo);
    }

    method IncreaseSeq() returns (seqNo: uint32)
      modifies `statusSeq
      ensures seqNo == statusSeq == (old(statusSeq) + 1) % TWO_32
    {
      statusSeq := (statusSeq + 1) % TWO_32;
      seqNo := statusSeq;
    }

    // ---------------------------------------------------------- local changes

    method RegisterFrontService(g: string, n: string, service: nat) returns (ok: bool)
      requires Valid() && edit.Idle?
      modifies `frontServiceInfos, `statusSeq, `history
      ensures Valid()
      ensures ok == !old(Registered(frontServiceInfos, g, n))
      ensures ok ==>
        && g in frontServiceInfos && n in frontServiceInfos[g]
        && frontServiceInfos[g][n] == FrontServiceInfo(service, false)
      ensures forall h, m :: !(h == g && m == n) ==> SameEntry(old(frontServiceInfos), frontServiceInfos, h, m)
      ensures !ok ==> unchanged(this)
      ensures State() == LocalStep(old(State()), Register(g, n, FrontServiceInfo(service, false)))
      ensures Published()
        == if ok then Step(old(Published()), Change(LocalView(frontServiceInfos))) else old(Published())
      ensures ok <==> LocalView(frontServiceInfos) != old(LocalView(frontServiceInfos))
    {
      hide PeerInv, LocalView, Put, NoEmptyGroup, Extends, NodesOf, SameEntry;
      ghost var s := State();
      PutEntries(frontServiceInfos, g, n, FrontServiceInfo(service, false));
      EntriesSame(frontServiceInfos);
      StepKeepsNode(s, Register(g, n, FrontServiceInfo(service, false)));
      var isExist := false;
      if g in frontServiceInfos {
        isExist := n in frontServiceInfos[g];
      }
      if !isExist {
        PutExtends(frontServiceInfos, g, n, FrontServiceInfo(service, false));
        frontServiceInfos := Put(frontServiceInfos, g, n, FrontServiceInfo(service, false));
        var _ := IncreaseSeq();
        history := history + [LocalView(frontServiceInfos)];
      }
      ok := !isExist;
    }

    method UnregisterFrontService(g: string, n: string) returns (ok: bool)
      requires Valid() && edit.Idle?
      modifies `frontServiceInfos, `statusSeq, `history
      ensures Valid()
      ensures ok == old(Registered(frontServiceInfos, g, n))
      ensures forall h, m :: !(h == g && m == n) ==> SameEntry(old(frontServiceInfos), frontServiceInfos, h, m)
      ensures !(g in frontServiceInfos && n in frontServiceInfos[g])
      ensures !ok ==> unchanged(this)
      ensures State() == LocalStep(old(State()), Unregister(g, n))
      ensures Published()
        == if ok then Step(old(Published()), Change(LocalView(frontServiceInfos))) else old(Published())
      ensures ok <==> LocalView(frontServiceInfos) != old(LocalView(frontServiceInfos))
    {
      hide PeerInv, LocalView, NoEmptyGroup, SameEntry;
      DroppedView(frontServiceInfos, g, n);
      DroppedEntries(frontServiceInfos, g, n);
      EntriesSame(frontServiceInfos);
      StepKeepsNode(State(), Unregister(g, n));
      ok := false;
      if g in frontServiceInfos {
        if n in frontServiceInfos[g] {
          var nodes := frontServiceInfos[g] - {n};
          var _ := IncreaseSeq();
          ok := true;
          if nodes.Keys == {} {
            frontServiceInfos := frontServiceInfos - {g};
          } else {
            frontServiceInfos := frontServiceInfos[g := nodes];
          }
          history := history + [LocalView(frontServiceInfos)];
        }
      }
    }

    /** The periodic sweep: erases unreachable services one by one, with readers
        in between, and counts once at the end. now is the time since the start;
        ops are the steps it took. */
    method SweepFrontServiceInfo(now: int, down: Endpoints) returns (ghost ops: seq<LocalOp>)
      requires Valid() && edit.Idle?
      modifies `frontServiceInfos, `statusSeq, `history, `edit
      ensures Valid() && edit.Idle?
      ensures State() == LocalRun(old(State()), ops)
      ensures Published() == Exec(old(Published()), RunEvents(old(State()), ops))
      ensures if now < TARS_ADMIN_REFRESH_INIT_TIME then ops == []
        else SweepRun(ops) && frontServiceInfos == Swept(old(frontServiceInfos), down)
      ensures now < 120_000 ==> unchanged(this)
      ensures now >= 120_000 ==> forall g, n ::
        if g in old(frontServiceInfos) && n in old(frontServiceInfos)[g]
          && old(frontServiceInfos)[g][n].hasProxy && down(g, n)
        then !(g in frontServiceInfos && n in frontServiceInfos[g])
        else SameEntry(old(frontServiceInfos), frontServiceInfos, g, n)
      ensures LocalView(frontServiceInfos) == old(LocalView(frontServiceInfos)) ==> history == old(history)
      ensures LocalView(frontServiceInfos) != old(LocalView(frontServiceInfos))
        ==> history == old(history) + [LocalView(frontServiceInfos)]
    {
      hide PeerInv, LocalView, Swept, SweptExcept, ErasedSome, NoEmptyGroup, LocalStep, LocalRun, RunEvents, Exec;
      hide SweepStarted, SweepRun, NodeInv, SameEntry;
      EntriesSame(frontServiceInfos);
      ghost var s := State();
      SweepOpens(s);
      ops := [];
      if now < TARS_ADMIN_REFRESH_INIT_TIME {
        return;
      }
      SweptAll(frontServiceInfos, down);
      SweptEntries(frontServiceInfos, down);
      edit, ops := Sweeping(false), [OpenSweep];
      var updated;
      updated, ops := SweepGroups(down, s, ops);
      SweepCloses(s, ops);
      if updated {
        var _ := IncreaseSeq();
        history := history + [LocalView(frontServiceInfos)];
      }
      edit, ops := Idle, ops + [CloseSweep];
      RunPublishes(s, ops, None, []);
    }

    /** The outer loop of the sweep, over the groups. */
    method SweepGroups(down: Endpoints, ghost s: Node, ghost before: seq<LocalOp>)
      returns (updated: bool, ghost ops: seq<LocalOp>)
      requires Valid() && edit == Sweeping(false) && NoEmptyGroup(frontServiceInfos)
      requires SweepStarted(before) && State() == LocalRun(s, before)
      modifies `frontServiceInfos, `edit
      ensures Valid() && edit == Sweeping(updated)
      ensures frontServiceInfos == Swept(old(frontServiceInfos), down)
      ensures updated <==> LocalView(frontServiceInfos) != old(LocalView(frontServiceInfos))
      ensures SweepStarted(ops) && State() == LocalRun(s, ops)
    {
      hide LocalView, Swept, SweptExcept, ReachableNodes, ErasedSome, SomeUnreachable, NoEmptyGroup;
      hide LocalRun, SweepStarted, NodeInv, PeerInv;
      ghost var fronts := frontServiceInfos;
      SweptAll(fronts, down);
      updated, ops := false, before;
      var groups := frontServiceInfos.Keys;
      while groups != {}
        invariant groups <= fronts.Keys && Valid() && edit == Sweeping(updated)
        invariant frontServiceInfos == SweptExcept(fronts, down, groups)
        invariant updated <==> ErasedSome(fronts, down, groups)
        invariant SweepStarted(ops) && State() == LocalRun(s, ops)
      {
        var g :| g in groups;
        SweptStep(fronts, down, groups, g);
        groups := groups - {g};
        var erased;
        erased, ops := SweepNodes(g, down, s, ops);
        updated := updated || erased;
        if frontServiceInfos[g].Keys == {} {
          ops := EraseEmptyGroup(g, s, ops);
          updated := true;
        }
      }
    }

    /** The inner loop of the sweep, over the nodes of group g. */
    method SweepNodes(g: string, down: Endpoints, ghost s: Node, ghost before: seq<LocalOp>)
      returns (erased: bool, ghost ops: seq<LocalOp>)
      requires Valid() && edit.Sweeping? && g in frontServiceInfos
      requires SweepStarted(before) && State() == LocalRun(s, before)
      modifies `frontServiceInfos, `edit
      ensures Valid() && edit == if erased then Sweeping(true) else old(edit)
      ensures var nodes := old(frontServiceInfos)[g];
        && frontServiceInfos == old(frontServiceInfos)[g := ReachableNodes(nodes, down, g)]
        && (erased <==> SomeUnreachable(nodes, down, g))
      ensures SweepStarted(ops) && State() == LocalRun(s, ops)
    {
      hide LocalRun, SweepStarted, NodeInv, PeerInv, ReachableExcept, ReachableNodes;
      ghost var fronts, nodes := frontServiceInfos, frontServiceInfos[g];
      erased, ops := false, before;
      var todo := frontServiceInfos[g].Keys;
      ReachableSteps(nodes, down, g, todo);
      while todo != {}
        invariant todo <= nodes.Keys && Valid() && edit == if erased then Sweeping(true) else old(edit)
        invariant frontServiceInfos == fronts[g := ReachableExcept(nodes, down, g, todo)]
        invariant erased <==> exists n :: n in nodes && n !in todo && nodes[n].hasProxy && down(g, n)
        invariant SweepStarted(ops) && State() == LocalRun(s, ops)
      {
        ReachableSteps(nodes, down, g, todo);
        var n :| n in todo;
        todo := todo - {n};
        if frontServiceInfos[g][n].hasProxy && down(g, n) {
          ops := EraseFrontService(g, n, s, ops);
          erased := true;
        }
      }
    }

    /** One erasure of the sweep, under the exclusive lock. */
    method EraseFrontService(g: string, n: string, ghost s: Node, ghost before: seq<LocalOp>)
      returns (ghost ops: seq<LocalOp>)
      requires Valid() && edit.Sweeping? && Registered(frontServiceInfos, g, n)
      requires SweepStarted(before) && State() == LocalRun(s, before)
      modifies `frontServiceInfos, `edit
      ensures Valid() && edit == Sweeping(true)
      ensures frontServiceInfos == Erased(old(frontServiceInfos), g, n)
      ensures SweepStarted(ops) && State() == LocalRun(s, ops)
    {
      hide LocalRun, PeerInv, LocalView;
      StepKeepsNode(State(), EraseNode(g, n));
      RunSnoc(s, before, EraseNode(g, n));
      frontServiceInfos := frontServiceInfos[g := frontServiceInfos[g] - {n}];
      edit, ops := Sweeping(true), before + [EraseNode(g, n)];
    }

    method EraseEmptyGroup(g: string, ghost s: Node, ghost before: seq<LocalOp>) returns (ghost ops: seq<LocalOp>)
      requires Valid() && edit.Sweeping? && g in frontServiceInfos && frontServiceInfos[g].Keys == {}
      requires SweepStarted(before) && State() == LocalRun(s, before)
      modifies `frontServiceInfos, `edit
      ensures Valid() && edit == Sweeping(true)
      ensures frontServiceInfos == old(frontServiceInfos) - {g}
      ensures SweepStarted(ops) && State() == LocalRun(s, ops)
    {
      hide LocalRun, PeerInv, LocalView;
      StepKeepsNode(State(), EraseGroup(g));
      RunSnoc(s, before, EraseGroup(g));
      frontServiceInfos := frontServiceInfos - {g};
      edit, ops := Sweeping(true), before + [EraseGroup(g)];
    }

    /** A group announcement: counts once for each node it inserts. */
    method UpdateFrontServiceInfo(g: string, infos: seq<NodeInfo>, client: string -> FrontServiceInfo)
      requires Valid() && edit.Idle?
      modifies `frontServiceInfos, `statusSeq, `history
      ensures Valid()
      ensures State() == LocalRun(old(State()), Announced(g, infos, client))
      ensures Published()
        == Exec(old(Published()), Changes(InsertedViews(old(frontServiceInfos), g, infos, client)))
      ensures frontServiceInfos == InsertAll(old(frontServiceInfos), g, infos, client)
      ensures forall i :: 0 <= i < |infos| && Starts(old(frontServiceInfos), g, infos, i) ==>
        && g in frontServiceInfos && infos[i].nodeID in frontServiceInfos[g]
        && frontServiceInfos[g][infos[i].nodeID] == client(infos[i].serviceName)
      ensures forall h, n :: !(h == g && StartsNode(old(frontServiceInfos), g, infos, n)) ==>
        SameEntry(old(frontServiceInfos), frontServiceInfos, h, n)
    {
      AnnouncedEntries(frontServiceInfos, g, infos, client);
      hide PeerInv, LocalView, Put, NoEmptyGroup, Extends, NodesOf, InsertAll, InsertedViews, Inserts;
      hide LocalStep, LocalRun, NodeInv, Exec, Changes, Announced, Starts, StartsNode, SameEntry;
      ghost var s := State();
      ghost var before, past, done := frontServiceInfos, history, [];
      AnnouncedRun(s, g, infos, client);
      AnnouncedChanges(s, g, infos, client);
      assert infos[0..] == infos && past + done == past;
      for i := 0 to |infos|
        invariant NodeInv(State()) && statusSeq == |history| % TWO_32
        invariant InsertAll(before, g, infos, client) == InsertAll(frontServiceInfos, g, infos[i..], client)
        invariant history == past + done
        invariant InsertedViews(before, g, infos, client)
          == done + InsertedViews(frontServiceInfos, g, infos[i..], client)
      {
        AnnounceStep(frontServiceInfos, g, infos, i, client, done);
        if Registered(frontServiceInfos, g, infos[i].nodeID) {
          continue;
        }
        if infos[i].serviceName == "" {
          continue;
        }
        var info := client(infos[i].serviceName);
        InsertOne(State(), g, infos[i].nodeID, info);
        frontServiceInfos := Put(frontServiceInfos, g, infos[i].nodeID, info);
        history := history + [LocalView(frontServiceInfos)];
        done := done + [LocalView(frontServiceInfos)];
        var _ := IncreaseSeq();
      }
      AnnounceNothing(frontServiceInfos, g, infos[|infos|..], client);
      assert done + [] == done;
    }

    // -------------------------------------------------------------- publishing

    /** The report sent for a request: the counter and the registered nodes, read
        under one lock, possibly between two steps of a sweep. */
    method OnRequestNodeIDs() returns (seqNo: uint32, view: View)
      requires Valid()
      ensures Published().history != []
      ensures seqNo == Take(Published()).seqNo && view == Take(Published()).content
      ensures seqNo == statusSeq
      ensures forall g, n ::
        g in view && n in view[g] <==> g in frontServiceInfos && n in frontServiceInfos[g]
    {
      hide PeerInv;
      seqNo := statusSeq;
      view := map[];
      var groups := frontServiceInfos.Keys;
      while groups != {}
        invariant groups <= frontServiceInfos.Keys
        invariant forall h ::
          (h in view <==> h in frontServiceInfos && h !in groups && frontServiceInfos[h].Keys != {})
          && (h in view ==> view[h] == frontServiceInfos[h].Keys)
      {
        var g :| g in groups;
        groups := groups - {g};
        var todo := frontServiceInfos[g].Keys;
        while todo != {}
          invariant todo <= frontServiceInfos[g].Keys
          invariant g in view ==> view[g] == frontServiceInfos[g].Keys - todo && frontServiceInfos[g].Keys != {}
          invariant g !in view ==> todo == frontServiceInfos[g].Keys
          invariant forall h :: h != g ==>
            (h in view <==> h in frontServiceInfos && h !in groups && frontServiceInfos[h].Keys != {})
            && (h in view ==> view[h] == frontServiceInfos[h].Keys)
        {
          var n :| n in todo;
          todo := todo - {n};
          view := view[g := (if g in view then view[g] else {}) + {n}];
        }
      }
    }

    /** Unlike the report it shows a group that a sweep has emptied and not yet
        erased. */
    method GetLocalNodeIDInfo() returns (view: View)
      requires Valid()
      ensures view == map g | g in frontServiceInfos :: frontServiceInfos[g].Keys
      ensures edit.Idle? ==> view == LocalView(frontServiceInfos)
    {
      hide PeerInv;
      view := map[];
      var groups := frontServiceInfos.Keys;
      while groups != {}
        invariant groups <= frontServiceInfos.Keys
        invariant view == map g | g in frontServiceInfos && g !in groups :: frontServiceInfos[g].Keys
      {
        var g :| g in groups;
        groups := groups - {g};
        view := view[g := frontServiceInfos[g].Keys];
      }
    }

    // ---------------------------------------------------------- other gateways

    /** What is held for gateway p, as the subscriber of the gossip protocol sees
        it. */
    ghost function Held(p: string): Option<Snapshot<View>>
      reads this
    {
      Holds(State(), p)
    }

    method OnReceiveStatusSeq(p: string, seqNo: uint32) returns (changed: bool)
      requires Valid()
      ensures changed <==> SeqChanged(Held(p), seqNo)
      ensures changed <==> !(p in p2pID2Seq && p2pID2Seq[p] == seqNo)
    {
      changed := true;
      if p in p2pID2Seq {
        changed := seqNo != p2pID2Seq[p];
      }
    }

    method RemoveNodeIDsByP2PID(p: string)
      modifies `peerGatewayNodes, `nodeIDInfo
      ensures peerGatewayNodes == Remaining(old(peerGatewayNodes), p)
      ensures nodeIDInfo == old(nodeIDInfo) - {p}
    {
      hide Remaining, RemainingExcept, RemainingNodes;
      var groups := peerGatewayNodes.Keys;
      ghost var before := peerGatewayNodes;
      RemainingAll(before, p);
      while groups != {}
        invariant groups <= before.Keys
        invariant peerGatewayNodes == RemainingExcept(before, p, groups)
        invariant unchanged(`nodeIDInfo)
      {
        var g :| g in groups;
        RemainingStep(before, p, groups, g);
        groups := groups - {g};
        var nodes := EraseFromNodes(peerGatewayNodes[g], p);
        if nodes == map[] {
          peerGatewayNodes := peerGatewayNodes - {g};
        } else {
          peerGatewayNodes := peerGatewayNodes[g := nodes];
        }
      }
      if p in nodeIDInfo {
        nodeIDInfo := nodeIDInfo - {p};
      }
      assert nodeIDInfo == old(nodeIDInfo) - {p};
    }

    /** The two inner loops of the removal. */
    static method EraseFromNodes(m: map<string, set<string>>, p: string) returns (nodes: map<string, set<string>>)
      ensures nodes == RemainingNodes(m, p)
    {
      nodes := m;
      var todo := m.Keys;
      while todo != {}
        invariant todo <= m.Keys
        invariant forall n :: n in todo ==> n in nodes && nodes[n] == m[n]
        invariant forall n :: n !in todo ==>
          (n in nodes <==> n in RemainingNodes(m, p)) && (n in nodes ==> nodes[n] == m[n] - {p})
      {
        var n :| n in todo;
        todo := todo - {n};
        var gateways, left := nodes[n], nodes[n];
        while left != {}
          invariant left <= m[n] && gateways == left + (m[n] - {p})
        {
          var q :| q in left;
          left := left - {q};
          if q == p {
            gateways := gateways - {q};
          }
        }
        if gateways == {} {
          nodes := nodes - {n};
        } else {
          nodes := nodes[n := gateways];
        }
      }
      assert nodes.Keys == RemainingNodes(m, p).Keys;
    }

    /** at is the position in the history of p that the proofs record. */
    method UpdateNodeIDs(p: string, seqNo: uint32, view: View, ghost at: nat)
      requires Valid()
      modifies `peerGatewayNodes, `nodeIDInfo, `p2pID2Seq, `positions
      ensures Valid()
      ensures nodeIDInfo == old(nodeIDInfo)[p := view] && p2pID2Seq == old(p2pID2Seq)[p := seqNo]
      ensures State() == WithReport(old(State()), p, Snapshot(seqNo, view, at))
    {
      hide NodeInv, PeerInv, Reports, Build, NoEmpties;
      HeldKeepsNode(State(), p, Snapshot(seqNo, view, at));
      ReportsAdd(p2pID2Seq, nodeIDInfo, positions, p, Snapshot(seqNo, view, at));
      ReplaceInIndex(p, view);
      PeerUpdated(peerGatewayNodes, p2pID2Seq, nodeIDInfo, p, seqNo, view);
      p2pID2Seq, positions := p2pID2Seq[p := seqNo], positions[p := at];
      nodeIDInfo := nodeIDInfo[p := view];
    }

    /** Removes what the gateway reported before and inserts the new report. */
    method ReplaceInIndex(p: string, view: View)
      requires PeerInv(peerGatewayNodes, p2pID2Seq, nodeIDInfo)
      modifies `peerGatewayNodes, `nodeIDInfo
      ensures nodeIDInfo == old(nodeIDInfo) - {p} && p2pID2Seq.Keys == old(nodeIDInfo).Keys
      ensures NoEmpties(peerGatewayNodes) && peerGatewayNodes == Build(nodeIDInfo[p := view])
      ensures nodeIDInfo[p := view] == old(nodeIDInfo)[p := view]
    {
      hide Build, Remaining, NoEmpties, Lists;
      ghost var before := nodeIDInfo;
      RemainingLists(peerGatewayNodes, p);
      RemoveNodeIDsByP2PID(p);
      ghost var base := peerGatewayNodes;
      var groups := view.Keys;
      while groups != {}
        invariant groups <= view.Keys && NoEmpties(peerGatewayNodes)
        invariant forall g, n, q :: (Lists(peerGatewayNodes, g, n, q) <==>
          Lists(base, g, n, q) || (q == p && g in view && n in view[g] && g !in groups))
        invariant nodeIDInfo == before - {p}
      {
        var g :| g in groups;
        groups := groups - {g};
        InsertNodes(g, view[g], p);
      }
      ReplacedReport(before, p, view, peerGatewayNodes);
      assert nodeIDInfo[p := view] == before[p := view];
    }

    /** The inner loop of the update, over the nodes of group g. */
    method InsertNodes(g: string, nodes: set<string>, p: string)
      requires NoEmpties(peerGatewayNodes)
      modifies `peerGatewayNodes
      ensures NoEmpties(peerGatewayNodes)
      ensures forall h, n, q :: (Lists(peerGatewayNodes, h, n, q) <==>
        old(Lists(peerGatewayNodes, h, n, q)) || (q == p && h == g && n in nodes))
    {
      var todo := nodes;
      while todo != {}
        invariant todo <= nodes && NoEmpties(peerGatewayNodes)
        invariant forall h, n, q :: (Lists(peerGatewayNodes, h, n, q) <==>
          old(Lists(peerGatewayNodes, h, n, q)) || (q == p && h == g && n in nodes - todo))
      {
        var n :| n in todo;
        todo := todo - {n};
        InsertLists(peerGatewayNodes, g, n, p);
        peerGatewayNodes := Insert(peerGatewayNodes, g, n, p);
      }
    }

    /** The parsed report, or none when the text cannot be parsed. */
    method OnReceiveNodeIDs(p: string, parsed: Option<(uint32, View)>, ghost at: nat)
      requires Valid()
      modifies `peerGatewayNodes, `nodeIDInfo, `p2pID2Seq, `positions
      ensures Valid()
      ensures parsed.None? ==> unchanged(this)
      ensures parsed.Some? ==>
        && State() == WithReport(old(State()), p, Snapshot(parsed.value.0, parsed.value.1, at))
        && nodeIDInfo == old(nodeIDInfo)[p := parsed.value.1]
        && p2pID2Seq == old(p2pID2Seq)[p := parsed.value.0]
    {
      if parsed.Some? {
        UpdateNodeIDs(p, parsed.value.0, parsed.value.1, at);
      }
    }

    method OnRemoveNodeIDs(p: string)
      requires Valid()
      modifies `peerGatewayNodes, `nodeIDInfo, `p2pID2Seq, `positions
      ensures Valid() && State() == Forgetting(old(State()), p) && Held(p) == None
      ensures nodeIDInfo == old(nodeIDInfo) - {p} && p2pID2Seq == old(p2pID2Seq) - {p}
    {
      hide NodeInv, Build, Remaining, Reports;
      HeldKeepsNode(State(), p, Snapshot(0, map[], 0));
      ReportsAdd(p2pID2Seq, nodeIDInfo, positions, p, Snapshot(0, map[], 0));
      RemovedReport(nodeIDInfo, p);
      RemainingLists(peerGatewayNodes, p);
      RemoveNodeIDsByP2PID(p);
      p2pID2Seq, positions := p2pID2Seq - {p}, positions - {p};
    }

    // ----------------------------------------------------------------- queries

    /** The gateways of one node. It answers true only with a gateway. */
    method QueryP2pIDs(g: string, n: string) returns (found: bool, ids: set<string>)
      requires Valid()
      ensures forall p :: p in ids <==> Reported(nodeIDInfo, g, n, p)
      ensures found <==> ids != {}
    {
      forall p
        ensures Lists(peerGatewayNodes, g, n, p) <==> Reported(nodeIDInfo, g, n, p)
      {
        BuildLists(nodeIDInfo, g, n, p);
      }
      ids := {};
      if g !in peerGatewayNodes {
        return false, ids;
      }
      if n !in peerGatewayNodes[g] {
        return false, ids;
      }
      ids := ids + peerGatewayNodes[g][n];
      found := true;
    }

    /** The gateways of a whole group. */
    method QueryP2pIDsByGroupID(g: string) returns (found: bool, ids: set<string>)
      requires Valid()
      ensures forall p :: p in ids <==> exists n :: Reported(nodeIDInfo, g, n, p)
      ensures found <==> ids != {}
    {
      ids := {};
      if g !in peerGatewayNodes {
        GroupGateways(peerGatewayNodes, nodeIDInfo, g, ids);
        return false, ids;
      }
      var nodes := peerGatewayNodes[g];
      var todo := nodes.Keys;
      while todo != {}
        invariant todo <= nodes.Keys
        invariant forall p :: p in ids <==> exists n :: n in nodes && n !in todo && p in nodes[n]
      {
        var n :| n in todo;
        todo := todo - {n};
        ids := ids + nodes[n];
      }
      found := true;
      GroupGateways(peerGatewayNodes, nodeIDInfo, g, ids);
    }
  }

  /** The union of the gateways under a group of the index is the set of gateways
      that reported a node in it; it is not empty if the group is there. */
  lemma GroupGateways(ix: Index, views: map<string, View>, g: string, ids: set<string>)
    requires NoEmpties(ix) && ix == Build(views)
    requires forall p :: (p in ids <==> g in ix && exists n :: n in ix[g] && p in ix[g][n])
    ensures forall p :: p in ids <==> exists n :: Reported(views, g, n, p)
    ensures g in ix <==> ids != {}
  {
    forall p, n
      ensures Lists(ix, g, n, p) <==> Reported(views, g, n, p)
    {
      BuildLists(views, g, n, p);
    }
    GroupMembers(ix, views, g, ids);
  }

  lemma GroupMembers(ix: Index, views: map<string, View>, g: string, ids: set<string>)
    requires NoEmpties(ix)
    requires forall p, n :: Lists(ix, g, n, p) <==> Reported(views, g, n, p)
    requires forall p :: (p in ids <==> g in ix && exists n :: n in ix[g] && p in ix[g][n])
    ensures forall p :: p in ids <==> exists n :: Reported(views, g, n, p)
    ensures g in ix <==> ids != {}
  {
    hide Reported;
    if g in ix {
      var n :| n in ix[g];
      var p :| p in ix[g][n];
      assert p in ids;
    }
    forall p | p in ids
      ensures exists n :: Reported(views, g, n, p)
    {
      var n :| n in ix[g] && p in ix[g][n];
      assert Lists(ix, g, n, p);
    }
    forall p, n | Reported(views, g, n, p)
      ensures p in ids
    {
      assert Lists(ix, g, n, p);
    }
  }
}
