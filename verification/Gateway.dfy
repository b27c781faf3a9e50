/** Gateway: it picks the way a message takes, broadcasts in a group, and with
    Service::onMessage answers the messages of the node gossip. */
module Gateways {
  import opened Wrappers
  import opened Sequences
  import opened Bytes
  import opened Gossip
  import opened NodeIndex
  import opened FrontServices
  import opened NodeManager
  import GossipNetwork
  import opened P2PMessages
  import opened Sessions
  import Callbacks
  import opened Retries
  import Services

  // ----------------------------------------------------------- who is reached

  /** The nodes of a group that registered service v. */
  function NodesWith(nodes: map<string, FrontServiceInfo>, v: nat): set<string> {
    set n | n in nodes && nodes[n].service == v
  }

  function GroupNodes(fronts: Fronts, g: string): map<string, FrontServiceInfo> {
    if g in fronts then fronts[g] else map[]
  }

  /** How often a broadcast from this gateway is handed to its own service v: once
      for each of its nodes. */
  function LocalCount(fronts: Fronts, g: string, v: nat): nat {
    |NodesWith(GroupNodes(fronts, g), v)|
  }

  /** How often a broadcast that arrives is handed to service v: the services are
      collected in a set first. */
  function RemoteCount(fronts: Fronts, g: string, v: nat): nat {
    if NodesWith(GroupNodes(fronts, g), v) == {} then 0 else 1
  }

  /** The gateways of a network with the services registered at each, the sender,
      what it was told by the others, and to whom it has a running session that is
      active. What the sender puts on the queue of such a session is taken to
      arrive, as it does while the connection lasts (DeliveredExactly of Link). */
  datatype Network = Network(
    gateways: map<string, Fronts>,
    sender: string,
    views: map<string, View>,
    alive: set<string>)

  ghost predicate Listed(net: Network, g: string, q: string) {
    exists n :: Reported(net.views, g, n, q)
  }

  /** How often one broadcast of the sender reaches service v of gateway q. */
  ghost function Reaches(net: Network, g: string, q: string, v: nat): nat
    requires q in net.gateways
  {
    if q == net.sender then LocalCount(net.gateways[q], g, v)
    else if Listed(net, g, q) && q in net.alive then RemoteCount(net.gateways[q], g, v)
    else 0
  }

  /** Service v is registered for some node of the group at gateway q. */
  ghost predicate Serves(net: Network, g: string, q: string, v: nat)
    requires q in net.gateways
  {
    exists n :: Registered(net.gateways[q], g, n) && net.gateways[q][g][n].service == v
  }

  ghost predicate HasNodes(fronts: Fronts, g: string) {
    exists n :: Registered(fronts, g, n)
  }

  /** Every service of the group gets the broadcast once, nobody else gets it. */
  ghost predicate ExactlyOnce(net: Network, g: string) {
    forall q, v :: q in net.gateways ==> Reaches(net, g, q, v) == if Serves(net, g, q, v) then 1 else 0
  }

  /** No two nodes of the group share a service at this gateway. */
  ghost predicate OwnServices(fronts: Fronts, g: string) {
    forall n, m ::
      Registered(fronts, g, n) && Registered(fronts, g, m) && fronts[g][n].service == fronts[g][m].service ==> n == m
  }

  /** The two counts, on the map itself: its own broadcast reaches service v of this
      gateway once for each node that registered it, another's once if there is any. */
  lemma CountsAre(fronts: Fronts, g: string, v: nat)
    ensures LocalCount(fronts, g, v) == if g in fronts then |set n | n in fronts[g] && fronts[g][n].service == v| else 0
    ensures RemoteCount(fronts, g, v)
      == if exists n :: g in fronts && n in fronts[g] && fronts[g][n].service == v then 1 else 0
  {
    var nodes := GroupNodes(fronts, g);
    if g in fronts {
      assert NodesWith(nodes, v) == set n | n in fronts[g] && fronts[g][n].service == v;
      if n :| n in fronts[g] && fronts[g][n].service == v {
        assert n in NodesWith(nodes, v);
      }
    } else {
      assert NodesWith(nodes, v) == {};
    }
  }

  lemma AllCounts(fronts: Fronts, g: string)
    ensures g !in fronts ==> GroupNodes(fronts, g) == map[]
    ensures g in fronts ==> GroupNodes(fronts, g) == fronts[g]
    ensures g in fronts ==>
      forall v :: LocalCount(fronts, g, v) == |set n | n in fronts[g] && fronts[g][n].service == v|
    ensures forall v :: RemoteCount(fronts, g, v) <= 1
    ensures forall v ::
      RemoteCount(fronts, g, v) == 1 <==> exists n :: Registered(fronts, g, n) && fronts[g][n].service == v
  {
    forall v
      ensures g in fronts ==> LocalCount(fronts, g, v) == |set n | n in fronts[g] && fronts[g][n].service == v|
      ensures RemoteCount(fronts, g, v) == 1 <==> exists n :: Registered(fronts, g, n) && fronts[g][n].service == v
    {
      CountsAre(fronts, g, v);
    }
  }

  lemma AnyNode(fronts: Fronts, g: string)
    ensures GroupNodes(fronts, g) != map[] <==> exists n :: Registered(fronts, g, n)
  {
    if GroupNodes(fronts, g) != map[] {
      var n :| n in GroupNodes(fronts, g);
      assert Registered(fronts, g, n);
    }
  }

  lemma CountOne(fronts: Fronts, g: string, v: nat)
    requires OwnServices(fronts, g)
    ensures LocalCount(fronts, g, v)
      == if exists n :: Registered(fronts, g, n) && fronts[g][n].service == v then 1 else 0
  {
    CountsAre(fronts, g, v);
    if n :| Registered(fronts, g, n) && fronts[g][n].service == v {
      assert (set m | m in fronts[g] && fronts[g][m].service == v) == {n};
    } else if g in fronts {
      assert (set m | m in fronts[g] && fronts[g][m].service == v) == {} by {
        assert forall m :: m in fronts[g] ==> Registered(fronts, g, m);
      }
    }
  }

  lemma CountTwo(fronts: Fronts, g: string, n: string, m: string)
    requires Registered(fronts, g, n) && Registered(fronts, g, m) && n != m
    requires fronts[g][n].service == fronts[g][m].service
    ensures LocalCount(fronts, g, fronts[g][n].service) >= 2
  {
    CountsAre(fronts, g, fronts[g][n].service);
    var all := set x | x in fronts[g] && fronts[g][x].service == fronts[g][n].service;
    assert {n, m} <= all;
    assert |all - {n, m}| == |all| - |{n, m}|;
  }

  /** Main result on broadcasts: each service of the group is reached exactly once
      if and only if no two nodes at the sender share a service and every other
      gateway with nodes in the group is listed and connected. */
  lemma BroadcastExactly(net: Network, g: string)
    requires net.sender in net.gateways
    ensures ExactlyOnce(net, g) <==>
      && OwnServices(net.gateways[net.sender], g)
      && (forall q :: q in net.gateways && q != net.sender && HasNodes(net.gateways[q], g) ==>
        Listed(net, g, q) && q in net.alive)
  {
    var own := net.gateways[net.sender];
    if ExactlyOnce(net, g) {
      forall n, m | Registered(own, g, n) && Registered(own, g, m) && own[g][n].service == own[g][m].service && n != m
        ensures false
      {
        assert Reaches(net, g, net.sender, own[g][n].service) <= 1;
        CountTwo(own, g, n, m);
      }
      forall q | q in net.gateways && q != net.sender && HasNodes(net.gateways[q], g)
        ensures Listed(net, g, q) && q in net.alive
      {
        var n :| Registered(net.gateways[q], g, n);
        var v := net.gateways[q][g][n].service;
        assert Serves(net, g, q, v);
        assert Reaches(net, g, q, v) == 1;
      }
    }
    if && OwnServices(own, g)
       && (forall q :: q in net.gateways && q != net.sender && HasNodes(net.gateways[q], g) ==>
         Listed(net, g, q) && q in net.alive) {
      forall q, v | q in net.gateways
        ensures Reaches(net, g, q, v) == if Serves(net, g, q, v) then 1 else 0
      {
        ReachedOnce(net, g, q, v);
      }
    }
  }

  lemma ReachedOnce(net: Network, g: string, q: string, v: nat)
    requires net.sender in net.gateways && q in net.gateways && OwnServices(net.gateways[net.sender], g)
    requires q != net.sender && HasNodes(net.gateways[q], g) ==> Listed(net, g, q) && q in net.alive
    ensures Reaches(net, g, q, v) == if Serves(net, g, q, v) then 1 else 0
  {
    CountsAre(net.gateways[q], g, v);
    if q == net.sender {
      CountOne(net.gateways[q], g, v);
    } else if n :| Registered(net.gateways[q], g, n) && net.gateways[q][g][n].service == v {
      assert HasNodes(net.gateways[q], g);
    }
  }

  /** The sender's copy of every other gateway's nodes is the current one. */
  ghost predicate InSync(net: Network) {
    forall q :: q in net.gateways && q != net.sender ==>
      q in net.views && net.views[q] == LocalView(net.gateways[q])
  }

  /** So with all views in sync, all gateways connected and no shared services,
      a broadcast reaches every service of the group, on every gateway, once. */
  lemma BroadcastCoverage(net: Network, g: string)
    requires net.sender in net.gateways && InSync(net)
    requires forall q :: q in net.gateways && q != net.sender ==> q in net.alive
    requires OwnServices(net.gateways[net.sender], g)
    ensures ExactlyOnce(net, g)
  {
    forall q | q in net.gateways && q != net.sender && HasNodes(net.gateways[q], g)
      ensures Listed(net, g, q) && q in net.alive
    {
      var n :| Registered(net.gateways[q], g, n);
      assert Reported(net.views, g, n, q);
    }
    BroadcastExactly(net, g);
  }

  /** A network of gateways with its gossip, as the broadcasts of one of them see
      it. */
  function AsSeenBy(net: GossipNetwork.Network, sender: string, alive: set<string>): Network
    requires sender in net.nodes
  {
    Network(map p | p in net.nodes :: net.nodes[p].fronts, sender, Views(net.nodes[sender]), alive)
  }

  /** The gossip and the broadcast together, over every run of a network: once the
      counters that the sender holds are the peers', and its sessions are up, a
      broadcast reaches every service of the group once, on every gateway. */
  lemma BroadcastWhenCountersAgree(ids: set<string>, events: seq<GossipNetwork.NetEvent>,
      sender: string, alive: set<string>, g: string)
    requires sender in ids
    requires var net := GossipNetwork.NetExec(GossipNetwork.Start(ids), events);
      && (forall q :: q in ids && q != sender ==> q in alive && GossipNetwork.CounterAgrees(net, q, sender))
      && OwnServices(net.nodes[sender].fronts, g)
    ensures var net := GossipNetwork.NetExec(GossipNetwork.Start(ids), events);
      ExactlyOnce(AsSeenBy(net, sender, alive), g)
  {
    var net := GossipNetwork.NetExec(GossipNetwork.Start(ids), events);
    var seen := AsSeenBy(net, sender, alive);
    forall q | q in ids && q != sender
      ensures q in seen.views && seen.views[q] == LocalView(seen.gateways[q])
    {
      GossipNetwork.AgreeingHoldsView(ids, events, q, sender);
    }
    hide GossipNetwork.NetExec, GossipNetwork.CounterAgrees, LocalView;
    BroadcastCoverage(seen, g);
  }

  // ------------------------------------------------ sessions and their reports

  /** The table of sessions, and the peers whose report is held. */
  datatype Peering = Peering(table: Services.Table, reported: set<string>)

  datatype PeerEvent = OfTable(e: Services.Event) | Report(s: Services.P2PSession)

  /** onDisconnect removes the report of the session's peer before it looks at the
      table. */
  ghost function PeerStep(own: string, x: Peering, e: PeerEvent): Peering {
    match e
    case OfTable(te) =>
      Peering(Services.Step(own, x.table, te),
        if te.Disconnected? && te.s in x.table.created && te.s !in x.table.running then x.reported - {te.s.p2pID}
        else x.reported)
    case Report(s) => if s in x.table.created then x.(reported := x.reported + {s.p2pID}) else x
  }

  ghost function PeerExec(own: string, x: Peering, events: seq<PeerEvent>): Peering
    decreases |events|
  {
    if events == [] then x else PeerExec(own, PeerStep(own, x, events[0]), events[1..])
  }

  /** The peer is connected, and nothing is known of its nodes. */
  ghost predicate Blind(x: Peering, p: string) {
    Services.Alive(x.table, p) && p !in x.reported
  }

  /** The disconnect of a session leaves its peer connected without a report if and
      only if another session to the peer was running; other peers are as before. */
  lemma BlindExactly(own: string, x: Peering, s: Services.P2PSession)
    requires Services.Inv(own, x.table) && s in x.table.created && s !in x.table.running
    ensures var y := PeerStep(own, x, OfTable(Services.Disconnected(s)));
      && (Blind(y, s.p2pID) <==> Services.Alive(x.table, s.p2pID))
      && (forall p :: p != s.p2pID ==> (Blind(y, p) <==> Blind(x, p)))
  {
  }

  /** Over any run, only such a disconnect takes a report away. */
  lemma {:induction false} ReportStays(own: string, x: Peering, p: string, events: seq<PeerEvent>)
    requires p in x.reported
    requires forall e :: e in events && e.OfTable? && e.e.Disconnected? ==> e.e.s.p2pID != p
    ensures p in PeerExec(own, x, events).reported
    decreases |events|
  {
    if events != [] {
      assert events[0] in events && forall e :: e in events[1..] ==> e in events;
      ReportStays(own, PeerStep(own, x, events[0]), p, events[1..]);
    }
  }

  /** It happens: a session is stopped, the peer connects again and reports, and
      then the disconnect of the first session runs. */
  lemma BlindRun(own: string, s: Services.P2PSession, u: Services.P2PSession)
    requires s != u && s.p2pID == u.p2pID != own
    ensures var x := PeerExec(own, Peering(Services.EMPTY, {}),
        [OfTable(Services.Connected(s, false)), OfTable(Services.Stopped(s)),
         OfTable(Services.Connected(u, false)), Report(u), OfTable(Services.Disconnected(s))]);
      && u in x.table.running && u.p2pID in x.table.sessions && x.table.sessions[u.p2pID] == u
      && Blind(x, u.p2pID)
  {
    var a, b := OfTable(Services.Connected(s, false)), OfTable(Services.Stopped(s));
    var c, d, e := OfTable(Services.Connected(u, false)), Report(u), OfTable(Services.Disconnected(s));
    var x0 := Peering(Services.EMPTY, {});
    var x3 := PeerStep(own, PeerStep(own, PeerStep(own, x0, a), b), c);
    var x5 := PeerStep(own, PeerStep(own, x3, d), e);
    assert x3.table.sessions[u.p2pID] == u && x3.table.running == {u} && x5.table.sessions == x3.table.sessions;
    assert Blind(x5, u.p2pID);
    hide PeerStep;
    PeerExecCons(own, x0, a, [b, c, d, e]);
    PeerExecCons(own, PeerStep(own, x0, a), b, [c, d, e]);
    PeerExecCons(own, PeerStep(own, PeerStep(own, x0, a), b), c, [d, e]);
    PeerExecCons(own, x3, d, [e]);
    PeerExecCons(own, PeerStep(own, x3, d), e, []);
    assert [a] + [b, c, d, e] == [a, b, c, d, e] && [b] + [c, d, e] == [b, c, d, e];
    assert [c] + [d, e] == [c, d, e] && [d] + [e] == [d, e] && [e] + [] == [e];
  }

  lemma PeerExecCons(own: string, x: Peering, e: PeerEvent, rest: seq<PeerEvent>)
    ensures PeerExec(own, x, [e] + rest) == PeerExec(own, PeerStep(own, x, e), rest)
  {
    hide PeerStep;
    assert ([e] + rest)[1..] == rest;
  }

  // ------------------------------------------------------------------ the class

  /** The way a message to one node takes. */
  datatype Route = Remote | Local(service: nat) | NotFound

  /** The messages of the node gossip, read off the packet type and payload. A
      response that does not parse carries none. */
  datatype Packet = Heartbeat(seqNo: uint32) | RequestNodeIDs | ResponseNodeIDs(report: Option<(uint32, View)>)

  class Gateway {
    const service: Services.Service
    const manager: GatewayNodeManager

    constructor (s: Services.Service, m: GatewayNodeManager)
      requires s.Valid() && m.Valid() && s.id == m.p2pNodeID && s.id !in m.nodeIDInfo
      ensures service == s && manager == m && Valid()
    {
      service, manager := s, m;
    }

    /** Nothing is ever recorded for this gateway itself. */
    ghost predicate Valid()
      reads this, service, service.created, manager
    {
      service.Valid() && manager.Valid() && service.id == manager.p2pNodeID && service.id !in manager.nodeIDInfo
    }

    ghost function State(): Peering
      reads this, service, service.created, manager
    {
      Peering(service.State(), manager.State().held.Keys)
    }

    // ------------------------------------------------------------- the gossip

    /** The gossip cases of Service::onMessage, for a message that came in on
        session s; the reply goes back on the same session. at is the position in
        the peer's history that the proofs record for a report. */
    method OnMessage(s: Services.P2PSession, packet: Packet, ghost at: nat) returns (reply: Option<Packet>)
      requires Valid() && s in service.created
      modifies manager
      ensures Valid() && s.p2pID != service.id
      ensures packet.Heartbeat? ==>
        unchanged(manager)
        && reply == if SeqChanged(manager.Held(s.p2pID), packet.seqNo) then Some(RequestNodeIDs) else None
      ensures packet.RequestNodeIDs? ==>
        unchanged(manager) && manager.Published().history != []
        && reply == Some(ResponseNodeIDs(Some((Take(manager.Published()).seqNo, Take(manager.Published()).content))))
      ensures packet.ResponseNodeIDs? ==> reply == None
      ensures packet.ResponseNodeIDs? && packet.report.None? ==> unchanged(manager)
      ensures packet.ResponseNodeIDs? && packet.report.Some? ==>
        var report := Snapshot(packet.report.value.0, packet.report.value.1, at);
        && manager.State() == WithReport(old(manager.State()), s.p2pID, report)
        && State() == PeerStep(service.id, old(State()), Report(s))
    {
      hide NodeInv, PeerInv;
      match packet
      case Heartbeat(seqNo) => {
        var changed := manager.OnReceiveStatusSeq(s.p2pID, seqNo);
        reply := if changed then Some(RequestNodeIDs) else None;
      }
      case RequestNodeIDs => {
        var seqNo, view := manager.OnRequestNodeIDs();
        reply := Some(ResponseNodeIDs(Some((seqNo, view))));
      }
      case ResponseNodeIDs(report) => {
        manager.OnReceiveNodeIDs(s.p2pID, report, at);
        reply := None;
      }
    }

    /** onDisconnect of s: the registered handler forgets the peer's nodes even if
        another session to the peer is running; then s leaves the table. */
    method OnDisconnect(s: Services.P2PSession)
      requires Valid() && s in service.created && !s.run
      modifies service, manager
      ensures Valid() && manager.State() == Forgetting(old(manager.State()), s.p2pID)
      ensures service.State() == Services.Step(service.id, old(service.State()), Services.Disconnected(s))
      ensures State() == PeerStep(service.id, old(State()), OfTable(Services.Disconnected(s)))
      ensures Blind(State(), s.p2pID) <==> old(Services.Alive(service.State(), s.p2pID))
    {
      hide NodeInv, PeerInv;
      BlindExactly(service.id, State(), s);
      manager.OnRemoveNodeIDs(s.p2pID);
      service.OnDisconnect(s);
    }

    // ------------------------------------------------------------ one receiver

    /** m is the message as it is built, before it gets its number. A known gateway
        is preferred to a local service; the retry then holds the gateways that
        reported the node, each once, and the first of the shuffled list is sent
        the message if it has a running session: the frame goes on the write queue
        and the retry's callback is registered. Otherwise neither happens. */
    method AsyncSendMessageByNodeID(g: string, n: string, m: Message, shuffle: Shuffle)
      returns (route: Route, retry: Retry?)
      requires Valid()
      requires forall s :: s in service.created && s.run ==> s.session.host
      modifies service`seqCounter, set s | s in service.created :: s.session
      ensures Valid() && State() == old(State())
      ensures retry != null <==> route.Remote?
      ensures retry != null ==> fresh(retry) && retry.sent != []
      ensures var numbered := m.(seqNo := NextSeq(old(service.seqCounter)));
        forall s :: s in service.created ==>
          if retry != null && s.run && s.p2pID == retry.sent[0]
          then
            && s.session.State() == Callbacks.Send(old(s.session.State()), numbered.seqNo, old(s.session.Up()))
            && s.session.WriteSide() == old(s.session.AfterSend(Frame(s.session.wire, numbered)))
          else unchanged(s.session)
      ensures retry != null ==> exists ids: seq<string> ::
        && retry.State() == Begin(ids, shuffle(ids), retry.FirstIsUp(shuffle(ids)))
        && Distinct(ids) && service.id !in ids
        && (forall p :: p in ids <==> Reported(manager.nodeIDInfo, g, n, p))
      ensures route.Local? <==>
        (forall p :: !Reported(manager.nodeIDInfo, g, n, p)) && Registered(manager.frontServiceInfos, g, n)
      ensures route.Local? ==> route.service == manager.frontServiceInfos[g][n].service
      ensures route.Remote? <==> exists p :: Reported(manager.nodeIDInfo, g, n, p)
    {
      hide Permutes, Begin, Services.Inv, Services.Apart, Distinct, NodeInv, PeerInv, Frame, Reported;
      hide Session.State, Session.WriteSide, Session.AfterSend, Callbacks.Send;
      var p2pIDs;
      route, p2pIDs := QueryRoute(g, n);
      retry := null;
      if route.Remote? {
        ghost var ids;
        retry, ids := StartRetry(p2pIDs, m, shuffle);
      }
    }

    method QueryRoute(g: string, n: string) returns (route: Route, p2pIDs: set<string>)
      requires Valid()
      ensures (forall p :: p in p2pIDs <==> Reported(manager.nodeIDInfo, g, n, p)) && service.id !in p2pIDs
      ensures route.Remote? <==> p2pIDs != {}
      ensures route.Local? <==> p2pIDs == {} && Registered(manager.frontServiceInfos, g, n)
      ensures route.Local? ==> route.service == manager.frontServiceInfos[g][n].service
    {
      hide NodeInv, PeerInv, Services.Inv, Services.Apart;
      var found;
      found, p2pIDs := manager.QueryP2pIDs(g, n);
      if found {
        return Remote, p2pIDs;
      }
      if g in manager.frontServiceInfos && n in manager.frontServiceInfos[g] {
        return Local(manager.frontServiceInfos[g][n].service), p2pIDs;
      }
      return NotFound, p2pIDs;
    }

    method StartRetry(p2pIDs: set<string>, m: Message, shuffle: Shuffle) returns (retry: Retry, ghost ids: seq<string>)
      requires p2pIDs != {}
      requires service.Valid() && forall s :: s in service.created && s.run ==> s.session.host
      modifies service`seqCounter, set s | s in service.created :: s.session
      ensures service.Valid() && service.State() == old(service.State())
      ensures Distinct(ids) && forall p :: p in ids <==> p in p2pIDs
      ensures fresh(retry) && retry.sent != []
      ensures retry.State() == Begin(ids, shuffle(ids), retry.FirstIsUp(shuffle(ids))) && retry.service == service
      ensures var numbered := m.(seqNo := NextSeq(old(service.seqCounter)));
        forall s :: s in service.created ==>
          if s.run && s.p2pID == retry.sent[0]
          then
            && s.session.State() == Callbacks.Send(old(s.session.State()), numbered.seqNo, old(s.session.Up()))
            && s.session.WriteSide() == old(s.session.AfterSend(Frame(s.session.wire, numbered)))
          else unchanged(s.session)
    {
      hide Permutes, TrySend, Begin, Services.Inv, Services.Apart, Frame, Callbacks.Send, Distinct;
      hide Session.State, Session.WriteSide, Session.AfterSend;
      var seqNo := service.NewSeq();
      var order := InOrder(p2pIDs);
      ids := order;
      retry := new Retry(service, order, m.(seqNo := seqNo));
      ShuffleSize(shuffle, order);
      Services.RunningIsEntry(service.id, service.State());
      assert forall s :: s in service.created && s.run ==> s in service.State().running;
      FirstTried(ids, shuffle(ids), retry.FirstIsUp(shuffle(ids)));
      var _ := retry.TrySendMessage(shuffle, false);
    }

    /** The elements of a set, each once. */
    static method InOrder(ids: set<string>) returns (order: seq<string>)
      ensures Distinct(order) && (forall p :: p in order <==> p in ids)
    {
      order := [];
      var todo := ids;
      while todo != {}
        invariant todo <= ids && Distinct(order) && forall p :: p in order <==> p in ids && p !in todo
      {
        var p :| p in todo;
        todo := todo - {p};
        order := order + [p];
      }
    }

    // -------------------------------------------------------------- broadcasts

    /** calls: the services that onReceiveMessage was called on. */
    method AsyncBroadcastMessageToLocalNodes(g: string) returns (any: bool, calls: seq<nat>)
      ensures forall v :: multiset(calls)[v] == LocalCount(manager.frontServiceInfos, g, v)
      ensures g !in manager.frontServiceInfos ==> calls == []
      ensures g in manager.frontServiceInfos ==> var nodes := manager.frontServiceInfos[g];
        forall v :: multiset(calls)[v] == |set n | n in nodes && nodes[n].service == v|
      ensures any <==> exists n :: Registered(manager.frontServiceInfos, g, n)
    {
      AllCounts(manager.frontServiceInfos, g);
      AnyNode(manager.frontServiceInfos, g);
      var nodes := GroupNodes(manager.frontServiceInfos, g);
      if nodes == map[] {
        NoNodes(nodes);
        return false, [];
      }
      calls := CallEach(nodes);
      any := true;
    }

    static method CallEach(nodes: map<string, FrontServiceInfo>) returns (calls: seq<nat>)
      ensures forall v :: multiset(calls)[v] == |NodesWith(nodes, v)|
    {
      hide Done, NodesWith;
      calls := [];
      var todo := nodes.Keys;
      ghost var done: set<string> := {};
      NoneDone(nodes);
      while todo != {}
        invariant todo + done == nodes.Keys && todo !! done
        invariant forall v :: multiset(calls)[v] == Done(nodes, done, v)
      {
        var n :| n in todo;
        NodeDone(nodes, done, n);
        todo, done := todo - {n}, done + {n};
        calls := calls + [nodes[n].service];
      }
      AllDone(nodes, done);
    }

    /** m is the message as it is built, before it gets its number. Each service of
        the group here is called once for each of its nodes, and the frame of the
        numbered message goes on the write queue of each running session to a
        gateway that reported a node of the group, once, and of no other. */
    method AsyncSendBroadcastMessage(g: string, m: Message) returns (calls: seq<nat>)
      requires Valid()
      requires forall s :: s in service.created && s.run ==> s.session.host
      modifies service`seqCounter, set s | s in service.created :: s.session
      ensures Valid() && State() == old(State())
      ensures g !in manager.frontServiceInfos ==> calls == []
      ensures g in manager.frontServiceInfos ==> var nodes := manager.frontServiceInfos[g];
        forall v :: multiset(calls)[v] == |set n | n in nodes && nodes[n].service == v|
      ensures var numbered := m.(seqNo := NextSeq(old(service.seqCounter)));
        forall s :: s in service.created ==>
          if s.run && exists n :: Reported(manager.nodeIDInfo, g, n, s.p2pID)
          then
            && s.session.State() == old(s.session.State())
            && s.session.WriteSide() == old(s.session.AfterSend(Frame(s.session.wire, numbered)))
          else unchanged(s.session)
    {
      hide Services.Inv, Services.Apart, LocalCount, NodeInv, PeerInv, Frame, Reported;
      hide Session.State, Session.WriteSide, Session.AfterSend;
      var any;
      any, calls := AsyncBroadcastMessageToLocalNodes(g);
      var found, ids := manager.QueryP2pIDsByGroupID(g);
      if !found {
        forall s | s in service.created
          ensures !exists n :: Reported(manager.nodeIDInfo, g, n, s.p2pID)
        {
          assert s.p2pID !in ids;
        }
        return;
      }
      var seqNo := service.NewSeq();
      var order := InOrder(ids);
      HandOver(order, m.(seqNo := seqNo));
    }

    /** The loop over the gateways. The message is shared: a number that the first
        send gives it stays. */
    method HandOver(ids: seq<string>, m: Message)
      requires service.Valid() && Distinct(ids)
      requires forall s :: s in service.created && s.run ==> s.session.host
      requires m.seqNo == 0 ==> service.seqCounter == 0
      modifies service`seqCounter, set s | s in service.created :: s.session
      ensures service.Valid() && service.State() == old(service.State())
      ensures var numbered := m.(seqNo := if m.seqNo == 0 then 1 else m.seqNo);
        forall s :: s in service.created ==>
          if s.run && s.p2pID in ids
          then
            && s.session.State() == old(s.session.State())
            && s.session.WriteSide() == old(s.session.AfterSend(Frame(s.session.wire, numbered)))
          else unchanged(s.session)
    {
      hide Services.Inv, Services.Apart, Frame, Session.WriteSide, Session.AfterSend, Distinct;
      ghost var numbered := m.(seqNo := if m.seqNo == 0 then 1 else m.seqNo);
      var message := m;
      for i := 0 to |ids|
        invariant service.Valid() && service.State() == old(service.State())
        invariant message == numbered || (message == m && m.seqNo == 0 && service.seqCounter == 0)
        invariant forall s :: s in service.created && !(s.run && s.p2pID in ids[..i]) ==> unchanged(s.session)
        invariant forall s :: s in service.created && s.run && s.p2pID in ids[..i] ==>
          && s.session.State() == old(s.session.State())
          && s.session.WriteSide() == old(s.session.AfterSend(Frame(s.session.wire, numbered)))
      {
        NotBefore(ids, i);
        Services.RunningIsEntry(service.id, service.State());
        message := service.AsyncSendMessageByNodeID(ids[i], message, false);
        assert ids[..i + 1] == ids[..i] + [ids[i]];
      }
      assert ids[..|ids|] == ids;
    }

    /** A broadcast that arrived. */
    method OnReceiveBroadcastMessage(g: string) returns (calls: seq<nat>)
      ensures forall v :: multiset(calls)[v] == RemoteCount(manager.frontServiceInfos, g, v)
      ensures var fronts := manager.frontServiceInfos;
        && (forall v :: v in calls <==> exists n :: Registered(fronts, g, n) && fronts[g][n].service == v)
        && (forall v :: multiset(calls)[v] <= 1)
    {
      AllCounts(manager.frontServiceInfos, g);
      var nodes := GroupNodes(manager.frontServiceInfos, g);
      var services := {};
      var todo := nodes.Keys;
      while todo != {}
        invariant todo <= nodes.Keys
        invariant services == set n | n in nodes && n !in todo :: nodes[n].service
      {
        var n :| n in todo;
        todo := todo - {n};
        services := services + {nodes[n].service};
      }
      calls := [];
      ghost var all := services;
      while services != {}
        invariant services <= all
        invariant forall v :: multiset(calls)[v] == if v in all && v !in services then 1 else 0
      {
        var v :| v in services;
        services := services - {v};
        calls := calls + [v];
      }
      forall v ensures v in all <==> NodesWith(nodes, v) != {} {
        if v in all {
          var n :| n in nodes && nodes[n].service == v;
          assert n in NodesWith(nodes, v);
        }
      }
      assert forall v :: v in calls <==> multiset(calls)[v] == 1;
    }
  }

  lemma NotBefore(ids: seq<string>, i: nat)
    requires Distinct(ids) && i < |ids|
    ensures ids[i] !in ids[..i]
  {
  }

  /** The number after the counter's value; zero stands for none, and is replaced
      by the next one when the message is sent. */
  function NextSeq(counter: uint32): uint32 {
    var seqNo := (counter + 1) % TWO_32;
    if seqNo == 0 then 1 else seqNo
  }

  lemma NoNodes(nodes: map<string, FrontServiceInfo>)
    requires nodes == map[]
    ensures forall v :: |NodesWith(nodes, v)| == 0
  {
    forall v ensures |NodesWith(nodes, v)| == 0 {
      assert NodesWith(nodes, v) == {};
    }
  }

  function Done(nodes: map<string, FrontServiceInfo>, done: set<string>, v: nat): nat {
    |NodesWith(nodes, v) * done|
  }

  lemma NoneDone(nodes: map<string, FrontServiceInfo>)
    ensures forall v :: Done(nodes, {}, v) == 0
  {
    forall v ensures Done(nodes, {}, v) == 0 {
      assert NodesWith(nodes, v) * {} == {};
    }
  }

  lemma AllDone(nodes: map<string, FrontServiceInfo>, done: set<string>)
    requires done == nodes.Keys
    ensures forall v :: Done(nodes, done, v) == |NodesWith(nodes, v)|
  {
    forall v ensures Done(nodes, done, v) == |NodesWith(nodes, v)| {
      assert NodesWith(nodes, v) * done == NodesWith(nodes, v);
    }
  }

  lemma NodeDone(nodes: map<string, FrontServiceInfo>, done: set<string>, n: string)
    requires n in nodes && n !in done
    ensures forall v :: Done(nodes, done + {n}, v) == Done(nodes, done, v) + if v == nodes[n].service then 1 else 0
  {
    forall v
      ensures Done(nodes, done + {n}, v) == Done(nodes, done, v) + if v == nodes[n].service then 1 else 0
    {
      var before := NodesWith(nodes, v) * done;
      assert NodesWith(nodes, v) * (done + {n}) == if v == nodes[n].service then before + {n} else before;
    }
  }
}
