/** A network of gateways that tell each other their nodes. Its steps are the
    operations of GatewayNodeManager: for every pair of gateways, each run of the
    network is a run of the gossip protocol. */
module GossipNetwork {
  import opened Wrappers
  import opened Sequences
  import opened Bytes
  import opened NodeIndex
  import opened Gossip
  import opened FrontServices

  datatype Network = Network(
    nodes: map<string, Node>,
    wires: map<(string, string), seq<Packet<View>>>)   // (p, q): what is under way about p's nodes, for q

  predicate Counting(net: Network) {
    forall p :: p in net.nodes ==> net.nodes[p].history != []
  }

  function Start(ids: set<string>): (net: Network)
    ensures Counting(net)
  {
    Network(map p | p in ids :: NEW_NODE, map[])
  }

  function Wire(net: Network, p: string, q: string): seq<Packet<View>> {
    if (p, q) in net.wires then net.wires[(p, q)] else []
  }

  function WithWire(net: Network, p: string, q: string, packets: seq<Packet<View>>): Network {
    net.(wires := net.wires[(p, q) := packets])
  }

  datatype NetEvent =
    | Local(p: string, op: LocalOp)           // p's services change
    | Beat(p: string, q: string)              // p sends q its counter
    | Arrive(p: string, q: string, i: nat)    // packet i of the pair reaches its handler
    | Lost(p: string, q: string, i: nat)
    | Gone(p: string, q: string)              // q disconnects a session to p

  predicate Pairing(net: Network, p: string, q: string) {
    p in net.nodes && q in net.nodes && p != q
  }

  /** The three handlers: onReceiveStatusSeq at q, onRequestNodeIDs at p,
      onReceiveNodeIDs at q. */
  function Handled(net: Network, p: string, q: string, packet: Packet<View>): Network
    requires Pairing(net, p, q) && net.nodes[p].history != []
  {
    match packet
    case Heartbeat(seqNo) =>
      if SeqChanged(Holds(net.nodes[q], p), seqNo) then WithWire(net, p, q, Wire(net, p, q) + [Request]) else net
    case Request =>
      WithWire(net, p, q, Wire(net, p, q) + [Response(Take(Publishing(net.nodes[p], None, [])))])
    case Response(report) => net.(nodes := net.nodes[q := WithReport(net.nodes[q], p, report)])
  }

  /** One step; an event that is not possible changes nothing. */
  function NetStep(net: Network, e: NetEvent): (t: Network)
    requires Counting(net)
    ensures Counting(t) && t.nodes.Keys == net.nodes.Keys
  {
    match e
    case Local(p, op) => if p in net.nodes then net.(nodes := net.nodes[p := LocalStep(net.nodes[p], op)]) else net
    case Beat(p, q) =>
      if Pairing(net, p, q) then
        WithWire(net, p, q, Wire(net, p, q) + [Heartbeat(|net.nodes[p].history| % TWO_32)])
      else net
    case Arrive(p, q, i) =>
      if Pairing(net, p, q) && i < |Wire(net, p, q)| then
        Handled(WithWire(net, p, q, Without(Wire(net, p, q), i)), p, q, Wire(net, p, q)[i])
      else net
    case Lost(p, q, i) =>
      if Pairing(net, p, q) && i < |Wire(net, p, q)| then WithWire(net, p, q, Without(Wire(net, p, q), i)) else net
    case Gone(p, q) =>
      if Pairing(net, p, q) then net.(nodes := net.nodes[q := Forgetting(net.nodes[q], p)]) else net
  }

  function NetExec(net: Network, events: seq<NetEvent>): (t: Network)
    requires Counting(net)
    ensures Counting(t) && t.nodes.Keys == net.nodes.Keys
    decreases |events|
  {
    if events == [] then net else NetExec(NetStep(net, events[0]), events[1..])
  }

  // --------------------------------------------------- every pair is a protocol

  /** Publisher p and subscriber q as a system of the gossip protocol. */
  function Pair(net: Network, p: string, q: string): System<View>
    requires Pairing(net, p, q)
  {
    Publishing(net.nodes[p], Holds(net.nodes[q], p), Wire(net, p, q))
  }

  /** What a step of the network is to the pair: at most one event. */
  function PairEvents(net: Network, e: NetEvent, p: string, q: string): seq<Event<View>>
    requires Pairing(net, p, q)
  {
    if e.Local? then (if e.p == p then OpEvents(net.nodes[p], e.op) else [])
    else if e.p != p || e.q != q then []
    else
      [match e
       case Beat(_, _) => SendHeartbeat
       case Arrive(_, _, i) => Deliver(i)
       case Lost(_, _, i) => Lose(i)
       case Gone(_, _) => Forget]
  }

  /** Each gateway is in order, and none holds a report about itself. */
  ghost predicate NetInv(net: Network) {
    forall p :: p in net.nodes ==> NodeInv(net.nodes[p]) && p !in net.nodes[p].held
  }

  lemma StepKeepsNet(net: Network, e: NetEvent)
    requires NetInv(net) && Counting(net)
    ensures NetInv(NetStep(net, e))
  {
    hide NodeInv, LocalStep;
    if e.Local? && e.p in net.nodes {
      StepKeepsNode(net.nodes[e.p], e.op);
    } else if e.Arrive? && Pairing(net, e.p, e.q) && e.i < |Wire(net, e.p, e.q)| && Wire(net, e.p, e.q)[e.i].Response? {
      HeldKeepsNode(net.nodes[e.q], e.p, Wire(net, e.p, e.q)[e.i].report);
    } else if e.Gone? && Pairing(net, e.p, e.q) {
      HeldKeepsNode(net.nodes[e.q], e.p, Snapshot(0, map[], 0));
    }
  }

  lemma PairStep(net: Network, e: NetEvent, p: string, q: string)
    requires Pairing(net, p, q) && NetInv(net) && Counting(net)
    ensures Pair(NetStep(net, e), p, q) == Exec(Pair(net, p, q), PairEvents(net, e, p, q))
  {
    if e.Local? {
      if e.p == p {
        StepPublishes(net.nodes[p], e.op, Holds(net.nodes[q], p), Wire(net, p, q));
      }
    } else if e.p == p && e.q == q {
      PairItself(net, e, p, q);
    } else {
      OtherPair(net, e, p, q);
    }
  }

  /** A step of another pair leaves this one alone. */
  lemma OtherPair(net: Network, e: NetEvent, p: string, q: string)
    requires Pairing(net, p, q) && Counting(net) && !e.Local? && (e.p != p || e.q != q)
    ensures Pair(NetStep(net, e), p, q) == Pair(net, p, q)
  {
    hide LocalView, LocalStep, Without, Take, SeqChanged;
    if e.Arrive? && Pairing(net, e.p, e.q) && e.i < |Wire(net, e.p, e.q)| {
      var rest := WithWire(net, e.p, e.q, Without(Wire(net, e.p, e.q), e.i));
      assert Pair(rest, p, q) == Pair(net, p, q);
      OtherHandled(rest, e.p, e.q, Wire(net, e.p, e.q)[e.i], p, q);
      hide Handled;
    }
  }

  lemma OtherHandled(net: Network, a: string, b: string, packet: Packet<View>, p: string, q: string)
    requires Pairing(net, p, q) && Pairing(net, a, b) && Counting(net) && (a != p || b != q)
    ensures Pairing(Handled(net, a, b, packet), p, q)
    ensures Pair(Handled(net, a, b, packet), p, q) == Pair(net, p, q)
  {
    hide LocalView, Take, SeqChanged;
  }

  lemma PairItself(net: Network, e: NetEvent, p: string, q: string)
    requires Pairing(net, p, q) && Counting(net) && !e.Local? && e.p == p && e.q == q
    ensures Pair(NetStep(net, e), p, q) == Exec(Pair(net, p, q), PairEvents(net, e, p, q))
  {
    ExecOne(Pair(net, p, q), PairEvents(net, e, p, q)[0]);
    hide LocalView, Exec;
    if e.Arrive? && e.i < |Wire(net, p, q)| {
      var rest := WithWire(net, p, q, Without(Wire(net, p, q), e.i));
      HandledPair(rest, p, q, Wire(net, p, q)[e.i]);
      hide Handle, Handled;
      assert Pair(rest, p, q) == Pair(net, p, q).(wire := Without(Wire(net, p, q), e.i));
    } else {
      hide Handle, Handled;
    }
  }

  lemma HandledPair(net: Network, p: string, q: string, packet: Packet<View>)
    requires Pairing(net, p, q) && Counting(net)
    ensures Pair(Handled(net, p, q, packet), p, q) == Handle(Pair(net, p, q), packet)
  {
    hide LocalView;
  }

  /** Over any run of the network, each pair goes through a run of the protocol. */
  lemma {:induction false} EveryPairGossips(net: Network, events: seq<NetEvent>, p: string, q: string)
    returns (run: seq<Event<View>>)
    requires Pairing(net, p, q) && NetInv(net) && Counting(net)
    ensures NetInv(NetExec(net, events))
    ensures Pair(NetExec(net, events), p, q) == Exec(Pair(net, p, q), run)
    decreases |events|
  {
    hide NetInv, Counting, NetStep, Pair, PairEvents;
    if events == [] {
      run := [];
    } else {
      StepKeepsNet(net, events[0]);
      PairStep(net, events[0], p, q);
      var later := EveryPairGossips(NetStep(net, events[0]), events[1..], p, q);
      PairCounts(net, p, q);
      ExecAppend(Pair(net, p, q), PairEvents(net, events[0], p, q), later);
      run := PairEvents(net, events[0], p, q) + later;
    }
  }

  lemma PairCounts(net: Network, p: string, q: string)
    requires Pairing(net, p, q) && Counting(net)
    ensures Pair(net, p, q).history != []
  {
  }

  lemma StartInv(ids: set<string>)
    ensures NetInv(Start(ids)) && Start(ids).nodes.Keys == ids
    ensures forall p, q :: p in ids && q in ids && p != q ==> Pair(Start(ids), p, q) == Init(map[])
  {
    assert LocalView(map[]) == map[];
  }

  // ------------------------------------------------------------------- safety

  /** The counter q holds for p is p's, p is not sweeping, and fewer than 2^32
      changes went by since the report was read. */
  predicate CounterAgrees(net: Network, p: string, q: string)
    requires Pairing(net, p, q)
  {
    var s := Pair(net, p, q);
    && s.edit.Idle? && s.stored.Some? && s.stored.value.seqNo == CurrentSeq(s)
    && |s.history| - (s.stored.value.at + 1) < TWO_32
  }

  /** The index of gateway q, which the class keeps equal to the one built from
      the reports held. */
  ghost function IndexOf(net: Network, q: string): Index
    requires q in net.nodes
  {
    Build(Views(net.nodes[q]))
  }

  lemma AgreeingHoldsView(ids: set<string>, events: seq<NetEvent>, p: string, q: string)
    requires p in ids && q in ids && p != q
    requires CounterAgrees(NetExec(Start(ids), events), p, q)
    ensures var net := NetExec(Start(ids), events);
      p in net.nodes[q].held && net.nodes[q].held[p].content == LocalView(net.nodes[p].fronts)
  {
    StartInv(ids);
    var run := EveryPairGossips(Start(ids), events, p, q);
    EqualSeqEqualContent(map[], run);
  }

  /** Main result on the node gossip, over every run of a network of gateways with
      loss and reordering, changes and sweeps anywhere: when the counter that q
      holds for p is p's, the index of q lists p under exactly the nodes
      registered at p. And no gateway ever lists itself: pairs are of two gateways,
      since a gateway has no session to itself (Inv of Services, which
      Gateway.OnMessage uses to keep its own id out of the reports). */
  lemma IndexListsRegistered(ids: set<string>, events: seq<NetEvent>, p: string, q: string)
    requires p in ids && q in ids
    requires p != q ==> CounterAgrees(NetExec(Start(ids), events), p, q)
    ensures var net := NetExec(Start(ids), events);
      forall g, n :: (Lists(IndexOf(net, q), g, n, p) <==> p != q && Registered(net.nodes[p].fronts, g, n))
  {
    var net := NetExec(Start(ids), events);
    if p != q {
      AgreeingHoldsView(ids, events, p, q);
    } else {
      StartInv(ids);
      ReachableNet(Start(ids), events);
    }
    forall g, n
      ensures Lists(IndexOf(net, q), g, n, p) <==> p != q && Registered(net.nodes[p].fronts, g, n)
    {
      BuildLists(Views(net.nodes[q]), g, n, p);
    }
  }

  lemma {:induction false} ReachableNet(net: Network, events: seq<NetEvent>)
    requires NetInv(net) && Counting(net)
    ensures NetInv(NetExec(net, events))
    decreases |events|
  {
    hide NetInv, Counting, NetStep;
    if events != [] {
      StepKeepsNet(net, events[0]);
      ReachableNet(NetStep(net, events[0]), events[1..]);
    }
  }

  // -------------------------------------------------------------- convergence

  /** The steps of the network for events of one pair that are not local. */
  function Lift(run: seq<Event<View>>, p: string, q: string): seq<NetEvent>
    requires forall e :: e in run ==> e.SendHeartbeat? || e.Deliver?
  {
    seq(|run|, i requires 0 <= i < |run| => if run[i].SendHeartbeat? then Beat(p, q) else Arrive(p, q, run[i].i))
  }

  lemma {:induction false} LiftRun(net: Network, run: seq<Event<View>>, p: string, q: string)
    requires Pairing(net, p, q) && NetInv(net) && Counting(net)
    requires forall e :: e in run ==> e.SendHeartbeat? || e.Deliver?
    ensures Pair(NetExec(net, Lift(run, p, q)), p, q) == Exec(Pair(net, p, q), run)
    ensures NetExec(net, Lift(run, p, q)).nodes[p].fronts == net.nodes[p].fronts
    decreases |run|
  {
    hide NetInv, Counting, NetStep, Pair;
    if run != [] {
      assert run[0] in run && forall e :: e in run[1..] ==> e in run;
      var e := Lift(run, p, q)[0];
      assert Lift(run, p, q)[1..] == Lift(run[1..], p, q);
      StepKeepsNet(net, e);
      PairStep(net, e, p, q);
      PairKeepsFronts(net, e, p, q);
      assert PairEvents(net, e, p, q) == [run[0]];
      PairCounts(net, p, q);
      ExecOne(Pair(net, p, q), run[0]);
      LiftRun(NetStep(net, e), run[1..], p, q);
    }
  }

  lemma PairKeepsFronts(net: Network, e: NetEvent, p: string, q: string)
    requires Pairing(net, p, q) && Counting(net) && (e.Beat? || e.Arrive?)
    ensures NetStep(net, e).nodes[p].fronts == net.nodes[p].fronts
  {
  }

  /** From every reachable network, with anything else under way: one heartbeat
      from p to q and what it causes make the index of q list p under exactly the
      nodes registered at p. */
  lemma OneRoundSuffices(ids: set<string>, events: seq<NetEvent>, p: string, q: string)
    requires p in ids && q in ids && p != q
    requires var s := Pair(NetExec(Start(ids), events), p, q);
      s.edit.Idle? && (s.stored.Some? ==> |s.history| - (s.stored.value.at + 1) < TWO_32)
    ensures var net := NetExec(Start(ids), events);
      var after := NetExec(net, Lift(Round(Pair(net, p, q)), p, q));
      forall g, n :: (Lists(IndexOf(after, q), g, n, p) <==> Registered(net.nodes[p].fronts, g, n))
  {
    hide NetExec, NetStep, Exec, NetInv, Inv, Lists, Registered, Counting;
    ReachablePair(ids, events, p, q);
    RoundLists(NetExec(Start(ids), events), p, q);
  }

  lemma ReachablePair(ids: set<string>, events: seq<NetEvent>, p: string, q: string)
    requires p in ids && q in ids && p != q
    ensures var net := NetExec(Start(ids), events); NetInv(net) && Inv(Pair(net, p, q))
  {
    StartInv(ids);
    var run := EveryPairGossips(Start(ids), events, p, q);
    ExecKeepsInv(Init(map[]), run);
  }

  lemma RoundLists(net: Network, p: string, q: string)
    requires Pairing(net, p, q) && NetInv(net) && Counting(net)
    requires var s := Pair(net, p, q);
      Inv(s) && s.edit.Idle? && (s.stored.Some? ==> |s.history| - (s.stored.value.at + 1) < TWO_32)
    ensures var after := NetExec(net, Lift(Round(Pair(net, p, q)), p, q));
      forall g, n :: (Lists(IndexOf(after, q), g, n, p) <==> Registered(net.nodes[p].fronts, g, n))
  {
    hide NetExec, NetStep, NetInv, Inv, Lists, Registered, Counting, LocalView, Build, Views;
    RoundOfPair(net, p, q);
    HeldIsListed(NetExec(net, Lift(Round(Pair(net, p, q)), p, q)).nodes[q], p, net.nodes[p].fronts);
  }

  lemma HeldIsListed(s: Node, p: string, fronts: Fronts)
    requires p in s.held && s.held[p].content == LocalView(fronts)
    ensures forall g, n :: Lists(Build(Views(s)), g, n, p) <==> Registered(fronts, g, n)
  {
    forall g, n
      ensures Lists(Build(Views(s)), g, n, p) <==> Registered(fronts, g, n)
    {
      BuildLists(Views(s), g, n, p);
    }
  }

  lemma RoundOfPair(net: Network, p: string, q: string)
    requires Pairing(net, p, q) && NetInv(net) && Counting(net)
    requires var s := Pair(net, p, q);
      Inv(s) && s.edit.Idle? && (s.stored.Some? ==> |s.history| - (s.stored.value.at + 1) < TWO_32)
    ensures var after := NetExec(net, Lift(Round(Pair(net, p, q)), p, q));
      p in after.nodes[q].held && after.nodes[q].held[p].content == LocalView(net.nodes[p].fronts)
  {
    hide LocalView, NetInv, Counting, NetStep, NetExec, Inv;
    var s := Pair(net, p, q);
    RoundSynchronises(s);
    LiftRun(net, Round(s), p, q);
    hide Round, Lift;
    var after := NetExec(net, Lift(Round(s), p, q));
    assert InSync(Pair(after, p, q));
  }

  /** A step that neither changes p's services nor makes q forget p. */
  predicate QuietFor(e: NetEvent, p: string, q: string) {
    !(e.Local? && e.p == p) && e != Gone(p, q)
  }

  lemma {:induction false} QuietPair(net: Network, events: seq<NetEvent>, p: string, q: string)
    returns (run: seq<Event<View>>)
    requires Pairing(net, p, q) && NetInv(net) && Counting(net)
    requires forall e :: e in events ==> QuietFor(e, p, q)
    ensures Pair(NetExec(net, events), p, q) == Exec(Pair(net, p, q), run)
    ensures forall e :: e in run ==> Quiet(e)
    decreases |events|
  {
    hide NetInv, Counting, NetStep, Pair;
    if events == [] {
      run := [];
    } else {
      assert events[0] in events && forall e :: e in events[1..] ==> e in events;
      StepKeepsNet(net, events[0]);
      PairStep(net, events[0], p, q);
      var later := QuietPair(NetStep(net, events[0]), events[1..], p, q);
      var first := PairEvents(net, events[0], p, q);
      PairCounts(net, p, q);
      ExecAppend(Pair(net, p, q), first, later);
      run := first + later;
    }
  }

  /** From a reachable network in which p is not sweeping, no stale report of p is
      under way to q, and q holds the current one: as long as p's services do not
      change and q does not disconnect p, whatever else happens anywhere, the index
      of q lists p under exactly the nodes registered at p, and p's heartbeats cause
      no request of q. */
  lemma IndexStaysRight(ids: set<string>, events: seq<NetEvent>, quiet: seq<NetEvent>, p: string, q: string)
    requires p in ids && q in ids && p != q
    requires var s := Pair(NetExec(Start(ids), events), p, q);
      s.edit.Idle? && StaleIn(s, s.wire) == 0 && InSync(s)
    requires forall e :: e in quiet ==> QuietFor(e, p, q)
    ensures var net := NetExec(Start(ids), events);
      var after := NetExec(net, quiet);
      && after.nodes[p].fronts == net.nodes[p].fronts
      && (forall g, n :: (Lists(IndexOf(after, q), g, n, p) <==> Registered(net.nodes[p].fronts, g, n)))
      && !SeqChanged(Holds(after.nodes[q], p), |after.nodes[p].history| % TWO_32)
  {
    ReachablePair(ids, events, p, q);
    var net := NetExec(Start(ids), events);
    StaysRight(net, quiet, p, q);
    HeldIsListed(NetExec(net, quiet).nodes[q], p, net.nodes[p].fronts);
  }

  lemma StaysRight(net: Network, quiet: seq<NetEvent>, p: string, q: string)
    requires Pairing(net, p, q) && NetInv(net) && Counting(net)
    requires var s := Pair(net, p, q); s.edit.Idle? && StaleIn(s, s.wire) == 0 && InSync(s)
    requires forall e :: e in quiet ==> QuietFor(e, p, q)
    ensures var after := NetExec(net, quiet);
      && after.nodes[p].fronts == net.nodes[p].fronts
      && p in after.nodes[q].held && after.nodes[q].held[p].content == LocalView(net.nodes[p].fronts)
      && !SeqChanged(Holds(after.nodes[q], p), |after.nodes[p].history| % TWO_32)
  {
    hide LocalView, NetInv, Counting, NetStep, NetExec;
    var run := QuietPair(net, quiet, p, q);
    PairCounts(net, p, q);
    StaysInSync(Pair(net, p, q), run);
    QuietFronts(net, quiet, p, q);
    assert InSync(Pair(NetExec(net, quiet), p, q));
  }

  lemma {:induction false} QuietFronts(net: Network, quiet: seq<NetEvent>, p: string, q: string)
    requires Pairing(net, p, q) && Counting(net)
    requires forall e :: e in quiet ==> QuietFor(e, p, q)
    ensures NetExec(net, quiet).nodes[p].fronts == net.nodes[p].fronts
    decreases |quiet|
  {
    hide Counting, LocalStep;
    if quiet != [] {
      assert quiet[0] in quiet && forall e :: e in quiet[1..] ==> e in quiet;
      QuietFronts(NetStep(net, quiet[0]), quiet[1..], p, q);
    }
  }
}
