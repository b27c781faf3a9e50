/** The front services registered at a gateway, on values: what each operation of
    GatewayNodeManager and DynamicGatewayNodeManager makes of them, and how it
    looks to the gossip protocol. */
module FrontServices {
  import opened Wrappers
  import opened Bytes
  import opened NodeIndex
  import opened Gossip

  /** A registered front service: which object it is, and whether it was made
      from a service name (then it can become unreachable). */
  datatype FrontServiceInfo = FrontServiceInfo(service: nat, hasProxy: bool)

  type Fronts = map<string, map<string, FrontServiceInfo>>

  /** A node of a group announcement; it has no service name when not started. */
  datatype NodeInfo = NodeInfo(nodeID: string, serviceName: string)

  const TARS_ADMIN_REFRESH_INIT_TIME := 120 * 1000

  /** The group -> node ids map that a gateway publishes: a group shows with its
      first node. */
  function LocalView(fronts: Fronts): View {
    map g | g in fronts && fronts[g].Keys != {} :: fronts[g].Keys
  }

  predicate NoEmptyGroup(fronts: Fronts) {
    forall g :: g in fronts ==> fronts[g].Keys != {}
  }

  predicate Registered(fronts: Fronts, g: string, n: string) {
    g in fronts && n in fronts[g]
  }

  function Put(fronts: Fronts, g: string, n: string, info: FrontServiceInfo): Fronts {
    fronts[g := (if g in fronts then fronts[g] else map[])[n := info]]
  }

  /** The services without the one of node n in group g. */
  function Dropped(fronts: Fronts, g: string, n: string): Fronts {
    if !Registered(fronts, g, n) then fronts
    else if (fronts[g] - {n}).Keys == {} then fronts - {g}
    else fronts[g := fronts[g] - {n}]
  }

  /** Group g holds the same for node n before and after. */
  predicate SameEntry(before: Fronts, after: Fronts, g: string, n: string) {
    && (g in before && n in before[g] <==> g in after && n in after[g])
    && (g in before && n in before[g] ==> after[g][n] == before[g][n])
  }

  lemma EntriesSame(fronts: Fronts)
    ensures forall g, n :: SameEntry(fronts, fronts, g, n)
  {
  }

  /** Put stores the service it is given and touches no other entry. */
  lemma PutEntries(fronts: Fronts, g: string, n: string, info: FrontServiceInfo)
    ensures var after := Put(fronts, g, n, info);
      && g in after && n in after[g] && after[g][n] == info
      && forall h, m :: !(h == g && m == n) ==> SameEntry(fronts, after, h, m)
  {
  }

  lemma DroppedEntries(fronts: Fronts, g: string, n: string)
    ensures var after := Dropped(fronts, g, n);
      && !(g in after && n in after[g])
      && forall h, m :: !(h == g && m == n) ==> SameEntry(fronts, after, h, m)
  {
    var after := Dropped(fronts, g, n);
    if Registered(fronts, g, n) {
      assert forall m :: m in fronts[g] && m != n ==> m in (fronts[g] - {n}).Keys;
    }
  }

  lemma DroppedView(fronts: Fronts, g: string, n: string)
    requires NoEmptyGroup(fronts)
    ensures NoEmptyGroup(Dropped(fronts, g, n))
    ensures Registered(fronts, g, n) <==> LocalView(Dropped(fronts, g, n)) != LocalView(fronts)
    ensures forall h, m :: (Registered(Dropped(fronts, g, n), h, m) <==>
      Registered(fronts, h, m) && !(h == g && m == n))
  {
    var after := Dropped(fronts, g, n);
    if Registered(fronts, g, n) {
      assert n in LocalView(fronts)[g];
      assert g in LocalView(after) ==> n !in LocalView(after)[g];
      assert forall m :: m in fronts[g] && m != n ==> m in (fronts[g] - {n}).Keys;
    }
  }

  // ------------------------------------------------------------------ the sweep

  /** Which entries have no active endpoint, as the naming service tells. */
  type Endpoints = (string, string) -> bool

  predicate Unreachable(fronts: Fronts, down: Endpoints, g: string, n: string)
    requires Registered(fronts, g, n)
  {
    fronts[g][n].hasProxy && down(g, n)
  }

  function ReachableNodes(nodes: map<string, FrontServiceInfo>, down: Endpoints, g: string)
    : map<string, FrontServiceInfo>
  {
    map n | n in nodes && !(nodes[n].hasProxy && down(g, n)) :: nodes[n]
  }

  /** The same with some nodes still to be visited. */
  function ReachableExcept(nodes: map<string, FrontServiceInfo>, down: Endpoints, g: string, todo: set<string>)
    : map<string, FrontServiceInfo>
  {
    map n | n in nodes && (n in todo || !(nodes[n].hasProxy && down(g, n))) :: nodes[n]
  }

  lemma ReachableSteps(nodes: map<string, FrontServiceInfo>, down: Endpoints, g: string, todo: set<string>)
    ensures ReachableExcept(nodes, down, g, nodes.Keys) == nodes
    ensures ReachableExcept(nodes, down, g, {}) == ReachableNodes(nodes, down, g)
    ensures var before := ReachableExcept(nodes, down, g, todo);
      forall n :: n in todo && n in nodes ==> (
        n in before && before[n] == nodes[n]
        && ReachableExcept(nodes, down, g, todo - {n})
           == if nodes[n].hasProxy && down(g, n) then before - {n} else before)
  {
  }

  ghost predicate SomeUnreachable(nodes: map<string, FrontServiceInfo>, down: Endpoints, g: string) {
    exists n :: n in nodes && nodes[n].hasProxy && down(g, n)
  }

  /** What a sweep leaves: the reachable services, and no empty group. */
  function Swept(fronts: Fronts, down: Endpoints): Fronts {
    map g | g in fronts && ReachableNodes(fronts[g], down, g).Keys != {} :: ReachableNodes(fronts[g], down, g)
  }

  /** A sweep changes the published view exactly when a service is unreachable. */
  lemma SweptView(fronts: Fronts, down: Endpoints)
    requires NoEmptyGroup(fronts)
    ensures NoEmptyGroup(Swept(fronts, down))
    ensures LocalView(Swept(fronts, down)) == LocalView(fronts)
      <==> forall g, n :: Registered(fronts, g, n) ==> !Unreachable(fronts, down, g, n)
    ensures forall g, n :: (Registered(Swept(fronts, down), g, n) <==>
      Registered(fronts, g, n) && !Unreachable(fronts, down, g, n))
  {
    var after := Swept(fronts, down);
    forall g, n | Registered(fronts, g, n) && !Unreachable(fronts, down, g, n)
      ensures Registered(after, g, n)
    {
      assert n in ReachableNodes(fronts[g], down, g);
    }
    if LocalView(after) == LocalView(fronts) {
      assert LocalView(after).Keys == after.Keys && LocalView(fronts).Keys == fronts.Keys;
      forall g, n | Registered(fronts, g, n)
        ensures !Unreachable(fronts, down, g, n)
      {
        assert LocalView(fronts)[g] == LocalView(after)[g] == after[g].Keys;
      }
    }
    if forall g, n :: Registered(fronts, g, n) ==> !Unreachable(fronts, down, g, n) {
      forall g | g in fronts
        ensures g in after && after[g] == fronts[g]
      {
        assert forall n :: n in fronts[g] ==> Registered(fronts, g, n);
        assert ReachableNodes(fronts[g], down, g) == fronts[g];
      }
    }
  }

  /** Sweeping, with some groups still to be visited. */
  function SweptExcept(fronts: Fronts, down: Endpoints, todo: set<string>): Fronts {
    map g | g in fronts && (g in todo || ReachableNodes(fronts[g], down, g).Keys != {})
      :: if g in todo then fronts[g] else ReachableNodes(fronts[g], down, g)
  }

  ghost predicate ErasedSome(fronts: Fronts, down: Endpoints, todo: set<string>) {
    exists g :: g in fronts && g !in todo && SomeUnreachable(fronts[g], down, g)
  }

  lemma SweptStep(fronts: Fronts, down: Endpoints, todo: set<string>, g: string)
    requires NoEmptyGroup(fronts) && todo <= fronts.Keys && g in todo
    ensures g in SweptExcept(fronts, down, todo) && SweptExcept(fronts, down, todo)[g] == fronts[g]
    ensures var nodes := ReachableNodes(fronts[g], down, g);
      && SweptExcept(fronts, down, todo - {g})
         == (if nodes.Keys == {} then SweptExcept(fronts, down, todo) - {g}
             else SweptExcept(fronts, down, todo)[g := nodes])
      && (nodes.Keys == {} ==> SomeUnreachable(fronts[g], down, g))
      && (ErasedSome(fronts, down, todo - {g}) <==>
            ErasedSome(fronts, down, todo) || SomeUnreachable(fronts[g], down, g))
  {
    var nodes := ReachableNodes(fronts[g], down, g);
    if nodes.Keys == {} {
      var n :| n in fronts[g].Keys;
      assert n !in nodes;
    }
    hide ReachableNodes, SomeUnreachable;
  }

  lemma SweptAll(fronts: Fronts, down: Endpoints)
    requires NoEmptyGroup(fronts)
    ensures SweptExcept(fronts, down, fronts.Keys) == fronts && !ErasedSome(fronts, down, fronts.Keys)
    ensures SweptExcept(fronts, down, {}) == Swept(fronts, down) && NoEmptyGroup(Swept(fronts, down))
    ensures ErasedSome(fronts, down, {}) <==> LocalView(Swept(fronts, down)) != LocalView(fronts)
  {
    SweptView(fronts, down);
    forall g, n | Registered(fronts, g, n) && Unreachable(fronts, down, g, n)
      ensures SomeUnreachable(fronts[g], down, g) && ErasedSome(fronts, down, {})
    {
    }
    if ErasedSome(fronts, down, {}) {
      var g :| g in fronts && SomeUnreachable(fronts[g], down, g);
      var n :| n in fronts[g] && fronts[g][n].hasProxy && down(g, n);
      assert Registered(fronts, g, n);
    }
  }

  // --------------------------------------------------- the group announcement

  predicate Inserts(fronts: Fronts, g: string, info: NodeInfo) {
    !Registered(fronts, g, info.nodeID) && info.serviceName != ""
  }

  function InsertAll(fronts: Fronts, g: string, infos: seq<NodeInfo>, client: string -> FrontServiceInfo): Fronts
    decreases |infos|
  {
    if infos == [] then fronts
    else InsertAll(if Inserts(fronts, g, infos[0])
                   then Put(fronts, g, infos[0].nodeID, client(infos[0].serviceName)) else fronts,
                   g, infos[1..], client)
  }

  /** The views published on the way, one for each node inserted. */
  function InsertedViews(fronts: Fronts, g: string, infos: seq<NodeInfo>, client: string -> FrontServiceInfo): seq<View>
    decreases |infos|
  {
    if infos == [] then []
    else if Inserts(fronts, g, infos[0]) then
      var after := Put(fronts, g, infos[0].nodeID, client(infos[0].serviceName));
      [LocalView(after)] + InsertedViews(after, g, infos[1..], client)
    else InsertedViews(fronts, g, infos[1..], client)
  }

  function NodesOf(fronts: Fronts, g: string): set<string> {
    if g in fronts then fronts[g].Keys else {}
  }

  /** The nodes of an announcement that are started. */
  function Started(infos: seq<NodeInfo>): set<string> {
    set i | 0 <= i < |infos| && infos[i].serviceName != "" :: infos[i].nodeID
  }

  lemma StartedCons(infos: seq<NodeInfo>)
    requires infos != []
    ensures Started(infos)
      == Started(infos[1..]) + if infos[0].serviceName != "" then {infos[0].nodeID} else {}
  {
    forall n | n in Started(infos)
      ensures n in Started(infos[1..]) || (n == infos[0].nodeID && infos[0].serviceName != "")
    {
      var i :| 0 <= i < |infos| && infos[i].serviceName != "" && infos[i].nodeID == n;
      assert i > 0 ==> infos[1..][i - 1] == infos[i];
    }
    forall n | n in Started(infos[1..])
      ensures n in Started(infos)
    {
      var i :| 0 <= i < |infos[1..]| && infos[1..][i].serviceName != "" && infos[1..][i].nodeID == n;
      assert infos[i + 1].nodeID == n && infos[i + 1].serviceName != "";
    }
  }

  /** Besides the nodes added to group g nothing differs from before to after. */
  ghost predicate Extends(before: Fronts, after: Fronts, g: string, added: set<string>) {
    && NodesOf(after, g) == NodesOf(before, g) + added
    && (forall h :: h != g ==> NodesOf(after, h) == NodesOf(before, h))
    && (forall h, n :: Registered(before, h, n) ==> Registered(after, h, n) && after[h][n] == before[h][n])
  }

  lemma PutExtends(fronts: Fronts, g: string, n: string, info: FrontServiceInfo)
    requires NoEmptyGroup(fronts) && !Registered(fronts, g, n)
    ensures var after := Put(fronts, g, n, info);
      && NoEmptyGroup(after) && Extends(fronts, after, g, {n})
      && |NodesOf(after, g)| == |NodesOf(fronts, g)| + 1
      && LocalView(after) != LocalView(fronts)
  {
    hide NoEmptyGroup, NodesOf;
    PutNodes(fronts, g, n, info);
    PutKeeps(fronts, g, n, info);
    PutChangesView(fronts, g, n, info);
  }

  lemma PutChangesView(fronts: Fronts, g: string, n: string, info: FrontServiceInfo)
    requires !Registered(fronts, g, n)
    ensures LocalView(Put(fronts, g, n, info)) != LocalView(fronts)
  {
    assert n in Put(fronts, g, n, info)[g].Keys;
    assert n in LocalView(Put(fronts, g, n, info))[g];
    if g in LocalView(fronts) {
      assert n !in LocalView(fronts)[g];
    } else {
      assert g !in LocalView(fronts);
    }
  }

  lemma PutNodes(fronts: Fronts, g: string, n: string, info: FrontServiceInfo)
    requires !Registered(fronts, g, n)
    ensures NodesOf(Put(fronts, g, n, info), g) == NodesOf(fronts, g) + {n}
    ensures |NodesOf(Put(fronts, g, n, info), g)| == |NodesOf(fronts, g)| + 1
    ensures forall h :: h != g ==> NodesOf(Put(fronts, g, n, info), h) == NodesOf(fronts, h)
  {
    assert n !in NodesOf(fronts, g);
    assert NodesOf(Put(fronts, g, n, info), g) == NodesOf(fronts, g) + {n};
  }

  lemma PutKeeps(fronts: Fronts, g: string, n: string, info: FrontServiceInfo)
    requires NoEmptyGroup(fronts) && !Registered(fronts, g, n)
    ensures var after := Put(fronts, g, n, info);
      && NoEmptyGroup(after)
      && forall h, m :: Registered(fronts, h, m) ==> Registered(after, h, m) && after[h][m] == fronts[h][m]
  {
    assert n in Put(fronts, g, n, info)[g].Keys;
  }

  lemma ExtendsTransitive(a: Fronts, b: Fronts, c: Fronts, g: string, x: set<string>, y: set<string>)
    requires Extends(a, b, g, x) && Extends(b, c, g, y)
    ensures Extends(a, c, g, y + x)
  {
  }

  /** An announcement adds exactly the started nodes, replaces nothing, and
      publishes one view per node added, the last one being the result. */
  lemma {:induction false} InsertedViewsSpec(fronts: Fronts, g: string, infos: seq<NodeInfo>,
      client: string -> FrontServiceInfo)
    requires NoEmptyGroup(fronts)
    ensures var (after, views) := (InsertAll(fronts, g, infos, client), InsertedViews(fronts, g, infos, client));
      && NoEmptyGroup(after) && Extends(fronts, after, g, Started(infos))
      && |views| == |NodesOf(after, g)| - |NodesOf(fronts, g)|
      && (if views == [] then after == fronts else views[|views| - 1] == LocalView(after))
    decreases |infos|
  {
    hide Extends, Put, Started, NodesOf, LocalView, NoEmptyGroup, Inserts;
    if infos == [] {
      ExtendsReflexive(fronts, g, infos);
    } else {
      var rest := infos[1..];
      StartedCons(infos);
      if Inserts(fronts, g, infos[0]) {
        InsertFirst(fronts, g, infos, client);
        var next := Put(fronts, g, infos[0].nodeID, client(infos[0].serviceName));
        InsertedViewsSpec(next, g, rest, client);
        assert InsertAll(fronts, g, infos, client) == InsertAll(next, g, rest, client);
        assert InsertedViews(fronts, g, infos, client)
          == [LocalView(next)] + InsertedViews(next, g, rest, client);
        ExtendsTransitive(fronts, next, InsertAll(next, g, rest, client), g, {infos[0].nodeID}, Started(rest));
      } else {
        InsertedViewsSpec(fronts, g, rest, client);
        StartedPresent(fronts, InsertAll(fronts, g, rest, client), g, infos[0], rest);
      }
    }
  }

  /** The service an announcement stores for a node that was not registered: the
      client made from the service name of the first entry that starts the node. */
  lemma {:induction false} InsertedServices(fronts: Fronts, g: string, infos: seq<NodeInfo>,
      client: string -> FrontServiceInfo, i: nat)
    requires i < |infos| && infos[i].serviceName != "" && !(g in fronts && infos[i].nodeID in fronts[g])
    requires forall j :: 0 <= j < i ==> infos[j].nodeID != infos[i].nodeID || infos[j].serviceName == ""
    ensures var after := InsertAll(fronts, g, infos, client); var n := infos[i].nodeID;
      g in after && n in after[g] && after[g][n] == client(infos[i].serviceName)
    decreases i
  {
    var rest := infos[1..];
    var next := if Inserts(fronts, g, infos[0])
      then Put(fronts, g, infos[0].nodeID, client(infos[0].serviceName)) else fronts;
    assert InsertAll(fronts, g, infos, client) == InsertAll(next, g, rest, client);
    if i == 0 {
      assert next[g][infos[0].nodeID] == client(infos[0].serviceName);
      InsertAllKeeps(next, g, rest, client, g, infos[0].nodeID);
    } else {
      assert infos[0].nodeID != infos[i].nodeID || infos[0].serviceName == "";
      InsertedServices(next, g, rest, client, i - 1);
    }
  }

  /** An entry that is there stays as it is. */
  lemma {:induction false} InsertAllKeeps(fronts: Fronts, g: string, infos: seq<NodeInfo>,
      client: string -> FrontServiceInfo, h: string, n: string)
    requires h in fronts && n in fronts[h]
    ensures var after := InsertAll(fronts, g, infos, client); h in after && n in after[h] && after[h][n] == fronts[h][n]
    decreases |infos|
  {
    if infos != [] {
      var next := if Inserts(fronts, g, infos[0])
        then Put(fronts, g, infos[0].nodeID, client(infos[0].serviceName)) else fronts;
      InsertAllKeeps(next, g, infos[1..], client, h, n);
    }
  }

  /** Only nodes of the group that some entry starts are new. */
  lemma {:induction false} InsertAllAdds(fronts: Fronts, g: string, infos: seq<NodeInfo>,
      client: string -> FrontServiceInfo, h: string, n: string)
    requires !(h in fronts && n in fronts[h])
    requires h in InsertAll(fronts, g, infos, client) && n in InsertAll(fronts, g, infos, client)[h]
    ensures h == g && exists i :: 0 <= i < |infos| && infos[i].nodeID == n && infos[i].serviceName != ""
    decreases |infos|
  {
    if infos != [] {
      var next := if Inserts(fronts, g, infos[0])
        then Put(fronts, g, infos[0].nodeID, client(infos[0].serviceName)) else fronts;
      if !(h in next && n in next[h]) {
        InsertAllAdds(next, g, infos[1..], client, h, n);
        var i :| 0 <= i < |infos[1..]| && infos[1..][i].nodeID == n && infos[1..][i].serviceName != "";
        assert infos[i + 1].nodeID == n;
      }
    }
  }

  /** Entry i is the first that starts its node, and the node is new. */
  predicate Starts(fronts: Fronts, g: string, infos: seq<NodeInfo>, i: nat)
    requires i < |infos|
  {
    && infos[i].serviceName != "" && !(g in fronts && infos[i].nodeID in fronts[g])
    && forall j :: 0 <= j < i ==> infos[j].nodeID != infos[i].nodeID || infos[j].serviceName == ""
  }

  ghost predicate StartsNode(fronts: Fronts, g: string, infos: seq<NodeInfo>, n: string) {
    exists i :: 0 <= i < |infos| && Starts(fronts, g, infos, i) && infos[i].nodeID == n
  }

  /** An announcement stores for each new node the client of the first entry that
      starts it, and leaves every other entry as it was. */
  lemma AnnouncedEntries(fronts: Fronts, g: string, infos: seq<NodeInfo>, client: string -> FrontServiceInfo)
    ensures var after := InsertAll(fronts, g, infos, client);
      && (forall i :: 0 <= i < |infos| && Starts(fronts, g, infos, i) ==>
        && g in after && infos[i].nodeID in after[g] && after[g][infos[i].nodeID] == client(infos[i].serviceName))
      && (forall h, n :: !(h == g && StartsNode(fronts, g, infos, n)) ==> SameEntry(fronts, after, h, n))
  {
    var after := InsertAll(fronts, g, infos, client);
    forall i | 0 <= i < |infos| && Starts(fronts, g, infos, i)
      ensures g in after && infos[i].nodeID in after[g] && after[g][infos[i].nodeID] == client(infos[i].serviceName)
    {
      InsertedServices(fronts, g, infos, client, i);
    }
    forall h, n | !(h == g && StartsNode(fronts, g, infos, n))
      ensures SameEntry(fronts, after, h, n)
    {
      if h in fronts && n in fronts[h] {
        InsertAllKeeps(fronts, g, infos, client, h, n);
      } else if h in after && n in after[h] {
        InsertAllAdds(fronts, g, infos, client, h, n);
        var i := FirstStart(infos, n);
        assert Starts(fronts, g, infos, i);
      }
    }
  }

  lemma {:induction false} FirstStart(infos: seq<NodeInfo>, n: string) returns (i: nat)
    requires exists k :: 0 <= k < |infos| && infos[k].nodeID == n && infos[k].serviceName != ""
    ensures i < |infos| && infos[i].nodeID == n && infos[i].serviceName != ""
    ensures forall j :: 0 <= j < i ==> infos[j].nodeID != n || infos[j].serviceName == ""
    decreases |infos|
  {
    if infos[0].nodeID == n && infos[0].serviceName != "" {
      i := 0;
    } else {
      var k :| 0 <= k < |infos| && infos[k].nodeID == n && infos[k].serviceName != "";
      assert infos[1..][k - 1] == infos[k];
      var later := FirstStart(infos[1..], n);
      i := later + 1;
    }
  }

  lemma SweptEntries(fronts: Fronts, down: Endpoints)
    requires NoEmptyGroup(fronts)
    ensures var after := Swept(fronts, down);
      forall g, n ::
        if g in fronts && n in fronts[g] && fronts[g][n].hasProxy && down(g, n)
        then !(g in after && n in after[g]) else SameEntry(fronts, after, g, n)
  {
    var after := Swept(fronts, down);
    SweptView(fronts, down);
    forall g, n
      ensures if g in fronts && n in fronts[g] && fronts[g][n].hasProxy && down(g, n)
        then !(g in after && n in after[g]) else SameEntry(fronts, after, g, n)
    {
      assert Registered(after, g, n) <==> Registered(fronts, g, n) && !Unreachable(fronts, down, g, n);
    }
  }

  lemma ExtendsReflexive(fronts: Fronts, g: string, infos: seq<NodeInfo>)
    requires infos == []
    ensures Extends(fronts, fronts, g, Started(infos))
  {
  }

  lemma InsertFirst(fronts: Fronts, g: string, infos: seq<NodeInfo>, client: string -> FrontServiceInfo)
    requires NoEmptyGroup(fronts) && infos != [] && Inserts(fronts, g, infos[0])
    ensures var after := Put(fronts, g, infos[0].nodeID, client(infos[0].serviceName));
      && NoEmptyGroup(after) && Extends(fronts, after, g, {infos[0].nodeID})
      && |NodesOf(after, g)| == |NodesOf(fronts, g)| + 1
      && infos[0].serviceName != ""
  {
    PutExtends(fronts, g, infos[0].nodeID, client(infos[0].serviceName));
  }

  lemma StartedPresent(fronts: Fronts, after: Fronts, g: string, info: NodeInfo, rest: seq<NodeInfo>)
    requires !Inserts(fronts, g, info) && Extends(fronts, after, g, Started(rest))
    ensures Extends(fronts, after, g, Started(rest) + if info.serviceName != "" then {info.nodeID} else {})
  {
  }

  lemma AnnounceStep(fronts: Fronts, g: string, infos: seq<NodeInfo>, i: nat,
      client: string -> FrontServiceInfo, done: seq<View>)
    requires i < |infos|
    ensures Inserts(fronts, g, infos[i])
      <==> !Registered(fronts, g, infos[i].nodeID) && infos[i].serviceName != ""
    ensures var next := if Inserts(fronts, g, infos[i])
        then Put(fronts, g, infos[i].nodeID, client(infos[i].serviceName)) else fronts;
      && InsertAll(fronts, g, infos[i..], client) == InsertAll(next, g, infos[i + 1..], client)
      && done + InsertedViews(fronts, g, infos[i..], client)
         == (if Inserts(fronts, g, infos[i]) then done + [LocalView(next)] else done)
            + InsertedViews(next, g, infos[i + 1..], client)
  {
    hide Put, LocalView;
    assert infos[i..][0] == infos[i] && infos[i..][1..] == infos[i + 1..];
  }

  lemma AnnounceNothing(fronts: Fronts, g: string, infos: seq<NodeInfo>, client: string -> FrontServiceInfo)
    requires infos == []
    ensures InsertAll(fronts, g, infos, client) == fronts && InsertedViews(fronts, g, infos, client) == []
  {
  }

  // ------------------------------------------------- a gateway as a publisher

  /** A gateway to the gossip protocol: its services, the view under each value of
      its counter, whether a sweep is under way, and the reports it holds. */
  datatype Node = Node(
    fronts: Fronts,
    history: seq<View>,
    edit: Edit,
    held: map<string, Snapshot<View>>)

  const NEW_NODE := Node(map[], [map[]], Idle, map[])

  /** What happens under one exclusive lock of the services. A sweep gives the
      lock back to readers between its steps. */
  datatype LocalOp =
    | Register(g: string, n: string, info: FrontServiceInfo)
    | Unregister(g: string, n: string)
    | OpenSweep
    | EraseNode(g: string, n: string)
    | EraseGroup(g: string)
    | CloseSweep

  function Erased(fronts: Fronts, g: string, n: string): Fronts
    requires Registered(fronts, g, n)
  {
    fronts[g := fronts[g] - {n}]
  }

  function CountedChange(s: Node, fronts: Fronts): Node {
    s.(fronts := fronts, history := s.history + [LocalView(fronts)])
  }

  function LocalStep(s: Node, op: LocalOp): (t: Node)
    ensures t.held == s.held && s.history <= t.history
  {
    match op
    case Register(g, n, info) =>
      if s.edit.Idle? && !Registered(s.fronts, g, n) then CountedChange(s, Put(s.fronts, g, n, info)) else s
    case Unregister(g, n) =>
      if s.edit.Idle? && Registered(s.fronts, g, n) then CountedChange(s, Dropped(s.fronts, g, n)) else s
    case OpenSweep => if s.edit.Idle? then s.(edit := Sweeping(false)) else s
    case EraseNode(g, n) =>
      if s.edit.Sweeping? && Registered(s.fronts, g, n) then
        s.(fronts := Erased(s.fronts, g, n), edit := Sweeping(true))
      else s
    case EraseGroup(g) =>
      if s.edit.Sweeping? && g in s.fronts && s.fronts[g].Keys == {} then
        s.(fronts := s.fronts - {g}, edit := Sweeping(true))
      else s
    case CloseSweep =>
      if s.edit.Sweeping? && NoEmptyGroup(s.fronts) then
        (if s.edit.updated then CountedChange(s, s.fronts) else s).(edit := Idle)
      else s
  }

  function LocalRun(s: Node, ops: seq<LocalOp>): Node
    decreases |ops|
  {
    if ops == [] then s else LocalRun(LocalStep(s, ops[0]), ops[1..])
  }

  ghost predicate NodeInv(s: Node) {
    && s.history != []
    && (s.edit != Sweeping(true) ==> NoEmptyGroup(s.fronts) && s.history[|s.history| - 1] == LocalView(s.fronts))
  }

  /** The gateway as the publisher of a system of the protocol. */
  function Publishing(s: Node, stored: Option<Snapshot<View>>, wire: seq<Packet<View>>): System<View> {
    System(s.history, LocalView(s.fronts), s.edit, stored, wire)
  }

  /** The protocol's event for an operation; none if it has no effect. */
  function OpEvents(s: Node, op: LocalOp): (events: seq<Event<View>>)
    ensures |events| <= 1
  {
    var t := LocalStep(s, op);
    if t == s then []
    else
      [match op
       case Register(_, _, _) => Change(LocalView(t.fronts))
       case Unregister(_, _) => Change(LocalView(t.fronts))
       case OpenSweep => BeginSweep
       case EraseNode(_, _) => Erase(LocalView(t.fronts))
       case EraseGroup(_) => Erase(LocalView(t.fronts))
       case CloseSweep => EndSweep]
  }

  function RunEvents(s: Node, ops: seq<LocalOp>): seq<Event<View>>
    decreases |ops|
  {
    if ops == [] then [] else OpEvents(s, ops[0]) + RunEvents(LocalStep(s, ops[0]), ops[1..])
  }

  /** Every operation is a step of the protocol's publisher, whatever the
      subscriber holds and whatever is under way. */
  lemma StepPublishes(s: Node, op: LocalOp, stored: Option<Snapshot<View>>, wire: seq<Packet<View>>)
    requires NodeInv(s)
    ensures var t := LocalStep(s, op);
      && NodeInv(t) && t.held == s.held
      && Publishing(t, stored, wire) == Exec(Publishing(s, stored, wire), OpEvents(s, op))
  {
    var t, x := LocalStep(s, op), Publishing(s, stored, wire);
    StepKeepsNode(s, op);
    if t != s {
      ExecOne(x, OpEvents(s, op)[0]);
      hide LocalView, Put, Dropped, Erased, NoEmptyGroup;
      assert Publishing(t, stored, wire) == Step(x, OpEvents(s, op)[0]);
    }
  }

  lemma StepKeepsNode(s: Node, op: LocalOp)
    requires NodeInv(s)
    ensures NodeInv(LocalStep(s, op))
  {
    hide LocalView;
    match op
    case Register(g, n, info) => {
      if !Registered(s.fronts, g, n) && s.edit.Idle? {
        PutKeeps(s.fronts, g, n, info);
      }
    }
    case Unregister(g, n) => {
      if s.edit.Idle? {
        DroppedView(s.fronts, g, n);
      }
    }
    case _ =>
  }

  /** Every run of operations is a run of the protocol's publisher. */
  lemma {:induction false} RunPublishes(s: Node, ops: seq<LocalOp>,
      stored: Option<Snapshot<View>>, wire: seq<Packet<View>>)
    requires NodeInv(s)
    ensures var t := LocalRun(s, ops);
      && NodeInv(t) && t.held == s.held
      && Publishing(t, stored, wire) == Exec(Publishing(s, stored, wire), RunEvents(s, ops))
    decreases |ops|
  {
    hide NodeInv, OpEvents, LocalStep;
    if ops != [] {
      var next := LocalStep(s, ops[0]);
      StepPublishes(s, ops[0], stored, wire);
      RunPublishes(next, ops[1..], stored, wire);
      NodeHistory(s);
      hide Publishing;
      ExecAppend(Publishing(s, stored, wire), OpEvents(s, ops[0]), RunEvents(next, ops[1..]));
    }
  }

  lemma NodeHistory(s: Node)
    requires NodeInv(s)
    ensures s.history != []
  {
  }

  lemma {:induction false} RunSnoc(s: Node, ops: seq<LocalOp>, op: LocalOp)
    ensures LocalRun(s, ops + [op]) == LocalStep(LocalRun(s, ops), op)
    decreases |ops|
  {
    hide LocalStep;
    if ops == [] {
      assert ([] + [op])[1..] == [];
    } else {
      assert (ops + [op])[1..] == ops[1..] + [op];
      RunSnoc(LocalStep(s, ops[0]), ops[1..], op);
    }
  }

  // ------------------------------------------- the two compound operations

  /** The registrations of an announcement. */
  function Announced(g: string, infos: seq<NodeInfo>, client: string -> FrontServiceInfo): seq<LocalOp> {
    if infos == [] then []
    else if infos[0].serviceName == "" then Announced(g, infos[1..], client)
    else [Register(g, infos[0].nodeID, client(infos[0].serviceName))] + Announced(g, infos[1..], client)
  }

  /** An announcement is a run of registrations. */
  lemma {:induction false} AnnouncedRun(s: Node, g: string, infos: seq<NodeInfo>, client: string -> FrontServiceInfo)
    requires s.edit.Idle?
    ensures LocalRun(s, Announced(g, infos, client))
      == s.(fronts := InsertAll(s.fronts, g, infos, client),
            history := s.history + InsertedViews(s.fronts, g, infos, client))
    decreases |infos|
  {
    if infos == [] {
      assert s.history + [] == s.history;
    } else {
      AnnounceFirst(s, g, infos, client);
      hide InsertAll, InsertedViews, LocalStep;
      var rest, later := infos[1..], Announced(g, infos[1..], client);
      if infos[0].serviceName == "" {
        AnnouncedRun(s, g, rest, client);
      } else {
        var op := Register(g, infos[0].nodeID, client(infos[0].serviceName));
        assert ([op] + later)[1..] == later;
        AnnouncedRun(LocalStep(s, op), g, rest, client);
      }
    }
  }

  lemma AnnounceFirst(s: Node, g: string, infos: seq<NodeInfo>, client: string -> FrontServiceInfo)
    requires s.edit.Idle? && infos != []
    ensures var next := if infos[0].serviceName == "" then s
        else LocalStep(s, Register(g, infos[0].nodeID, client(infos[0].serviceName)));
      && next == s.(fronts := next.fronts, history := next.history)
      && InsertAll(s.fronts, g, infos, client) == InsertAll(next.fronts, g, infos[1..], client)
      && s.history + InsertedViews(s.fronts, g, infos, client)
         == next.history + InsertedViews(next.fronts, g, infos[1..], client)
  {
    hide Put, LocalView, InsertAll, InsertedViews;
    AnnounceStep(s.fronts, g, infos, 0, client, s.history);
    assert infos[0..] == infos;
    FirstOp(s, g, infos[0], client);
    hide LocalStep, Inserts;
  }

  lemma FirstOp(s: Node, g: string, info: NodeInfo, client: string -> FrontServiceInfo)
    requires s.edit.Idle?
    ensures var next := LocalStep(s, Register(g, info.nodeID, client(info.serviceName)));
      if info.serviceName == "" then !Inserts(s.fronts, g, info)
      else if Inserts(s.fronts, g, info) then
        next == CountedChange(s, Put(s.fronts, g, info.nodeID, client(info.serviceName)))
      else next == s
  {
  }

  /** An announcement as the protocol sees it: one change for each node inserted. */
  lemma AnnouncedChanges(s: Node, g: string, infos: seq<NodeInfo>, client: string -> FrontServiceInfo)
    requires NodeInv(s) && s.edit.Idle?
    ensures Publishing(LocalRun(s, Announced(g, infos, client)), None, [])
      == Exec(Publishing(s, None, []), Changes(InsertedViews(s.fronts, g, infos, client)))
  {
    AnnouncedRun(s, g, infos, client);
    InsertedViewsSpec(s.fronts, g, infos, client);
    HistoryOfChanges(Publishing(s, None, []), InsertedViews(s.fronts, g, infos, client));
  }

  predicate Erases(op: LocalOp) {
    op.EraseNode? || op.EraseGroup?
  }

  /** The operations of a sweep that has not ended. */
  predicate SweepStarted(ops: seq<LocalOp>) {
    ops != [] && ops[0] == OpenSweep && forall i :: 0 < i < |ops| ==> Erases(ops[i])
  }

  /** The operations of a whole sweep. */
  predicate SweepRun(ops: seq<LocalOp>) {
    ops != [] && ops[|ops| - 1] == CloseSweep && SweepStarted(ops[..|ops| - 1])
  }

  /** What the method of the sweep needs at its start and at its end. */
  lemma SweepOpens(s: Node)
    requires NodeInv(s) && s.edit.Idle?
    ensures LocalRun(s, []) == s && RunEvents(s, []) == []
    ensures Exec(Publishing(s, None, []), []) == Publishing(s, None, [])
    ensures var t := s.(edit := Sweeping(false));
      LocalRun(s, [OpenSweep]) == t && NodeInv(t) && NoEmptyGroup(t.fronts) && SweepStarted([OpenSweep])
  {
    RunSnoc(s, [], OpenSweep);
    assert [] + [OpenSweep] == [OpenSweep];
  }

  lemma SweepCloses(s: Node, ops: seq<LocalOp>)
    requires SweepStarted(ops) && NodeInv(LocalRun(s, ops))
    requires LocalRun(s, ops).edit.Sweeping? && NoEmptyGroup(LocalRun(s, ops).fronts)
    ensures var t := LocalRun(s, ops); var u := LocalRun(s, ops + [CloseSweep]);
      && u == (if t.edit.updated then CountedChange(t, t.fronts) else t).(edit := Idle)
      && NodeInv(u) && SweepRun(ops + [CloseSweep])
  {
    RunSnoc(s, ops, CloseSweep);
    StepKeepsNode(LocalRun(s, ops), CloseSweep);
    assert (ops + [CloseSweep])[..|ops|] == ops;
  }

  lemma InsertOne(s: Node, g: string, n: string, info: FrontServiceInfo)
    requires NodeInv(s) && s.edit.Idle? && !Registered(s.fronts, g, n)
    ensures NodeInv(CountedChange(s, Put(s.fronts, g, n, info)))
  {
    StepKeepsNode(s, Register(g, n, info));
  }

  // ------------------------------------------------ a gateway as a subscriber

  function Holds(s: Node, p: string): Option<Snapshot<View>> {
    if p in s.held then Some(s.held[p]) else None
  }

  function WithReport(s: Node, p: string, report: Snapshot<View>): Node {
    s.(held := s.held[p := report])
  }

  function Forgetting(s: Node, p: string): Node {
    s.(held := s.held - {p})
  }

  lemma HeldKeepsNode(s: Node, p: string, report: Snapshot<View>)
    requires NodeInv(s)
    ensures NodeInv(WithReport(s, p, report)) && NodeInv(Forgetting(s, p))
  {
  }

  /** The contents of the reports held. */
  function Views(s: Node): map<string, View> {
    map p | p in s.held :: s.held[p].content
  }
}
