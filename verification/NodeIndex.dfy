/** The inverted index of GatewayNodeManager, group -> node -> gateways, and the
    reports it is built from, gateway -> group -> nodes. */
module NodeIndex {

  type View = map<string, set<string>>
  type Index = map<string, map<string, set<string>>>

  /** The index lists gateway p under node n of group g. */
  predicate Lists(ix: Index, g: string, n: string, p: string) {
    g in ix && n in ix[g] && p in ix[g][n]
  }

  /** Gateway p reported node n in group g. */
  predicate Reported(views: map<string, View>, g: string, n: string, p: string) {
    p in views && g in views[p] && n in views[p][g]
  }

  /** No group without nodes and no node without gateways. */
  predicate NoEmpties(ix: Index) {
    && (forall g :: g in ix ==> ix[g] != map[])
    && (forall g, n :: g in ix && n in ix[g] ==> ix[g][n] != {})
  }

  /** The index of a set of reports, from scratch. */
  ghost function Build(views: map<string, View>): Index {
    map g | g in Groups(views) :: map n | n in Nodes(views, g) :: Gateways(views, g, n)
  }

  ghost function Groups(views: map<string, View>): set<string> {
    set p, g | p in views && g in views[p] && views[p][g] != {} :: g
  }

  ghost function Nodes(views: map<string, View>, g: string): set<string> {
    set p, n | p in views && g in views[p] && n in views[p][g] :: n
  }

  ghost function Gateways(views: map<string, View>, g: string, n: string): set<string> {
    set p | p in views && g in views[p] && n in views[p][g]
  }

  lemma BuildLists(views: map<string, View>, g: string, n: string, p: string)
    ensures Lists(Build(views), g, n, p) <==> Reported(views, g, n, p)
  {
    if Reported(views, g, n, p) {
      assert g in Groups(views) && n in Nodes(views, g) && p in Gateways(views, g, n);
    }
  }

  lemma BuildNoEmpties(views: map<string, View>)
    ensures NoEmpties(Build(views))
  {
    var ix := Build(views);
    forall g | g in ix
      ensures ix[g] != map[]
    {
      var p :| p in views && g in views[p] && views[p][g] != {};
      var n :| n in views[p][g];
      assert n in Nodes(views, g);
      assert n in ix[g];
    }
    forall g, n | g in ix && n in ix[g]
      ensures ix[g][n] != {}
    {
      var p :| p in views && g in views[p] && n in views[p][g];
      assert p in Gateways(views, g, n);
    }
  }

  /** An index without empties is determined by what it lists. */
  lemma SameListsSameIndex(a: Index, b: Index)
    requires NoEmpties(a) && NoEmpties(b)
    requires forall g, n, p :: Lists(a, g, n, p) <==> Lists(b, g, n, p)
    ensures a == b
  {
    ListedIn(a, b);
    ListedIn(b, a);
    assert a.Keys == b.Keys;
    forall g | g in a
      ensures a[g] == b[g]
    {
      assert a[g].Keys == b[g].Keys;
      forall n | n in a[g]
        ensures a[g][n] == b[g][n]
      {
        assert forall p :: p in a[g][n] <==> Lists(a, g, n, p);
        assert forall p :: p in b[g][n] <==> Lists(b, g, n, p);
      }
    }
  }

  lemma ListedIn(a: Index, b: Index)
    requires NoEmpties(a)
    requires forall g, n, p :: Lists(a, g, n, p) ==> Lists(b, g, n, p)
    ensures forall g :: g in a ==> g in b
    ensures forall g, n :: g in a && n in a[g] ==> g in b && n in b[g]
  {
    forall g, n | g in a && n in a[g]
      ensures g in b && n in b[g]
    {
      var p :| p in a[g][n];
      assert Lists(a, g, n, p);
    }
    forall g | g in a
      ensures g in b
    {
      var n :| n in a[g];
      assert n in a[g];
    }
  }

  /** The refinement step: an index without empties that lists exactly what was
      reported is the one built from scratch. */
  lemma IsBuild(ix: Index, views: map<string, View>)
    requires NoEmpties(ix)
    requires forall g, n, p :: Lists(ix, g, n, p) <==> Reported(views, g, n, p)
    ensures ix == Build(views)
  {
    BuildNoEmpties(views);
    forall g, n, p
      ensures Lists(ix, g, n, p) <==> Lists(Build(views), g, n, p)
    {
      BuildLists(views, g, n, p);
    }
    SameListsSameIndex(ix, Build(views));
  }

  // ------------------------------------------------- removing and inserting

  function RemainingNodes(nodes: map<string, set<string>>, p: string): map<string, set<string>> {
    map n | n in nodes && nodes[n] - {p} != {} :: nodes[n] - {p}
  }

  /** The index without gateway p, and without what is empty then. */
  function Remaining(ix: Index, p: string): Index {
    map g | g in ix && RemainingNodes(ix[g], p) != map[] :: RemainingNodes(ix[g], p)
  }

  lemma RemainingLists(ix: Index, q: string)
    ensures NoEmpties(Remaining(ix, q))
    ensures forall g, n, p :: Lists(Remaining(ix, q), g, n, p) <==> Lists(ix, g, n, p) && p != q
  {
    forall g, n, p | Lists(ix, g, n, p) && p != q
      ensures Lists(Remaining(ix, q), g, n, p)
    {
      assert p in ix[g][n] - {q};
      assert n in RemainingNodes(ix[g], q);
    }
  }

  /** m_peerGatewayNodes[g][n].insert(p): missing levels are created. */
  function Insert(ix: Index, g: string, n: string, p: string): Index {
    var nodes := if g in ix then ix[g] else map[];
    var gateways := if n in nodes then nodes[n] else {};
    ix[g := nodes[n := gateways + {p}]]
  }

  lemma InsertLists(ix: Index, g: string, n: string, p: string)
    requires NoEmpties(ix)
    ensures NoEmpties(Insert(ix, g, n, p))
    ensures forall g', n', p' ::
      (Lists(Insert(ix, g, n, p), g', n', p') <==> Lists(ix, g', n', p') || (g' == g && n' == n && p' == p))
  {
    assert n in Insert(ix, g, n, p)[g];
  }

  /** Remaining, with the removal still to be done in some groups. */
  function RemainingExcept(ix: Index, p: string, todo: set<string>): Index {
    map g | g in ix && (g in todo || RemainingNodes(ix[g], p) != map[])
      :: if g in todo then ix[g] else RemainingNodes(ix[g], p)
  }

  lemma RemainingStep(ix: Index, p: string, todo: set<string>, g: string)
    requires todo <= ix.Keys && g in todo
    ensures g in RemainingExcept(ix, p, todo) && RemainingExcept(ix, p, todo)[g] == ix[g]
    ensures RemainingExcept(ix, p, todo - {g})
      == if RemainingNodes(ix[g], p) == map[] then RemainingExcept(ix, p, todo) - {g}
         else RemainingExcept(ix, p, todo)[g := RemainingNodes(ix[g], p)]
  {
    hide RemainingNodes;
  }

  lemma RemainingAll(ix: Index, p: string)
    ensures RemainingExcept(ix, p, ix.Keys) == ix && RemainingExcept(ix, p, {}) == Remaining(ix, p)
  {
    hide RemainingNodes;
  }

  /** Removing a gateway and inserting its new report gives the index of the
      reports with that one replaced. */
  lemma ReplacedReport(views: map<string, View>, p: string, view: View, ix: Index)
    requires NoEmpties(ix)
    requires forall g, n, q :: (Lists(ix, g, n, q) <==>
      Lists(Remaining(Build(views), p), g, n, q) || (q == p && g in view && n in view[g]))
    ensures ix == Build(views[p := view])
  {
    hide Build, Remaining;
    RemainingLists(Build(views), p);
    forall g, n, q
      ensures Lists(ix, g, n, q) <==> Reported(views[p := view], g, n, q)
    {
      BuildLists(views, g, n, q);
    }
    IsBuild(ix, views[p := view]);
  }

  lemma RemovedReport(views: map<string, View>, p: string)
    ensures Remaining(Build(views), p) == Build(views - {p})
  {
    hide Build, Remaining;
    RemainingLists(Build(views), p);
    forall g, n, q
      ensures Lists(Remaining(Build(views), p), g, n, q) <==> Reported(views - {p}, g, n, q)
    {
      BuildLists(views, g, n, q);
    }
    IsBuild(Remaining(Build(views), p), views - {p});
  }
}
