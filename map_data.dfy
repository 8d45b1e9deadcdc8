/** The map fixture: the ten-node weighted road graph, the store location and the three
    partners the application starts with, with the facts about them the dispatcher relies on. */
module MapData {
  import opened Options
  import opened Graphs
  import opened ShortestPaths
  import opened Routing
  import opened Domain

  /** The road graph; every road is listed from both ends with the same length. */
  const MapGraph: Graph := map[
    "A" := [("B", 4), ("C", 2)],
    "B" := [("A", 4), ("C", 1), ("D", 5), ("E", 3)],
    "C" := [("A", 2), ("B", 1), ("D", 8), ("F", 10)],
    "D" := [("B", 5), ("C", 8), ("E", 2), ("G", 3)],
    "E" := [("B", 3), ("D", 2), ("F", 4), ("H", 6)],
    "F" := [("C", 10), ("E", 4), ("I", 1)],
    "G" := [("D", 3), ("H", 2), ("J", 4)],
    "H" := [("E", 6), ("G", 2), ("I", 3), ("J", 1)],
    "I" := [("F", 1), ("H", 3), ("J", 2)],
    "J" := [("G", 4), ("H", 1), ("I", 2)]]

  const StoreLocation: Node := "A"

  /** A partner as listed in the fixture. */
  datatype Seed = Seed(id: int, name: string, location: Node)

  const SeedPartners: seq<Seed> := [Seed(1, "Ravi", "A"), Seed(2, "Neha", "D"), Seed(3, "Arjun", "H")]

  /** The length of a shortest route from the store to each node. */
  const FromStore: map<Node, nat> := map[
    "A" := 0, "B" := 3, "C" := 2, "D" := 8, "E" := 6,
    "F" := 10, "G" := 11, "H" := 12, "I" := 11, "J" := 13]

  /** The node before each node on one shortest route from the store. */
  const Via: map<Node, Node> := map[
    "B" := "C", "C" := "A", "D" := "B", "E" := "B", "F" := "E",
    "G" := "D", "H" := "E", "I" := "F", "J" := "I"]

  /** No adjacency list names a neighbour twice. */
  lemma MapWellFormed()
    ensures WellFormed(MapGraph)
  {
  }

  /** Every neighbour is itself a node of the graph, and every road has positive length. */
  lemma MapClosed()
    ensures forall u, i :: u in MapGraph && 0 <= i < |MapGraph[u]| ==>
      MapGraph[u][i].0 in MapGraph && MapGraph[u][i].1 > 0
  {
  }

  /** Every road out of u is listed, with the same length, from its other end. */
  lemma SymmetricAt(u: Node)
    requires u in MapGraph
    ensures forall i :: 0 <= i < |MapGraph[u]| ==>
      MapGraph[u][i].0 in MapGraph && (u, MapGraph[u][i].1) in MapGraph[MapGraph[u][i].0]
  {
  }

  /** The roads are two-way: the graph lists each road from both ends with the same length. */
  lemma MapSymmetric()
    ensures forall u, i :: u in MapGraph && 0 <= i < |MapGraph[u]| ==>
      MapGraph[u][i].0 in MapGraph && (u, MapGraph[u][i].1) in MapGraph[MapGraph[u][i].0]
  {
    forall u | u in MapGraph
      ensures forall i :: 0 <= i < |MapGraph[u]| ==>
        MapGraph[u][i].0 in MapGraph && (u, MapGraph[u][i].1) in MapGraph[MapGraph[u][i].0]
    {
      SymmetricAt(u);
    }
  }

  /** The store and every seed partner stand on nodes of the graph, and partner ids differ. */
  lemma FixtureOnMap()
    ensures StoreLocation in MapGraph
    ensures forall i :: 0 <= i < |SeedPartners| ==> SeedPartners[i].location in MapGraph
    ensures forall i, j :: 0 <= i < j < |SeedPartners| ==> SeedPartners[i].id != SeedPartners[j].id
  {
  }

  /** No road can take pot below pot of where it starts minus its length: pot[v] is a lower
      bound on the distance from a node with potential 0 to v. */
  ghost predicate Feasible(g: Graph, pot: map<Node, nat>) {
    && g.Keys <= pot.Keys
    && forall u, i :: u in g && 0 <= i < |g[u]| ==>
      g[u][i].0 in pot && pot[g[u][i].0] <= pot[u] + g[u][i].1
  }

  /** Along any path of a graph, a feasible potential grows by at most the path's weight. */
  lemma {:induction false} PotentialBound(g: Graph, pot: map<Node, nat>, p: seq<Node>)
    requires Feasible(g, pot) && IsPath(g, p) && p[0] in g
    ensures p[|p| - 1] in pot
    ensures pot[p[|p| - 1]] <= pot[p[0]] + PathWeight(g, p)
    decreases |p|
  {
    if |p| > 1 {
      var q := p[..|p| - 1];
      var u, v := p[|p| - 2], p[|p| - 1];
      PrefixPath(g, p, |p| - 1);
      PotentialBound(g, pot, q);
      assert IsEdge(g, u, v);
      var w := Weight(g[u], v).value;
      var k :| 0 <= k < |g[u]| && g[u][k] == (v, w);
      assert PathWeight(g, p) == PathWeight(g, q) + w;
    }
  }

  /** A path whose weight equals the rise in a feasible potential is a shortest path, and the
      search reports exactly its weight. */
  lemma DistanceByPotential(g: Graph, pot: map<Node, nat>, start: Node, v: Node, p: seq<Node>)
    requires WellFormed(g) && Feasible(g, pot) && start in g && v in g
    requires PathFromTo(g, p, start, v) && pot[start] + PathWeight(g, p) == pot[v]
    ensures ShortestPath(g, start, v).distance == Fin(PathWeight(g, p))
    ensures PathFromTo(g, ShortestPath(g, start, v).path, start, v)
    ensures PathWeight(g, ShortestPath(g, start, v).path) == PathWeight(g, p)
  {
    ShortestPathIsShortest(g, start, v, p);
    ShortestPathIsPath(g, start, v);
    var r := ShortestPath(g, start, v);
    PotentialBound(g, pot, r.path);
  }

  /** On a path whose weight equals the rise of a feasible potential, the last road is
      tight (it raises the potential by exactly its length) and so is the rest of the path. */
  lemma TightLast(g: Graph, pot: map<Node, nat>, p: seq<Node>)
    requires Feasible(g, pot) && IsPath(g, p) && p[0] in g && |p| > 1
    requires p[|p| - 1] in pot && pot[p[|p| - 1]] == pot[p[0]] + PathWeight(g, p)
    ensures IsEdge(g, p[|p| - 2], p[|p| - 1]) && p[|p| - 2] in pot
    ensures pot[p[|p| - 1]] == pot[p[|p| - 2]] + Weight(g[p[|p| - 2]], p[|p| - 1]).value
    ensures IsPath(g, p[..|p| - 1]) && pot[p[|p| - 2]] == pot[p[0]] + PathWeight(g, p[..|p| - 1])
  {
    var q := p[..|p| - 1];
    var u, v := p[|p| - 2], p[|p| - 1];
    PrefixPath(g, p, |p| - 1);
    PotentialBound(g, pot, q);
    assert IsEdge(g, u, v);
    var w := Weight(g[u], v).value;
    var k :| 0 <= k < |g[u]| && g[u][k] == (v, w);
    assert PathWeight(g, p) == PathWeight(g, q) + w;
  }

  /** The tight roads of the map into A, B and C: none into the store, only C to B and
      only A to C. */
  lemma TightInto(u: Node, v: Node, w: nat)
    requires u in MapGraph && (v, w) in MapGraph[u] && v in {"A", "B", "C"}
    requires u in FromStore && v in FromStore && FromStore[v] == FromStore[u] + w
    ensures v != "A"
    ensures v == "B" ==> u == "C"
    ensures v == "C" ==> u == "A"
  {
    assert u in {"A", "B", "C", "D", "E", "F", "G", "H", "I", "J"};
  }

  /** No road out of u takes FromStore below FromStore[u] minus the road's length. */
  lemma FeasibleAt(u: Node)
    requires u in MapGraph
    ensures u in FromStore
    ensures forall i :: 0 <= i < |MapGraph[u]| ==>
      MapGraph[u][i].0 in FromStore && FromStore[MapGraph[u][i].0] <= FromStore[u] + MapGraph[u][i].1
  {
  }

  /** FromStore is feasible on the map, and 0 at the store. */
  lemma FromStoreFeasible()
    ensures Feasible(MapGraph, FromStore) && FromStore[StoreLocation] == 0
  {
    forall u | u in MapGraph
      ensures u in FromStore
      ensures forall i :: 0 <= i < |MapGraph[u]| ==>
        MapGraph[u][i].0 in FromStore && FromStore[MapGraph[u][i].0] <= FromStore[u] + MapGraph[u][i].1
    {
      FeasibleAt(u);
    }
  }

  /** v's Via node is strictly nearer the store and joined to v by a road whose length makes
      up the difference. */
  ghost predicate ViaStep(v: Node) {
    && v in Via && Via[v] in MapGraph && v in FromStore && Via[v] in FromStore
    && FromStore[Via[v]] < FromStore[v]
    && (v, FromStore[v] - FromStore[Via[v]]) in MapGraph[Via[v]]
  }

  /** Every node but the store has a Via step. */
  lemma ViaEdge(v: Node)
    requires v in MapGraph && v != StoreLocation
    ensures ViaStep(v)
  {
  }

  /** The route to v that follows Via back to the store. */
  ghost function Tree(v: Node): (p: seq<Node>)
    requires v in MapGraph
    ensures |p| > 0 && p[0] == StoreLocation && p[|p| - 1] == v
    decreases FromStore[v]
  {
    if v == StoreLocation then [v]
    else
      ViaEdge(v);
      Tree(Via[v]) + [v]
  }

  /** The Via route is a path and weighs exactly FromStore[v]. */
  lemma {:induction false} TreeIsPath(v: Node)
    requires v in MapGraph
    ensures PathFromTo(MapGraph, Tree(v), StoreLocation, v)
    ensures PathWeight(MapGraph, Tree(v)) == FromStore[v]
    decreases FromStore[v]
  {
    if v != StoreLocation {
      ViaEdge(v);
      var u := Via[v];
      TreeIsPath(u);
      var k :| 0 <= k < |MapGraph[u]| && MapGraph[u][k] == (v, FromStore[v] - FromStore[u]);
      MapWellFormed();
      WeightOfEntry(MapGraph[u], k);
      ExtendPath(MapGraph, Tree(u), v);
    } else {
      assert FromStore[v] == 0;
    }
  }

  /** The search from the store finds FromStore[v] for every node v, and the path it
      reports weighs exactly that. */
  lemma StoreDistances(v: Node)
    requires v in MapGraph
    ensures ShortestPath(MapGraph, StoreLocation, v).distance == Fin(FromStore[v])
    ensures PathFromTo(MapGraph, ShortestPath(MapGraph, StoreLocation, v).path, StoreLocation, v)
    ensures PathWeight(MapGraph, ShortestPath(MapGraph, StoreLocation, v).path) == FromStore[v]
  {
    TreeIsPath(v);
    MapWellFormed();
    FromStoreFeasible();
    DistanceByPotential(MapGraph, FromStore, StoreLocation, v, Tree(v));
  }

  /** A route from the store to A, B or C as long as FromStore says ends with a tight
      road, from C into B and from A into C, after a route as long as FromStore says; the
      only such route to A is the store alone. */
  lemma TightPrefix(p: seq<Node>, v: Node)
    requires v in {"A", "B", "C"} && PathFromTo(MapGraph, p, "A", v) && PathWeight(MapGraph, p) == FromStore[v]
    ensures v == "A" ==> p == ["A"]
    ensures v != "A" ==> |p| > 1 && IsPath(MapGraph, p[..|p| - 1]) && p[|p| - 2] in FromStore
    ensures v != "A" ==> PathWeight(MapGraph, p[..|p| - 1]) == FromStore[p[|p| - 2]]
    ensures v == "B" ==> p[|p| - 2] == "C"
    ensures v == "C" ==> p[|p| - 2] == "A"
  {
    if |p| > 1 {
      FromStoreFeasible();
      TightLast(MapGraph, FromStore, p);
      TightInto(p[|p| - 2], v, Weight(MapGraph[p[|p| - 2]], v).value);
    }
  }

  /** The only route from the store to B that is 3 long is A, C, B. */
  lemma OnlyRouteToB(p: seq<Node>)
    requires PathFromTo(MapGraph, p, "A", "B") && PathWeight(MapGraph, p) == 3
    ensures p == ["A", "C", "B"]
  {
    TightPrefix(p, "B");
    var q := p[..|p| - 1];
    TightPrefix(q, "C");
    var r := q[..|q| - 1];
    TightPrefix(r, "A");
    assert p == r + ["C"] + ["B"];
  }

  /** The route from the store to the far corner J is 13 long, and the one to B is 3 long
      and goes through C: the only tight road into B comes from C, the only one into C from A. */
  lemma StoreToJ()
    ensures ShortestPath(MapGraph, "A", "J").distance == Fin(13)
    ensures ShortestPath(MapGraph, "A", "B").distance == Fin(3)
    ensures ShortestPath(MapGraph, "A", "B").path == ["A", "C", "B"]
  {
    StoreDistances("J");
    StoreDistances("B");
    OnlyRouteToB(ShortestPath(MapGraph, "A", "B").path);
  }

  /** The Via route to E is A, C, B, E. */
  lemma RouteToE()
    ensures Tree("E") == ["A", "C", "B", "E"]
  {
    assert Tree("B") == ["A", "C", "B"];
  }

  /** The Via route to J, a shortest route from the store, is A, C, B, E, F, I, J. */
  lemma RouteToJ()
    ensures Tree("J") == ["A", "C", "B", "E", "F", "I", "J"]
  {
    RouteToE();
    assert Tree("F") == ["A", "C", "B", "E", "F"];
  }

  /** The Via route to H is A, C, B, E, H. */
  lemma RouteToH()
    ensures Tree("H") == ["A", "C", "B", "E", "H"]
  {
    RouteToE();
  }

  /** Leaving the Via tree at H and taking the road to J gives a second route from the store
      to J, A, C, B, E, H, J, also 13 long. */
  lemma RouteToJViaH()
    ensures PathFromTo(MapGraph, Tree("H") + ["J"], StoreLocation, "J")
    ensures PathWeight(MapGraph, Tree("H") + ["J"]) == 13
  {
    TreeIsPath("H");
    var w := Weight(MapGraph["H"], "J");
    assert w == Some(1);
    ExtendPath(MapGraph, Tree("H"), "J");
  }

  /** Creates the fixture's partners, in fixture order: each free, carrying nothing. */
  method InitialDeliveryPartners() returns (ps: seq<Partner>)
    ensures |ps| == |SeedPartners|
    ensures forall i :: 0 <= i < |ps| ==> fresh(ps[i])
    ensures forall i, j :: 0 <= i < j < |ps| ==> ps[i] != ps[j]
    ensures forall i :: 0 <= i < |ps| ==>
      && ps[i].id == SeedPartners[i].id && ps[i].name == SeedPartners[i].name
      && ps[i].location == SeedPartners[i].location && ps[i].isAvailable && ps[i].currentOrder == None
  {
    var ravi := new Partner(1, "Ravi", "A", true);
    var neha := new Partner(2, "Neha", "D", true);
    var arjun := new Partner(3, "Arjun", "H", true);
    ps := [ravi, neha, arjun];
  }

  /** A free partner standing at the store, listed first, wins every order with a reachable
      customer, at the cost of the onward leg alone. In the fixture this partner is Ravi. */
  lemma PartnerAtStoreIsNearest(g: Graph, store: Node, ps: seq<Partner>, onward: nat)
    requires store in g && |ps| > 0 && ps[0].location == store && ps[0].isAvailable
    ensures Nearest(Offers(g, store, Fin(onward), ps), 0)
    ensures Offers(g, store, Fin(onward), ps)[0] == Fin(onward)
  {
    var ds := Offers(g, store, Fin(onward), ps);
    ShortestPathToSelf(g, store);
    OffersAt(g, store, Fin(onward), ps, 0);
    assert ds[0] == Fin(onward);
    forall j | 0 < j < |ds| ensures ds[0].AtMost(ds[j]) {
      OffersAt(g, store, Fin(onward), ps, j);
    }
  }
}
