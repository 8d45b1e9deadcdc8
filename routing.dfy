/** The routing code as the dispatcher runs it: the search's own binary heap, the
    search itself, and the choice of the nearest available partner. */
module Routing {
  import opened Options
  import opened Graphs
  import HeapSpec
  import opened ShortestPaths
  import opened Domain

  /** The search frontier: a binary min-heap of (node, priority) entries in a growable array. */
  class PriorityQueue {
    var heap: seq<Entry>

    constructor ()
      ensures heap == []
    {
      heap := [];
    }

    predicate IsEmpty()
      reads this
    {
      |heap| == 0
    }

    method Swap(i: nat, j: nat)
      requires i < |heap| && j < |heap|
      modifies this
      ensures heap == HeapSpec.Swap(old(heap), i, j)
    {
      heap := heap[i := heap[j]][j := heap[i]];
    }

    /** Append the entry, then restore the order from the last slot upwards. */
    method Enqueue(node: Node, priority: nat)
      modifies this
      ensures heap == HeapSpec.Push(old(heap), Entry(node, priority), Priority)
      ensures old(HeapSpec.IsHeap(heap, Priority)) ==> HeapSpec.IsHeap(heap, Priority)
    {
      ghost var h := heap;
      heap := heap + [Entry(node, priority)];
      HeapifyUp();
      if HeapSpec.IsHeap(h, Priority) {
        HeapSpec.PushKeepsHeap(h, Entry(node, priority), Priority);
      }
    }

    /** Remove and return the root (a minimum), or None when empty. */
    method Dequeue() returns (min: Option<Entry>)
      modifies this
      ensures old(heap) == [] ==> min == None && heap == []
      ensures old(heap) != [] ==> min == Some(old(heap)[0]) && heap == HeapSpec.Pop(old(heap), Priority)
      ensures old(heap) != [] && old(HeapSpec.IsHeap(heap, Priority)) ==>
        HeapSpec.IsHeap(heap, Priority) &&
        forall e :: e in old(heap) ==> min.value.priority <= e.priority
    {
      if IsEmpty() {
        return None;
      }
      ghost var h := heap;
      min := Some(heap[0]);
      var last := heap[|heap| - 1];
      heap := heap[..|heap| - 1];
      if |heap| > 0 {
        heap := heap[0 := last];
        HeapifyDown();
      }
      if HeapSpec.IsHeap(h, Priority) {
        HeapSpec.PopKeepsHeap(h, Priority);
        HeapSpec.RootIsMinAll(h, Priority);
      }
    }

    method HeapifyUp()
      modifies this
      ensures |old(heap)| == 0 ==> heap == old(heap)
      ensures |old(heap)| > 0 ==> heap == HeapSpec.SiftUp(old(heap), |old(heap)| - 1, Priority)
    {
      var index: int := |heap| - 1;
      while index > 0
        invariant -1 <= index < |heap| && |heap| == |old(heap)|
        invariant index == -1 ==> heap == old(heap) && |heap| == 0
        invariant index >= 0 ==>
          HeapSpec.SiftUp(heap, index, Priority) == HeapSpec.SiftUp(old(heap), |old(heap)| - 1, Priority)
        decreases index
      {
        var parentIndex := (index - 1) / 2;
        if heap[parentIndex].priority <= heap[index].priority {
          assert HeapSpec.SiftUp(heap, index, Priority) == heap;
          break;
        }
        Swap(parentIndex, index);
        index := parentIndex;
      }
      if index == 0 {
        assert HeapSpec.SiftUp(heap, 0, Priority) == heap;
      }
    }

    method HeapifyDown()
      modifies this
      ensures heap == HeapSpec.SiftDown(old(heap), 0, Priority)
    {
      var index := 0;
      while 2 * index + 1 < |heap|
        invariant |heap| == |old(heap)|
        invariant HeapSpec.SiftDown(heap, index, Priority) == HeapSpec.SiftDown(old(heap), 0, Priority)
        decreases |heap| - index
      {
        var smallerChildIndex := 2 * index + 1;
        var rightChildIndex := 2 * index + 2;
        if rightChildIndex < |heap| && heap[rightChildIndex].priority < heap[smallerChildIndex].priority {
          smallerChildIndex := rightChildIndex;
        }
        if heap[index].priority <= heap[smallerChildIndex].priority {
          break;
        }
        Swap(index, smallerChildIndex);
        index := smallerChildIndex;
      }
    }
  }

  /** The initial labels: every node of the graph at Infinity except the start at 0,
      and no predecessors. */
  method InitialLabels(g: Graph, start: Node)
    returns (distances: map<Node, Dist>, previous: map<Node, Option<Node>>)
    ensures distances.Keys == g.Keys && previous.Keys == g.Keys
    ensures forall v :: v in g ==> distances[v] == (if v == start then Fin(0) else Inf)
    ensures forall v :: v in g ==> previous[v] == None
  {
    distances := map[];
    previous := map[];
    var nodes := g.Keys;
    while nodes != {}
      invariant nodes <= g.Keys
      invariant distances.Keys == g.Keys - nodes && previous.Keys == g.Keys - nodes
      invariant forall v :: v in distances ==> distances[v] == (if v == start then Fin(0) else Inf)
      invariant forall v :: v in previous ==> previous[v] == None
      decreases nodes
    {
      var node :| node in nodes;
      distances := distances[node := if node == start then Fin(0) else Inf];
      previous := previous[node := None];
      nodes := nodes - {node};
    }
  }

  /** Relaxing every neighbour of the node just visited, in adjacency order. */
  method RelaxNeighbours(g: Graph, currentNode: Node, distances: map<Node, Dist>,
                         previous: map<Node, Option<Node>>, ghost visited: seq<Node>, pq: PriorityQueue)
    returns (distances': map<Node, Dist>, previous': map<Node, Option<Node>>)
    requires currentNode in g && currentNode in distances
    modifies pq
    ensures Search(distances', previous', visited, pq.heap) ==
      Relax(currentNode, g[currentNode], Search(distances, previous, visited, old(pq.heap)))
  {
    distances', previous' := distances, previous;
    var adj := g[currentNode];
    var i := 0;
    while i < |adj|
      invariant i <= |adj| && currentNode in distances'
      invariant Relax(currentNode, adj[i..], Search(distances', previous', visited, pq.heap)) ==
        Relax(currentNode, adj, Search(distances, previous, visited, old(pq.heap)))
      decreases |adj| - i
    {
      var (neighbor, distance) := adj[i];
      var newDistance := distances'[currentNode].Add(distance);
      assert adj[i..][1..] == adj[i + 1..];
      if neighbor in distances' && newDistance.Less(distances'[neighbor]) {
        distances' := distances'[neighbor := newDistance];
        previous' := previous'[neighbor := Some(currentNode)];
        pq.Enqueue(neighbor, newDistance.n);
      }
      i := i + 1;
    }
    assert adj[i..] == [];
  }

  /** One step back along the links: the walk to v is the walk to its predecessor, then v. */
  lemma WalkBack(s: Search, v: Node, rest: seq<Node>)
    requires v in s.prev && PrevRanked(s.prev, s.visited)
    ensures s.prev[v].Some? ==>
      && s.prev[v].value in s.prev
      && Rank(s.visited, s.prev[v].value) < Rank(s.visited, v)
      && Walk(s, v) + rest == Walk(s, s.prev[v].value) + ([v] + rest)
    ensures s.prev[v].None? ==> Walk(s, v) + rest == [v] + rest
  {
    if s.prev[v].Some? {
      assert Walk(s, v) == Walk(s, s.prev[v].value) + [v];
    }
  }

  /** Following the predecessor links back from end, prepending each node to the path. */
  method ReconstructPath(previous: map<Node, Option<Node>>, ghost s: Search, end: Node)
    returns (path: seq<Node>)
    requires previous == s.prev && end in previous && PrevRanked(s.prev, s.visited)
    ensures path == Walk(s, end)
  {
    path := [];
    var current: Option<Node> := Some(end);
    while current.Some?
      invariant current.Some? ==> current.value in previous
      invariant current.Some? ==> Walk(s, end) == Walk(s, current.value) + path
      invariant current.None? ==> Walk(s, end) == path
      decreases if current.Some? then Rank(s.visited, current.value) + 1 else 0
    {
      var v := current.value;
      WalkBack(s, v, path);
      path := [v] + path;
      current := previous[v];
    }
  }

  /** Dijkstra's search from start, stopping once end is visited.  end must be a node
      of the graph: otherwise the walk back along the predecessor links never ends. */
  method Dijkstra(g: Graph, start: Node, end: Node) returns (r: Route)
    requires end in g
    ensures r == ShortestPath(g, start, end)
  {
    var distances, previous := InitialLabels(g, start);
    var visited: seq<Node> := [];
    var pq := new PriorityQueue();
    pq.Enqueue(start, 0);
    ghost var goal := Explore(g, end, Start(g, start));
    assert Search(distances, previous, visited, pq.heap) == Start(g, start);

    while !pq.IsEmpty()
      invariant distances.Keys == g.Keys
      invariant Explore(g, end, Search(distances, previous, visited, pq.heap)) == goal
      decreases g.Keys - Elems(visited), |pq.heap|
    {
      var entry := pq.Dequeue();
      var currentNode := entry.value.node;
      if currentNode in visited {
        continue;
      }
      ElemsAppend(visited, currentNode);
      visited := visited + [currentNode];
      if currentNode == end {
        break;
      }
      if currentNode in g {
        distances, previous := RelaxNeighbours(g, currentNode, distances, previous, visited, pq);
      }
    }
    ghost var final := Search(distances, previous, visited, pq.heap);
    assert final == goal;
    ExploreFinal(g, start, end);

    var path := ReconstructPath(previous, final, end);
    r := Route(distances[end], if distances[end] == Inf then [] else path);
  }

  /** The distance the search reports from a partner's location to the store. */
  function DistanceTo(g: Graph, from: Node, to: Node): Dist
    requires to in g
  {
    ShortestPath(g, from, to).distance
  }

  /** What a partner offers: when available, its distance to the store plus a fixed
      onward leg; Infinity when not available. */
  ghost function Offer(g: Graph, store: Node, onward: Dist, p: Partner): Dist
    requires store in g
    reads p
  {
    if p.isAvailable then Plus(DistanceTo(g, p.location, store), onward) else Inf
  }

  /** The offers of a list of partners, in list order. */
  ghost function Offers(g: Graph, store: Node, onward: Dist, partners: seq<Partner>): (ds: seq<Dist>)
    requires store in g
    reads partners
    ensures |ds| == |partners|
    decreases |partners|
  {
    if partners == [] then []
    else Offers(g, store, onward, partners[..|partners| - 1]) + [Offer(g, store, onward, partners[|partners| - 1])]
  }

  /** Offer k is finite, strictly smaller than every offer before it and no larger than
      every offer after it: the first of the smallest finite offers. */
  ghost predicate Nearest(ds: seq<Dist>, k: int) {
    && 0 <= k < |ds| && ds[k].Fin?
    && (forall j :: 0 <= j < k ==> ds[k].Less(ds[j]))
    && (forall j :: k < j < |ds| ==> ds[k].AtMost(ds[j]))
  }

  ghost predicate NoneFinite(ds: seq<Dist>) {
    forall j :: 0 <= j < |ds| ==> ds[j] == Inf
  }

  /** At most one offer is the nearest. */
  lemma NearestIsUnique(ds: seq<Dist>, k1: int, k2: int)
    requires Nearest(ds, k1) && Nearest(ds, k2)
    ensures k1 == k2
  {
  }

  /** Either some offer is the nearest or none is finite, never both. */
  lemma NearestOrNone(ds: seq<Dist>)
    ensures NoneFinite(ds) <==> !exists k :: Nearest(ds, k)
  {
    if !NoneFinite(ds) {
      var j :| 0 <= j < |ds| && ds[j] != Inf;
      var k := FirstMin(ds, j);
    }
  }

  /** A nearest offer exists once some offer is finite (its existence for NearestOrNone). */
  lemma {:induction false} FirstMin(ds: seq<Dist>, j: nat) returns (k: nat)
    requires j < |ds| && ds[j].Fin?
    ensures Nearest(ds, k)
    decreases |ds|
  {
    if |ds| == 1 {
      k := 0;
    } else {
      var front := ds[..|ds| - 1];
      var last := ds[|ds| - 1];
      if j == |ds| - 1 && (forall i :: 0 <= i < |front| ==> last.Less(front[i])) {
        k := j;
      } else {
        var j' := j;
        if j == |ds| - 1 {
          j' :| 0 <= j' < |front| && !last.Less(front[j']);
        }
        var k' := FirstMin(front, j');
        if last.Less(front[k']) {
          k := |ds| - 1;
        } else {
          k := k';
        }
      }
    }
  }

  /** The running minimum of the first offers: none finite so far (k = -1), or k is the nearest. */
  ghost predicate Best(ds: seq<Dist>, k: int) {
    if k == -1 then NoneFinite(ds) else Nearest(ds, k)
  }

  /** The current best offer, Infinity when there is none. */
  ghost function BestOffer(ds: seq<Dist>, k: int): Dist
    requires Best(ds, k)
  {
    if k == -1 then Inf else ds[k]
  }

  /** One more offer: it takes over exactly when it is strictly below the current best. */
  lemma BestSnoc(ds: seq<Dist>, k: int, x: Dist)
    requires Best(ds, k)
    ensures x.Less(BestOffer(ds, k)) ==> Best(ds + [x], |ds|)
    ensures !x.Less(BestOffer(ds, k)) ==> Best(ds + [x], k)
  {
    var ds' := ds + [x];
    if k != -1 && x.Less(ds[k]) {
      forall j | 0 <= j < |ds| ensures x.Less(ds'[j]) {
        assert ds'[j] == ds[j];
        if j < k {
          assert ds[k].Less(ds[j]);
        } else if j > k {
          assert ds[k].AtMost(ds[j]);
        }
      }
    }
  }

  lemma OffersSnoc(g: Graph, store: Node, onward: Dist, partners: seq<Partner>, i: nat)
    requires store in g && i < |partners|
    ensures Offers(g, store, onward, partners[..i + 1]) ==
      Offers(g, store, onward, partners[..i]) + [Offer(g, store, onward, partners[i])]
  {
    assert partners[..i + 1][..i] == partners[..i];
  }


  /** The offers a list of partner states makes, in list order: the offers depend on
      nothing but the partners' locations and availability. */
  function StateOffers(g: Graph, store: Node, onward: Dist, sts: seq<PartnerState>): (ds: seq<Dist>)
    requires store in g
    ensures |ds| == |sts|
    ensures forall j :: 0 <= j < |sts| && !sts[j].isAvailable ==> ds[j] == Inf
    decreases |sts|
  {
    if sts == [] then []
    else
      var s := sts[|sts| - 1];
      StateOffers(g, store, onward, sts[..|sts| - 1])
        + [if s.isAvailable then Plus(DistanceTo(g, s.location, store), onward) else Inf]
  }

  /** The partners' offers are the offers of their current states. */
  lemma {:induction false} OffersOfStates(g: Graph, store: Node, onward: Dist, partners: seq<Partner>)
    requires store in g
    ensures Offers(g, store, onward, partners) == StateOffers(g, store, onward, States(partners))
    decreases |partners|
  {
    if partners != [] {
      var n := |partners| - 1;
      OffersOfStates(g, store, onward, partners[..n]);
      assert States(partners)[..n] == States(partners[..n]);
    }
  }

  /** Offer j is partner j's own offer. */
  lemma {:induction false} OffersAt(g: Graph, store: Node, onward: Dist, partners: seq<Partner>, j: nat)
    requires store in g && j < |partners|
    ensures Offers(g, store, onward, partners)[j] == Offer(g, store, onward, partners[j])
    decreases |partners|
  {
    if j < |partners| - 1 {
      OffersAt(g, store, onward, partners[..|partners| - 1], j);
    }
  }

  /** The available partner nearest to the store, with its distance; null and Infinity
      when no available partner can reach the store. */
  method FindNearestPartner(g: Graph, store: Node, deliveryPartners: seq<Partner>)
    returns (partner: Partner?, distance: Dist, ghost k: int)
    requires store in g
    ensures partner == null ==> distance == Inf && NoneFinite(Offers(g, store, Fin(0), deliveryPartners))
    ensures partner != null ==>
      && Nearest(Offers(g, store, Fin(0), deliveryPartners), k) && partner == deliveryPartners[k]
      && partner.isAvailable && distance == DistanceTo(g, partner.location, store)
  {
    partner := null;
    distance := Inf;
    k := -1;
    for i := 0 to |deliveryPartners|
      invariant Ahead(g, store, deliveryPartners[..i], k, partner, distance)
    {
      assert deliveryPartners[..i + 1] == deliveryPartners[..i] + [deliveryPartners[i]];
      partner, distance, k := Weigh(g, store, deliveryPartners[..i], deliveryPartners[i], partner, distance, k);
    }
    assert deliveryPartners[..|deliveryPartners|] == deliveryPartners;
    if partner != null {
      OffersAt(g, store, Fin(0), deliveryPartners, k);
    }
  }

  /** What findNearestPartner knows after scanning `seen`: k is the nearest of them (-1 when
      none is reachable), with its partner and distance. */
  ghost predicate Ahead(g: Graph, store: Node, seen: seq<Partner>, k: int, partner: Partner?, distance: Dist)
    requires store in g
    reads seen
  {
    && Best(Offers(g, store, Fin(0), seen), k)
    && distance == BestOffer(Offers(g, store, Fin(0), seen), k)
    && partner == (if k == -1 then null else seen[k])
  }

  /** One iteration of the scan: an available partner is searched for and takes the lead
      exactly when its distance is strictly below the current best. */
  method Weigh(g: Graph, store: Node, seen: seq<Partner>, p: Partner, partner: Partner?, distance: Dist, ghost k: int)
    returns (partner': Partner?, distance': Dist, ghost k': int)
    requires store in g && Ahead(g, store, seen, k, partner, distance)
    ensures Ahead(g, store, seen + [p], k', partner', distance')
  {
    var all := seen + [p];
    assert all[..|seen|] == seen;
    ghost var ds := Offers(g, store, Fin(0), seen);
    ghost var offer := Offer(g, store, Fin(0), p);
    assert Offers(g, store, Fin(0), all) == ds + [offer];
    BestSnoc(ds, k, offer);
    partner', distance', k' := partner, distance, k;
    if p.isAvailable {
      var result := Dijkstra(g, p.location, store);
      assert result.distance == offer;
      if result.distance.Less(distance) {
        partner', distance', k' := p, result.distance, |seen|;
      }
    }
    if k' == k && k != -1 {
      assert all[k] == seen[k];
    }
  }

  /** a is the assignment of order o to the partner (id, name) standing at `from`: both
      legs are the routes the search finds, the totals agree with them, and the order is
      marked assigned to that partner. */
  ghost predicate Assigns(g: Graph, store: Node, o: Order, partnerId: int, partnerName: string, from: Node, a: Assignment)
    requires store in g && o.deliveryLocation in g
  {
    var toStore := ShortestPath(g, from, store);
    var toCustomer := ShortestPath(g, store, o.deliveryLocation);
    && a.orderId == o.id && a.partnerId == partnerId && a.partnerName == partnerName
    && a.partnerToStoreDistance == toStore.distance && a.partnerToStorePath == toStore.path
    && a.storeToDeliveryDistance == toCustomer.distance && a.storeToDeliveryPath == toCustomer.path
    && WellPriced(a)
    && a.order == o.(status := Assigned, assignedPartner := Some(partnerName))
    && a.deliveredAt == None
  }
}
