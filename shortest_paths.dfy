/** Dijkstra's search as the dispatcher runs it, as a pure specification, with its
    correctness proof.

    The search keeps tentative distances, predecessor links, the set of visited nodes
    (in visiting order) and a binary-heap frontier of (node, priority) entries.  It pops
    the frontier, skips stale entries of visited nodes (lazy deletion), stops as soon as
    the target is visited, and relaxes neighbours in adjacency order with a strict `<`.
    The imperative search in module Routing is proved equal to `ShortestPath` below;
    everything the search promises is proved here about that function. */
module ShortestPaths {
  import opened Options
  import opened Graphs
  import HeapSpec

  /** A frontier entry: a node and the distance it was queued with. */
  datatype Entry = Entry(node: Node, priority: nat)

  /** The frontier heap's key. */
  function Priority(e: Entry): real { e.priority as real }

  /** The state of a search: distances, predecessors, visited nodes in visiting order,
      and the frontier heap array. */
  datatype Search = Search(
    dist: map<Node, Dist>,
    prev: map<Node, Option<Node>>,
    visited: seq<Node>,
    frontier: seq<Entry>)

  function Elems(s: seq<Node>): set<Node> { set x | x in s }

  /** Every node at Infinity except the start at 0, no predecessors, the start queued at 0. */
  function Start(g: Graph, start: Node): (s: Search)
    ensures s.dist.Keys == g.Keys && s.prev.Keys == g.Keys
  {
    Search(
      map v | v in g :: if v == start then Fin(0) else Inf,
      map v | v in g :: None,
      [],
      [Entry(start, 0)])
  }

  /** The state after lowering v's distance to nd through cur. */
  function Lowered(s: Search, cur: Node, v: Node, nd: nat): Search
  {
    Search(s.dist[v := Fin(nd)], s.prev[v := Some(cur)], s.visited,
           HeapSpec.Push(s.frontier, Entry(v, nd), Priority))
  }

  /** Relaxing one adjacency entry (v, w) of cur: v's distance is replaced only when
      going through cur is strictly shorter, and then v is queued again. */
  function RelaxEdge(cur: Node, edge: (Node, nat), s: Search): (r: Search)
    requires cur in s.dist
    ensures r.dist.Keys == s.dist.Keys && r.visited == s.visited
    ensures forall v :: v in s.dist && v != edge.0 ==> r.dist[v] == s.dist[v]
    ensures forall v :: v in r.prev && (v !in s.prev || r.prev[v] != s.prev[v]) ==>
      v == edge.0 && v in s.dist && r.prev[v] == Some(cur) && r.dist[v].Less(s.dist[v])
  {
    var (v, w) := edge;
    var nd := s.dist[cur].Add(w);
    if v in s.dist && nd.Less(s.dist[v]) then Lowered(s, cur, v, nd.n) else s
  }

  /** Relaxing the adjacency entries of cur in order. */
  function Relax(cur: Node, adj: seq<(Node, nat)>, s: Search): (r: Search)
    requires cur in s.dist
    ensures r.dist.Keys == s.dist.Keys && r.visited == s.visited
    decreases |adj|
  {
    if adj == [] then s else Relax(cur, adj[1..], RelaxEdge(cur, adj[0], s))
  }

  /** The state after dequeueing the root of the frontier. */
  function Popped(s: Search): Search
    requires s.frontier != []
  {
    s.(frontier := HeapSpec.Pop(s.frontier, Priority))
  }

  /** The state after dequeueing the root and marking its node visited. */
  function Visited(s: Search): Search
    requires s.frontier != []
  {
    Popped(s).(visited := s.visited + [s.frontier[0].node])
  }

  lemma ElemsAppend(vs: seq<Node>, x: Node)
    ensures Elems(vs + [x]) == Elems(vs) + {x}
  {
    assert forall y :: y in vs + [x] <==> y in vs || y == x;
  }

  /** The main loop: until the frontier is empty or the target has been visited. */
  function Explore(g: Graph, target: Node, s: Search): (r: Search)
    requires s.dist.Keys == g.Keys
    ensures r.dist.Keys == g.Keys
    decreases g.Keys - Elems(s.visited), |s.frontier|
  {
    if s.frontier == [] then s
    else
      var cur := s.frontier[0].node;
      if cur in s.visited then Explore(g, target, Popped(s))
      else
        var seen := Visited(s);
        ElemsAppend(s.visited, cur);
        if cur == target then seen
        else if cur in g then Explore(g, target, Relax(cur, g[cur], seen))
        else Explore(g, target, seen)
  }

  // ---------------------------------------------------------------------------
  // Walking the predecessor links back from the target

  function IndexOf(vs: seq<Node>, x: Node): (i: nat)
    requires x in vs
    ensures i < |vs| && vs[i] == x
    ensures forall j :: 0 <= j < i ==> vs[j] != x
  {
    if vs[0] == x then 0 else 1 + IndexOf(vs[1..], x)
  }

  /** When a node was visited; nodes not visited yet rank after all visited ones. */
  function Rank(vs: seq<Node>, v: Node): nat
  {
    if v in vs then IndexOf(vs, v) else |vs|
  }

  /** Every predecessor was visited strictly before the node it leads to. */
  ghost predicate PrevRanked(prev: map<Node, Option<Node>>, visited: seq<Node>) {
    forall v :: v in prev && prev[v].Some? ==>
      prev[v].value in prev && prev[v].value in visited &&
      Rank(visited, prev[v].value) < Rank(visited, v)
  }

  /** The path rebuilt by following the predecessor links from v back to a node without one. */
  function Walk(s: Search, v: Node): (p: seq<Node>)
    requires v in s.prev && PrevRanked(s.prev, s.visited)
    ensures |p| > 0 && p[|p| - 1] == v
    decreases Rank(s.visited, v)
  {
    match s.prev[v]
    case None => [v]
    case Some(u) => Walk(s, u) + [v]
  }

  /** The result of a search: the distance and the path (empty when unreachable). */
  datatype Route = Route(distance: Dist, path: seq<Node>)

  /** The search from start to target: its distance, and the path when the distance is finite. */
  function ShortestPath(g: Graph, start: Node, target: Node): (r: Route)
    requires target in g
  {
    var s := Explore(g, target, Start(g, start));
    ExploreFinal(g, start, target);
    Route(s.dist[target], if s.dist[target] == Inf then [] else Walk(s, target))
  }

  // ---------------------------------------------------------------------------
  // The invariant of the search, one predicate per concern, each over the parts
  // of the state it reads

  /** Bookkeeping: keys, distinct visited nodes, the first visit, the start's entry, heap order. */
  ghost predicate Shape(g: Graph, start: Node, s: Search) {
    && s.dist.Keys == g.Keys && s.prev.Keys == g.Keys
    && (forall i, j :: 0 <= i < j < |s.visited| ==> s.visited[i] != s.visited[j])
    && (forall v :: v in s.visited ==> v in g || v == start)
    && (s.visited == [] ==> s.frontier == [Entry(start, 0)])
    && (s.visited != [] ==> s.visited[0] == start)
    && (start in g ==> s.dist[start] == Fin(0) && s.prev[start] == None)
    && HeapSpec.IsHeap(s.frontier, Priority)
  }

  /** A queued entry never undercuts its node's tentative distance. */
  ghost predicate FrontierSound(g: Graph, start: Node, dist: map<Node, Dist>, frontier: seq<Entry>)
    requires dist.Keys == g.Keys
  {
    forall e :: e in frontier ==>
      (e.node in g || e.node == start) &&
      (e.node in g ==> dist[e.node].Fin? && dist[e.node].n <= e.priority)
  }

  /** Visited nodes have finite distances no larger than any queued priority. */
  ghost predicate Settled(g: Graph, dist: map<Node, Dist>, visited: seq<Node>, frontier: seq<Entry>)
    requires dist.Keys == g.Keys
  {
    forall v :: v in visited && v in g ==>
      dist[v].Fin? && forall e :: e in frontier ==> dist[v].n <= e.priority
  }

  /** An unvisited node with a finite tentative distance is queued with exactly that distance. */
  ghost predicate Covered(g: Graph, dist: map<Node, Dist>, visited: seq<Node>, frontier: seq<Entry>)
    requires dist.Keys == g.Keys
  {
    forall v :: v in g && v !in visited && dist[v].Fin? ==> Entry(v, dist[v].n) in frontier
  }

  /** The first k adjacency entries of u are relaxed: no neighbour is farther than through u. */
  ghost predicate RelaxedUpTo(g: Graph, dist: map<Node, Dist>, u: Node, k: nat)
    requires dist.Keys == g.Keys && u in g && k <= |g[u]|
  {
    forall i :: 0 <= i < k && g[u][i].0 in g ==> dist[g[u][i].0].AtMost(dist[u].Add(g[u][i].1))
  }

  ghost predicate Relaxed(g: Graph, dist: map<Node, Dist>, visited: seq<Node>)
    requires dist.Keys == g.Keys
  {
    forall u :: u in visited && u in g ==> RelaxedUpTo(g, dist, u, |g[u]|)
  }

  /** Visited distances are no longer than any path from the start. */
  ghost predicate Optimal(g: Graph, start: Node, dist: map<Node, Dist>, visited: seq<Node>)
    requires dist.Keys == g.Keys
  {
    forall v, p :: v in visited && v in g && PathFromTo(g, p, start, v) ==>
      dist[v].Fin? && dist[v].n <= PathWeight(g, p)
  }

  /** u -> v is a listed edge whose weight is the difference of their distances. */
  ghost predicate PrevEdge(g: Graph, dist: map<Node, Dist>, u: Node, v: Node)
    requires dist.Keys == g.Keys && v in g
  {
    u in g && dist[u].Fin? && dist[v].Fin? && dist[u].n <= dist[v].n &&
    (v, dist[v].n - dist[u].n) in g[u]
  }

  /** Predecessor links follow edges that account for the distance; only the start has none. */
  ghost predicate PrevLinks(g: Graph, start: Node, dist: map<Node, Dist>, prev: map<Node, Option<Node>>)
    requires dist.Keys == g.Keys && prev.Keys == g.Keys
  {
    && (forall v :: v in g && prev[v].Some? ==> PrevEdge(g, dist, prev[v].value, v))
    && (forall v :: v in g && prev[v].None? && dist[v].Fin? ==> v == start)
  }

  /** What holds between any two steps, relaxation state apart. */
  ghost predicate Core(g: Graph, start: Node, s: Search) {
    && Shape(g, start, s)
    && FrontierSound(g, start, s.dist, s.frontier)
    && Settled(g, s.dist, s.visited, s.frontier)
    && Covered(g, s.dist, s.visited, s.frontier)
    && Optimal(g, start, s.dist, s.visited)
    && PrevRanked(s.prev, s.visited)
    && PrevLinks(g, start, s.dist, s.prev)
  }

  /** What holds at the head of the main loop. */
  ghost predicate Inv(g: Graph, start: Node, s: Search) {
    Core(g, start, s) && Relaxed(g, s.dist, s.visited)
  }

  /** cur, the node visited last, has the largest distance among the visited nodes. */
  ghost predicate VisitedLast(g: Graph, dist: map<Node, Dist>, visited: seq<Node>, cur: Node)
    requires dist.Keys == g.Keys
  {
    && cur in g && visited != [] && visited[|visited| - 1] == cur && dist[cur].Fin?
    && (forall v :: v in visited && v in g ==> dist[v].Fin? && dist[v].n <= dist[cur].n)
  }

  /** Every visited node but cur is relaxed, and so are the first k entries of cur. */
  ghost predicate RelaxedBut(g: Graph, dist: map<Node, Dist>, visited: seq<Node>, cur: Node, k: nat)
    requires dist.Keys == g.Keys && cur in g && k <= |g[cur]|
  {
    && (forall u :: u in visited && u in g && u != cur ==> RelaxedUpTo(g, dist, u, |g[u]|))
    && RelaxedUpTo(g, dist, cur, k)
  }

  /** What holds while the neighbours of cur, the node just visited, are being relaxed. */
  ghost predicate Relaxing(g: Graph, start: Node, s: Search, cur: Node, k: nat) {
    && Core(g, start, s)
    && VisitedLast(g, s.dist, s.visited, cur)
    && k <= |g[cur]|
    && RelaxedBut(g, s.dist, s.visited, cur, k)
  }

  // ---------------------------------------------------------------------------
  // Heap membership and visiting-order facts

  lemma PopMembers(h: seq<Entry>)
    requires h != []
    ensures forall e :: e in HeapSpec.Pop(h, Priority) ==> e in h
    ensures forall e :: e in h && e != h[0] ==> e in HeapSpec.Pop(h, Priority)
  {
    var r := HeapSpec.Pop(h, Priority);
    forall e | e in r ensures e in h {
      assert e in multiset(r);
      assert e in multiset(h);
    }
    forall e | e in h && e != h[0] ensures e in r {
      assert e in multiset(h);
      assert e !in multiset{h[0]};
      assert e in multiset(r);
    }
  }

  lemma PushMembers(h: seq<Entry>, x: Entry)
    ensures forall e :: e in HeapSpec.Push(h, x, Priority) <==> e in h || e == x
  {
    var r := HeapSpec.Push(h, x, Priority);
    forall e ensures e in r <==> e in h || e == x {
      assert e in r <==> e in multiset(r);
      assert e in h <==> e in multiset(h);
    }
  }

  lemma IndexOfAppend(vs: seq<Node>, x: Node, y: Node)
    requires y in vs
    ensures IndexOf(vs + [x], y) == IndexOf(vs, y)
  {
    assert (vs + [x])[IndexOf(vs, y)] == y;
  }

  /** Visiting x keeps the ranks of visited nodes and ranks every other node later. */
  lemma RankAppend(vs: seq<Node>, x: Node)
    requires x !in vs
    ensures forall y :: y in vs ==> Rank(vs + [x], y) == Rank(vs, y)
    ensures Rank(vs + [x], x) == |vs|
    ensures forall y :: y !in vs && y != x ==> Rank(vs + [x], y) == |vs| + 1
  {
    forall y | y in vs ensures Rank(vs + [x], y) == Rank(vs, y) {
      IndexOfAppend(vs, x, y);
    }
    assert (vs + [x])[|vs|] == x;
  }

  // ---------------------------------------------------------------------------
  // Frontier changes

  lemma FrontierSoundSub(g: Graph, start: Node, dist: map<Node, Dist>, f: seq<Entry>, f': seq<Entry>)
    requires dist.Keys == g.Keys && FrontierSound(g, start, dist, f)
    requires forall e :: e in f' ==> e in f
    ensures FrontierSound(g, start, dist, f')
  {
  }

  lemma SettledSub(g: Graph, dist: map<Node, Dist>, visited: seq<Node>, f: seq<Entry>, f': seq<Entry>)
    requires dist.Keys == g.Keys && Settled(g, dist, visited, f)
    requires forall e :: e in f' ==> e in f
    ensures Settled(g, dist, visited, f')
  {
  }

  /** Dequeueing a stale entry of an already visited node keeps the invariant. */
  lemma PopStale(g: Graph, start: Node, s: Search)
    requires Inv(g, start, s) && s.frontier != [] && s.frontier[0].node in s.visited
    ensures Inv(g, start, Popped(s))
  {
    var f' := HeapSpec.Pop(s.frontier, Priority);
    HeapSpec.PopKeepsHeap(s.frontier, Priority);
    PopMembers(s.frontier);
    FrontierSoundSub(g, start, s.dist, s.frontier, f');
    SettledSub(g, s.dist, s.visited, s.frontier, f');
    forall v | v in g && v !in s.visited && s.dist[v].Fin?
      ensures Entry(v, s.dist[v].n) in f'
    {
      assert Entry(v, s.dist[v].n) in s.frontier;
    }
  }

  // ---------------------------------------------------------------------------
  // Visiting the root of the frontier

  /** On a path from the (visited) start to an unvisited node x, the first unvisited node
      already has a finite tentative distance within the path's weight. */
  lemma FrontierCrossing(g: Graph, start: Node, dist: map<Node, Dist>, visited: seq<Node>, p: seq<Node>, x: Node)
    returns (j: nat)
    requires dist.Keys == g.Keys
    requires Optimal(g, start, dist, visited) && Relaxed(g, dist, visited)
    requires visited != [] && visited[0] == start
    requires PathFromTo(g, p, start, x) && x in g && x !in visited
    ensures 0 < j < |p| && p[j] in g && p[j] !in visited
    ensures dist[p[j]].Fin? && dist[p[j]].n <= PathWeight(g, p)
  {
    assert p[0] in visited;
    j := 1;
    while p[j] in visited
      invariant 1 <= j < |p| && p[j - 1] in visited
      decreases |p| - j
    {
      j := j + 1;
    }
    CrossingEdge(g, start, dist, visited, p, j);
  }

  /** The step from the last visited node p[j-1] to the first unvisited one p[j]. */
  lemma CrossingEdge(g: Graph, start: Node, dist: map<Node, Dist>, visited: seq<Node>, p: seq<Node>, j: nat)
    requires dist.Keys == g.Keys
    requires Optimal(g, start, dist, visited) && Relaxed(g, dist, visited)
    requires IsPath(g, p) && p[0] == start && 0 < j < |p| && p[j - 1] in visited && p[j] !in visited
    requires p[|p| - 1] in g
    ensures p[j] in g && dist[p[j]].Fin? && dist[p[j]].n <= PathWeight(g, p)
  {
    var u := p[j - 1];
    var v := p[j];
    assert IsEdge(g, u, v);
    assert v in g by {
      if j < |p| - 1 {
        assert IsEdge(g, p[j], p[j + 1]);
      }
    }
    var w := Weight(g[u], v).value;
    PrefixPath(g, p, j);
    PrefixPath(g, p, j + 1);
    assert PathFromTo(g, p[..j], start, u);
    assert dist[u].Fin? && dist[u].n <= PathWeight(g, p[..j]);
    assert RelaxedUpTo(g, dist, u, |g[u]|);
    var k := EntryIndex(g[u], (v, w));
    assert dist[v].AtMost(dist[u].Add(w));
    assert p[..j + 1][..j] == p[..j];
    assert PathWeight(g, p[..j + 1]) == PathWeight(g, p[..j]) + w;
  }

  /** The root of the frontier carries its node's tentative distance, and that distance
      is no longer than any path from the start. */
  lemma RootIsFinal(g: Graph, start: Node, s: Search)
    requires Inv(g, start, s) && s.frontier != []
    requires s.frontier[0].node in g && s.frontier[0].node !in s.visited
    ensures s.dist[s.frontier[0].node] == Fin(s.frontier[0].priority)
    ensures forall p :: PathFromTo(g, p, start, s.frontier[0].node) ==> s.frontier[0].priority <= PathWeight(g, p)
  {
    var cur := s.frontier[0].node;
    HeapSpec.RootIsMinAll(s.frontier, Priority);
    assert Entry(cur, s.dist[cur].n) in s.frontier;
    forall p | PathFromTo(g, p, start, cur)
      ensures s.frontier[0].priority <= PathWeight(g, p)
    {
      if s.visited == [] {
        assert s.frontier == [Entry(start, 0)];
      } else {
        var j := FrontierCrossing(g, start, s.dist, s.visited, p, cur);
        assert Entry(p[j], s.dist[p[j]].n) in s.frontier;
      }
    }
  }

  lemma VisitShape(g: Graph, start: Node, s: Search)
    requires Shape(g, start, s) && FrontierSound(g, start, s.dist, s.frontier)
    requires s.frontier != [] && s.frontier[0].node !in s.visited
    ensures Shape(g, start, Visited(s))
  {
    HeapSpec.PopKeepsHeap(s.frontier, Priority);
    assert s.frontier[0] in s.frontier;
  }

  lemma VisitSettled(g: Graph, s: Search)
    requires s.dist.Keys == g.Keys && s.frontier != [] && HeapSpec.IsHeap(s.frontier, Priority)
    requires Settled(g, s.dist, s.visited, s.frontier)
    requires s.frontier[0].node in g ==> s.dist[s.frontier[0].node] == Fin(s.frontier[0].priority)
    ensures Settled(g, s.dist, Visited(s).visited, Visited(s).frontier)
    ensures s.frontier[0].node in g ==> VisitedLast(g, s.dist, Visited(s).visited, s.frontier[0].node)
  {
    var cur := s.frontier[0].node;
    var f' := HeapSpec.Pop(s.frontier, Priority);
    PopMembers(s.frontier);
    SettledSub(g, s.dist, s.visited, s.frontier, f');
    HeapSpec.RootIsMinAll(s.frontier, Priority);
    if cur in g {
      forall e | e in f' ensures s.dist[cur].n <= e.priority {
        assert e in s.frontier;
      }
      assert s.frontier[0] in s.frontier;
    }
  }

  lemma VisitCovered(g: Graph, start: Node, s: Search)
    requires s.dist.Keys == g.Keys && s.frontier != []
    requires Covered(g, s.dist, s.visited, s.frontier)
    ensures Covered(g, s.dist, Visited(s).visited, Visited(s).frontier)
  {
    PopMembers(s.frontier);
    forall v | v in g && v !in Visited(s).visited && s.dist[v].Fin?
      ensures Entry(v, s.dist[v].n) in Visited(s).frontier
    {
      assert Entry(v, s.dist[v].n) in s.frontier;
    }
  }

  lemma VisitOptimal(g: Graph, start: Node, s: Search)
    requires s.dist.Keys == g.Keys && s.frontier != [] && Optimal(g, start, s.dist, s.visited)
    requires s.frontier[0].node in g ==> s.dist[s.frontier[0].node] == Fin(s.frontier[0].priority)
    requires s.frontier[0].node in g ==>
      forall p :: PathFromTo(g, p, start, s.frontier[0].node) ==> s.frontier[0].priority <= PathWeight(g, p)
    ensures Optimal(g, start, s.dist, Visited(s).visited)
  {
  }

  lemma VisitRanked(s: Search)
    requires PrevRanked(s.prev, s.visited) && s.frontier != [] && s.frontier[0].node !in s.visited
    ensures PrevRanked(s.prev, Visited(s).visited)
  {
    RankAppend(s.visited, s.frontier[0].node);
  }

  /** Visiting the root node of the frontier: its distance is final. */
  lemma Visit(g: Graph, start: Node, s: Search)
    requires Inv(g, start, s) && s.frontier != [] && s.frontier[0].node !in s.visited
    ensures Core(g, start, Visited(s))
    ensures s.frontier[0].node in g ==> Relaxing(g, start, Visited(s), s.frontier[0].node, 0)
    ensures s.frontier[0].node !in g ==> Relaxed(g, Visited(s).dist, Visited(s).visited)
  {
    VisitCore(g, start, s);
    VisitRelaxed(g, s.dist, s.visited, s.frontier[0].node);
  }

  lemma VisitCore(g: Graph, start: Node, s: Search)
    requires Inv(g, start, s) && s.frontier != [] && s.frontier[0].node !in s.visited
    ensures Core(g, start, Visited(s))
    ensures s.frontier[0].node in g ==> VisitedLast(g, s.dist, Visited(s).visited, s.frontier[0].node)
  {
    var r := Visited(s);
    if s.frontier[0].node in g {
      RootIsFinal(g, start, s);
    }
    VisitShape(g, start, s);
    PopMembers(s.frontier);
    FrontierSoundSub(g, start, s.dist, s.frontier, r.frontier);
    VisitSettled(g, s);
    VisitCovered(g, start, s);
    VisitOptimal(g, start, s);
    VisitRanked(s);
  }

  /** The visited nodes were relaxed; the newly visited one has nothing relaxed yet. */
  lemma VisitRelaxed(g: Graph, dist: map<Node, Dist>, visited: seq<Node>, cur: Node)
    requires dist.Keys == g.Keys && Relaxed(g, dist, visited)
    ensures cur in g ==> RelaxedBut(g, dist, visited + [cur], cur, 0)
    ensures cur !in g ==> Relaxed(g, dist, visited + [cur])
  {
  }

  // ---------------------------------------------------------------------------
  // Relaxing one adjacency entry that improves a distance

  /** The preconditions of an improving relaxation of g[cur][k] = (v, w). */
  ghost predicate Improves(g: Graph, start: Node, s: Search, cur: Node, k: nat)
  {
    && Relaxing(g, start, s, cur, k) && k < |g[cur]|
    && g[cur][k].0 in g
    && s.dist[cur].Add(g[cur][k].1).Less(s.dist[g[cur][k].0])
  }

  lemma ImprovedIsUnvisited(g: Graph, start: Node, s: Search, cur: Node, k: nat)
    requires Improves(g, start, s, cur, k)
    ensures g[cur][k].0 !in s.visited && g[cur][k].0 != start
  {
    var v := g[cur][k].0;
    if start in g {
      assert s.visited[0] == start;
    }
  }

  lemma LowerShape(g: Graph, start: Node, s: Search, cur: Node, v: Node, nd: nat)
    requires Shape(g, start, s) && s.visited != [] && v in g && v != start
    ensures Shape(g, start, Lowered(s, cur, v, nd))
  {
    HeapSpec.PushKeepsHeap(s.frontier, Entry(v, nd), Priority);
  }

  lemma LowerFrontier(g: Graph, start: Node, dist: map<Node, Dist>, visited: seq<Node>, f: seq<Entry>,
                      v: Node, nd: nat)
    requires dist.Keys == g.Keys && v in g && v !in visited && Fin(nd).Less(dist[v])
    requires FrontierSound(g, start, dist, f) && Settled(g, dist, visited, f) && Covered(g, dist, visited, f)
    requires forall u :: u in visited && u in g ==> dist[u].Fin? && dist[u].n <= nd
    ensures var f' := HeapSpec.Push(f, Entry(v, nd), Priority);
      FrontierSound(g, start, dist[v := Fin(nd)], f') && Settled(g, dist[v := Fin(nd)], visited, f') &&
      Covered(g, dist[v := Fin(nd)], visited, f')
  {
    PushMembers(f, Entry(v, nd));
  }

  lemma LowerRanked(prev: map<Node, Option<Node>>, visited: seq<Node>, cur: Node, v: Node)
    requires PrevRanked(prev, visited) && cur in prev
    requires visited != [] && visited[|visited| - 1] == cur && v !in visited
    requires forall i, j :: 0 <= i < j < |visited| ==> visited[i] != visited[j]
    ensures PrevRanked(prev[v := Some(cur)], visited)
  {
    var n := |visited| - 1;
    assert Rank(visited, cur) == n by {
      var i := IndexOf(visited, cur);
      assert visited[i] == visited[n];
    }
  }

  lemma LowerLinks(g: Graph, start: Node, dist: map<Node, Dist>, prev: map<Node, Option<Node>>,
                   visited: seq<Node>, cur: Node, k: nat, nd: nat)
    requires dist.Keys == g.Keys && prev.Keys == g.Keys
    requires PrevRanked(prev, visited) && PrevLinks(g, start, dist, prev)
    requires cur in g && k < |g[cur]| && dist[cur].Fin? && nd == dist[cur].n + g[cur][k].1
    requires g[cur][k].0 in g && g[cur][k].0 !in visited && cur in visited
    ensures PrevLinks(g, start, dist[g[cur][k].0 := Fin(nd)], prev[g[cur][k].0 := Some(cur)])
  {
    var v := g[cur][k].0;
    var dist' := dist[v := Fin(nd)];
    var prev' := prev[v := Some(cur)];
    LowerEdges(g, start, dist, prev, visited, cur, k, nd);
    forall x | x in g && prev'[x].None? && dist'[x].Fin? ensures x == start {
      assert x != v && prev[x].None? && dist[x].Fin?;
    }
  }

  lemma LowerEdges(g: Graph, start: Node, dist: map<Node, Dist>, prev: map<Node, Option<Node>>,
                   visited: seq<Node>, cur: Node, k: nat, nd: nat)
    requires dist.Keys == g.Keys && prev.Keys == g.Keys
    requires PrevRanked(prev, visited) && PrevLinks(g, start, dist, prev)
    requires cur in g && k < |g[cur]| && dist[cur].Fin? && nd == dist[cur].n + g[cur][k].1
    requires g[cur][k].0 in g && g[cur][k].0 !in visited && cur in visited
    ensures forall x :: x in g && prev[g[cur][k].0 := Some(cur)][x].Some? ==>
      PrevEdge(g, dist[g[cur][k].0 := Fin(nd)], prev[g[cur][k].0 := Some(cur)][x].value, x)
  {
    var v := g[cur][k].0;
    var dist' := dist[v := Fin(nd)];
    var prev' := prev[v := Some(cur)];
    NewEdge(g, dist, cur, k, nd);
    forall x | x in g && prev'[x].Some?
      ensures PrevEdge(g, dist', prev'[x].value, x)
    {
      if x != v {
        OldEdge(g, start, dist, prev, visited, v, x, nd);
      }
    }
  }

  /** The edge just relaxed accounts for the lowered distance. */
  lemma NewEdge(g: Graph, dist: map<Node, Dist>, cur: Node, k: nat, nd: nat)
    requires dist.Keys == g.Keys && cur in g && k < |g[cur]| && dist[cur].Fin?
    requires nd == dist[cur].n + g[cur][k].1 && g[cur][k].0 in g && g[cur][k].0 != cur
    ensures PrevEdge(g, dist[g[cur][k].0 := Fin(nd)], cur, g[cur][k].0)
  {
    var v := g[cur][k].0;
    var dist' := dist[v := Fin(nd)];
    assert dist'[cur] == dist[cur];
    assert g[cur][k] == (v, dist'[v].n - dist'[cur].n);
    assert g[cur][k] in g[cur];
  }

  /** Lowering an unvisited node's distance leaves every other node's link intact. */
  lemma OldEdge(g: Graph, start: Node, dist: map<Node, Dist>, prev: map<Node, Option<Node>>,
                visited: seq<Node>, v: Node, x: Node, nd: nat)
    requires dist.Keys == g.Keys && prev.Keys == g.Keys
    requires PrevRanked(prev, visited) && PrevLinks(g, start, dist, prev)
    requires v in g && v !in visited && x in g && x != v && prev[x].Some?
    ensures PrevEdge(g, dist[v := Fin(nd)], prev[x].value, x)
  {
    var u := prev[x].value;
    assert u in visited && u != v;
    assert PrevEdge(g, dist, u, x);
    assert dist[v := Fin(nd)][u] == dist[u] && dist[v := Fin(nd)][x] == dist[x];
  }

  lemma LowerRelaxed(g: Graph, dist: map<Node, Dist>, visited: seq<Node>, cur: Node, k: nat, nd: nat)
    requires dist.Keys == g.Keys && cur in g && k < |g[cur]| && g[cur][k].0 !in visited
    requires RelaxedBut(g, dist, visited, cur, k)
    requires dist[cur].Fin? && nd == dist[cur].n + g[cur][k].1
    requires g[cur][k].0 in g && g[cur][k].0 != cur && Fin(nd).Less(dist[g[cur][k].0])
    ensures RelaxedBut(g, dist[g[cur][k].0 := Fin(nd)], visited, cur, k + 1)
  {
    var v := g[cur][k].0;
    var dist' := dist[v := Fin(nd)];
    forall u | u in g && u != v && (u == cur || u in visited)
      ensures RelaxedUpTo(g, dist', u, if u == cur then k else |g[u]|)
    {
      assert RelaxedUpTo(g, dist, u, if u == cur then k else |g[u]|);
    }
  }

  lemma LowerOptimal(g: Graph, start: Node, dist: map<Node, Dist>, visited: seq<Node>, cur: Node, v: Node, nd: nat)
    requires dist.Keys == g.Keys && v in g && v !in visited
    requires Optimal(g, start, dist, visited) && VisitedLast(g, dist, visited, cur)
    ensures Optimal(g, start, dist[v := Fin(nd)], visited) && VisitedLast(g, dist[v := Fin(nd)], visited, cur)
  {
  }

  lemma ImproveStep(g: Graph, start: Node, s: Search, cur: Node, k: nat)
    requires Improves(g, start, s, cur, k)
    ensures Relaxing(g, start, RelaxEdge(cur, g[cur][k], s), cur, k + 1)
  {
    ImprovedIsUnvisited(g, start, s, cur, k);
    var (v, w) := g[cur][k];
    var nd := s.dist[cur].n + w;
    LowerShape(g, start, s, cur, v, nd);
    LowerFrontier(g, start, s.dist, s.visited, s.frontier, v, nd);
    LowerRanked(s.prev, s.visited, cur, v);
    LowerLinks(g, start, s.dist, s.prev, s.visited, cur, k, nd);
    LowerRelaxed(g, s.dist, s.visited, cur, k, nd);
    LowerOptimal(g, start, s.dist, s.visited, cur, v, nd);
  }

  /** One relaxation step keeps the invariant and relaxes one more entry of cur. */
  lemma RelaxStep(g: Graph, start: Node, s: Search, cur: Node, k: nat)
    requires Relaxing(g, start, s, cur, k) && k < |g[cur]|
    ensures Relaxing(g, start, RelaxEdge(cur, g[cur][k], s), cur, k + 1)
  {
    if Improves(g, start, s, cur, k) {
      ImproveStep(g, start, s, cur, k);
    } else {
      assert RelaxEdge(cur, g[cur][k], s) == s;
    }
  }

  /** Relaxing the remaining entries of cur keeps the invariant. */
  lemma {:induction false} RelaxAll(g: Graph, start: Node, s: Search, cur: Node, k: nat)
    requires Relaxing(g, start, s, cur, k)
    ensures Relaxing(g, start, Relax(cur, g[cur][k..], s), cur, |g[cur]|)
    decreases |g[cur]| - k
  {
    if k < |g[cur]| {
      RelaxStep(g, start, s, cur, k);
      assert g[cur][k..][0] == g[cur][k] && g[cur][k..][1..] == g[cur][k + 1..];
      RelaxAll(g, start, RelaxEdge(cur, g[cur][k], s), cur, k + 1);
    }
  }

  // ---------------------------------------------------------------------------
  // The main loop

  /** The main loop keeps the invariant; it ends with the target visited, or with the
      frontier exhausted and every visited node relaxed. */
  lemma {:induction false} ExploreKeeps(g: Graph, start: Node, target: Node, s: Search)
    requires Inv(g, start, s)
    ensures Core(g, start, Explore(g, target, s))
    ensures var r := Explore(g, target, s);
      target in r.visited || (r.frontier == [] && Relaxed(g, r.dist, r.visited))
    decreases g.Keys - Elems(s.visited), |s.frontier|
  {
    if s.frontier != [] {
      var cur := s.frontier[0].node;
      ElemsAppend(s.visited, cur);
      if cur in s.visited {
        PopStale(g, start, s);
        ExploreKeeps(g, start, target, Popped(s));
      } else {
        Visit(g, start, s);
        var seen := Visited(s);
        if cur == target {
        } else if cur in g {
          RelaxAll(g, start, seen, cur, 0);
          assert g[cur][0..] == g[cur];
          ExploreKeeps(g, start, target, Relax(cur, g[cur], seen));
        } else {
          ExploreKeeps(g, start, target, seen);
        }
      }
    }
  }

  lemma StartInv(g: Graph, start: Node)
    ensures Inv(g, start, Start(g, start))
  {
    var s := Start(g, start);
    assert HeapSpec.IsHeap(s.frontier, Priority);
  }

  lemma ExploreFinal(g: Graph, start: Node, target: Node)
    ensures Core(g, start, Explore(g, target, Start(g, start)))
    ensures var r := Explore(g, target, Start(g, start));
      target in r.visited || (r.frontier == [] && Relaxed(g, r.dist, r.visited))
  {
    StartInv(g, start);
    ExploreKeeps(g, start, target, Start(g, start));
  }

  // ---------------------------------------------------------------------------
  // What the search promises

  /** The parts of the invariant that walking the predecessor links relies on. */
  ghost predicate WalkReady(g: Graph, start: Node, s: Search) {
    && s.dist.Keys == g.Keys && s.prev.Keys == g.Keys
    && PrevRanked(s.prev, s.visited) && PrevLinks(g, start, s.dist, s.prev)
    && (start in g ==> s.dist[start] == Fin(0))
  }

  /** Where an adjacency entry sits in its list. */
  function EntryIndex(adj: seq<(Node, nat)>, e: (Node, nat)): (k: nat)
    requires e in adj
    ensures k < |adj| && adj[k] == e
  {
    if adj[0] == e then 0 else 1 + EntryIndex(adj[1..], e)
  }

  /** The adjacency entry behind a predecessor link. */
  lemma EdgeEntry(g: Graph, dist: map<Node, Dist>, u: Node, v: Node) returns (k: nat)
    requires dist.Keys == g.Keys && v in g && PrevEdge(g, dist, u, v)
    ensures k < |g[u]| && g[u][k].0 == v && dist[u].n + g[u][k].1 == dist[v].n
    ensures IsEdge(g, u, v)
  {
    k := EntryIndex(g[u], (v, dist[v].n - dist[u].n));
    assert g[u][k].0 == v;
  }

  /** The last link of a walk is an edge whose weight is the difference of the distances. */
  lemma LastLink(g: Graph, start: Node, s: Search, v: Node) returns (u: Node, k: nat)
    requires WalkReady(g, start, s) && v in g && s.prev[v].Some?
    ensures u == s.prev[v].value && u in g && s.dist[u].Fin? && s.dist[v].Fin?
    ensures k < |g[u]| && g[u][k].0 == v && s.dist[u].n + g[u][k].1 == s.dist[v].n
    ensures IsEdge(g, u, v)
    ensures Rank(s.visited, u) < Rank(s.visited, v)
  {
    u := s.prev[v].value;
    assert PrevEdge(g, s.dist, u, v);
    k := EdgeEntry(g, s.dist, u, v);
  }

  /** Following the predecessor links back from a node with a finite distance gives a
      path from the start. */
  lemma {:induction false} WalkIsPath(g: Graph, start: Node, s: Search, v: Node)
    requires WalkReady(g, start, s) && v in g && s.dist[v].Fin?
    ensures PathFromTo(g, Walk(s, v), start, v)
    decreases Rank(s.visited, v)
  {
    if s.prev[v].Some? {
      var u, k := LastLink(g, start, s, v);
      WalkIsPath(g, start, s, u);
      ExtendPath(g, Walk(s, u), v);
    }
  }

  /** In a well-formed graph the walk's weights add up to the distance. */
  lemma {:induction false} WalkWeight(g: Graph, start: Node, s: Search, v: Node)
    requires WalkReady(g, start, s) && v in g && s.dist[v].Fin? && WellFormed(g)
    ensures IsPath(g, Walk(s, v)) && PathWeight(g, Walk(s, v)) == s.dist[v].n
    decreases Rank(s.visited, v)
  {
    WalkIsPath(g, start, s, v);
    if s.prev[v].Some? {
      var u, k := LastLink(g, start, s, v);
      WalkWeight(g, start, s, u);
      WeightOfEntry(g[u], k);
      ExtendPath(g, Walk(s, u), v);
    }
  }

  /** A node at the end of a path from the start is visited when the search ends. */
  lemma Reaches(g: Graph, start: Node, s: Search, p: seq<Node>, x: Node)
    requires Core(g, start, s) && x in g && PathFromTo(g, p, start, x)
    requires x in s.visited || (s.frontier == [] && Relaxed(g, s.dist, s.visited))
    ensures x in s.visited
  {
    if x !in s.visited {
      var j := FrontierCrossing(g, start, s.dist, s.visited, p, x);
      assert false;
    }
  }

  lemma FinalWalkReady(g: Graph, start: Node, target: Node)
    ensures WalkReady(g, start, Explore(g, target, Start(g, start)))
  {
    ExploreFinal(g, start, target);
  }

  /** When the distance is finite, the path runs from start to target along edges of the
      graph, and in a well-formed graph its weights add up to the distance. */
  lemma ShortestPathIsPath(g: Graph, start: Node, target: Node)
    requires target in g
    ensures var r := ShortestPath(g, start, target);
      r.distance.Fin? ==> PathFromTo(g, r.path, start, target)
    ensures var r := ShortestPath(g, start, target);
      r.distance.Fin? && WellFormed(g) ==> PathWeight(g, r.path) == r.distance.n
  {
    FinalWalkReady(g, start, target);
    var s := Explore(g, target, Start(g, start));
    var r := ShortestPath(g, start, target);
    assert r.distance == s.dist[target];
    if s.dist[target].Fin? {
      assert r.path == Walk(s, target);
      WalkIsPath(g, start, s, target);
      if WellFormed(g) {
        WalkWeight(g, start, s, target);
      }
    }
  }

  /** The distance is no longer than any path from start to target. */
  lemma ShortestPathIsShortest(g: Graph, start: Node, target: Node, p: seq<Node>)
    requires target in g && PathFromTo(g, p, start, target)
    ensures ShortestPath(g, start, target).distance.Fin?
    ensures ShortestPath(g, start, target).distance.n <= PathWeight(g, p)
  {
    ExploreFinal(g, start, target);
    var s := Explore(g, target, Start(g, start));
    Reaches(g, start, s, p, target);
  }

  /** The distance is finite exactly when some path leads from start to target;
      otherwise it is Infinity and the path is empty. */
  lemma ShortestPathReachable(g: Graph, start: Node, target: Node)
    requires target in g
    ensures ShortestPath(g, start, target).distance.Fin? <==> exists p :: PathFromTo(g, p, start, target)
    ensures ShortestPath(g, start, target).distance == Inf ==> ShortestPath(g, start, target).path == []
  {
    var r := ShortestPath(g, start, target);
    if r.distance.Fin? {
      ShortestPathIsPath(g, start, target);
    }
    if p :| PathFromTo(g, p, start, target) {
      ShortestPathIsShortest(g, start, target, p);
    }
  }

  /** From a node to itself: distance 0 and the one-node path. */
  lemma ShortestPathToSelf(g: Graph, start: Node)
    requires start in g
    ensures ShortestPath(g, start, start) == Route(Fin(0), [start])
  {
    var s0 := Start(g, start);
    var s := Visited(s0);
    assert Explore(g, start, s0) == s;
    assert s.dist[start] == Fin(0);
    assert s.prev[start] == None;
  }
}
