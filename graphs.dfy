/** Optional values: the `null` results of the queue, the list and the searches. */
module Options {
  datatype Option<T> = None | Some(value: T)
}

/** The weighted location graph, distances that may be infinite, and paths. */
module Graphs {
  import opened Options

  /** Locations are named by strings ("A" .. "J" in the map fixture). */
  type Node = string

  /** Each node's neighbours with the travel cost, in the insertion order of the
      adjacency object (the order in which the search visits them). */
  type Graph = map<Node, seq<(Node, nat)>>

  /** A travel distance; `Inf` is JavaScript's Infinity (also the "unreachable" result). */
  datatype Dist = Fin(n: nat) | Inf {

    /** Adding a finite edge weight; Infinity stays Infinity. */
    function Add(w: nat): (r: Dist)
      ensures r.Fin? <==> this.Fin?
      ensures r.Fin? ==> r.n == this.n + w
    {
      match this
      case Fin(n) => Fin(n + w)
      case Inf => Inf
    }

    /** The strict comparison `a < b` on numbers that may be Infinity. */
    predicate Less(other: Dist) {
      match (this, other)
      case (Fin(a), Fin(b)) => a < b
      case (Fin(_), Inf) => true
      case (Inf, _) => false
    }

    predicate AtMost(other: Dist) {
      !other.Less(this)
    }
  }

  /** Sum of two distances (the total of the two legs of an assignment). */
  function Plus(a: Dist, b: Dist): (r: Dist)
    ensures r.Fin? <==> a.Fin? && b.Fin?
    ensures r.Fin? ==> r.n == a.n + b.n
  {
    if a.Fin? && b.Fin? then Fin(a.n + b.n) else Inf
  }

  /** An adjacency object cannot name the same neighbour twice. */
  ghost predicate WellFormed(g: Graph) {
    forall u, i, j :: u in g && 0 <= i < j < |g[u]| ==> g[u][i].0 != g[u][j].0
  }

  /** The weight of the edge to v listed in adj, if any (the first entry naming v). */
  function Weight(adj: seq<(Node, nat)>, v: Node): (r: Option<nat>)
    ensures r.Some? <==> exists k :: 0 <= k < |adj| && adj[k].0 == v
    ensures r.Some? ==> (v, r.value) in adj
    decreases |adj|
  {
    if adj == [] then None
    else if adj[0].0 == v then Some(adj[0].1)
    else
      var r := Weight(adj[1..], v);
      assert forall k :: 0 < k < |adj| ==> adj[k] == adj[1..][k - 1];
      assert r.Some? ==> (exists k :: 0 <= k < |adj| - 1 && adj[1..][k].0 == v);
      r
  }

  /** In a well-formed adjacency the listed entry for v is the weight of the edge to v. */
  lemma WeightOfEntry(adj: seq<(Node, nat)>, k: nat)
    requires k < |adj|
    requires forall i, j :: 0 <= i < j < |adj| ==> adj[i].0 != adj[j].0
    ensures Weight(adj, adj[k].0) == Some(adj[k].1)
  {
    if k > 0 {
      assert adj[0].0 != adj[k].0;
      assert adj[1..][k - 1] == adj[k];
      WeightOfEntry(adj[1..], k - 1);
    }
  }

  /** The edge (u, v) exists: u is a node and its adjacency lists v. */
  ghost predicate IsEdge(g: Graph, u: Node, v: Node) {
    u in g && Weight(g[u], v).Some?
  }

  /** A non-empty sequence of nodes joined by edges. */
  ghost predicate IsPath(g: Graph, p: seq<Node>) {
    |p| > 0 && forall i :: 0 <= i < |p| - 1 ==> IsEdge(g, p[i], p[i + 1])
  }

  ghost predicate PathFromTo(g: Graph, p: seq<Node>, s: Node, t: Node) {
    IsPath(g, p) && p[0] == s && p[|p| - 1] == t
  }

  /** The sum of the edge weights along a path. */
  ghost function PathWeight(g: Graph, p: seq<Node>): nat
    requires IsPath(g, p)
    decreases |p|
  {
    if |p| == 1 then 0
    else
      var q := p[..|p| - 1];
      assert IsPath(g, q) by {
        forall i | 0 <= i < |q| - 1 ensures IsEdge(g, q[i], q[i + 1]) {
          assert IsEdge(g, p[i], p[i + 1]);
        }
      }
      assert IsEdge(g, p[|p| - 2], p[|p| - 1]);
      PathWeight(g, q) + Weight(g[p[|p| - 2]], p[|p| - 1]).value
  }

  /** A prefix of a path is a path from the same node, and weighs no more. */
  lemma {:induction false} PrefixPath(g: Graph, p: seq<Node>, k: nat)
    requires IsPath(g, p) && 0 < k <= |p|
    ensures IsPath(g, p[..k]) && PathWeight(g, p[..k]) <= PathWeight(g, p)
    decreases |p| - k
  {
    var q := p[..k];
    assert IsPath(g, q) by {
      forall i | 0 <= i < k - 1 ensures IsEdge(g, q[i], q[i + 1]) {
        assert IsEdge(g, p[i], p[i + 1]);
      }
    }
    if k < |p| {
      PrefixPath(g, p, k + 1);
      assert p[..k + 1][..k] == p[..k];
    } else {
      assert p[..k] == p;
    }
  }

  /** Extending a path by one edge adds that edge's weight. */
  lemma ExtendPath(g: Graph, p: seq<Node>, v: Node)
    requires IsPath(g, p) && IsEdge(g, p[|p| - 1], v)
    ensures IsPath(g, p + [v])
    ensures PathWeight(g, p + [v]) == PathWeight(g, p) + Weight(g[p[|p| - 1]], v).value
  {
    var q := p + [v];
    forall i | 0 <= i < |q| - 1 ensures IsEdge(g, q[i], q[i + 1]) {
      if i < |p| - 1 {
        assert IsEdge(g, p[i], p[i + 1]);
      }
    }
    assert q[..|q| - 1] == p;
  }
}
