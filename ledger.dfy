/** What both dispatchers share: partner lookup and freeing, the invariants of the order
    heap and of the assignment records, and how a new order is built. */
module Ledger {
  import opened Options
  import opened Graphs
  import HeapSpec
  import opened ShortestPaths
  import opened Domain
  import opened DeliveryList

  /** `deliveryPartners.find(p => p.id === id)`: the first partner with this id. */
  function FindPartner(partners: seq<Partner>, id: int): (r: Option<nat>)
    ensures r.None? <==> forall j :: 0 <= j < |partners| ==> partners[j].id != id
    ensures r.Some? ==> r.value < |partners| && partners[r.value].id == id
    ensures r.Some? ==> forall j :: 0 <= j < r.value ==> partners[j].id != id
    decreases |partners|
  {
    if partners == [] then None
    else if partners[0].id == id then Some(0)
    else
      match FindPartner(partners[1..], id)
      case None => None
      case Some(i) => Some(i + 1)
  }

  /** Every queued order is pending and its delivery location is a node of the graph. */
  ghost predicate Queued(h: seq<Order>, g: Graph) {
    forall i :: 0 <= i < |h| ==> h[i].status == Pending && h[i].deliveryLocation in g
  }

  /** Every assignment's totals agree with its legs. */
  ghost predicate AllWellPriced(s: seq<Assignment>) {
    forall i :: 0 <= i < |s| ==> WellPriced(s[i])
  }

  /** Dropping one assignment keeps the rest well priced. */
  lemma AllWellPricedDrop(s: seq<Assignment>, i: nat)
    requires AllWellPriced(s) && i < |s|
    ensures AllWellPriced(s[..i] + s[i + 1..]) && WellPriced(s[i])
  {
    var r := s[..i] + s[i + 1..];
    forall j | 0 <= j < |r| ensures WellPriced(r[j]) {
      if j < i {
        assert r[j] == s[j];
      } else {
        assert r[j] == s[j + 1];
      }
    }
  }

  /** Taking orders out of a queue (dequeue, cancel) keeps it Queued. */
  lemma QueuedShrink(h: seq<Order>, h': seq<Order>, g: Graph)
    requires Queued(h, g) && multiset(h') <= multiset(h)
    ensures Queued(h', g)
  {
    forall i | 0 <= i < |h'| ensures h'[i].status == Pending && h'[i].deliveryLocation in g {
      assert h'[i] in multiset(h');
      assert h'[i] in multiset(h);
      var j :| 0 <= j < |h| && h[j] == h'[i];
    }
  }

  /** Adding a pending, deliverable order keeps a queue Queued. */
  lemma QueuedGrow(h: seq<Order>, h': seq<Order>, o: Order, g: Graph)
    requires Queued(h, g) && o.status == Pending && o.deliveryLocation in g
    requires multiset(h') == multiset(h) + multiset{o}
    ensures Queued(h', g)
  {
    forall i | 0 <= i < |h'| ensures h'[i].status == Pending && h'[i].deliveryLocation in g {
      assert h'[i] in multiset(h');
      if h'[i] != o {
        assert h'[i] in multiset(h);
        var j :| 0 <= j < |h| && h[j] == h'[i];
      }
    }
  }

  /** Changing only an assignment's order and delivery time keeps its totals right. */
  lemma WithOrderStatusWellPriced(a: Assignment, status: Status, now: Timestamp)
    requires WellPriced(a)
    ensures WellPriced(WithOrderStatus(a, status, now))
  {
    var r := WithOrderStatus(a, status, now);
    assert r.(order := a.order, deliveredAt := a.deliveredAt) == a;
  }

  /** The partner states after the assignment's partner (the first with its id, if any) is
      freed at the delivery location. */
  ghost function Freed(states: seq<PartnerState>, ps: seq<Partner>, a: Assignment): (r: seq<PartnerState>)
    requires |states| == |ps|
    ensures |r| == |ps|
  {
    match FindPartner(ps, a.partnerId)
    case None => states
    case Some(j) => Reassign(states, ps, ps[j], PartnerState(a.order.deliveryLocation, true, None))
  }

  /** Orders were served by ascending score, and none of them scored above an order still
      waiting. */
  ghost predicate ServedInOrder(served: seq<Assignment>, waiting: seq<Order>) {
    && (forall i, j :: 0 <= i < j < |served| ==> served[i].order.priorityScore <= served[j].order.priorityScore)
    && (forall i, j :: 0 <= i < |served| && 0 <= j < |waiting| ==> served[i].order.priorityScore <= waiting[j].priorityScore)
  }

  /** Serving the root of a heap keeps ServedInOrder. */
  lemma ServedStep(served: seq<Assignment>, h: seq<Order>, a: Assignment)
    requires ServedInOrder(served, h) && h != [] && HeapSpec.IsHeap(h, Score)
    requires a.order.priorityScore == h[0].priorityScore
    ensures ServedInOrder(served + [a], HeapSpec.Pop(h, Score))
  {
    HeapSpec.RootIsMinAll(h, Score);
    var rest := HeapSpec.Pop(h, Score);
    var s' := served + [a];
    forall i, j | 0 <= i < |s'| && 0 <= j < |rest| ensures s'[i].order.priorityScore <= rest[j].priorityScore {
      assert rest[j] in multiset(rest);
      assert rest[j] in multiset(h);
      var m :| 0 <= m < |h| && h[m] == rest[j];
      if i < |served| {
        assert s'[i] == served[i];
      }
    }
    forall i, j | 0 <= i < j < |s'| ensures s'[i].order.priorityScore <= s'[j].order.priorityScore {
      if j < |served| {
        assert s'[i] == served[i] && s'[j] == served[j];
      } else {
        assert s'[i] == served[i];
      }
    }
  }

  /** ServedInOrder survives taking orders out of the waiting ones, in any arrangement. */
  lemma ServedReorder(served: seq<Assignment>, h: seq<Order>, h': seq<Order>)
    requires ServedInOrder(served, h) && multiset(h') <= multiset(h)
    ensures ServedInOrder(served, h')
  {
    forall i, j | 0 <= i < |served| && 0 <= j < |h'| ensures served[i].order.priorityScore <= h'[j].priorityScore {
      assert h'[j] in multiset(h);
      var m :| 0 <= m < |h| && h[m] == h'[j];
    }
  }

  /** The order addOrder builds from the caller's data under the given id: pending,
      unassigned, scored on the length of its shortest route from the store. */
  ghost function NewOrder(g: Graph, store: Node, id: nat, data: OrderData): Order
    requires data.deliveryLocation in g
  {
    var info := PriorityFromDistance(ShortestPath(g, store, data.deliveryLocation).distance, data.orderValue);
    Order(id, data.customerName, data.orderValue, data.deliveryLocation, Pending,
          info.priorityScore, info.actualDistance, None)
  }

  /** A new order is pending, deliverable, keeps the caller's data, and its score lies in
      [0, 1] for a non-negative value, closer and larger orders scoring lower. */
  lemma NewOrderIsPending(g: Graph, store: Node, id: nat, data: OrderData)
    requires data.deliveryLocation in g
    ensures var o := NewOrder(g, store, id, data);
      && o.id == id && o.status == Pending && o.assignedPartner == None
      && o.customerName == data.customerName && o.orderValue == data.orderValue
      && o.deliveryLocation == data.deliveryLocation
      && o.actualDistance == ShortestPath(g, store, data.deliveryLocation).distance
      && (data.orderValue >= 0.0 ==> 0.0 <= o.priorityScore <= 1.0)
  {
  }

  /** How many of the partner states are available. */
  function Available(states: seq<PartnerState>): (n: nat)
    ensures n <= |states|
    ensures n == 0 <==> forall j :: 0 <= j < |states| ==> !states[j].isAvailable
    decreases |states|
  {
    if states == [] then 0
    else Available(states[..|states| - 1]) + (if states[|states| - 1].isAvailable then 1 else 0)
  }

  /** How many of the partners are available right now. */
  ghost function FreeCount(ps: seq<Partner>): nat
    reads ps
    decreases |ps|
  {
    if ps == [] then 0
    else FreeCount(ps[..|ps| - 1]) + (if ps[|ps| - 1].isAvailable then 1 else 0)
  }

  /** Counting the partners and counting their states agree. */
  lemma {:induction false} FreeCountIsAvailable(ps: seq<Partner>)
    ensures FreeCount(ps) == Available(States(ps))
    decreases |ps|
  {
    if ps != [] {
      var n := |ps| - 1;
      FreeCountIsAvailable(ps[..n]);
      assert States(ps)[..n] == States(ps[..n]);
    }
  }

  /** A partner that is available afterwards was available before: no more are available. */
  lemma {:induction false} AvailableMono(before: seq<PartnerState>, after: seq<PartnerState>)
    requires |before| == |after|
    requires forall j :: 0 <= j < |after| && after[j].isAvailable ==> before[j].isAvailable
    ensures Available(after) <= Available(before)
    decreases |before|
  {
    if before != [] {
      var n := |before| - 1;
      AvailableMono(before[..n], after[..n]);
    }
  }

  /** ... and if partner k was available and is no longer, strictly fewer are. */
  lemma {:induction false} AvailableDrop(before: seq<PartnerState>, after: seq<PartnerState>, k: nat)
    requires |before| == |after| && k < |before|
    requires forall j :: 0 <= j < |after| && after[j].isAvailable ==> before[j].isAvailable
    requires before[k].isAvailable && !after[k].isAvailable
    ensures Available(after) < Available(before)
    decreases |before|
  {
    var n := |before| - 1;
    if k == n {
      AvailableMono(before[..n], after[..n]);
    } else {
      AvailableDrop(before[..n], after[..n], k);
    }
  }

  /** Making an available partner busy leaves strictly fewer partners available. */
  lemma BusyFewer(states: seq<PartnerState>, ps: seq<Partner>, k: nat, s: PartnerState)
    requires |states| == |ps| && k < |ps| && states[k].isAvailable && !s.isAvailable
    ensures Available(Reassign(states, ps, ps[k], s)) < Available(states)
  {
    AvailableDrop(states, Reassign(states, ps, ps[k], s), k);
  }
}
