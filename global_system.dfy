/** The module-level dispatcher the app itself uses: one order heap, one list of active
    deliveries and one id counter shared by every call, with the graph and the store passed
    in on each call. */
module GlobalSystem {
  import opened Options
  import opened Graphs
  import HeapSpec
  import opened ShortestPaths
  import opened Domain
  import opened Routing
  import opened OrderQueue
  import opened DeliveryList
  import opened Ledger

  /** The counts getSystemStatus reports. */
  datatype SystemStatus = SystemStatus(pendingOrders: int, activeDeliveries: int, totalProcessed: int)

  /** What one round of assignDeliveryPartners did with the order it dequeued: assigned it,
      dropped it (it was not pending), or put it back (no partner could take it). */
  datatype Round = Served(assignment: Assignment) | Dropped(order: Order) | Blocked(order: Order)

  /** Every queued order's delivery location is a node of the graph, as dijkstra needs. */
  ghost predicate Routable(h: seq<Order>, g: Graph) {
    forall i :: 0 <= i < |h| ==> h[i].deliveryLocation in g
  }

  /** Orders taken from a routable heap, plus routable extras, are routable. */
  lemma RoutableFrom(h: seq<Order>, extra: seq<Order>, h': seq<Order>, g: Graph)
    requires Routable(h, g) && Routable(extra, g) && multiset(h') <= multiset(h) + multiset(extra)
    ensures Routable(h', g)
  {
    forall i | 0 <= i < |h'| ensures h'[i].deliveryLocation in g {
      assert h'[i] in multiset(h');
      if h'[i] in multiset(h) {
        var j :| 0 <= j < |h| && h[j] == h'[i];
      } else {
        assert h'[i] in multiset(extra);
        var j :| 0 <= j < |extra| && extra[j] == h'[i];
      }
    }
  }

  /** The length of the shortest route from the store to the order's customer: the second
      leg of every offer for that order. */
  ghost function Onward(g: Graph, store: Node, o: Order): Dist
    requires o.deliveryLocation in g
  {
    ShortestPath(g, store, o.deliveryLocation).distance
  }

  /** The copy of o that prioritizeOrders queues: o with the score and distance of its
      shortest route from the store. */
  ghost function Enriched(g: Graph, store: Node, o: Order): (r: Order)
    requires o.deliveryLocation in g
    ensures r.(priorityScore := o.priorityScore, actualDistance := o.actualDistance) == o
  {
    var info := PriorityFromDistance(ShortestPath(g, store, o.deliveryLocation).distance, o.orderValue);
    o.(priorityScore := info.priorityScore, actualDistance := info.actualDistance)
  }

  /** The priced copies of the orders, in order. */
  ghost function EnrichedAll(g: Graph, store: Node, orders: seq<Order>): (r: seq<Order>)
    requires forall i :: 0 <= i < |orders| ==> orders[i].deliveryLocation in g
    ensures |r| == |orders| && forall i :: 0 <= i < |orders| ==> r[i] == Enriched(g, store, orders[i])
    decreases |orders|
  {
    if orders == [] then []
    else EnrichedAll(g, store, orders[..|orders| - 1]) + [Enriched(g, store, orders[|orders| - 1])]
  }

  lemma EnrichedPrefix(g: Graph, store: Node, orders: seq<Order>, i: nat)
    requires i < |orders| && forall j :: 0 <= j < |orders| ==> orders[j].deliveryLocation in g
    ensures EnrichedAll(g, store, orders[..i + 1]) == EnrichedAll(g, store, orders[..i]) + [Enriched(g, store, orders[i])]
  {
    assert orders[..i + 1][..i] == orders[..i];
  }

  /** What assignDeliveryPartners promises of every assignment it returns: the order is
      marked assigned to the named partner, the totals agree with the legs, and the total
      is finite. */
  ghost predicate Booked(a: Assignment) {
    && a.orderId == a.order.id
    && a.order.status == Assigned && a.order.assignedPartner == Some(a.partnerName)
    && WellPriced(a) && a.totalDistance.Fin? && a.deliveredAt == None
  }

  ghost predicate AllBooked(s: seq<Assignment>) {
    forall i :: 0 <= i < |s| ==> Booked(s[i])
  }

  /* BookedSnoc, AppendOne and StaleSnoc state single steps that Advance would otherwise
     have to find in a large context; keeping them apart keeps Advance's proof small. */
  lemma BookedSnoc(s: seq<Assignment>, a: Assignment)
    requires AllBooked(s) && Booked(a)
    ensures AllBooked(s + [a])
  {
  }

  lemma AppendOne<T>(a: seq<T>, b: seq<T>, x: T)
    ensures a + (b + [x]) == (a + b) + [x]
  {
  }

  /** The orders assignDeliveryPartners discards: none of them is pending. */
  ghost predicate AllStale(dropped: seq<Order>) {
    forall i :: 0 <= i < |dropped| ==> dropped[i].status != Pending
  }

  lemma StaleSnoc(dropped: seq<Order>, o: Order)
    requires AllStale(dropped) && o.status != Pending
    ensures AllStale(dropped + [o])
  {
  }

  /** Order o was served by partner k, the cheapest for it: the assignment routes that
      partner, who stood at its `before` location, through the store to the customer, its
      total is partner k's offer, and the partner alone became busy with the order, so
      fewer partners are available. */
  ghost predicate ServedBy(g: Graph, store: Node, o: Order, offers: seq<Dist>, before: seq<PartnerState>,
                           after: seq<PartnerState>, ps: seq<Partner>, k: int, a: Assignment)
    requires store in g && o.deliveryLocation in g
  {
    && |before| == |ps| && Nearest(offers, k) && k < |ps|
    && Assigns(g, store, o, ps[k].id, ps[k].name, before[k].location, a)
    && a.totalDistance == offers[k]
    && after == Reassign(before, ps, ps[k], PartnerState(before[k].location, false, Some(o.id)))
    && Available(after) < Available(before)
  }

  /** The priority breakdown of an order: the formula applied to the length of the
      shortest route from the store, with `priority` a copy of the score. */
  method CalculateOrderPriority(orderValue: real, deliveryLocation: Node, graph: Graph, store: Node)
    returns (priority: real, info: PriorityInfo)
    requires deliveryLocation in graph
    ensures info == PriorityFromDistance(ShortestPath(graph, store, deliveryLocation).distance, orderValue)
    ensures priority == info.priorityScore
    ensures orderValue >= 0.0 ==> 0.0 <= priority <= 1.0
  {
    var distanceResult := Dijkstra(graph, store, deliveryLocation);
    info := PriorityFromDistance(distanceResult.distance, orderValue);
    priority := info.priorityScore;
  }

  /** One element of prioritizeOrders' map: the order with its computed score and distance. */
  method Enrich(order: Order, graph: Graph, store: Node) returns (enhancedOrder: Order)
    requires order.deliveryLocation in graph
    ensures enhancedOrder == Enriched(graph, store, order)
  {
    var priority, info := CalculateOrderPriority(order.orderValue, order.deliveryLocation, graph, store);
    enhancedOrder := order.(priorityScore := info.priorityScore, actualDistance := info.actualDistance);
  }

  /** `availablePartners.some(p => p.isAvailable)`. */
  function SomeAvailable(ps: seq<Partner>): (b: bool)
    reads ps
    ensures b <==> exists j :: 0 <= j < |ps| && ps[j].isAvailable
    decreases |ps|
  {
    if ps == [] then false else ps[0].isAvailable || SomeAvailable(ps[1..])
  }

  /** What the partner scan of assignDeliveryPartners knows after `seen`: k is the first
      partner with the strictly smallest finite total (-1 when none), with that total and,
      for a partner, both legs of its route. */
  ghost predicate Cheapest(g: Graph, store: Node, o: Order, seen: seq<Partner>, k: int, best: Partner?,
                           minTotalCost: Dist, toStore: Route, toCustomer: Route)
    requires store in g && o.deliveryLocation in g
    reads seen
  {
    var ds := Offers(g, store, Onward(g, store, o), seen);
    && Best(ds, k)
    && minTotalCost == BestOffer(ds, k)
    && best == (if k == -1 then null else seen[k])
    && (k != -1 ==>
          && seen[k].isAvailable
          && minTotalCost == Plus(toStore.distance, toCustomer.distance)
          && toStore == ShortestPath(g, seen[k].location, store)
          && toCustomer == ShortestPath(g, store, o.deliveryLocation))
  }

  /** The scan over the partners for one order: the available partner whose partner-to-store
      plus store-to-customer total is smallest, the first one on a tie; null and Infinity
      when no available partner gives a finite total. */
  method CheapestPartner(order: Order, ps: seq<Partner>, graph: Graph, store: Node)
    returns (bestPartner: Partner?, minTotalCost: Dist, toStore: Route, toCustomer: Route, ghost k: int)
    requires store in graph && order.deliveryLocation in graph
    ensures Cheapest(graph, store, order, ps, k, bestPartner, minTotalCost, toStore, toCustomer)
  {
    bestPartner := null;
    minTotalCost := Inf;
    toStore := Route(Fin(0), []);
    toCustomer := Route(Fin(0), []);
    k := -1;
    for i := 0 to |ps|
      invariant Cheapest(graph, store, order, ps[..i], k, bestPartner, minTotalCost, toStore, toCustomer)
    {
      assert ps[..i + 1] == ps[..i] + [ps[i]];
      bestPartner, minTotalCost, toStore, toCustomer, k :=
        Price(order, ps[..i], ps[i], graph, store, bestPartner, minTotalCost, toStore, toCustomer, k);
    }
    assert ps[..|ps|] == ps;
  }

  /** One partner of the scan: an available partner is routed to the store and the order
      routed to its customer; it takes the lead exactly when its total is strictly below
      the current best. */
  method Price(order: Order, seen: seq<Partner>, p: Partner, graph: Graph, store: Node, best: Partner?,
               cost: Dist, toStore: Route, toCustomer: Route, ghost k: int)
    returns (best': Partner?, cost': Dist, toStore': Route, toCustomer': Route, ghost k': int)
    requires store in graph && order.deliveryLocation in graph
    requires Cheapest(graph, store, order, seen, k, best, cost, toStore, toCustomer)
    ensures Cheapest(graph, store, order, seen + [p], k', best', cost', toStore', toCustomer')
  {
    var all := seen + [p];
    assert all[..|seen|] == seen;
    ghost var onward := Onward(graph, store, order);
    ghost var ds := Offers(graph, store, onward, seen);
    ghost var offer := Offer(graph, store, onward, p);
    assert Offers(graph, store, onward, all) == ds + [offer];
    BestSnoc(ds, k, offer);
    best', cost', toStore', toCustomer', k' := best, cost, toStore, toCustomer, k;
    if p.isAvailable {
      var partnerToStore := Dijkstra(graph, p.location, store);
      var storeToDelivery := Dijkstra(graph, store, order.deliveryLocation);
      var totalCost := Plus(partnerToStore.distance, storeToDelivery.distance);
      assert totalCost == offer;
      if totalCost.Less(cost) {
        best', cost', toStore', toCustomer', k' := p, totalCost, partnerToStore, storeToDelivery, |seen|;
      }
    }
    if k' == k && k != -1 {
      assert all[k] == seen[k];
    }
  }

  /** The module globals of the dispatcher. */
  class OrderManagement {
    const globalOrderQueue: OrderPriorityQueue
    const globalDeliveryList: DeliveryLinkedList
    var orderIdCounter: int

    /** The list is well formed, the counter has handed out ids from 1, and the queue is a
        heap (this dispatcher never removes from the middle of it). */
    ghost predicate Valid()
      reads this, globalOrderQueue, globalDeliveryList, globalDeliveryList.spine
    {
      && globalDeliveryList.Valid()
      && orderIdCounter >= 1
      && HeapSpec.IsHeap(globalOrderQueue.heap, Score)
    }

    /** The globals as the module initialises them. */
    constructor ()
      ensures Valid() && fresh(globalOrderQueue) && fresh(globalDeliveryList)
      ensures globalOrderQueue.heap == [] && globalDeliveryList.Contents() == [] && orderIdCounter == 1
    {
      globalOrderQueue := new OrderPriorityQueue();
      globalDeliveryList := new DeliveryLinkedList();
      orderIdCounter := 1;
    }

    /** Refill the queue with one priced copy of each order and return the queue's contents
        by ascending score. */
    method PrioritizeOrders(orders: seq<Order>, graph: Graph, store: Node) returns (prioritized: seq<Order>)
      requires Valid() && forall i :: 0 <= i < |orders| ==> orders[i].deliveryLocation in graph
      modifies globalOrderQueue
      ensures Valid()
      ensures globalOrderQueue.heap == HeapSpec.PushAll([], EnrichedAll(graph, store, orders), Score)
      ensures prioritized == SortByScore(globalOrderQueue.heap)
      ensures HeapSpec.SortedBy(prioritized, Score)
      ensures multiset(prioritized) == multiset(EnrichedAll(graph, store, orders))
    {
      Refill(orders, graph, store);
      var all := globalOrderQueue.GetAllOrders();
      prioritized := SortByScore(all);
    }

    /** The queue is emptied, then each order is priced and enqueued in turn. */
    method Refill(orders: seq<Order>, graph: Graph, store: Node)
      requires forall i :: 0 <= i < |orders| ==> orders[i].deliveryLocation in graph
      modifies globalOrderQueue
      ensures globalOrderQueue.heap == HeapSpec.PushAll([], EnrichedAll(graph, store, orders), Score)
      ensures HeapSpec.IsHeap(globalOrderQueue.heap, Score)
    {
      globalOrderQueue.Clear();
      for i := 0 to |orders|
        invariant globalOrderQueue.heap == HeapSpec.PushAll([], EnrichedAll(graph, store, orders[..i]), Score)
        invariant HeapSpec.IsHeap(globalOrderQueue.heap, Score)
      {
        EnqueueEnriched(orders, i, graph, store);
      }
      assert orders[..|orders|] == orders;
    }

    /** One element of the map in prioritizeOrders: order i is priced and enqueued. */
    method EnqueueEnriched(orders: seq<Order>, i: nat, graph: Graph, store: Node)
      requires i < |orders| && forall j :: 0 <= j < |orders| ==> orders[j].deliveryLocation in graph
      requires globalOrderQueue.heap == HeapSpec.PushAll([], EnrichedAll(graph, store, orders[..i]), Score)
      requires HeapSpec.IsHeap(globalOrderQueue.heap, Score)
      modifies globalOrderQueue
      ensures globalOrderQueue.heap == HeapSpec.PushAll([], EnrichedAll(graph, store, orders[..i + 1]), Score)
      ensures HeapSpec.IsHeap(globalOrderQueue.heap, Score)
    {
      var enhancedOrder := Enrich(orders[i], graph, store);
      ghost var xs := EnrichedAll(graph, store, orders[..i]);
      ghost var h := globalOrderQueue.heap;
      EnrichedPrefix(graph, store, orders, i);
      HeapSpec.PushAllSnoc([], xs, enhancedOrder, Score);
      globalOrderQueue.Enqueue(enhancedOrder);
      assert globalOrderQueue.heap == HeapSpec.Push(h, enhancedOrder, Score);
    }

    /** While orders are queued and some partner is available, dequeue the next order:
        drop it if it is not pending, give it to the partner with the cheapest finite total,
        or, when there is none, put it back and stop. */
    method AssignDeliveryPartners(deliveryPartners: seq<Partner>, graph: Graph, store: Node)
      returns (assignments: seq<Assignment>, ghost dropped: seq<Order>, ghost blocked: Option<Order>)
      requires Valid() && store in graph && Routable(globalOrderQueue.heap, graph)
      modifies globalOrderQueue, globalDeliveryList, globalDeliveryList.spine, deliveryPartners
      ensures Valid() && Routable(globalOrderQueue.heap, graph)
      ensures globalDeliveryList.Contents() == old(globalDeliveryList.Contents()) + assignments
      ensures AllBooked(assignments) && ServedInOrder(assignments, globalOrderQueue.heap)
      ensures |assignments| <= old(Available(States(deliveryPartners)))
      ensures |globalOrderQueue.heap| + |assignments| + |dropped| == |old(globalOrderQueue.heap)|
      ensures AllStale(dropped)
      ensures blocked.None? ==> globalOrderQueue.heap == [] || !SomeAvailable(deliveryPartners)
      ensures blocked.Some? ==>
        && blocked.value in multiset(globalOrderQueue.heap) && blocked.value.status == Pending
        && blocked.value.deliveryLocation in graph
        && NoneFinite(Offers(graph, store, Onward(graph, store, blocked.value), deliveryPartners))
    {
      ghost var c0 := globalDeliveryList.Contents();
      ghost var a0 := Available(States(deliveryPartners));
      ghost var n0 := |globalOrderQueue.heap|;
      assignments, dropped, blocked := Drive(deliveryPartners, graph, store, c0, a0, n0);
    }

    /** The loop of assignDeliveryPartners, from an empty start. */
    method Drive(ps: seq<Partner>, graph: Graph, store: Node, ghost c0: seq<Assignment>, ghost a0: nat, ghost n0: nat)
      returns (assignments: seq<Assignment>, ghost dropped: seq<Order>, ghost blocked: Option<Order>)
      requires store in graph && Progress(ps, graph, c0, a0, n0, [], [])
      modifies globalOrderQueue, globalDeliveryList, globalDeliveryList.spine, ps
      ensures Progress(ps, graph, c0, a0, n0, assignments, dropped)
      ensures blocked.None? ==> globalOrderQueue.heap == [] || !SomeAvailable(ps)
      ensures blocked.Some? ==>
        && blocked.value in multiset(globalOrderQueue.heap) && blocked.value.status == Pending
        && blocked.value.deliveryLocation in graph
        && NoneFinite(Offers(graph, store, Onward(graph, store, blocked.value), ps))
      ensures fresh(set n | n in globalDeliveryList.spine && n !in old(globalDeliveryList.spine))
    {
      assignments := [];
      dropped := [];
      blocked := None;
      while !globalOrderQueue.IsEmpty() && SomeAvailable(ps)
        invariant Progress(ps, graph, c0, a0, n0, assignments, dropped) && blocked.None?
        invariant fresh(set n | n in globalDeliveryList.spine && n !in old(globalDeliveryList.spine))
        decreases |globalOrderQueue.heap|
      {
        ghost var sp := globalDeliveryList.spine;
        var stop;
        assignments, dropped, blocked, stop := Advance(ps, graph, store, c0, a0, n0, assignments, dropped);
        forall m | m in globalDeliveryList.spine && m !in old(globalDeliveryList.spine)
          ensures fresh(m)
        {
          if m in sp {
            assert m in set n | n in sp && n !in old(globalDeliveryList.spine);
          }
        }
        if stop {
          break;
        }
      }
    }

    /** What the loop of assignDeliveryPartners keeps: everything is well formed and
        routable, the assignments made so far follow the list as it was (`c0`), are booked
        and were served in score order, each of them made one of the `a0` available
        partners busy, and with the dropped orders they account for the `n0` orders the
        queue held. */
    ghost predicate Progress(ps: seq<Partner>, graph: Graph, c0: seq<Assignment>, a0: nat, n0: nat,
                             assignments: seq<Assignment>, dropped: seq<Order>)
      reads this, globalOrderQueue, globalDeliveryList, globalDeliveryList.spine, ps
    {
      && Valid() && Routable(globalOrderQueue.heap, graph)
      && globalDeliveryList.Contents() == c0 + assignments
      && AllBooked(assignments) && ServedInOrder(assignments, globalOrderQueue.heap)
      && |assignments| + Available(States(ps)) <= a0
      && |globalOrderQueue.heap| + |assignments| + |dropped| == n0
      && AllStale(dropped)
    }

    /** The body of the loop of assignDeliveryPartners: one round, and what the loop keeps
        about everything served and dropped since `c0`, `a0` and `n0` were the list, the
        number of available partners and the queue length. */
    method Advance(ps: seq<Partner>, graph: Graph, store: Node, ghost c0: seq<Assignment>, ghost a0: nat,
                   ghost n0: nat, assignments: seq<Assignment>, ghost dropped: seq<Order>)
      returns (assignments': seq<Assignment>, ghost dropped': seq<Order>, ghost blocked: Option<Order>, stop: bool)
      requires store in graph && globalOrderQueue.heap != []
      requires Progress(ps, graph, c0, a0, n0, assignments, dropped)
      modifies globalOrderQueue, globalDeliveryList, globalDeliveryList.spine, ps
      ensures Progress(ps, graph, c0, a0, n0, assignments', dropped')
      ensures forall n :: n in globalDeliveryList.spine ==> n in old(globalDeliveryList.spine) || fresh(n)
      ensures stop <==> blocked.Some?
      ensures blocked.None? ==> |globalOrderQueue.heap| < old(|globalOrderQueue.heap|)
      ensures blocked.Some? ==>
        && blocked.value in multiset(globalOrderQueue.heap) && blocked.value.status == Pending
        && blocked.value.deliveryLocation in graph
        && NoneFinite(Offers(graph, store, Onward(graph, store, blocked.value), ps))
    {
      assignments', dropped', blocked, stop := assignments, dropped, None, false;
      ghost var c := globalDeliveryList.Contents();
      var round := Step(ps, graph, store, assignments);
      match round
      case Dropped(o) =>
        StaleSnoc(dropped, o);
        dropped' := dropped + [o];
      case Served(a) =>
        BookedSnoc(assignments, a);
        AppendOne(c0, assignments, a);
        assignments' := assignments + [a];
      case Blocked(o) =>
        blocked, stop := Some(o), true;
    }

    /** One round of the loop, seen only through what the loop needs of it. */
    method Step(ps: seq<Partner>, graph: Graph, store: Node, ghost served: seq<Assignment>) returns (round: Round)
      requires Valid() && globalOrderQueue.heap != [] && store in graph && Routable(globalOrderQueue.heap, graph)
      requires ServedInOrder(served, globalOrderQueue.heap)
      modifies globalOrderQueue, globalDeliveryList, globalDeliveryList.spine, ps
      ensures Valid() && Routable(globalOrderQueue.heap, graph)
      ensures forall n :: n in globalDeliveryList.spine ==> n in old(globalDeliveryList.spine) || fresh(n)
      ensures !round.Served? ==>
        && globalDeliveryList.Contents() == old(globalDeliveryList.Contents())
        && States(ps) == old(States(ps))
        && ServedInOrder(served, globalOrderQueue.heap)
      ensures round.Dropped? ==>
        |globalOrderQueue.heap| == |old(globalOrderQueue.heap)| - 1 && round.order.status != Pending
      ensures round.Blocked? ==>
        && |globalOrderQueue.heap| == |old(globalOrderQueue.heap)|
        && round.order in multiset(globalOrderQueue.heap) && round.order.status == Pending
        && round.order.deliveryLocation in graph
        && NoneFinite(Offers(graph, store, Onward(graph, store, round.order), ps))
      ensures round.Served? ==>
        && |globalOrderQueue.heap| == |old(globalOrderQueue.heap)| - 1
        && globalDeliveryList.Contents() == old(globalDeliveryList.Contents()) + [round.assignment]
        && Booked(round.assignment)
        && ServedInOrder(served + [round.assignment], globalOrderQueue.heap)
        && Available(States(ps)) < old(Available(States(ps)))
    {
      ghost var h := globalOrderQueue.heap;
      ghost var k;
      round, k := AssignRound(ps, graph, store);
      match round
      case Dropped(o) =>
        ServedReorder(served, h, globalOrderQueue.heap);
      case Blocked(o) =>
        ServedReorder(served, h, globalOrderQueue.heap);
      case Served(a) =>
        ServedStep(served, h, a);
    }

    /** One round of assignDeliveryPartners on a non-empty queue: the root order is
        dequeued and dropped when not pending, otherwise dispatched. */
    method AssignRound(ps: seq<Partner>, graph: Graph, store: Node) returns (round: Round, ghost k: int)
      requires Valid() && globalOrderQueue.heap != [] && store in graph && Routable(globalOrderQueue.heap, graph)
      modifies globalOrderQueue, globalDeliveryList, globalDeliveryList.spine, ps
      ensures Valid() && Routable(globalOrderQueue.heap, graph)
      ensures forall n :: n in globalDeliveryList.spine ==> n in old(globalDeliveryList.spine) || fresh(n)
      ensures !round.Served? ==>
        && globalDeliveryList.Contents() == old(globalDeliveryList.Contents())
        && States(ps) == old(States(ps))
      ensures round.Dropped? ==>
        && round.order == old(globalOrderQueue.heap)[0] && round.order.status != Pending
        && globalOrderQueue.heap == HeapSpec.Pop(old(globalOrderQueue.heap), Score)
      ensures round.Blocked? ==>
        && round.order == old(globalOrderQueue.heap)[0] && round.order.status == Pending
        && round.order.deliveryLocation in graph
        && NoneFinite(Offers(graph, store, Onward(graph, store, round.order), ps))
        && globalOrderQueue.heap == HeapSpec.Push(HeapSpec.Pop(old(globalOrderQueue.heap), Score), round.order, Score)
      ensures round.Served? ==>
        var o := old(globalOrderQueue.heap)[0];
        && o.status == Pending && o.deliveryLocation in graph
        && globalOrderQueue.heap == HeapSpec.Pop(old(globalOrderQueue.heap), Score)
        && globalDeliveryList.Contents() == old(globalDeliveryList.Contents()) + [round.assignment]
        && ServedBy(graph, store, o, old(Offers(graph, store, Onward(graph, store, o), ps)),
                    old(States(ps)), States(ps), ps, k, round.assignment)
    {
      ghost var h := globalOrderQueue.heap;
      ghost var offers := Offers(graph, store, Onward(graph, store, h[0]), ps);
      ghost var c := globalDeliveryList.Contents();
      ghost var st := States(ps);
      var order := TakeRoot(graph, ps);
      assert globalDeliveryList.Contents() == c && States(ps) == st;
      assert Offers(graph, store, Onward(graph, store, order), ps) == offers;
      if order.status != Pending {
        return Dropped(order), -1;
      }
      round, k := Dispatch(order, ps, graph, store, offers);
    }

    /** The dequeue itself: the root leaves the heap and nothing else changes. */
    method TakeRoot(ghost graph: Graph, ghost ps: seq<Partner>) returns (order: Order)
      requires Valid() && globalOrderQueue.heap != [] && Routable(globalOrderQueue.heap, graph)
      modifies globalOrderQueue
      ensures Valid() && Routable(globalOrderQueue.heap, graph) && order.deliveryLocation in graph
      ensures globalDeliveryList.spine == old(globalDeliveryList.spine)
      ensures order == old(globalOrderQueue.heap)[0]
      ensures globalOrderQueue.heap == HeapSpec.Pop(old(globalOrderQueue.heap), Score)
      ensures multiset(globalOrderQueue.heap) + multiset{order} == multiset(old(globalOrderQueue.heap))
      ensures globalDeliveryList.Contents() == old(globalDeliveryList.Contents())
      ensures States(ps) == old(States(ps))
    {
      ghost var h := globalOrderQueue.heap;
      var top := globalOrderQueue.Dequeue();
      order := top.value;
      RoutableFrom(h, [], globalOrderQueue.heap, graph);
    }

    /** The dequeued pending order goes to the cheapest partner or, with none, back into
        the queue; `offers` are the partners' totals for it. */
    method Dispatch(order: Order, ps: seq<Partner>, graph: Graph, store: Node, ghost offers: seq<Dist>)
      returns (round: Round, ghost k: int)
      requires Valid() && store in graph && order.deliveryLocation in graph
      requires offers == Offers(graph, store, Onward(graph, store, order), ps)
      requires Routable(globalOrderQueue.heap, graph)
      modifies globalOrderQueue, globalDeliveryList, globalDeliveryList.spine, ps
      ensures Valid() && Routable(globalOrderQueue.heap, graph) && !round.Dropped?
      ensures forall n :: n in globalDeliveryList.spine ==> n in old(globalDeliveryList.spine) || fresh(n)
      ensures round.Blocked? ==>
        && round.order == order && NoneFinite(offers)
        && NoneFinite(Offers(graph, store, Onward(graph, store, order), ps))
        && globalOrderQueue.heap == HeapSpec.Push(old(globalOrderQueue.heap), order, Score)
        && globalDeliveryList.Contents() == old(globalDeliveryList.Contents())
        && States(ps) == old(States(ps))
      ensures round.Served? ==>
        && globalOrderQueue.heap == old(globalOrderQueue.heap)
        && globalDeliveryList.Contents() == old(globalDeliveryList.Contents()) + [round.assignment]
        && ServedBy(graph, store, order, offers, old(States(ps)), States(ps), ps, k, round.assignment)
    {
      ghost var c := globalDeliveryList.Contents();
      ghost var st := States(ps);
      ghost var h := globalOrderQueue.heap;
      var bestPartner, minTotalCost, toStore, toCustomer;
      bestPartner, minTotalCost, toStore, toCustomer, k := CheapestPartner(order, ps, graph, store);
      assert globalDeliveryList.Contents() == c && States(ps) == st && globalOrderQueue.heap == h;
      assert Offers(graph, store, Onward(graph, store, order), ps) == offers;
      round := Settle(order, bestPartner, minTotalCost, toStore, toCustomer, ps, graph, store, k, offers);
    }

    /** The outcome of the partner scan acted on: no partner puts the order back, the
        cheapest one gets it. */
    method Settle(order: Order, bestPartner: Partner?, minTotalCost: Dist, toStore: Route, toCustomer: Route,
                  ps: seq<Partner>, graph: Graph, store: Node, ghost k: int, ghost offers: seq<Dist>)
      returns (round: Round)
      requires Valid() && store in graph && order.deliveryLocation in graph
      requires offers == Offers(graph, store, Onward(graph, store, order), ps)
      requires Cheapest(graph, store, order, ps, k, bestPartner, minTotalCost, toStore, toCustomer)
      requires Routable(globalOrderQueue.heap, graph)
      modifies globalOrderQueue, globalDeliveryList, globalDeliveryList.spine, ps
      ensures Valid() && Routable(globalOrderQueue.heap, graph) && !round.Dropped?
      ensures forall n :: n in globalDeliveryList.spine ==> n in old(globalDeliveryList.spine) || fresh(n)
      ensures round.Blocked? ==>
        && round.order == order && NoneFinite(offers)
        && NoneFinite(Offers(graph, store, Onward(graph, store, order), ps))
        && globalOrderQueue.heap == HeapSpec.Push(old(globalOrderQueue.heap), order, Score)
        && globalDeliveryList.Contents() == old(globalDeliveryList.Contents())
        && States(ps) == old(States(ps))
      ensures round.Served? ==>
        && globalOrderQueue.heap == old(globalOrderQueue.heap)
        && globalDeliveryList.Contents() == old(globalDeliveryList.Contents()) + [round.assignment]
        && ServedBy(graph, store, order, offers, old(States(ps)), States(ps), ps, k, round.assignment)
    {
      if bestPartner == null {
        PutBack(order, graph, ps);
        assert Offers(graph, store, Onward(graph, store, order), ps) == offers;
        return Blocked(order);
      }
      var assignment := Place(order, bestPartner, toStore, toCustomer, minTotalCost, graph, store, ps, k, offers);
      round := Served(assignment);
    }

    /** No partner can take the order: it goes back into the queue. */
    method PutBack(order: Order, ghost graph: Graph, ghost ps: seq<Partner>)
      requires Valid() && Routable(globalOrderQueue.heap, graph) && order.deliveryLocation in graph
      modifies globalOrderQueue
      ensures Valid() && Routable(globalOrderQueue.heap, graph)
      ensures globalDeliveryList.spine == old(globalDeliveryList.spine)
      ensures globalOrderQueue.heap == HeapSpec.Push(old(globalOrderQueue.heap), order, Score)
      ensures globalDeliveryList.Contents() == old(globalDeliveryList.Contents())
      ensures States(ps) == old(States(ps))
    {
      ghost var h := globalOrderQueue.heap;
      globalOrderQueue.Enqueue(order);
      RoutableFrom(h, [order], globalOrderQueue.heap, graph);
    }

    /** Build the assignment of the order to partner k, the cheapest, append it to the list
        and make the partner busy with the order. */
    method Place(order: Order, partner: Partner, toStore: Route, toCustomer: Route, minTotalCost: Dist,
                 graph: Graph, store: Node, ghost ps: seq<Partner>, ghost k: int, ghost offers: seq<Dist>)
      returns (assignment: Assignment)
      requires Valid() && store in graph && order.deliveryLocation in graph
      requires 0 <= k < |ps| && partner == ps[k] && partner.isAvailable
      requires Nearest(offers, k) && minTotalCost == offers[k]
      requires toStore == ShortestPath(graph, partner.location, store)
      requires toCustomer == ShortestPath(graph, store, order.deliveryLocation)
      requires minTotalCost == Plus(toStore.distance, toCustomer.distance)
      modifies globalDeliveryList, globalDeliveryList.spine, partner
      ensures Valid() && globalOrderQueue.heap == old(globalOrderQueue.heap)
      ensures forall n :: n in globalDeliveryList.spine ==> n in old(globalDeliveryList.spine) || fresh(n)
      ensures globalDeliveryList.Contents() == old(globalDeliveryList.Contents()) + [assignment]
      ensures ServedBy(graph, store, order, offers, old(States(ps)), States(ps), ps, k, assignment)
    {
      var assignedOrder := order.(status := Assigned, assignedPartner := Some(partner.name));
      assignment := Assignment(order.id, partner.id, partner.name, toStore.distance, toStore.path,
                               toCustomer.distance, toCustomer.path, minTotalCost, assignedOrder,
                               EstimatedDeliveryTime(minTotalCost), None);
      ghost var st := States(ps);
      AddActive(assignment, ps);
      Engage(partner, order.id, ps);
      BusyFewer(st, ps, k, PartnerState(st[k].location, false, Some(order.id)));
    }

    /** Remove the assignment's order from the list (null when it is not there), free the
        partner with the assignment's partner id at the delivery location, and mark the
        assignment delivered at `now`; the last two happen whether or not the order was
        in the list. */
    method CompleteDelivery(assignment: Assignment, deliveryPartners: seq<Partner>, now: Timestamp)
      returns (deliveryNode: DeliveryNode?, delivered: Assignment)
      requires Valid()
      modifies globalDeliveryList, globalDeliveryList.spine`next, deliveryPartners
      ensures Valid()
      ensures deliveryNode == null <==> FirstWithOrder(old(globalDeliveryList.Contents()), assignment.orderId).None?
      ensures deliveryNode == null ==> globalDeliveryList.Contents() == old(globalDeliveryList.Contents())
      ensures deliveryNode != null ==>
        var i := FirstWithOrder(old(globalDeliveryList.Contents()), assignment.orderId).value;
        && deliveryNode.assignment == old(globalDeliveryList.Contents())[i]
        && globalDeliveryList.Contents() ==
             old(globalDeliveryList.Contents())[..i] + old(globalDeliveryList.Contents())[i + 1..]
      ensures States(deliveryPartners) == Freed(old(States(deliveryPartners)), deliveryPartners, assignment)
      ensures delivered == WithOrderStatus(assignment, Delivered, now)
    {
      ghost var c := globalDeliveryList.Contents();
      ghost var st := States(deliveryPartners);
      deliveryNode := Unlist(assignment.orderId, deliveryPartners);
      assert States(deliveryPartners) == st;
      ghost var c' := globalDeliveryList.Contents();
      FreePartner(assignment, deliveryPartners);
      assert globalDeliveryList.Contents() == c';
      delivered := WithOrderStatus(assignment, Delivered, now);
    }

    /** The delivery of the order leaves the list, if it is there; no partner changes. */
    method Unlist(orderId: nat, ghost deliveryPartners: seq<Partner>) returns (deliveryNode: DeliveryNode?)
      requires Valid()
      modifies globalDeliveryList, globalDeliveryList.spine`next
      ensures Valid() && States(deliveryPartners) == old(States(deliveryPartners))
      ensures deliveryNode == null <==> FirstWithOrder(old(globalDeliveryList.Contents()), orderId).None?
      ensures deliveryNode == null ==> globalDeliveryList.Contents() == old(globalDeliveryList.Contents())
      ensures deliveryNode != null ==>
        var i := FirstWithOrder(old(globalDeliveryList.Contents()), orderId).value;
        && deliveryNode.assignment == old(globalDeliveryList.Contents())[i]
        && globalDeliveryList.Contents() ==
             old(globalDeliveryList.Contents())[..i] + old(globalDeliveryList.Contents())[i + 1..]
    {
      deliveryNode := globalDeliveryList.RemoveDeliveryByOrderId(orderId);
    }

    /** The partner with the assignment's partner id, if any, is free again at the
        delivery location; the list does not change. */
    method FreePartner(assignment: Assignment, deliveryPartners: seq<Partner>)
      requires Valid()
      modifies deliveryPartners
      ensures Valid() && globalDeliveryList.Contents() == old(globalDeliveryList.Contents())
      ensures States(deliveryPartners) == Freed(old(States(deliveryPartners)), deliveryPartners, assignment)
    {
      var index := FindPartner(deliveryPartners, assignment.partnerId);
      if index.Some? {
        Release(deliveryPartners[index.value], assignment.order.deliveryLocation, deliveryPartners);
      }
    }

    /** The assignment joins the end of the list; no partner changes. */
    method AddActive(assignment: Assignment, ghost ps: seq<Partner>)
      requires Valid()
      modifies globalDeliveryList, globalDeliveryList.spine
      ensures Valid() && States(ps) == old(States(ps))
      ensures forall n :: n in globalDeliveryList.spine ==> n in old(globalDeliveryList.spine) || fresh(n)
      ensures globalDeliveryList.Contents() == old(globalDeliveryList.Contents()) + [assignment]
    {
      var _ := globalDeliveryList.AddDelivery(assignment);
    }

    /** The partner becomes busy with the order; nothing else about any partner changes. */
    method Engage(partner: Partner, orderId: nat, ghost ps: seq<Partner>)
      requires Valid()
      modifies partner
      ensures Valid() && globalDeliveryList.spine == old(globalDeliveryList.spine)
      ensures globalDeliveryList.Contents() == old(globalDeliveryList.Contents())
      ensures States(ps) == Reassign(old(States(ps)), ps, partner,
                                     PartnerState(old(partner.location), false, Some(orderId)))
    {
      partner.isAvailable := false;
      partner.currentOrder := Some(orderId);
      ghost var st := Reassign(old(States(ps)), ps, partner, PartnerState(old(partner.location), false, Some(orderId)));
      assert forall j :: 0 <= j < |ps| ==> States(ps)[j] == st[j];
    }

    /** The partner is free again and stands at the location; nothing else about any
        partner changes. */
    method Release(partner: Partner, location: Node, ghost ps: seq<Partner>)
      requires Valid()
      modifies partner
      ensures Valid() && globalDeliveryList.Contents() == old(globalDeliveryList.Contents())
      ensures States(ps) == Reassign(old(States(ps)), ps, partner, PartnerState(location, true, None))
    {
      partner.isAvailable := true;
      partner.location := location;
      partner.currentOrder := None;
      ghost var st := Reassign(old(States(ps)), ps, partner, PartnerState(location, true, None));
      assert forall j :: 0 <= j < |ps| ==> States(ps)[j] == st[j];
    }

    /** A new pending order with the next id, priced and queued. */
    method AddOrderToSystem(orderData: OrderData, graph: Graph, store: Node) returns (order: Order)
      requires Valid() && orderData.deliveryLocation in graph
      modifies this, globalOrderQueue
      ensures Valid()
      ensures order == NewOrder(graph, store, old(orderIdCounter), orderData)
      ensures orderIdCounter == old(orderIdCounter) + 1
      ensures globalOrderQueue.heap == HeapSpec.Push(old(globalOrderQueue.heap), order, Score)
      ensures old(Routable(globalOrderQueue.heap, graph)) ==> Routable(globalOrderQueue.heap, graph)
    {
      var id := orderIdCounter;
      orderIdCounter := orderIdCounter + 1;
      var priority, info := CalculateOrderPriority(orderData.orderValue, orderData.deliveryLocation, graph, store);
      order := Order(id, orderData.customerName, orderData.orderValue, orderData.deliveryLocation,
                     Pending, info.priorityScore, info.actualDistance, None);
      ghost var h := globalOrderQueue.heap;
      globalOrderQueue.Enqueue(order);
      if Routable(h, graph) {
        RoutableFrom(h, [order], globalOrderQueue.heap, graph);
      }
    }

    /** The queue length, the list length and the number of ids handed out. */
    method GetSystemStatus() returns (status: SystemStatus)
      requires Valid()
      ensures status == SystemStatus(|globalOrderQueue.heap|, |globalDeliveryList.Contents()|, orderIdCounter - 1)
      ensures status.totalProcessed >= 0
    {
      status := SystemStatus(globalOrderQueue.Size(), globalDeliveryList.GetSize(), orderIdCounter - 1);
    }

    /** Empty queue, empty list, and ids start again from 1. */
    method ResetSystem()
      modifies this, globalOrderQueue, globalDeliveryList
      ensures Valid()
      ensures globalOrderQueue.heap == [] && globalDeliveryList.Contents() == [] && orderIdCounter == 1
    {
      globalOrderQueue.Clear();
      globalDeliveryList.Clear();
      orderIdCounter := 1;
    }

    /** The queued orders by ascending score. */
    method GetPendingOrdersFromQueue() returns (orders: seq<Order>)
      ensures orders == SortByScore(globalOrderQueue.heap)
      ensures HeapSpec.SortedBy(orders, Score) && multiset(orders) == multiset(globalOrderQueue.heap)
    {
      var all := globalOrderQueue.GetAllOrders();
      orders := SortByScore(all);
    }

    method GetActiveDeliveriesFromList() returns (deliveries: seq<Assignment>)
      requires Valid()
      ensures deliveries == globalDeliveryList.Contents()
    {
      deliveries := globalDeliveryList.GetAllDeliveries();
    }
  }
}
