/** The dispatcher object: a priority queue of pending orders, a linked list of active
    deliveries and a list of completed ones, over a location graph with one store. */
module EnhancedSystem {
  import opened Options
  import opened Graphs
  import HeapSpec
  import opened ShortestPaths
  import opened Domain
  import opened Routing
  import opened OrderQueue
  import opened DeliveryList
  import opened Ledger

  /** The counts getSystemStatus reports. */
  datatype SystemStatus = SystemStatus(
    pendingOrders: int,
    activeDeliveries: int,
    completedDeliveries: int,
    totalOrders: int)

  /** findNearestAvailablePartner's result: the partner (null when none), its distance to
      the target and the route it would take. */
  datatype PartnerChoice = PartnerChoice(partner: Partner?, distance: Dist, path: seq<Node>)

  class EnhancedOrderManagementSystem {
    const graph: Graph
    const storeLocation: Node
    const orderQueue: OrderPriorityQueue
    const activeDeliveries: DeliveryLinkedList
    var completedDeliveries: seq<Assignment>
    var orderIdCounter: int
    /** How many orders were cancelled out of the queue (the dispatcher keeps no record of them). */
    ghost var cancelledOrders: nat

    /** Every order ever added is pending, in flight (dequeued and not yet placed),
        active, completed or cancelled; queued orders are pending and deliverable; every
        assignment's totals agree with its legs. */
    ghost predicate Inv(inFlight: nat)
      reads this, orderQueue, activeDeliveries, activeDeliveries.spine
    {
      && storeLocation in graph
      && activeDeliveries.Valid()
      && orderIdCounter >= 1
      && |orderQueue.heap| + inFlight + |activeDeliveries.Contents()| + |completedDeliveries| + cancelledOrders
           == orderIdCounter - 1
      && Queued(orderQueue.heap, graph)
      && AllWellPriced(activeDeliveries.Contents())
      && AllWellPriced(completedDeliveries)
    }

    /** The invariant between operations: no order in flight. */
    ghost predicate Valid()
      reads this, orderQueue, activeDeliveries, activeDeliveries.spine
    {
      Inv(0)
    }

    constructor (graph: Graph, storeLocation: Node)
      requires storeLocation in graph
      ensures Valid() && fresh(orderQueue) && fresh(activeDeliveries)
      ensures this.graph == graph && this.storeLocation == storeLocation
      ensures orderQueue.heap == [] && activeDeliveries.Contents() == [] && completedDeliveries == []
      ensures orderIdCounter == 1
    {
      this.graph := graph;
      this.storeLocation := storeLocation;
      orderQueue := new OrderPriorityQueue();
      activeDeliveries := new DeliveryLinkedList();
      completedDeliveries := [];
      orderIdCounter := 1;
      cancelledOrders := 0;
    }

    /** The priority breakdown of an order: the formula applied to the length of the
        shortest route from the store to the delivery location. */
    method CalculateOrderPriority(orderValue: real, deliveryLocation: Node) returns (info: PriorityInfo)
      requires deliveryLocation in graph
      ensures info == PriorityFromDistance(ShortestPath(graph, storeLocation, deliveryLocation).distance, orderValue)
      ensures orderValue >= 0.0 ==> 0.0 <= info.priorityScore <= 1.0
    {
      var distanceResult := Dijkstra(graph, storeLocation, deliveryLocation);
      info := PriorityFromDistance(distanceResult.distance, orderValue);
    }

    /** The order addOrder builds: the caller's data under this id, pending, and the
        priority breakdown of its shortest route from the store. */
    method CreateOrder(id: nat, orderData: OrderData) returns (order: Order)
      requires orderData.deliveryLocation in graph
      ensures order == NewOrder(graph, storeLocation, id, orderData)
      ensures order.status == Pending && order.deliveryLocation == orderData.deliveryLocation
    {
      var info := CalculateOrderPriority(orderData.orderValue, orderData.deliveryLocation);
      order := Order(id, orderData.customerName, orderData.orderValue, orderData.deliveryLocation,
                     Pending, info.priorityScore, info.actualDistance, None);
    }

    /** A new pending order with the next id, queued on its priority score. */
    method AddOrder(orderData: OrderData) returns (order: Order)
      requires Valid() && orderData.deliveryLocation in graph
      modifies this, orderQueue
      ensures Valid()
      ensures order == NewOrder(graph, storeLocation, old(orderIdCounter), orderData)
      ensures orderIdCounter == old(orderIdCounter) + 1
      ensures orderQueue.heap == HeapSpec.Push(old(orderQueue.heap), order, Score)
      ensures completedDeliveries == old(completedDeliveries) && cancelledOrders == old(cancelledOrders)
    {
      order := CreateOrder(orderIdCounter, orderData);
      Admit(order);
    }

    /** The queueing half of addOrder: the id counter moves on and the order joins the heap. */
    method Admit(order: Order)
      requires Valid() && order.status == Pending && order.deliveryLocation in graph
      modifies this, orderQueue
      ensures Valid()
      ensures orderIdCounter == old(orderIdCounter) + 1
      ensures orderQueue.heap == HeapSpec.Push(old(orderQueue.heap), order, Score)
      ensures completedDeliveries == old(completedDeliveries) && cancelledOrders == old(cancelledOrders)
    {
      orderIdCounter := orderIdCounter + 1;
      ghost var h := orderQueue.heap;
      orderQueue.Enqueue(order);
      QueuedGrow(h, orderQueue.heap, order, graph);
    }

    /** The available partner nearest to the target (the first one on a tie), with its
        distance and route; null, Infinity and [] when none can reach it. */
    method FindNearestAvailablePartner(deliveryPartners: seq<Partner>, targetLocation: Node)
      returns (choice: PartnerChoice, ghost k: int)
      requires targetLocation in graph
      ensures Best(Offers(graph, targetLocation, Fin(0), deliveryPartners), k)
      ensures choice.partner == (if k == -1 then null else deliveryPartners[k])
      ensures choice.partner == null ==> choice.distance == Inf && choice.path == []
      ensures choice.partner != null ==>
        && choice.partner.isAvailable
        && Route(choice.distance, choice.path) == ShortestPath(graph, choice.partner.location, targetLocation)
    {
      var nearestPartner: Partner? := null;
      var minDistance := Inf;
      var bestPath: seq<Node> := [];
      k := -1;
      for i := 0 to |deliveryPartners|
        invariant Leading(deliveryPartners[..i], targetLocation, k, nearestPartner, minDistance, bestPath)
      {
        assert deliveryPartners[..i + 1] == deliveryPartners[..i] + [deliveryPartners[i]];
        nearestPartner, minDistance, bestPath, k :=
          Consider(deliveryPartners[..i], deliveryPartners[i], targetLocation, nearestPartner, minDistance, bestPath, k);
      }
      assert deliveryPartners[..|deliveryPartners|] == deliveryPartners;
      choice := PartnerChoice(nearestPartner, minDistance, bestPath);
    }

    /** What findNearestAvailablePartner knows after scanning `seen`: k is the nearest of them
        (-1 when none is reachable), with its partner, distance and route. */
    ghost predicate Leading(seen: seq<Partner>, targetLocation: Node, k: int, nearest: Partner?,
                            minDistance: Dist, path: seq<Node>)
      requires targetLocation in graph
      reads seen
    {
      && Best(Offers(graph, targetLocation, Fin(0), seen), k)
      && minDistance == BestOffer(Offers(graph, targetLocation, Fin(0), seen), k)
      && nearest == (if k == -1 then null else seen[k])
      && (k == -1 ==> path == [])
      && (k != -1 ==> seen[k].isAvailable && Route(minDistance, path) == ShortestPath(graph, seen[k].location, targetLocation))
    }

    /** One iteration of the scan: the next partner takes the lead exactly when its offer is
        strictly below the current best. */
    method Consider(seen: seq<Partner>, partner: Partner, targetLocation: Node, nearest: Partner?,
                    minDistance: Dist, path: seq<Node>, ghost k: int)
      returns (nearest': Partner?, minDistance': Dist, path': seq<Node>, ghost k': int)
      requires targetLocation in graph
      requires Leading(seen, targetLocation, k, nearest, minDistance, path)
      ensures Leading(seen + [partner], targetLocation, k', nearest', minDistance', path')
    {
      var all := seen + [partner];
      assert all[..|seen|] == seen;
      ghost var ds := Offers(graph, targetLocation, Fin(0), seen);
      assert Offers(graph, targetLocation, Fin(0), all) == ds + [Offer(graph, targetLocation, Fin(0), partner)];
      var distance, route := PartnerOffer(partner, targetLocation);
      BestSnoc(ds, k, distance);
      if distance.Less(minDistance) {
        nearest', minDistance', path', k' := partner, distance, route, |seen|;
      } else {
        nearest', minDistance', path', k' := nearest, minDistance, path, k;
        assert k != -1 ==> all[k] == seen[k];
      }
    }

    /** One partner's offer in findNearestAvailablePartner: the shortest route from it to
        the target when it is available (Infinity and [] otherwise, where dijkstra is not
        run). */
    method PartnerOffer(partner: Partner, targetLocation: Node) returns (distance: Dist, path: seq<Node>)
      requires targetLocation in graph
      ensures distance == Offer(graph, targetLocation, Fin(0), partner)
      ensures distance.Fin? ==> partner.isAvailable
      ensures partner.isAvailable ==> Route(distance, path) == ShortestPath(graph, partner.location, targetLocation)
    {
      if !partner.isAvailable {
        return Inf, [];
      }
      var result := Dijkstra(graph, partner.location, targetLocation);
      distance, path := result.distance, result.path;
    }

    /** Route the order from the store to its customer and build its assignment to the
        chosen partner, who stands at `partner.location`. */
    method BuildAssignment(order: Order, partner: Partner, choice: PartnerChoice) returns (assignment: Assignment)
      requires storeLocation in graph && order.deliveryLocation in graph
      requires Route(choice.distance, choice.path) == ShortestPath(graph, partner.location, storeLocation)
      ensures Assigns(graph, storeLocation, order, partner.id, partner.name, partner.location, assignment)
    {
      var deliveryRoute := Dijkstra(graph, storeLocation, order.deliveryLocation);
      var total := Plus(choice.distance, deliveryRoute.distance);
      var assignedOrder := order.(status := Assigned, assignedPartner := Some(partner.name));
      assignment := Assignment(order.id, partner.id, partner.name, choice.distance, choice.path,
                               deliveryRoute.distance, deliveryRoute.path, total, assignedOrder,
                               EstimatedDeliveryTime(total), None);
    }

    /** The dequeue half of processNextOrder: the root order leaves the heap and is in flight. */
    method TakeNext(ghost deliveryPartners: seq<Partner>) returns (order: Order)
      requires Valid() && orderQueue.heap != []
      modifies orderQueue
      ensures Inv(1)
      ensures order == old(orderQueue.heap)[0] && orderQueue.heap == HeapSpec.Pop(old(orderQueue.heap), Score)
      ensures order.status == Pending && order.deliveryLocation in graph
      ensures old(HeapSpec.IsHeap(orderQueue.heap, Score)) ==> HeapSpec.IsHeap(orderQueue.heap, Score)
      ensures activeDeliveries.spine == old(activeDeliveries.spine)
      ensures activeDeliveries.Contents() == old(activeDeliveries.Contents())
      ensures States(deliveryPartners) == old(States(deliveryPartners))
    {
      ghost var h := orderQueue.heap;
      order := PopQueue(deliveryPartners);
      assert |multiset(orderQueue.heap)| + 1 == |multiset(h)|;
      QueuedShrink(h, orderQueue.heap, graph);
    }

    /** The dequeue itself, which touches the heap and nothing else. */
    method PopQueue(ghost deliveryPartners: seq<Partner>) returns (order: Order)
      requires orderQueue.heap != []
      modifies orderQueue
      ensures order == old(orderQueue.heap)[0] && orderQueue.heap == HeapSpec.Pop(old(orderQueue.heap), Score)
      ensures multiset(orderQueue.heap) + multiset{order} == multiset(old(orderQueue.heap))
      ensures old(HeapSpec.IsHeap(orderQueue.heap, Score)) ==> HeapSpec.IsHeap(orderQueue.heap, Score)
      ensures States(deliveryPartners) == old(States(deliveryPartners))
    {
      var top := orderQueue.Dequeue();
      order := top.value;
    }

    /** No partner: the order in flight goes back into the heap. */
    method PutBack(order: Order, ghost deliveryPartners: seq<Partner>)
      requires Inv(1) && order.status == Pending && order.deliveryLocation in graph
      modifies orderQueue
      ensures Valid() && States(deliveryPartners) == old(States(deliveryPartners))
      ensures orderQueue.heap == HeapSpec.Push(old(orderQueue.heap), order, Score)
      ensures old(HeapSpec.IsHeap(orderQueue.heap, Score)) ==> HeapSpec.IsHeap(orderQueue.heap, Score)
      ensures activeDeliveries.Contents() == old(activeDeliveries.Contents())
    {
      ghost var h := orderQueue.heap;
      orderQueue.Enqueue(order);
      QueuedGrow(h, orderQueue.heap, order, graph);
    }

    /** The chosen partner becomes busy with the order; nothing else about any partner changes. */
    method MarkBusy(partner: Partner, orderId: nat, ghost deliveryPartners: seq<Partner>)
      requires Inv(1)
      modifies partner
      ensures Inv(1) && orderQueue.heap == old(orderQueue.heap)
      ensures activeDeliveries.Contents() == old(activeDeliveries.Contents())
      ensures States(deliveryPartners) == Reassign(old(States(deliveryPartners)), deliveryPartners, partner,
                                                   PartnerState(old(partner.location), false, Some(orderId)))
    {
      partner.isAvailable := false;
      partner.currentOrder := Some(orderId);
      ghost var st := Reassign(old(States(deliveryPartners)), deliveryPartners, partner,
                               PartnerState(old(partner.location), false, Some(orderId)));
      assert forall j :: 0 <= j < |deliveryPartners| ==> States(deliveryPartners)[j] == st[j];
    }

    /** The assignment of the order in flight joins the active list. */
    method AddActive(assignment: Assignment, ghost deliveryPartners: seq<Partner>)
      requires Inv(1) && WellPriced(assignment)
      modifies activeDeliveries, activeDeliveries.spine
      ensures Valid() && States(deliveryPartners) == old(States(deliveryPartners))
      ensures activeDeliveries.Contents() == old(activeDeliveries.Contents()) + [assignment]
      ensures forall n :: n in activeDeliveries.spine ==> n in old(activeDeliveries.spine) || fresh(n)
    {
      var _ := activeDeliveries.AddDelivery(assignment);
    }

    /** The order in flight goes to the available partner nearest to the store; with no
        reachable partner it goes back into the heap and nothing else changes. */
    method Dispatch(order: Order, deliveryPartners: seq<Partner>) returns (result: Option<Assignment>, ghost k: int)
      requires Inv(1) && order.status == Pending && order.deliveryLocation in graph
      modifies orderQueue, activeDeliveries, activeDeliveries.spine, deliveryPartners
      ensures Valid()
      ensures forall n :: n in activeDeliveries.spine ==> n in old(activeDeliveries.spine) || fresh(n)
      ensures result == None ==>
        && NoneFinite(old(Offers(graph, storeLocation, Fin(0), deliveryPartners)))
        && orderQueue.heap == HeapSpec.Push(old(orderQueue.heap), order, Score)
        && activeDeliveries.Contents() == old(activeDeliveries.Contents())
        && States(deliveryPartners) == old(States(deliveryPartners))
      ensures result.Some? ==>
        && orderQueue.heap == old(orderQueue.heap)
        && Nearest(old(Offers(graph, storeLocation, Fin(0), deliveryPartners)), k)
        && Assigns(graph, storeLocation, order, deliveryPartners[k].id,
                   deliveryPartners[k].name, old(deliveryPartners[k].location), result.value)
        && States(deliveryPartners) == Reassign(old(States(deliveryPartners)), deliveryPartners, deliveryPartners[k],
                                                PartnerState(old(deliveryPartners[k].location), false, Some(order.id)))
        && activeDeliveries.Contents() == old(activeDeliveries.Contents()) + [result.value]
        && result.value.order.priorityScore == order.priorityScore
      ensures old(HeapSpec.IsHeap(orderQueue.heap, Score)) ==> HeapSpec.IsHeap(orderQueue.heap, Score)
    {
      var partnerResult;
      partnerResult, k := FindNearestAvailablePartner(deliveryPartners, storeLocation);
      if partnerResult.partner == null {
        PutBack(order, deliveryPartners);
        return None, k;
      }
      result := Place(order, partnerResult, deliveryPartners, k);
    }

    /** The order in flight goes to partner k, the nearest: its assignment is built and
        joins the active list, and the partner becomes busy with it. */
    method Place(order: Order, choice: PartnerChoice, ghost deliveryPartners: seq<Partner>, ghost k: int)
      returns (result: Option<Assignment>)
      requires Inv(1) && order.deliveryLocation in graph
      requires 0 <= k < |deliveryPartners| && choice.partner == deliveryPartners[k]
      requires Route(choice.distance, choice.path) == ShortestPath(graph, deliveryPartners[k].location, storeLocation)
      modifies activeDeliveries, activeDeliveries.spine, choice.partner
      ensures Valid()
      ensures forall n :: n in activeDeliveries.spine ==> n in old(activeDeliveries.spine) || fresh(n)
      ensures result.Some? && orderQueue.heap == old(orderQueue.heap)
      ensures result.value.order.priorityScore == order.priorityScore
      ensures Assigns(graph, storeLocation, order, deliveryPartners[k].id,
                      deliveryPartners[k].name, old(deliveryPartners[k].location), result.value)
      ensures States(deliveryPartners) == Reassign(old(States(deliveryPartners)), deliveryPartners, deliveryPartners[k],
                                                   PartnerState(old(deliveryPartners[k].location), false, Some(order.id)))
      ensures activeDeliveries.Contents() == old(activeDeliveries.Contents()) + [result.value]
    {
      var partner := choice.partner;
      var assignment := BuildAssignment(order, partner, choice);
      MarkBusy(partner, order.id, deliveryPartners);
      AddActive(assignment, deliveryPartners);
      result := Some(assignment);
    }

    /** Assign the highest-priority order to the available partner nearest to the store.
        With no order, nothing happens; with no reachable partner, the order goes back into
        the heap and nothing else changes. */
    method ProcessNextOrder(deliveryPartners: seq<Partner>) returns (result: Option<Assignment>, ghost k: int)
      requires Valid()
      modifies orderQueue, activeDeliveries, activeDeliveries.spine, deliveryPartners
      ensures Valid()
      ensures forall n :: n in activeDeliveries.spine ==> n in old(activeDeliveries.spine) || fresh(n)
      ensures old(orderQueue.heap) == [] ==>
        && result == None && orderQueue.heap == []
        && activeDeliveries.Contents() == old(activeDeliveries.Contents())
        && States(deliveryPartners) == old(States(deliveryPartners))
      ensures old(orderQueue.heap) != [] && result == None ==>
        && NoneFinite(old(Offers(graph, storeLocation, Fin(0), deliveryPartners)))
        && orderQueue.heap == HeapSpec.Push(HeapSpec.Pop(old(orderQueue.heap), Score), old(orderQueue.heap)[0], Score)
        && activeDeliveries.Contents() == old(activeDeliveries.Contents())
        && States(deliveryPartners) == old(States(deliveryPartners))
      ensures result.Some? ==>
        && old(orderQueue.heap) != []
        && orderQueue.heap == HeapSpec.Pop(old(orderQueue.heap), Score)
        && Nearest(old(Offers(graph, storeLocation, Fin(0), deliveryPartners)), k)
        && Assigns(graph, storeLocation, old(orderQueue.heap)[0], deliveryPartners[k].id,
                   deliveryPartners[k].name, old(deliveryPartners[k].location), result.value)
        && States(deliveryPartners) == Reassign(old(States(deliveryPartners)), deliveryPartners, deliveryPartners[k],
                                                PartnerState(old(deliveryPartners[k].location), false, Some(result.value.orderId)))
        && activeDeliveries.Contents() == old(activeDeliveries.Contents()) + [result.value]
        && result.value.order.priorityScore == old(orderQueue.heap)[0].priorityScore
      ensures old(HeapSpec.IsHeap(orderQueue.heap, Score)) ==> HeapSpec.IsHeap(orderQueue.heap, Score)
    {
      if orderQueue.IsEmpty() {
        return None, -1;
      }
      result, k := ServeRoot(deliveryPartners);
    }

    /** processNextOrder on a non-empty heap: the root is dequeued and dispatched. */
    method ServeRoot(deliveryPartners: seq<Partner>) returns (result: Option<Assignment>, ghost k: int)
      requires Valid() && orderQueue.heap != []
      modifies orderQueue, activeDeliveries, activeDeliveries.spine, deliveryPartners
      ensures Valid()
      ensures forall n :: n in activeDeliveries.spine ==> n in old(activeDeliveries.spine) || fresh(n)
      ensures result == None ==>
        && NoneFinite(old(Offers(graph, storeLocation, Fin(0), deliveryPartners)))
        && orderQueue.heap == HeapSpec.Push(HeapSpec.Pop(old(orderQueue.heap), Score), old(orderQueue.heap)[0], Score)
        && activeDeliveries.Contents() == old(activeDeliveries.Contents())
        && States(deliveryPartners) == old(States(deliveryPartners))
      ensures result.Some? ==>
        && orderQueue.heap == HeapSpec.Pop(old(orderQueue.heap), Score)
        && Nearest(old(Offers(graph, storeLocation, Fin(0), deliveryPartners)), k)
        && Assigns(graph, storeLocation, old(orderQueue.heap)[0], deliveryPartners[k].id,
                   deliveryPartners[k].name, old(deliveryPartners[k].location), result.value)
        && States(deliveryPartners) == Reassign(old(States(deliveryPartners)), deliveryPartners, deliveryPartners[k],
                                                PartnerState(old(deliveryPartners[k].location), false, Some(result.value.orderId)))
        && activeDeliveries.Contents() == old(activeDeliveries.Contents()) + [result.value]
        && result.value.order.priorityScore == old(orderQueue.heap)[0].priorityScore
      ensures old(HeapSpec.IsHeap(orderQueue.heap, Score)) ==> HeapSpec.IsHeap(orderQueue.heap, Score)
    {
      OffersOfStates(graph, storeLocation, Fin(0), deliveryPartners);
      var order := TakeNext(deliveryPartners);
      OffersOfStates(graph, storeLocation, Fin(0), deliveryPartners);
      result, k := Dispatch(order, deliveryPartners);
    }

    /** Up to batchSize rounds of processNextOrder, stopping early when the heap is empty or
        no partner can take the next order; each assignment makes one available partner
        busy. */
    method ProcessBatchOrders(deliveryPartners: seq<Partner>, batchSize: int) returns (assignments: seq<Assignment>)
      requires Valid()
      modifies orderQueue, activeDeliveries, activeDeliveries.spine, deliveryPartners
      ensures Valid()
      ensures |assignments| <= batchSize || assignments == []
      ensures |assignments| <= old(Available(States(deliveryPartners)))
      ensures |assignments| < batchSize && orderQueue.heap != [] ==>
        NoneFinite(Offers(graph, storeLocation, Fin(0), deliveryPartners))
      ensures activeDeliveries.Contents() == old(activeDeliveries.Contents()) + assignments
      ensures |orderQueue.heap| + |assignments| == |old(orderQueue.heap)|
      ensures old(HeapSpec.IsHeap(orderQueue.heap, Score)) ==>
        HeapSpec.IsHeap(orderQueue.heap, Score) && ServedInOrder(assignments, orderQueue.heap)
    {
      ghost var c0 := activeDeliveries.Contents();
      ghost var a0 := Available(States(deliveryPartners));
      ghost var ordered := HeapSpec.IsHeap(orderQueue.heap, Score);
      FreeCountIsAvailable(deliveryPartners);
      ghost var free;
      assignments, free := RunBatch(deliveryPartners, batchSize, c0, a0, |orderQueue.heap|, ordered);
    }

    /** The loop of processBatchOrders: rounds until batchSize assignments are made, the heap
        is empty, or a round finds no partner. */
    method RunBatch(deliveryPartners: seq<Partner>, batchSize: int, ghost c0: seq<Assignment>, ghost a0: nat,
                    ghost n0: nat, ghost ordered: bool)
      returns (assignments: seq<Assignment>, ghost free: nat)
      requires Batch(c0, a0, n0, ordered, [], a0) && a0 == FreeCount(deliveryPartners)
      modifies orderQueue, activeDeliveries, activeDeliveries.spine, deliveryPartners
      ensures Batch(c0, a0, n0, ordered, assignments, free)
      ensures |assignments| <= batchSize || assignments == []
      ensures |assignments| < batchSize && orderQueue.heap != [] ==>
        NoneFinite(Offers(graph, storeLocation, Fin(0), deliveryPartners))
    {
      free := a0;
      assignments := [];
      var i := 0;
      while i < batchSize && !orderQueue.IsEmpty()
        invariant Batch(c0, a0, n0, ordered, assignments, free)
        invariant free == FreeCount(deliveryPartners)
        invariant i == |assignments| && (i <= batchSize || i == 0)
        invariant fresh(set n | n in activeDeliveries.spine && n !in old(activeDeliveries.spine))
        decreases |orderQueue.heap|
      {
        ghost var sp := activeDeliveries.spine;
        var assignment;
        assignment, free := BatchRound(deliveryPartners, c0, a0, n0, ordered, assignments, free);
        forall m | m in activeDeliveries.spine && m !in old(activeDeliveries.spine)
          ensures fresh(m)
        {
          if m in sp {
            assert m in set n | n in sp && n !in old(activeDeliveries.spine);
          }
        }
        if assignment.None? {
          break;
        }
        assignments := assignments + [assignment.value];
        i := i + 1;
      }
    }

    /** What the batch keeps: everything is well formed, the assignments made so far follow
        the active list as it was (`c0`), each made one of the `a0` available partners busy,
        with the queue they account for the `n0` orders it held, and when the queue started
        as a heap they were served in score order; `free` partners are still available. */
    ghost predicate Batch(c0: seq<Assignment>, a0: nat, n0: nat, ordered: bool,
                          assignments: seq<Assignment>, free: nat)
      reads this, orderQueue, activeDeliveries, activeDeliveries.spine
    {
      && Valid()
      && activeDeliveries.Contents() == c0 + assignments
      && |assignments| + free <= a0
      && |orderQueue.heap| + |assignments| == n0
      && (ordered ==> HeapSpec.IsHeap(orderQueue.heap, Score) && ServedInOrder(assignments, orderQueue.heap))
    }

    /** One round of the batch, seen through what the batch keeps. */
    method BatchRound(deliveryPartners: seq<Partner>, ghost c0: seq<Assignment>, ghost a0: nat, ghost n0: nat,
                      ghost ordered: bool, ghost served: seq<Assignment>, ghost free: nat)
      returns (result: Option<Assignment>, ghost free': nat)
      requires orderQueue.heap != [] && Batch(c0, a0, n0, ordered, served, free)
      requires free == FreeCount(deliveryPartners)
      modifies orderQueue, activeDeliveries, activeDeliveries.spine, deliveryPartners
      ensures forall n :: n in activeDeliveries.spine ==> n in old(activeDeliveries.spine) || fresh(n)
      ensures free' == FreeCount(deliveryPartners)
      ensures result.None? ==>
        && Batch(c0, a0, n0, ordered, served, free')
        && NoneFinite(Offers(graph, storeLocation, Fin(0), deliveryPartners))
      ensures result.Some? ==> Batch(c0, a0, n0, ordered, served + [result.value], free')
      ensures result.Some? ==> |orderQueue.heap| < old(|orderQueue.heap|)
    {
      ghost var c := activeDeliveries.Contents();
      ghost var sp := activeDeliveries.spine;
      result, free' := BatchStep(deliveryPartners, served, ordered, free);
      forall m | m in activeDeliveries.spine && m !in sp
        ensures fresh(m)
      {
        assert m in set n | n in activeDeliveries.spine && n !in sp;
      }
      if result.Some? {
        assert c0 + (served + [result.value]) == c + [result.value];
      }
    }

    /** One round of the batch: processNextOrder on a non-empty heap, seen only through what
        the batch needs of it. */
    method BatchStep(deliveryPartners: seq<Partner>, ghost served: seq<Assignment>, ghost ordered: bool,
                     ghost free: nat)
      returns (result: Option<Assignment>, ghost free': nat)
      requires Valid() && orderQueue.heap != [] && free == FreeCount(deliveryPartners)
      requires ordered ==> HeapSpec.IsHeap(orderQueue.heap, Score) && ServedInOrder(served, orderQueue.heap)
      modifies orderQueue, activeDeliveries, activeDeliveries.spine, deliveryPartners
      ensures Valid()
      ensures fresh(set n | n in activeDeliveries.spine && n !in old(activeDeliveries.spine))
      ensures result.None? ==>
        && |orderQueue.heap| == |old(orderQueue.heap)|
        && activeDeliveries.Contents() == old(activeDeliveries.Contents())
        && free' == free
        && NoneFinite(Offers(graph, storeLocation, Fin(0), deliveryPartners))
      ensures result.Some? ==>
        && |orderQueue.heap| == |old(orderQueue.heap)| - 1
        && activeDeliveries.Contents() == old(activeDeliveries.Contents()) + [result.value]
        && free' < free
      ensures free' == FreeCount(deliveryPartners)
      ensures ordered ==> HeapSpec.IsHeap(orderQueue.heap, Score)
      ensures ordered && result.None? ==> ServedInOrder(served, orderQueue.heap)
      ensures ordered && result.Some? ==> ServedInOrder(served + [result.value], orderQueue.heap)
    {
      ghost var h := orderQueue.heap;
      ghost var offers := Offers(graph, storeLocation, Fin(0), deliveryPartners);
      ghost var st := States(deliveryPartners);
      OffersOfStates(graph, storeLocation, Fin(0), deliveryPartners);
      FreeCountIsAvailable(deliveryPartners);
      forall j | 0 <= j < |deliveryPartners| && offers[j].Fin?
        ensures st[j].isAvailable
      {
        OffersAt(graph, storeLocation, Fin(0), deliveryPartners, j);
      }
      ghost var k;
      result, k := ProcessNextOrder(deliveryPartners);
      free' := FreeCount(deliveryPartners);
      FreeCountIsAvailable(deliveryPartners);
      if result.Some? {
        BusyFewer(st, deliveryPartners, k, PartnerState(st[k].location, false, Some(result.value.orderId)));
        if ordered {
          ServedStep(served, h, result.value);
        }
      } else {
        OffersOfStates(graph, storeLocation, Fin(0), deliveryPartners);
        if ordered {
          ServedReorder(served, h, orderQueue.heap);
        }
      }
    }

    /** The removal half of completeDelivery: the first active assignment for the order
        leaves the list and is in flight. */
    method RemoveActive(orderId: nat, ghost deliveryPartners: seq<Partner>) returns (removed: Option<Assignment>)
      requires Valid()
      modifies activeDeliveries, activeDeliveries.spine`next
      ensures States(deliveryPartners) == old(States(deliveryPartners))
      ensures removed.None? <==> FirstWithOrder(old(activeDeliveries.Contents()), orderId).None?
      ensures removed.None? ==> Valid() && activeDeliveries.Contents() == old(activeDeliveries.Contents())
      ensures removed.Some? ==>
        var i := FirstWithOrder(old(activeDeliveries.Contents()), orderId).value;
        && Inv(1) && WellPriced(removed.value)
        && removed.value == old(activeDeliveries.Contents())[i]
        && activeDeliveries.Contents() == old(activeDeliveries.Contents())[..i] + old(activeDeliveries.Contents())[i + 1..]
    {
      ghost var c := activeDeliveries.Contents();
      ghost var st := States(deliveryPartners);
      var deliveryNode := activeDeliveries.RemoveDeliveryByOrderId(orderId);
      assert States(deliveryPartners) == st;
      if deliveryNode == null {
        return None;
      }
      ghost var k := FirstWithOrder(c, orderId).value;
      removed := Some(deliveryNode.assignment);
      assert removed.value == c[k];
      AllWellPricedDrop(c, k);
      assert |activeDeliveries.Contents()| + 1 == |c|;
    }

    /** The partner carrying the assignment (the first with its id) is free again and
        stands at the delivery location; nothing else changes. */
    method FreePartner(deliveryPartners: seq<Partner>, assignment: Assignment)
      requires Inv(1)
      modifies deliveryPartners
      ensures Inv(1) && activeDeliveries.Contents() == old(activeDeliveries.Contents())
      ensures States(deliveryPartners) == Freed(old(States(deliveryPartners)), deliveryPartners, assignment)
    {
      var index := FindPartner(deliveryPartners, assignment.partnerId);
      if index.Some? {
        MarkFree(deliveryPartners[index.value], assignment.order.deliveryLocation, deliveryPartners);
      }
    }

    /** The partner is free again and stands at the location; nothing else about any
        partner changes. */
    method MarkFree(partner: Partner, location: Node, ghost deliveryPartners: seq<Partner>)
      requires Inv(1)
      modifies partner
      ensures Inv(1) && activeDeliveries.Contents() == old(activeDeliveries.Contents())
      ensures States(deliveryPartners) == Reassign(old(States(deliveryPartners)), deliveryPartners, partner,
                                                   PartnerState(location, true, None))
    {
      partner.isAvailable := true;
      partner.location := location;
      partner.currentOrder := None;
      ghost var st := Reassign(old(States(deliveryPartners)), deliveryPartners, partner,
                               PartnerState(location, true, None));
      assert forall j :: 0 <= j < |deliveryPartners| ==> States(deliveryPartners)[j] == st[j];
    }

    /** The completion half: the assignment in flight, marked delivered at `now`, joins the
        completed list. */
    method Finish(assignment: Assignment, now: Timestamp, ghost deliveryPartners: seq<Partner>)
      requires Inv(1) && WellPriced(assignment)
      modifies this
      ensures Valid() && activeDeliveries.Contents() == old(activeDeliveries.Contents())
      ensures completedDeliveries == old(completedDeliveries) + [WithOrderStatus(assignment, Delivered, now)]
      ensures States(deliveryPartners) == old(States(deliveryPartners))
      ensures orderQueue.heap == old(orderQueue.heap) && orderIdCounter == old(orderIdCounter)
    {
      WithOrderStatusWellPriced(assignment, Delivered, now);
      completedDeliveries := completedDeliveries + [WithOrderStatus(assignment, Delivered, now)];
    }

    /** Deliver an active order: its assignment leaves the active list, its partner is freed
        at the delivery location, and the assignment, marked delivered at `now`, is
        completed.  False, with nothing changed, when no active assignment has the order. */
    method CompleteDelivery(orderId: nat, deliveryPartners: seq<Partner>, now: Timestamp) returns (ok: bool)
      requires Valid()
      modifies this, activeDeliveries, activeDeliveries.spine, deliveryPartners
      ensures Valid()
      ensures ok <==> FirstWithOrder(old(activeDeliveries.Contents()), orderId).Some?
      ensures !ok ==>
        && activeDeliveries.Contents() == old(activeDeliveries.Contents())
        && completedDeliveries == old(completedDeliveries)
        && States(deliveryPartners) == old(States(deliveryPartners))
      ensures ok ==>
        var i := FirstWithOrder(old(activeDeliveries.Contents()), orderId).value;
        var a := old(activeDeliveries.Contents())[i];
        && activeDeliveries.Contents() == old(activeDeliveries.Contents())[..i] + old(activeDeliveries.Contents())[i + 1..]
        && completedDeliveries == old(completedDeliveries) + [WithOrderStatus(a, Delivered, now)]
        && States(deliveryPartners) == Freed(old(States(deliveryPartners)), deliveryPartners, a)
      ensures orderQueue.heap == old(orderQueue.heap) && orderIdCounter == old(orderIdCounter)
    {
      var removed := RemoveActive(orderId, deliveryPartners);
      if removed.None? {
        return false;
      }
      FreePartner(deliveryPartners, removed.value);
      Finish(removed.value, now, deliveryPartners);
      ok := true;
    }

    /** Cancel a pending order: remove it from the heap as removeOrderById does.  False, with
        nothing changed, when no queued order has this id. */
    method CancelOrder(orderId: nat) returns (cancelled: bool)
      requires Valid()
      modifies this, orderQueue
      ensures Valid()
      ensures cancelled <==> exists j :: 0 <= j < |old(orderQueue.heap)| && old(orderQueue.heap)[j].id == orderId
      ensures cancelled ==>
        && orderQueue.heap == HeapSpec.RemoveAtAsWritten(old(orderQueue.heap), FindById(old(orderQueue.heap), orderId).value, Score)
        && cancelledOrders == old(cancelledOrders) + 1
      ensures !cancelled ==> orderQueue.heap == old(orderQueue.heap) && cancelledOrders == old(cancelledOrders)
      ensures completedDeliveries == old(completedDeliveries) && orderIdCounter == old(orderIdCounter)
    {
      ghost var h := orderQueue.heap;
      var removedOrder := orderQueue.RemoveOrderById(orderId);
      cancelled := removedOrder.Some?;
      if cancelled {
        cancelledOrders := cancelledOrders + 1;
        QueuedShrink(h, orderQueue.heap, graph);
      }
    }

    /** The four counts; every order ever added is pending, active, completed or cancelled. */
    method GetSystemStatus() returns (status: SystemStatus)
      requires Valid()
      ensures status == SystemStatus(|orderQueue.heap|, |activeDeliveries.Contents()|,
                                     |completedDeliveries|, orderIdCounter - 1)
      ensures status.totalOrders ==
        status.pendingOrders + status.activeDeliveries + status.completedDeliveries + cancelledOrders
    {
      status := SystemStatus(orderQueue.Size(), activeDeliveries.GetSize(), |completedDeliveries|, orderIdCounter - 1);
    }

    /** The pending orders by ascending score. */
    method GetPendingOrders() returns (orders: seq<Order>)
      ensures orders == SortByScore(orderQueue.heap)
      ensures HeapSpec.SortedBy(orders, Score) && multiset(orders) == multiset(orderQueue.heap)
    {
      var all := orderQueue.GetAllOrders();
      orders := SortByScore(all);
    }

    method GetActiveDeliveries() returns (deliveries: seq<Assignment>)
      requires Valid()
      ensures deliveries == activeDeliveries.Contents()
    {
      deliveries := activeDeliveries.GetAllDeliveries();
    }

    method GetCompletedDeliveries() returns (deliveries: seq<Assignment>)
      ensures deliveries == completedDeliveries
    {
      deliveries := completedDeliveries;
    }
  }
}
