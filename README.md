# Food-delivery dispatcher: a verified Dafny model

The system is the dispatching core of a food-delivery simulator. Customers' orders get a
priority score: 60% from the store-to-customer road distance normalised by 20, 40% from the
order value normalised by 1000, with lower scores served first. The orders wait in a binary
min-heap. Delivery partners stand on the nodes of a weighted road graph. An order is served
by the partner that the search (Dijkstra's algorithm) finds cheapest. Active deliveries sit
in a singly linked list until they are completed.

The code has two dispatchers. The module-level one keeps a global queue, a global list and an
id counter, and charges each partner its road to the store plus the road on to the customer.
The object-based one charges only the road to the store and also keeps the completed
deliveries. A fixture supplies a ten-node map, the store at A and three partners.

The Dafny modules follow the source files:

- `HeapSpec` (heap_spec.dfy): the binary heap both priority queues use, as functions on
  sequences, with its heap-order and permutation lemmas.
- `OrderQueue` (order_queue.dfy): the order heap class.
- `Graphs`, `ShortestPaths`, `Routing` (graphs.dfy, shortest_paths.dfy, routing.dfy): the
  search's priority queue class, the search as an imperative method, and a definition of
  the search as functions, with the proofs that it is correct.
- `DeliveryList` (delivery_list.dfy): the linked list, as heap-allocated nodes with a ghost
  spine.
- `Domain`, `Ledger` (domain.dfy, ledger.dfy): the records, the priority formula and the
  facts the two dispatchers share.
- `EnhancedSystem` (enhanced_system.dfy): the object-based dispatcher.
- `GlobalSystem` (global_system.dfy): the module-level dispatcher. Its globals are the fields
  of one class.
- `MapData` (map_data.dfy): the fixture and the facts about it.

Imperative code stays imperative. Each class method is specified by equality with a
function, such as `heap == HeapSpec.Pop(old(heap), Score)` or `Contents() == old(Contents()) +
[a]`. The properties are then proved about those functions.

Two routes from the store to J are 13 long: A, C, B, E, F, I, J and A, C, B, E, H, J
(`MapData.RouteToJ`, `MapData.RouteToJViaH`). The search replaces a tentative distance only
on a strictly smaller one, so it keeps the first of equal routes it finds. The route to B is
unique and is proved to be A, C, B (`MapData.StoreToJ`).

## Model

| member | source | states |
|---|---|---|
| HeapSpec.Swap | src/utils/priorityQueue.js:23-28 | exchanges exactly the two slots and keeps the multiset of elements |
| HeapSpec.SiftUp | src/utils/priorityQueue.js:69-85 | moving an element up keeps the length and the multiset of the heap |
| HeapSpec.SmallerChild | src/utils/priorityQueue.js:88-105 | picks a child whose key is no larger than either child's key; the left child wins a tie |
| HeapSpec.SiftDown | src/utils/priorityQueue.js:88-115 | moving an element down keeps the length and the multiset of the heap |
| HeapSpec.Push | src/utils/priorityQueue.js:31-34 | enqueueing adds exactly the new element to the multiset |
| HeapSpec.Pop | src/utils/priorityQueue.js:37-51 | dequeueing removes exactly the root from the multiset |
| HeapSpec.SiftUpRestores | src/utils/priorityQueue.js:69-85 | sifting up a heap broken only at index i yields a heap |
| HeapSpec.SiftDownRestores | src/utils/priorityQueue.js:88-115 | sifting down a heap broken only at index i yields a heap |
| HeapSpec.PushKeepsHeap | src/utils/priorityQueue.js:31-34 | enqueueing into a heap yields a heap |
| HeapSpec.PopKeepsHeap | src/utils/priorityQueue.js:37-51 | dequeueing from a heap yields a heap |
| HeapSpec.RootIsMinAll | src/utils/priorityQueue.js:54-56 | the root of a heap has the smallest key of all its elements |
| HeapSpec.RootIsMin | src/utils/priorityQueue.js:54-56 | the root of a heap has a key no larger than that of any given slot |
| HeapSpec.PushAllKeepsHeap | src/utils/orderManagement.js:49-62 | enqueueing a sequence of orders one by one into a heap yields a heap |
| HeapSpec.PushAllSnoc | src/utils/orderManagement.js:49-62 | enqueueing one more order extends the one-by-one enqueueing of the earlier orders |
| HeapSpec.DrainSorted | src/utils/priorityQueue.js:37-51 | dequeueing a heap until empty yields keys in non-decreasing order |
| HeapSpec.DequeueOrderIsSorted | src/utils/orderManagement.js:44-68 | enqueueing any orders then dequeueing them all returns exactly those orders, lowest score first |
| HeapSpec.Fill | src/utils/priorityQueue.js:122-126 | removing slot i by moving the last element into it drops exactly that element and changes no other slot |
| HeapSpec.RepairAsWritten | src/utils/priorityQueue.js:128-137 | the repair step as written keeps the length and the multiset |
| HeapSpec.RemoveAtAsWritten | src/utils/priorityQueue.js:118-141 | removal by index as written drops exactly the element at that index |
| HeapSpec.RemoveAt | src/utils/priorityQueue.js:118-141 | the corrected removal (sifting from the filled slot) drops exactly the element at that index |
| HeapSpec.RemoveLastSlot | src/utils/priorityQueue.js:123-125 | removing the last slot just shortens the heap, both as written and corrected |
| HeapSpec.RemoveAtKeepsHeap | src/utils/priorityQueue.js:118-141 | the corrected removal keeps the heap order |
| HeapSpec.RemoveAsWrittenBreaksHeap | src/utils/priorityQueue.js:125-137 | removing index 3 of the heap [1,5,2,6,7,3,4] as written leaves [1,5,2,4,7,3], which is not a heap |
| HeapSpec.RemoveAtRepairsExample | src/utils/priorityQueue.js:125-137 | the corrected removal on the same input gives the heap [1,4,2,5,7,3] |
| OrderQueue.FindById | src/utils/priorityQueue.js:119-120 | finds the first slot holding the id, or none exactly when no slot holds it |
| OrderQueue.InsertByScore | src/utils/enhancedOrderManagement.js:243-247 | inserting into a score-sorted list keeps it sorted and adds exactly that order |
| OrderQueue.SortByScore | src/utils/enhancedOrderManagement.js:243-247 | the sorted pending list is score-ordered and a permutation of the queue |
| OrderQueue.OrderPriorityQueue.constructor | src/utils/priorityQueue.js:3-5 | a new queue is empty |
| OrderQueue.OrderPriorityQueue.Size | src/utils/priorityQueue.js:64-66 | the number of queued orders |
| OrderQueue.OrderPriorityQueue.IsEmpty | src/utils/priorityQueue.js:59-61 | true exactly when the size is 0 |
| OrderQueue.OrderPriorityQueue.Swap | src/utils/priorityQueue.js:23-28 | the heap becomes the two-slot exchange of the old heap |
| OrderQueue.OrderPriorityQueue.Enqueue | src/utils/priorityQueue.js:31-34 | the heap becomes Push of the old heap, gains exactly the order and stays a heap |
| OrderQueue.OrderPriorityQueue.Dequeue | src/utils/priorityQueue.js:37-51 | empty queue gives none; otherwise returns the old root, the heap becomes Pop of the old heap and stays a heap, and the root has the lowest score of all |
| OrderQueue.OrderPriorityQueue.Peek | src/utils/priorityQueue.js:54-56 | returns the root, none when empty; in a heap it has the lowest score |
| OrderQueue.OrderPriorityQueue.HeapifyUp | src/utils/priorityQueue.js:69-85 | the loop computes SiftUp from the last slot |
| OrderQueue.OrderPriorityQueue.HeapifyDown | src/utils/priorityQueue.js:88-115 | the loop computes SiftDown from the root |
| OrderQueue.OrderPriorityQueue.RemoveOrderById | src/utils/priorityQueue.js:118-141 | returns none and leaves the heap alone exactly when no order has the id; otherwise removes the first order with the id, as written, keeping every other order |
| OrderQueue.OrderPriorityQueue.RemoveSlot | src/utils/priorityQueue.js:122-138 | the heap becomes the removal as written of the slot |
| OrderQueue.OrderPriorityQueue.Repair | src/utils/priorityQueue.js:128-137 | the heap becomes the repair as written at the slot |
| OrderQueue.OrderPriorityQueue.GetAllOrders | src/utils/priorityQueue.js:144-146 | returns the heap's orders in heap order |
| OrderQueue.OrderPriorityQueue.Clear | src/utils/priorityQueue.js:149-151 | the queue becomes empty |
| Graphs.Weight | src/utils/dijkstra.js:117-118 | finds the listed weight of the edge to v exactly when v is listed |
| Graphs.WeightOfEntry | src/utils/dijkstra.js:117-118 | in an adjacency list that names each neighbour once, an entry's weight is the weight of that edge |
| Graphs.Plus | src/utils/orderManagement.js:103 | a sum of distances is finite exactly when both are, and then is their sum |
| Graphs.ExtendPath | src/utils/dijkstra.js:117-125 | extending a path by an edge gives a path heavier by that edge's weight |
| ShortestPaths.Start | src/utils/dijkstra.js:101-107 | the search starts with a label for every node and only the start queued |
| ShortestPaths.RelaxEdge | src/utils/dijkstra.js:118-125 | relaxing an edge changes only the neighbour's label, and only to something strictly shorter through the current node |
| ShortestPaths.Explore | src/utils/dijkstra.js:109-127 | the main loop keeps the set of labelled nodes |
| ShortestPaths.Walk | src/utils/dijkstra.js:129-135 | walking the predecessor links back ends at the requested node |
| ShortestPaths.ExploreFinal | src/utils/dijkstra.js:109-127 | when the loop stops, the target is visited or every edge out of a visited node is relaxed |
| ShortestPaths.ShortestPathIsPath | src/utils/dijkstra.js:95-141 | a finite result is a path from start to end whose weight is the reported distance |
| ShortestPaths.ShortestPathIsShortest | src/utils/dijkstra.js:95-141 | no path from start to end is lighter than the reported distance, and the distance is finite when a path exists |
| ShortestPaths.ShortestPathReachable | src/utils/dijkstra.js:137-140 | the distance is finite exactly when end is reachable, and the path is empty when it is not |
| ShortestPaths.ShortestPathToSelf | src/utils/dijkstra.js:107-115 | from a node to itself the search reports distance 0 and the one-node path |
| ShortestPaths.WalkIsPath | src/utils/dijkstra.js:129-135 | walking the predecessor links back from a node with a finite label gives a path from the start to it |
| ShortestPaths.WalkWeight | src/utils/dijkstra.js:129-135 | that walk weighs exactly the node's final label |
| ShortestPaths.Reaches | src/utils/dijkstra.js:109-127 | when the search ends, every node reachable from the start has been visited |
| Routing.PriorityQueue.constructor | src/utils/dijkstra.js:3-5 | a new queue is empty |
| Routing.PriorityQueue.Swap | src/utils/dijkstra.js:23-25 | the heap becomes the two-slot exchange of the old heap |
| Routing.PriorityQueue.Enqueue | src/utils/dijkstra.js:28-32 | the heap becomes Push of the old heap with the node and priority and stays a heap |
| Routing.PriorityQueue.Dequeue | src/utils/dijkstra.js:35-49 | returns the old root (none when empty) with the lowest priority; the heap becomes Pop and stays a heap |
| Routing.PriorityQueue.HeapifyUp | src/utils/dijkstra.js:57-70 | the loop computes SiftUp from the last slot |
| Routing.PriorityQueue.HeapifyDown | src/utils/dijkstra.js:73-92 | the loop computes SiftDown from the root |
| Routing.InitialLabels | src/utils/dijkstra.js:101-105 | every node gets distance 0 if it is the start and Infinity otherwise, and no predecessor |
| Routing.RelaxNeighbours | src/utils/dijkstra.js:117-126 | the loop over the neighbours computes Relax of the current state |
| Routing.WalkBack | src/utils/dijkstra.js:130-135 | each step back along the predecessor links moves to an earlier-visited node |
| Routing.ReconstructPath | src/utils/dijkstra.js:129-135 | the loop builds exactly the walk back from end |
| Routing.Dijkstra | src/utils/dijkstra.js:95-141 | the method returns exactly ShortestPath, so it inherits the path, optimality and reachability lemmas |
| Routing.NearestIsUnique | src/utils/dijkstra.js:150-153 | at most one partner is the first of the nearest |
| Routing.NearestOrNone | src/utils/dijkstra.js:143-158 | there is a nearest partner exactly when some offer is finite |
| Routing.FirstMin | src/utils/dijkstra.js:147-155 | any finite offer means a nearest partner exists |
| Routing.BestSnoc | src/utils/dijkstra.js:150-153 | one more offer takes the lead exactly when it is strictly smaller than the best so far |
| Routing.OffersOfStates | src/utils/dijkstra.js:143-149 | the offers depend only on the partners' locations and availability |
| Routing.OffersAt | src/utils/dijkstra.js:147-149 | entry j of the offers is partner j's own offer |
| Routing.Weigh | src/utils/dijkstra.js:148-154 | one iteration keeps the partner seen so far that is first among the nearest |
| Routing.FindNearestPartner | src/utils/dijkstra.js:143-158 | returns null with Infinity exactly when no available partner reaches the store; otherwise the first of the available partners nearest to the store, with its distance |
| DeliveryList.FirstWithOrder | src/utils/deliveryLinkedList.js:71-80 | the first delivery with the order id, none exactly when there is none |
| DeliveryList.FirstWithPartner | src/utils/deliveryLinkedList.js:83-92 | the first delivery with the partner id, none exactly when there is none |
| DeliveryList.WithStatusMembers | src/utils/deliveryLinkedList.js:106-116 | the filtered deliveries are exactly the listed ones whose order has the status |
| DeliveryList.WithStatusAppend | src/utils/deliveryLinkedList.js:106-116 | filtering by status distributes over concatenation, so list order is kept |
| DeliveryList.WithOrderStatus | src/utils/deliveryLinkedList.js:119-129 | only the order's status changes, plus the delivery time when the status is delivered |
| DeliveryList.DeliveryNode.constructor | src/utils/deliveryLinkedList.js:3-7 | a new node holds the assignment and has no successor |
| DeliveryList.DeliveryLinkedList.constructor | src/utils/deliveryLinkedList.js:11-15 | a new list is empty |
| DeliveryList.DeliveryLinkedList.AddDelivery | src/utils/deliveryLinkedList.js:18-31 | a fresh node is appended at the tail; the contents gain the assignment at the end and the size grows by one |
| DeliveryList.DeliveryLinkedList.RemoveDeliveryByOrderId | src/utils/deliveryLinkedList.js:34-68 | returns null and changes nothing exactly when no delivery has the id; otherwise unlinks the first such node and keeps every other delivery in order |
| DeliveryList.DeliveryLinkedList.RemoveHead | src/utils/deliveryLinkedList.js:38-46 | a matching head is the first match and is removed |
| DeliveryList.DeliveryLinkedList.RemoveBeyondHead | src/utils/deliveryLinkedList.js:48-67 | past the head, the first match is unlinked, or nothing changes when there is none |
| DeliveryList.DeliveryLinkedList.FindPredecessor | src/utils/deliveryLinkedList.js:49-52 | the scan stops at the node before the first match, or at the tail when there is none |
| DeliveryList.DeliveryLinkedList.UnlinkHead | src/utils/deliveryLinkedList.js:39-45 | the head leaves the spine and the contents |
| DeliveryList.DeliveryLinkedList.UnlinkAfter | src/utils/deliveryLinkedList.js:55-64 | the successor leaves the spine and the contents, and the tail follows when it was last |
| DeliveryList.DeliveryLinkedList.GetDeliveryByOrderId | src/utils/deliveryLinkedList.js:71-80 | returns the node of the first delivery with the id, null when there is none |
| DeliveryList.DeliveryLinkedList.GetDeliveryByPartnerId | src/utils/deliveryLinkedList.js:83-92 | returns the node of the first delivery with the partner id, null when there is none |
| DeliveryList.DeliveryLinkedList.GetAllDeliveries | src/utils/deliveryLinkedList.js:95-103 | returns the contents from head to tail |
| DeliveryList.DeliveryLinkedList.GetDeliveriesByStatus | src/utils/deliveryLinkedList.js:106-116 | returns the deliveries whose order has the status, in list order |
| DeliveryList.DeliveryLinkedList.UpdateDeliveryStatus | src/utils/deliveryLinkedList.js:119-129 | returns true exactly when some delivery has the id; then only the first such delivery changes |
| DeliveryList.DeliveryLinkedList.GetSize | src/utils/deliveryLinkedList.js:132-134 | the size field equals the number of listed deliveries |
| DeliveryList.DeliveryLinkedList.IsEmpty | src/utils/deliveryLinkedList.js:137-139 | true exactly when nothing is listed |
| DeliveryList.DeliveryLinkedList.Clear | src/utils/deliveryLinkedList.js:142-146 | the list becomes empty |
| DeliveryList.MiddleIsFirst | src/utils/deliveryLinkedList.js:49-52 | in three deliveries, the middle one is found first when the head has another id |
| DeliveryList.ListOfThree | src/utils/deliveryLinkedList.js:18-31 | three appends list the three assignments in order |
| DeliveryList.CompleteMiddleOfThree | src/utils/deliveryLinkedList.js:34-68 | removing the middle of three deliveries returns it and leaves the other two in order |
| Domain.Partner.constructor | src/data/mapData.js:31-33 | a partner starts with the given id, name, place and availability, carrying no order |
| Domain.EstimatedDeliveryTime | src/utils/orderManagement.js:154-158 | ten minutes plus two per distance unit; an Infinity distance stays Infinity |
| Domain.NormalizedDistance | src/utils/orderManagement.js:23-24 | distance over 20 capped at 1, within [0, 1]; an unreachable customer counts as 1 |
| Domain.NormalizedValue | src/utils/orderManagement.js:27-28 | one minus value over 1000 capped, 0 from 1000 on, within [0, 1] for non-negative values |
| Domain.PriorityFromDistance | src/utils/orderManagement.js:18-40 | the score is 0.6 times the normalised distance plus 0.4 times the normalised value, within [0, 1] |
| Domain.ScoreMonotoneInDistance | src/utils/orderManagement.js:22-24 | a farther customer never gets a better (lower) score |
| Domain.ScoreAntitoneInValue | src/utils/orderManagement.js:26-28 | a more valuable order never gets a worse (higher) score |
| Ledger.FindPartner | src/utils/orderManagement.js:168 | the first partner with the id, none exactly when there is none |
| Ledger.WithOrderStatusWellPriced | src/utils/orderManagement.js:176-177 | marking an assignment's order delivered keeps its totals consistent |
| Ledger.ServedStep | src/utils/orderManagement.js:76-81 | serving the root of the heap keeps every served order no worse than the rest, and in serving order |
| Ledger.ServedReorder | src/utils/orderManagement.js:81-145 | taking orders out of the queue or reshuffling it keeps the served ones ahead of it |
| Ledger.NewOrderIsPending | src/utils/orderManagement.js:236-250 | a new order gets the counter's id, is pending and unassigned, carries the caller's data, and gets the road distance and a score in [0, 1] |
| Ledger.Available | src/utils/orderManagement.js:76-78 | counts free partners; 0 exactly when nobody is free |
| Ledger.FreeCountIsAvailable | src/utils/orderManagement.js:76-78 | counting free partners directly agrees with counting their states |
| Ledger.AvailableMono | src/utils/orderManagement.js:136 | if no partner becomes free, the count of free partners does not grow |
| Ledger.AvailableDrop | src/utils/orderManagement.js:136 | if a free partner becomes busy and nobody becomes free, the count drops |
| Ledger.BusyFewer | src/utils/orderManagement.js:136-137 | making one free partner busy lowers the count of free partners |
| EnhancedSystem.EnhancedOrderManagementSystem.constructor | src/utils/enhancedOrderManagement.js:6-13 | an empty queue, list and history, with the counter at 1 |
| EnhancedSystem.EnhancedOrderManagementSystem.CalculateOrderPriority | src/utils/enhancedOrderManagement.js:16-52 | the score formula applied to the search's store-to-customer distance, within [0, 1] |
| EnhancedSystem.EnhancedOrderManagementSystem.CreateOrder | src/utils/enhancedOrderManagement.js:56-66 | builds the new pending order for the id and data |
| EnhancedSystem.EnhancedOrderManagementSystem.AddOrder | src/utils/enhancedOrderManagement.js:55-76 | the order gets the counter's id, the counter grows by one, and the order is pushed on the queue |
| EnhancedSystem.EnhancedOrderManagementSystem.Admit | src/utils/enhancedOrderManagement.js:57-68 | queueing a counted order keeps the invariant |
| EnhancedSystem.EnhancedOrderManagementSystem.FindNearestAvailablePartner | src/utils/enhancedOrderManagement.js:79-101 | returns the first of the available partners nearest to the target with its distance and route, or null, Infinity and the empty route when no available partner reaches it |
| EnhancedSystem.EnhancedOrderManagementSystem.Consider | src/utils/enhancedOrderManagement.js:84-93 | one iteration keeps the best partner seen so far |
| EnhancedSystem.EnhancedOrderManagementSystem.PartnerOffer | src/utils/enhancedOrderManagement.js:85-86 | an unavailable partner offers Infinity; an available one offers its route from the search |
| EnhancedSystem.EnhancedOrderManagementSystem.BuildAssignment | src/utils/enhancedOrderManagement.js:138-159 | the assignment joins the partner's route to the store with the store's route to the customer, and the totals add up |
| EnhancedSystem.EnhancedOrderManagementSystem.TakeNext | src/utils/enhancedOrderManagement.js:111 | takes the root, a pending deliverable order, and keeps the heap order |
| EnhancedSystem.EnhancedOrderManagementSystem.PopQueue | src/utils/enhancedOrderManagement.js:111 | the queue gives up exactly its root |
| EnhancedSystem.EnhancedOrderManagementSystem.PutBack | src/utils/enhancedOrderManagement.js:130-135 | with no partner, the order goes back on the queue and nothing else changes |
| EnhancedSystem.EnhancedOrderManagementSystem.MarkBusy | src/utils/enhancedOrderManagement.js:162-163 | only the chosen partner changes: busy, carrying the order |
| EnhancedSystem.EnhancedOrderManagementSystem.AddActive | src/utils/enhancedOrderManagement.js:171 | the assignment joins the end of the active list |
| EnhancedSystem.EnhancedOrderManagementSystem.Dispatch | src/utils/enhancedOrderManagement.js:125-176 | with no finite offer the order goes back; otherwise the nearest partner gets it and is the only partner that changes |
| EnhancedSystem.EnhancedOrderManagementSystem.Place | src/utils/enhancedOrderManagement.js:138-176 | the chosen partner is booked and the assignment is appended to the active list |
| EnhancedSystem.EnhancedOrderManagementSystem.ServeRoot | src/utils/enhancedOrderManagement.js:111-176 | with a non-empty queue: the root is served by the nearest partner, or, with no finite offer, pushed back |
| EnhancedSystem.EnhancedOrderManagementSystem.ProcessNextOrder | src/utils/enhancedOrderManagement.js:104-177 | empty queue: nothing changes; no reachable partner: the root is popped and pushed back; else the root goes to the first partner nearest the store, who alone becomes busy, and the assignment is appended |
| EnhancedSystem.EnhancedOrderManagementSystem.ProcessBatchOrders | src/utils/enhancedOrderManagement.js:180-193 | at most batchSize assignments, and no more than the partners free at the start; each is appended to the list and taken from the queue; stopping short of batchSize with orders still queued means no partner can take the next one; from a heap the orders come out in score order, ahead of everything still queued |
| EnhancedSystem.EnhancedOrderManagementSystem.RunBatch | src/utils/enhancedOrderManagement.js:183-190 | the loop keeps the list, the queue length and the count of free partners in step with the assignments, and stops short only when the queue is empty or no partner can serve |
| EnhancedSystem.EnhancedOrderManagementSystem.BatchRound | src/utils/enhancedOrderManagement.js:184-189 | one round either appends one assignment and shrinks the queue, or stops with no partner able to serve |
| EnhancedSystem.EnhancedOrderManagementSystem.BatchStep | src/utils/enhancedOrderManagement.js:184-189 | one round serves and makes a free partner busy, or stops with every offer infinite and nothing else changed; it keeps the served-in-order fact |
| EnhancedSystem.EnhancedOrderManagementSystem.RemoveActive | src/utils/enhancedOrderManagement.js:197-204 | finds and unlinks the first active delivery with the id, or reports none and changes nothing |
| EnhancedSystem.EnhancedOrderManagementSystem.FreePartner | src/utils/enhancedOrderManagement.js:207-212 | the delivering partner, if listed, becomes free at the customer's node; nobody else changes |
| EnhancedSystem.EnhancedOrderManagementSystem.MarkFree | src/utils/enhancedOrderManagement.js:209-211 | only that partner changes: free, at the given node, carrying nothing |
| EnhancedSystem.EnhancedOrderManagementSystem.Finish | src/utils/enhancedOrderManagement.js:215-219 | the delivered assignment joins the completed list |
| EnhancedSystem.EnhancedOrderManagementSystem.CompleteDelivery | src/utils/enhancedOrderManagement.js:196-223 | true exactly when an active delivery has the id; then it leaves the active list, joins the completed list marked delivered, and its partner is freed at the customer; false changes nothing |
| EnhancedSystem.EnhancedOrderManagementSystem.CancelOrder | src/utils/enhancedOrderManagement.js:260-268 | true exactly when a queued order has the id; then the order is removed as written and counted as cancelled |
| EnhancedSystem.EnhancedOrderManagementSystem.GetSystemStatus | src/utils/enhancedOrderManagement.js:233-240 | reports the queue, active and completed counts and the orders created; every created order is pending, active, completed or cancelled |
| EnhancedSystem.EnhancedOrderManagementSystem.GetPendingOrders | src/utils/enhancedOrderManagement.js:243-247 | the queued orders sorted by score, a permutation of the queue |
| EnhancedSystem.EnhancedOrderManagementSystem.GetActiveDeliveries | src/utils/enhancedOrderManagement.js:250-252 | the active list's contents in order |
| EnhancedSystem.EnhancedOrderManagementSystem.GetCompletedDeliveries | src/utils/enhancedOrderManagement.js:255-257 | a copy of the completed list |
| GlobalSystem.RoutableFrom | src/utils/orderManagement.js:81-145 | orders taken from a queue of deliverable orders, plus deliverable extras, are deliverable |
| GlobalSystem.Enriched | src/utils/orderManagement.js:51-56 | enriching changes only the score and the distance |
| GlobalSystem.EnrichedAll | src/utils/orderManagement.js:49-62 | each order is enriched in place in the sequence |
| GlobalSystem.CalculateOrderPriority | src/utils/orderManagement.js:11-41 | the score formula applied to the search's store-to-customer distance, within [0, 1] |
| GlobalSystem.Enrich | src/utils/orderManagement.js:50-56 | the order with the computed score and distance |
| GlobalSystem.SomeAvailable | src/utils/orderManagement.js:78 | true exactly when some partner is free |
| GlobalSystem.CheapestPartner | src/utils/orderManagement.js:93-113 | the loop finds the first available partner with the least total cost (to the store, then on to the customer), with its two routes, or null when no cost is finite |
| GlobalSystem.Price | src/utils/orderManagement.js:94-112 | one iteration keeps the cheapest partner seen so far |
| GlobalSystem.OrderManagement.constructor | src/utils/orderManagement.js:6-8 | an empty queue and list, with the counter at 1 |
| GlobalSystem.OrderManagement.PrioritizeOrders | src/utils/orderManagement.js:44-68 | the queue is rebuilt from the enriched orders and is a heap; the result is them sorted by score |
| GlobalSystem.OrderManagement.Refill | src/utils/orderManagement.js:46-62 | the queue becomes the enriched orders pushed in order, a heap |
| GlobalSystem.OrderManagement.EnqueueEnriched | src/utils/orderManagement.js:50-59 | pushing the next enriched order extends the rebuilt queue by one |
| GlobalSystem.OrderManagement.AssignDeliveryPartners | src/utils/orderManagement.js:71-151 | every assignment is appended to the list, booked, served lowest score first and ahead of what stays queued, at most one per free partner; each dequeued order is assigned, dropped as not pending, or, when nobody can reach it, put back, which ends the loop |
| GlobalSystem.OrderManagement.Drive | src/utils/orderManagement.js:76-148 | the loop keeps the progress invariant and stops when the queue is empty, nobody is free, or an order is blocked |
| GlobalSystem.OrderManagement.Advance | src/utils/orderManagement.js:80-147 | one round keeps the progress invariant and shortens the queue unless the order is blocked |
| GlobalSystem.OrderManagement.Step | src/utils/orderManagement.js:81-147 | one round serves the root in order, drops it, or puts it back |
| GlobalSystem.OrderManagement.AssignRound | src/utils/orderManagement.js:81-147 | pops the root; a non-pending order is dropped; a pending one goes to the first cheapest partner or is pushed back when no total cost is finite |
| GlobalSystem.OrderManagement.TakeRoot | src/utils/orderManagement.js:81 | the queue gives up exactly its root, and nothing else changes |
| GlobalSystem.OrderManagement.Dispatch | src/utils/orderManagement.js:86-147 | no finite offer: the order is pushed back; else it is served by the first cheapest partner |
| GlobalSystem.OrderManagement.Settle | src/utils/orderManagement.js:115-147 | acts on the search result: serve the best partner or put the order back |
| GlobalSystem.OrderManagement.PutBack | src/utils/orderManagement.js:143-146 | the order is pushed back onto the queue |
| GlobalSystem.OrderManagement.Place | src/utils/orderManagement.js:115-142 | the chosen partner alone becomes busy, and the booked assignment is appended to the list |
| GlobalSystem.OrderManagement.CompleteDelivery | src/utils/orderManagement.js:161-183 | unlinks the first listed delivery with the order id (null when none), frees the partner at the customer's node, and marks the order delivered |
| GlobalSystem.OrderManagement.Unlist | src/utils/orderManagement.js:163-165 | unlinks the first listed delivery with the order id, or changes nothing |
| GlobalSystem.OrderManagement.FreePartner | src/utils/orderManagement.js:168-173 | the delivering partner, if listed, becomes free at the customer's node; nobody else changes |
| GlobalSystem.OrderManagement.AddActive | src/utils/orderManagement.js:133 | the assignment joins the end of the list |
| GlobalSystem.OrderManagement.Engage | src/utils/orderManagement.js:136-137 | only that partner changes: busy, carrying the order |
| GlobalSystem.OrderManagement.Release | src/utils/orderManagement.js:169-173 | only that partner changes: free, at the given node, carrying nothing |
| GlobalSystem.OrderManagement.AddOrderToSystem | src/utils/orderManagement.js:236-262 | the enriched new order gets the counter's id and is pushed on the queue, and the counter grows by one |
| GlobalSystem.OrderManagement.GetSystemStatus | src/utils/orderManagement.js:220-226 | reports the queue size, the list size and the orders created so far |
| GlobalSystem.OrderManagement.ResetSystem | src/utils/orderManagement.js:228-233 | empties the queue and the list and resets the counter to 1 |
| GlobalSystem.OrderManagement.GetPendingOrdersFromQueue | src/utils/orderManagement.js:210-214 | the queued orders sorted by score, a permutation of the queue |
| GlobalSystem.OrderManagement.GetActiveDeliveriesFromList | src/utils/orderManagement.js:216-218 | the list's contents in order |
| MapData.MapWellFormed | src/data/mapData.js:2-13 | no node lists a neighbour twice |
| MapData.MapClosed | src/data/mapData.js:2-13 | every neighbour is a node and every road has positive length |
| MapData.MapSymmetric | src/data/mapData.js:2-13 | every road is listed from both ends with the same length |
| MapData.FixtureOnMap | src/data/mapData.js:30-37 | the store and all three partners stand on map nodes, and the partner ids differ |
| MapData.PotentialBound | src/utils/dijkstra.js:95-141 | along any path, a potential that no road undercuts grows by at most the path's weight |
| MapData.DistanceByPotential | src/utils/dijkstra.js:95-141 | a path whose weight equals the rise of such a potential is what the search reports, in distance and weight |
| MapData.FromStoreFeasible | src/data/mapData.js:2-13 | the table of distances from the store is such a potential on the map, 0 at the store |
| MapData.TreeIsPath | src/data/mapData.js:2-13 | following the predecessor table back to the store is a path as long as the tabled distance |
| MapData.StoreDistances | src/data/mapData.js:2-13 | from the store, the search reports the tabled distance to every node, via a path of that weight |
| MapData.TightLast | src/utils/dijkstra.js:95-141 | on a path whose weight equals the rise of such a potential, the last road and the rest of the path are tight |
| MapData.TightInto | src/data/mapData.js:2-13 | no road into A is tight; the only tight road into B comes from C, into C from A |
| MapData.TightPrefix | src/data/mapData.js:2-13 | a route as long as the tabled distance to B ends C, B; to C ends A, C; to A is A alone |
| MapData.OnlyRouteToB | src/data/mapData.js:2-13 | the only route from the store to B that is 3 long is A, C, B |
| MapData.StoreToJ | src/data/mapData.js:2-13 | from store A the search reports 13 to J and 3 to B, and its route to B is A, C, B |
| MapData.RouteToJ | src/data/mapData.js:2-13 | the shortest route from the store to J built from the predecessor table is A, C, B, E, F, I, J |
| MapData.RouteToE | src/data/mapData.js:2-13 | the predecessor-table route from the store to E is A, C, B, E |
| MapData.RouteToH | src/data/mapData.js:2-13 | the predecessor-table route from the store to H is A, C, B, E, H |
| MapData.RouteToJViaH | src/data/mapData.js:2-13 | A, C, B, E, H, J is also a route from the store to J, and also 13 long |
| MapData.InitialDeliveryPartners | src/data/mapData.js:30-34 | creates Ravi at A, Neha at D and Arjun at H as distinct fresh objects, each free and carrying nothing |
| MapData.PartnerAtStoreIsNearest | src/utils/orderManagement.js:93-113 | a free partner standing at the store and listed first, like Ravi, wins every order with a reachable customer at the cost of the onward leg alone |

## Left out

- Logging, `display()`, the simulation driver `simulateOrderProcessing`, the random
  `generateSampleOrders` and the node screen positions are not modelled. They are output,
  randomness or presentation.
- Wall-clock times (`orderTime`, `assignedAt`, node timestamps) are not modelled.
  `deliveredAt` is a caller-supplied `now` parameter.
- Scores are exact reals. JavaScript's floating-point rounding is not modelled, and neither is
  the `priority` copy of the score kept for backward compatibility.
- The extra fields a caller passes in `orderData` are reduced to customer name, value and
  destination. An `id` inside `orderData` would override the counter's id in `addOrder`,
  because the spread follows the id; this override is not modelled.
- GlobalSystem.OrderManagement.AssignDeliveryPartners: drops the `orders` parameter, which the
  function never reads. It does not claim the heap order after a cancelled order in the
  other dispatcher, since the two share no queue.
- GlobalSystem.OrderManagement.CompleteDelivery: returns the delivered assignment as a new
  value. In the source the same object is shared with the caller's list and is updated in
  place, and that aliasing is not modelled. The order of the three updates does not matter
  here, because they touch disjoint state.
- EnhancedSystem.EnhancedOrderManagementSystem.ProcessNextOrder: the source's `if (!order)`
  check after a non-empty dequeue can never fire, so the model has no such branch.
- EnhancedSystem.EnhancedOrderManagementSystem.ProcessBatchOrders: the default `batchSize = 3`
  is not modelled; the caller always passes the size.
- EnhancedSystem.EnhancedOrderManagementSystem.CancelOrder: keeps the removal as written, so
  the dispatcher's invariant does not claim the heap order of its queue (see Findings).
- Routing.Dijkstra: requires `end` to be a node of the graph. With any other `end`, the path
  reconstruction in the source never ends, so the model has no result to state for that input.
- MapData.RouteToJ: proves that A, C, B, E, F, I, J is a shortest route and is the route the
  predecessor table gives. It does not prove that the search's own path is that route. That
  needs the search's tie-breaking step by step, and evaluating the search on the map literal
  exceeds what the verifier can check here. The distances are proved for every node.
- EnhancedSystem.EnhancedOrderManagementSystem.ProcessNextOrder,
  EnhancedSystem.EnhancedOrderManagementSystem.CompleteDelivery,
  GlobalSystem.OrderManagement.PrioritizeOrders, GlobalSystem.OrderManagement.AssignDeliveryPartners
  and DeliveryList.DeliveryLinkedList.UpdateDeliveryStatus: orders and assignments are values.
  In the source (enhancedOrderManagement.js:154,166-167 and 215-219, orderManagement.js:65-67
  and 140-141, deliveryLinkedList.js:122-124) they are shared objects. A reference the caller
  holds to an order or an assignment therefore sees later status changes there, but not here.
- The node positions of the map and everything under `src/components` are not part of this
  model.

## Findings

| source | as written | input that shows it | evidently intended | confidence | as-written member | corrected member |
|---|---|---|---|---|---|---|
| src/utils/priorityQueue.js:125-137 | after moving the last order into the removed slot, `removeOrderById` repairs the heap with `heapifyUp()` from the last slot or `heapifyDown()` from the root, not from the filled slot | the heap of scores [1, 5, 2, 6, 7, 3, 4] with the order at index 3 (score 6) removed becomes [1, 5, 2, 4, 7, 3]: 4 sits below 5 | sift the moved order up or down from the slot it was moved into, giving the heap [1, 4, 2, 5, 7, 3] | high (proved on that input; not executed) | OrderQueue.OrderPriorityQueue.RemoveOrderById | HeapSpec.RemoveAtKeepsHeap |
