/** The order queue: a binary min-heap of orders on priorityScore (lower score = served
    first), kept in a growable array. */
module OrderQueue {
  import opened Options
  import opened Domain
  import HeapSpec

  /** `findIndex` on the id: the first slot holding an order with this id. */
  function FindById(h: seq<Order>, orderId: nat): (r: Option<nat>)
    ensures r.None? <==> forall j :: 0 <= j < |h| ==> h[j].id != orderId
    ensures r.Some? ==> r.value < |h| && h[r.value].id == orderId
    ensures r.Some? ==> forall j :: 0 <= j < r.value ==> h[j].id != orderId
    decreases |h|
  {
    if h == [] then None
    else if h[0].id == orderId then Some(0)
    else
      match FindById(h[1..], orderId)
      case None => None
      case Some(i) => Some(i + 1)
  }

  /** Inserting an order in front of the first order with a score at least as large
      (so it stays in front of equal scores). */
  function InsertByScore(o: Order, s: seq<Order>): (r: seq<Order>)
    ensures multiset(r) == multiset(s) + multiset{o}
    ensures HeapSpec.SortedBy(s, Score) ==> HeapSpec.SortedBy(r, Score)
    decreases |s|
  {
    if s == [] then [o]
    else if Score(o) <= Score(s[0]) then
      assert HeapSpec.SortedBy(s, Score) ==> HeapSpec.SortedBy([o] + s, Score) by {
        if HeapSpec.SortedBy(s, Score) {
          HeapSpec.ConsSorted(o, s, Score);
        }
      }
      [o] + s
    else
      var rest := InsertByScore(o, s[1..]);
      assert s == [s[0]] + s[1..];
      assert HeapSpec.SortedBy(s, Score) ==> HeapSpec.SortedBy([s[0]] + rest, Score) by {
        if HeapSpec.SortedBy(s, Score) {
          forall k | 0 <= k < |rest| ensures Score(s[0]) <= Score(rest[k]) {
            assert rest[k] in multiset(rest);
            assert rest[k] == o || rest[k] in s[1..];
          }
          HeapSpec.ConsSorted(s[0], rest, Score);
        }
      }
      [s[0]] + rest
  }

  /** `sort((a, b) => a.priorityScore - b.priorityScore)`: the orders sorted by score. */
  function SortByScore(s: seq<Order>): (r: seq<Order>)
    ensures HeapSpec.SortedBy(r, Score)
    ensures multiset(r) == multiset(s)
    decreases |s|
  {
    if s == [] then []
    else
      assert s == [s[0]] + s[1..];
      InsertByScore(s[0], SortByScore(s[1..]))
  }

  class OrderPriorityQueue {
    var heap: seq<Order>

    constructor ()
      ensures heap == []
    {
      heap := [];
    }

    function Size(): (n: nat)
      reads this
      ensures n == |heap|
    {
      |heap|
    }

    function IsEmpty(): (e: bool)
      reads this
      ensures e <==> Size() == 0
    {
      |heap| == 0
    }

    method Swap(i: nat, j: nat)
      requires i < |heap| && j < |heap|
      modifies this
      ensures heap == HeapSpec.Swap(old(heap), i, j)
    {
      heap := heap[i := heap[j]][j := heap[i]];
    }

    /** Append the order, then restore the order from the last slot upwards. */
    method Enqueue(order: Order)
      modifies this
      ensures heap == HeapSpec.Push(old(heap), order, Score)
      ensures multiset(heap) == multiset(old(heap)) + multiset{order}
      ensures old(HeapSpec.IsHeap(heap, Score)) ==> HeapSpec.IsHeap(heap, Score)
    {
      ghost var h := heap;
      heap := heap + [order];
      HeapifyUp();
      if HeapSpec.IsHeap(h, Score) {
        HeapSpec.PushKeepsHeap(h, order, Score);
      }
    }

    /** Remove and return the root (an order of least score), or None when empty. */
    method Dequeue() returns (top: Option<Order>)
      modifies this
      ensures old(heap) == [] ==> top == None && heap == []
      ensures old(heap) != [] ==> top == Some(old(heap)[0]) && heap == HeapSpec.Pop(old(heap), Score)
      ensures old(heap) != [] ==> multiset(heap) + multiset{top.value} == multiset(old(heap))
      ensures old(heap) != [] && old(HeapSpec.IsHeap(heap, Score)) ==>
        && HeapSpec.IsHeap(heap, Score)
        && forall o :: o in old(heap) ==> Score(top.value) <= Score(o)
    {
      if IsEmpty() {
        return None;
      }
      ghost var h := heap;
      top := Some(heap[0]);
      var lastOrder := heap[|heap| - 1];
      heap := heap[..|heap| - 1];
      if |heap| > 0 {
        heap := heap[0 := lastOrder];
        HeapifyDown();
      }
      if HeapSpec.IsHeap(h, Score) {
        HeapSpec.PopKeepsHeap(h, Score);
        HeapSpec.RootIsMinAll(h, Score);
      }
    }

    /** The root without removing it, or None when empty. */
    method Peek() returns (top: Option<Order>)
      ensures heap == [] <==> top == None
      ensures heap != [] ==> top == Some(heap[0])
      ensures top.Some? && HeapSpec.IsHeap(heap, Score) ==>
        forall o :: o in heap ==> Score(top.value) <= Score(o)
    {
      if IsEmpty() {
        return None;
      }
      top := Some(heap[0]);
      if HeapSpec.IsHeap(heap, Score) {
        HeapSpec.RootIsMinAll(heap, Score);
      }
    }

    method HeapifyUp()
      modifies this
      ensures |old(heap)| == 0 ==> heap == old(heap)
      ensures |old(heap)| > 0 ==> heap == HeapSpec.SiftUp(old(heap), |old(heap)| - 1, Score)
    {
      var index: int := |heap| - 1;
      while index > 0
        invariant -1 <= index < |heap| && |heap| == |old(heap)|
        invariant index == -1 ==> heap == old(heap) && |heap| == 0
        invariant index >= 0 ==>
          HeapSpec.SiftUp(heap, index, Score) == HeapSpec.SiftUp(old(heap), |old(heap)| - 1, Score)
        decreases index
      {
        var parentIndex := (index - 1) / 2;
        if heap[parentIndex].priorityScore <= heap[index].priorityScore {
          assert HeapSpec.SiftUp(heap, index, Score) == heap;
          break;
        }
        Swap(parentIndex, index);
        index := parentIndex;
      }
      if index == 0 {
        assert HeapSpec.SiftUp(heap, 0, Score) == heap;
      }
    }

    method HeapifyDown()
      modifies this
      ensures heap == HeapSpec.SiftDown(old(heap), 0, Score)
    {
      var index := 0;
      while 2 * index + 1 < |heap|
        invariant |heap| == |old(heap)|
        invariant HeapSpec.SiftDown(heap, index, Score) == HeapSpec.SiftDown(old(heap), 0, Score)
        decreases |heap| - index
      {
        var smallerChildIndex := 2 * index + 1;
        var rightChildIndex := 2 * index + 2;
        if rightChildIndex < |heap| && heap[rightChildIndex].priorityScore < heap[smallerChildIndex].priorityScore {
          smallerChildIndex := rightChildIndex;
        }
        if heap[index].priorityScore <= heap[smallerChildIndex].priorityScore {
          break;
        }
        Swap(index, smallerChildIndex);
        index := smallerChildIndex;
      }
    }

    /** Cancel: remove the first order with this id, filling its slot with the last
        element and re-heapifying from the last slot or from the root (not from the
        filled slot, so the heap order is not guaranteed afterwards). */
    method RemoveOrderById(orderId: nat) returns (removed: Option<Order>)
      modifies this
      ensures FindById(old(heap), orderId).None? ==> removed == None && heap == old(heap)
      ensures FindById(old(heap), orderId).Some? ==>
        var i := FindById(old(heap), orderId).value;
        && removed == Some(old(heap)[i])
        && heap == HeapSpec.RemoveAtAsWritten(old(heap), i, Score)
      ensures removed.Some? ==>
        removed.value.id == orderId && multiset(heap) + multiset{removed.value} == multiset(old(heap))
      ensures removed == None <==> forall o :: o in old(heap) ==> o.id != orderId
    {
      var index := FindById(heap, orderId);
      if index.None? {
        return None;
      }
      removed := Some(heap[index.value]);
      RemoveSlot(index.value);
    }

    /** Fill slot i with the last element and re-heapify as removeOrderById does. */
    method RemoveSlot(i: nat)
      requires i < |heap|
      modifies this
      ensures heap == HeapSpec.RemoveAtAsWritten(old(heap), i, Score)
    {
      ghost var h := heap;
      var lastOrder := heap[|heap| - 1];
      heap := heap[..|heap| - 1];
      if i < |heap| {
        heap := heap[i := lastOrder];
        HeapSpec.RemoveAtAsWrittenFilled(h, i, Score, heap);
        Repair(i);
      }
    }

    /** The repair step of removeOrderById on the filled array. */
    method Repair(i: nat)
      requires i < |heap|
      modifies this
      ensures heap == HeapSpec.RepairAsWritten(old(heap), i, Score)
    {
      if i > 0 && heap[(i - 1) / 2].priorityScore > heap[i].priorityScore {
        assert Score(heap[HeapSpec.Parent(i)]) > Score(heap[i]);
        HeapifyUp();
      } else {
        HeapifyDown();
      }
    }

    /** A copy of the array, in heap-array order. */
    method GetAllOrders() returns (orders: seq<Order>)
      ensures orders == heap
    {
      orders := heap;
    }

    method Clear()
      modifies this
      ensures heap == []
    {
      heap := [];
    }
  }
}
