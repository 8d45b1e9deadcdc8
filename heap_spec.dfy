/** A binary min-heap stored in a sequence, as a pure specification.

    Both heaps of the dispatcher (the order queue keyed on priorityScore and the
    frontier of the shortest-path search keyed on the tentative distance) keep their
    elements in a growable array and restore the heap order with the same two loops,
    heapifyUp and heapifyDown.  This module gives those loops as recursive functions,
    parameterised by the key, and proves what the heap promises: the contents are
    preserved, the heap order is restored, and the root is a minimum. */
module HeapSpec {

  function Parent(i: nat): nat
    requires i > 0
  {
    (i - 1) / 2
  }

  function Left(i: nat): nat { 2 * i + 1 }

  function Right(i: nat): nat { 2 * i + 2 }

  /** Every element is at least as large as its parent. */
  ghost predicate IsHeap<T>(h: seq<T>, key: T -> real) {
    forall i :: 0 < i < |h| ==> key(h[Parent(i)]) <= key(h[i])
  }

  /** Exchange two slots. */
  function Swap<T>(h: seq<T>, i: nat, j: nat): (r: seq<T>)
    requires i < |h| && j < |h|
    ensures |r| == |h| && r[i] == h[j] && r[j] == h[i]
    ensures forall k :: 0 <= k < |h| && k != i && k != j ==> r[k] == h[k]
    ensures multiset(r) == multiset(h)
  {
    h[i := h[j]][j := h[i]]
  }

  /** heapifyUp: move the element at i towards the root while its parent is larger. */
  function SiftUp<T>(h: seq<T>, i: nat, key: T -> real): (r: seq<T>)
    requires i < |h|
    ensures |r| == |h| && multiset(r) == multiset(h)
    decreases i
  {
    if i == 0 then h
    else if key(h[Parent(i)]) <= key(h[i]) then h
    else SiftUp(Swap(h, Parent(i), i), Parent(i), key)
  }

  /** The smaller child of i (the left one on a tie), when i has a child. */
  function SmallerChild<T>(h: seq<T>, i: nat, key: T -> real): (c: nat)
    requires Left(i) < |h|
    ensures c < |h| && (c == Left(i) || c == Right(i))
    ensures key(h[c]) <= key(h[Left(i)])
    ensures Right(i) < |h| ==> key(h[c]) <= key(h[Right(i)])
  {
    if Right(i) < |h| && key(h[Right(i)]) < key(h[Left(i)]) then Right(i) else Left(i)
  }

  /** heapifyDown: move the element at i towards the leaves while a child is smaller. */
  function SiftDown<T>(h: seq<T>, i: nat, key: T -> real): (r: seq<T>)
    ensures |r| == |h| && multiset(r) == multiset(h)
    decreases |h| - i
  {
    if Left(i) >= |h| then h
    else
      var c := SmallerChild(h, i, key);
      if key(h[i]) <= key(h[c]) then h
      else SiftDown(Swap(h, i, c), c, key)
  }

  /** enqueue: append, then heapifyUp from the last slot. */
  function Push<T>(h: seq<T>, x: T, key: T -> real): (r: seq<T>)
    ensures |r| == |h| + 1
    ensures multiset(r) == multiset(h) + multiset{x}
  {
    SiftUp(h + [x], |h|, key)
  }

  /** dequeue (the array part): the last element replaces the root, then heapifyDown from the root. */
  function Pop<T>(h: seq<T>, key: T -> real): (r: seq<T>)
    requires |h| > 0
    ensures |r| == |h| - 1
    ensures multiset(r) + multiset{h[0]} == multiset(h)
  {
    if |h| == 1 then []
    else
      var moved := h[..|h| - 1][0 := h[|h| - 1]];
      assert h == [h[0]] + h[1..|h| - 1] + [h[|h| - 1]];
      assert moved == [h[|h| - 1]] + h[1..|h| - 1];
      SiftDown(moved, 0, key)
  }

  // ---------------------------------------------------------------------------
  // Heap order

  /** The heap order holds everywhere except possibly between i and its parent,
      and i's parent is no larger than i's children. */
  ghost predicate UpInv<T>(h: seq<T>, i: nat, key: T -> real)
    requires i < |h|
  {
    (forall j :: 0 < j < |h| && j != i ==> key(h[Parent(j)]) <= key(h[j])) &&
    (i > 0 ==> forall c :: 0 < c < |h| && Parent(c) == i ==> key(h[Parent(i)]) <= key(h[c]))
  }

  lemma {:induction false} SiftUpRestores<T>(h: seq<T>, i: nat, key: T -> real)
    requires i < |h| && UpInv(h, i, key)
    ensures IsHeap(SiftUp(h, i, key), key)
    decreases i
  {
    if i == 0 {
    } else if key(h[Parent(i)]) <= key(h[i]) {
    } else {
      var p := Parent(i);
      var h' := Swap(h, p, i);
      forall j | 0 < j < |h'| && j != p
        ensures key(h'[Parent(j)]) <= key(h'[j])
      {
        if j == i {
        } else if Parent(j) == i {
        } else if Parent(j) == p {
          assert key(h[p]) <= key(h[j]);
        } else {
          assert h'[Parent(j)] == h[Parent(j)] && h'[j] == h[j];
        }
      }
      if p > 0 {
        forall c | 0 < c < |h'| && Parent(c) == p
          ensures key(h'[Parent(p)]) <= key(h'[c])
        {
          assert key(h[Parent(p)]) <= key(h[p]);
          if c != i {
            assert key(h[p]) <= key(h[c]);
          }
        }
      }
      SiftUpRestores(h', p, key);
    }
  }

  /** enqueue keeps the heap order. */
  lemma PushKeepsHeap<T>(h: seq<T>, x: T, key: T -> real)
    requires IsHeap(h, key)
    ensures IsHeap(Push(h, x, key), key)
  {
    var h' := h + [x];
    forall j | 0 < j < |h'| && j != |h|
      ensures key(h'[Parent(j)]) <= key(h'[j])
    {
      assert h'[j] == h[j] && h'[Parent(j)] == h[Parent(j)];
    }
    SiftUpRestores(h', |h|, key);
  }

  /** The heap order holds everywhere except possibly between i and its children,
      and i's parent is no larger than i's children. */
  ghost predicate DownInv<T>(h: seq<T>, i: nat, key: T -> real)
    requires i < |h|
  {
    (forall j :: 0 < j < |h| && Parent(j) != i ==> key(h[Parent(j)]) <= key(h[j])) &&
    (i > 0 ==> forall c :: 0 < c < |h| && Parent(c) == i ==> key(h[Parent(i)]) <= key(h[c]))
  }

  lemma {:induction false} SiftDownRestores<T>(h: seq<T>, i: nat, key: T -> real)
    requires i < |h| && DownInv(h, i, key)
    ensures IsHeap(SiftDown(h, i, key), key)
    decreases |h| - i
  {
    if Left(i) >= |h| {
    } else {
      var c := SmallerChild(h, i, key);
      if key(h[i]) <= key(h[c]) {
        forall j | 0 < j < |h| ensures key(h[Parent(j)]) <= key(h[j]) {
          if Parent(j) == i { assert j == Left(i) || j == Right(i); }
        }
      } else {
        var h' := Swap(h, i, c);
        forall j | 0 < j < |h'| && Parent(j) != c
          ensures key(h'[Parent(j)]) <= key(h'[j])
        {
          if j == c {
          } else if Parent(j) == i {
            assert j == Left(i) || j == Right(i);
          } else if j == i {
            assert key(h[Parent(i)]) <= key(h[c]);
          } else {
            assert h'[Parent(j)] == h[Parent(j)] && h'[j] == h[j];
          }
        }
        forall d | 0 < d < |h'| && Parent(d) == c
          ensures key(h'[Parent(c)]) <= key(h'[d])
        {
          assert key(h[c]) <= key(h[d]);
        }
        SiftDownRestores(h', c, key);
      }
    }
  }

  /** dequeue keeps the heap order. */
  lemma PopKeepsHeap<T>(h: seq<T>, key: T -> real)
    requires |h| > 0 && IsHeap(h, key)
    ensures IsHeap(Pop(h, key), key)
  {
    if |h| > 1 {
      var moved := h[..|h| - 1][0 := h[|h| - 1]];
      forall j | 0 < j < |moved| && Parent(j) != 0
        ensures key(moved[Parent(j)]) <= key(moved[j])
      {
        assert moved[j] == h[j] && moved[Parent(j)] == h[Parent(j)];
      }
      SiftDownRestores(moved, 0, key);
    }
  }

  /** In a heap the root is a minimum. */
  lemma {:induction false} RootIsMin<T>(h: seq<T>, j: nat, key: T -> real)
    requires IsHeap(h, key) && j < |h|
    ensures key(h[0]) <= key(h[j])
    decreases j
  {
    if j > 0 {
      RootIsMin(h, Parent(j), key);
    }
  }

  lemma RootIsMinAll<T>(h: seq<T>, key: T -> real)
    requires IsHeap(h, key) && |h| > 0
    ensures forall j :: 0 <= j < |h| ==> key(h[0]) <= key(h[j])
  {
    forall j | 0 <= j < |h| ensures key(h[0]) <= key(h[j]) {
      RootIsMin(h, j, key);
    }
  }

  // ---------------------------------------------------------------------------
  // Repeated enqueues and dequeues

  /** The heap built by enqueueing xs one after another, starting from h. */
  function PushAll<T>(h: seq<T>, xs: seq<T>, key: T -> real): (r: seq<T>)
    ensures multiset(r) == multiset(h) + multiset(xs)
    decreases |xs|
  {
    if xs == [] then h
    else
      assert xs == [xs[0]] + xs[1..];
      PushAll(Push(h, xs[0], key), xs[1..], key)
  }

  /** Enqueueing xs and then x is enqueueing xs + [x]: the loop view of PushAll. */
  lemma {:induction false} PushAllSnoc<T>(h: seq<T>, xs: seq<T>, x: T, key: T -> real)
    ensures PushAll(h, xs + [x], key) == Push(PushAll(h, xs, key), x, key)
    decreases |xs|
  {
    if xs == [] {
      assert xs + [x] == [x];
      assert [x][1..] == [];
    } else {
      assert (xs + [x])[0] == xs[0];
      assert (xs + [x])[1..] == xs[1..] + [x];
      PushAllSnoc(Push(h, xs[0], key), xs[1..], x, key);
    }
  }

  /** The elements returned by dequeueing until the heap is empty, in order. */
  function Drain<T>(h: seq<T>, key: T -> real): (r: seq<T>)
    ensures multiset(r) == multiset(h)
    decreases |h|
  {
    if h == [] then []
    else [h[0]] + Drain(Pop(h, key), key)
  }

  ghost predicate SortedBy<T>(s: seq<T>, key: T -> real) {
    forall i, j :: 0 <= i < j < |s| ==> key(s[i]) <= key(s[j])
  }

  lemma {:induction false} PushAllKeepsHeap<T>(h: seq<T>, xs: seq<T>, key: T -> real)
    requires IsHeap(h, key)
    ensures IsHeap(PushAll(h, xs, key), key)
    decreases |xs|
  {
    if xs != [] {
      PushKeepsHeap(h, xs[0], key);
      PushAllKeepsHeap(Push(h, xs[0], key), xs[1..], key);
    }
  }

  lemma ConsSorted<T>(x: T, d: seq<T>, key: T -> real)
    requires SortedBy(d, key)
    requires forall k :: 0 <= k < |d| ==> key(x) <= key(d[k])
    ensures SortedBy([x] + d, key)
  {
    var r := [x] + d;
    forall i, j | 0 <= i < j < |r| ensures key(r[i]) <= key(r[j]) {
      assert r[j] == d[j - 1];
      if i > 0 {
        assert r[i] == d[i - 1];
      }
    }
  }

  lemma {:induction false} DrainSorted<T>(h: seq<T>, key: T -> real)
    requires IsHeap(h, key)
    ensures SortedBy(Drain(h, key), key)
    decreases |h|
  {
    if h != [] {
      var rest := Pop(h, key);
      PopKeepsHeap(h, key);
      DrainSorted(rest, key);
      RootIsMinAll(h, key);
      var d := Drain(rest, key);
      forall k | 0 <= k < |d| ensures key(h[0]) <= key(d[k]) {
        var y := d[k];
        assert y in multiset(d);
        assert y in multiset(h);
        assert y in h;
      }
      ConsSorted(h[0], d, key);
    }
  }

  /** After any sequence of enqueues on an empty queue, dequeueing everything
      returns the enqueued elements in non-decreasing key order. */
  lemma DequeueOrderIsSorted<T>(xs: seq<T>, key: T -> real)
    ensures SortedBy(Drain(PushAll([], xs, key), key), key)
    ensures multiset(Drain(PushAll([], xs, key), key)) == multiset(xs)
  {
    PushAllKeepsHeap([], xs, key);
    DrainSorted(PushAll([], xs, key), key);
  }

  // ---------------------------------------------------------------------------
  // Removing an element from the middle (cancelling an order)

  /** The array part of removing slot i: the last element is popped and, unless slot i
      was the last one, written into slot i. */
  function Fill<T>(h: seq<T>, i: nat): (r: seq<T>)
    requires i < |h|
    ensures |r| == |h| - 1
    ensures multiset(r) + multiset{h[i]} == multiset(h)
    ensures i < |r| ==> r[i] == h[|h| - 1]
    ensures forall j :: 0 <= j < |r| && j != i ==> r[j] == h[j]
  {
    var last := h[|h| - 1];
    if i == |h| - 1 then
      assert h == h[..|h| - 1] + [last];
      h[..|h| - 1]
    else
      assert h == h[..i] + [h[i]] + h[i + 1..|h| - 1] + [last];
      assert h[..|h| - 1][i := last] == h[..i] + [last] + h[i + 1..|h| - 1];
      h[..|h| - 1][i := last]
  }

  /** removeOrderById's repair of the filled array m as written: it re-heapifies upwards
      from the LAST slot when the filled slot i is smaller than its parent, and
      downwards from the ROOT otherwise. */
  function RepairAsWritten<T>(m: seq<T>, i: nat, key: T -> real): (r: seq<T>)
    requires i < |m|
    ensures |r| == |m| && multiset(r) == multiset(m)
  {
    if i > 0 && key(m[Parent(i)]) > key(m[i]) then SiftUp(m, |m| - 1, key)
    else SiftDown(m, 0, key)
  }

  /** removeOrderById as written: fill slot i with the last element, then repair. */
  function RemoveAtAsWritten<T>(h: seq<T>, i: nat, key: T -> real): (r: seq<T>)
    requires i < |h|
    ensures |r| == |h| - 1 && multiset(r) + multiset{h[i]} == multiset(h)
  {
    var m := Fill(h, i);
    if i == |m| then m else RepairAsWritten(m, i, key)
  }

  /** Removal as written, seen from the filled array. */
  lemma RemoveAtAsWrittenFilled<T>(h: seq<T>, i: nat, key: T -> real, m: seq<T>)
    requires i < |h| - 1 && m == Fill(h, i)
    ensures RemoveAtAsWritten(h, i, key) == RepairAsWritten(m, i, key)
  {
  }

  /** The repair a heap needs: re-heapify upwards or downwards from the filled slot itself. */
  function RemoveAt<T>(h: seq<T>, i: nat, key: T -> real): (r: seq<T>)
    requires i < |h|
    ensures |r| == |h| - 1 && multiset(r) + multiset{h[i]} == multiset(h)
  {
    var m := Fill(h, i);
    if i == |m| then m
    else if i > 0 && key(m[Parent(i)]) > key(m[i]) then SiftUp(m, i, key)
    else SiftDown(m, i, key)
  }

  /** Removing the last slot leaves the rest of the array as it was. */
  lemma RemoveLastSlot<T>(h: seq<T>, key: T -> real)
    requires |h| > 0
    ensures RemoveAtAsWritten(h, |h| - 1, key) == h[..|h| - 1]
    ensures RemoveAt(h, |h| - 1, key) == h[..|h| - 1]
  {
  }

  /** Repairing from the filled slot keeps the heap order. */
  lemma RemoveAtKeepsHeap<T>(h: seq<T>, i: nat, key: T -> real)
    requires IsHeap(h, key) && i < |h|
    ensures IsHeap(RemoveAt(h, i, key), key)
  {
    var m := Fill(h, i);
    if i < |m| {
      if i > 0 && key(m[Parent(i)]) > key(m[i]) {
        forall j | 0 < j < |m| && j != i ensures key(m[Parent(j)]) <= key(m[j]) {
          if Parent(j) == i {
            assert key(h[Parent(i)]) <= key(h[i]) <= key(h[j]);
          } else {
            assert m[Parent(j)] == h[Parent(j)];
          }
        }
        forall c | 0 < c < |m| && Parent(c) == i ensures key(m[Parent(i)]) <= key(m[c]) {
          assert key(h[Parent(i)]) <= key(h[i]) <= key(h[c]);
        }
        SiftUpRestores(m, i, key);
      } else {
        forall j | 0 < j < |m| && Parent(j) != i ensures key(m[Parent(j)]) <= key(m[j]) {
          if j != i {
            assert m[Parent(j)] == h[Parent(j)];
          }
        }
        if i > 0 {
          forall c | 0 < c < |m| && Parent(c) == i ensures key(m[Parent(i)]) <= key(m[c]) {
            assert key(h[Parent(i)]) <= key(h[i]) <= key(h[c]);
          }
        }
        SiftDownRestores(m, i, key);
      }
    }
  }

  function RealKey(x: real): real { x }

  /** Removing the element at index 3 of the heap [1, 5, 2, 6, 7, 3, 4] as written gives
      [1, 5, 2, 4, 7, 3], where 4 sits below 5. */
  lemma RemoveAsWrittenBreaksHeap()
    ensures IsHeap([1.0, 5.0, 2.0, 6.0, 7.0, 3.0, 4.0], RealKey)
    ensures RemoveAtAsWritten([1.0, 5.0, 2.0, 6.0, 7.0, 3.0, 4.0], 3, RealKey) == [1.0, 5.0, 2.0, 4.0, 7.0, 3.0]
    ensures !IsHeap([1.0, 5.0, 2.0, 4.0, 7.0, 3.0], RealKey)
  {
    ExampleIsHeap();
    RemoveAsWrittenAt3();
    var r := [1.0, 5.0, 2.0, 4.0, 7.0, 3.0];
    assert Parent(3) == 1 && RealKey(r[1]) > RealKey(r[3]);
  }

  lemma ExampleIsHeap()
    ensures IsHeap([1.0, 5.0, 2.0, 6.0, 7.0, 3.0, 4.0], RealKey)
  {
    var h := [1.0, 5.0, 2.0, 6.0, 7.0, 3.0, 4.0];
    forall i | 0 < i < 7 ensures h[Parent(i)] <= h[i] {
      assert i == 1 || i == 2 || i == 3 || i == 4 || i == 5 || i == 6;
    }
  }

  /** The filled slot 3 holds 4, below its parent 5, so the as-written code sifts up from
      the last slot (index 5, holding 3 under 2), which does nothing. */
  lemma RemoveAsWrittenAt3()
    ensures RemoveAtAsWritten([1.0, 5.0, 2.0, 6.0, 7.0, 3.0, 4.0], 3, RealKey) == [1.0, 5.0, 2.0, 4.0, 7.0, 3.0]
  {
    var m := [1.0, 5.0, 2.0, 4.0, 7.0, 3.0];
    FilledAt3();
    assert Parent(3) == 1 && RealKey(m[Parent(3)]) > RealKey(m[3]);
    LastSlotStays();
  }

  lemma LastSlotStays()
    ensures SiftUp([1.0, 5.0, 2.0, 4.0, 7.0, 3.0], 5, RealKey) == [1.0, 5.0, 2.0, 4.0, 7.0, 3.0]
  {
    var m := [1.0, 5.0, 2.0, 4.0, 7.0, 3.0];
    assert Parent(5) == 2 && RealKey(m[Parent(5)]) <= RealKey(m[5]);
  }

  lemma FilledAt3()
    ensures Fill([1.0, 5.0, 2.0, 6.0, 7.0, 3.0, 4.0], 3) == [1.0, 5.0, 2.0, 4.0, 7.0, 3.0]
  {
    var h := [1.0, 5.0, 2.0, 6.0, 7.0, 3.0, 4.0];
    assert h[..6][3 := 4.0] == [1.0, 5.0, 2.0, 4.0, 7.0, 3.0];
  }

  /** Repairing from the slot instead moves 4 up, giving a heap. */
  lemma RemoveAtRepairsExample()
    ensures RemoveAt([1.0, 5.0, 2.0, 6.0, 7.0, 3.0, 4.0], 3, RealKey) == [1.0, 4.0, 2.0, 5.0, 7.0, 3.0]
  {
    FilledAt3();
    SiftUpAt3();
  }

  lemma SiftUpAt3()
    ensures SiftUp([1.0, 5.0, 2.0, 4.0, 7.0, 3.0], 3, RealKey) == [1.0, 4.0, 2.0, 5.0, 7.0, 3.0]
  {
    var m := [1.0, 5.0, 2.0, 4.0, 7.0, 3.0];
    var m' := [1.0, 4.0, 2.0, 5.0, 7.0, 3.0];
    assert m[1 := m[3]][3 := m[1]] == m';
    assert SiftUp(m', 1, RealKey) == m';
  }
}
