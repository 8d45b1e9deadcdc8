/** The active-deliveries list: a singly linked list of assignments with head, tail and
    size fields, appended at the tail and searched from the head. */
module DeliveryList {
  import opened Options
  import opened Domain

  /** The first assignment for this order, by position. */
  function FirstWithOrder(ds: seq<Assignment>, orderId: nat): (r: Option<nat>)
    ensures r.None? <==> forall j :: 0 <= j < |ds| ==> ds[j].orderId != orderId
    ensures r.Some? ==> r.value < |ds| && ds[r.value].orderId == orderId
    ensures r.Some? ==> forall j :: 0 <= j < r.value ==> ds[j].orderId != orderId
    decreases |ds|
  {
    if ds == [] then None
    else if ds[0].orderId == orderId then Some(0)
    else
      match FirstWithOrder(ds[1..], orderId)
      case None => None
      case Some(i) => Some(i + 1)
  }

  /** The first assignment to this partner, by position. */
  function FirstWithPartner(ds: seq<Assignment>, partnerId: int): (r: Option<nat>)
    ensures r.None? <==> forall j :: 0 <= j < |ds| ==> ds[j].partnerId != partnerId
    ensures r.Some? ==> r.value < |ds| && ds[r.value].partnerId == partnerId
    ensures r.Some? ==> forall j :: 0 <= j < r.value ==> ds[j].partnerId != partnerId
    decreases |ds|
  {
    if ds == [] then None
    else if ds[0].partnerId == partnerId then Some(0)
    else
      match FirstWithPartner(ds[1..], partnerId)
      case None => None
      case Some(i) => Some(i + 1)
  }

  /** The assignments whose order has this status, in list order. */
  function WithStatus(ds: seq<Assignment>, status: Status): (r: seq<Assignment>)
    ensures |r| <= |ds|
    decreases |ds|
  {
    if ds == [] then []
    else
      var last := ds[|ds| - 1];
      WithStatus(ds[..|ds| - 1], status) + (if last.order.status == status then [last] else [])
  }

  /** Exactly the assignments with the status are kept. */
  lemma {:induction false} WithStatusMembers(ds: seq<Assignment>, status: Status)
    ensures forall a :: a in WithStatus(ds, status) <==> a in ds && a.order.status == status
    decreases |ds|
  {
    if ds != [] {
      var last := ds[|ds| - 1];
      assert ds == ds[..|ds| - 1] + [last];
      WithStatusMembers(ds[..|ds| - 1], status);
    }
  }

  /** Filtering distributes over concatenation, so the list order is kept. */
  lemma {:induction false} WithStatusAppend(xs: seq<Assignment>, ys: seq<Assignment>, status: Status)
    ensures WithStatus(xs + ys, status) == WithStatus(xs, status) + WithStatus(ys, status)
    decreases |ys|
  {
    if ys != [] {
      var zs := xs + ys;
      var init := ys[..|ys| - 1];
      var last := ys[|ys| - 1];
      var t := if last.order.status == status then [last] else [];
      assert zs[..|zs| - 1] == xs + init && zs[|zs| - 1] == last;
      assert WithStatus(zs, status) == WithStatus(xs + init, status) + t;
      assert WithStatus(ys, status) == WithStatus(init, status) + t;
      WithStatusAppend(xs, init, status);
      assert WithStatus(xs + init, status) + t == WithStatus(xs, status) + (WithStatus(init, status) + t);
    } else {
      assert xs + ys == xs;
    }
  }

  /** An assignment after its order's status is set; the delivery time is recorded only
      for "delivered". */
  function WithOrderStatus(a: Assignment, status: Status, now: Timestamp): (r: Assignment)
    ensures r.order == a.order.(status := status)
    ensures r.deliveredAt == (if status == Delivered then Some(now) else a.deliveredAt)
    ensures r.(order := a.order, deliveredAt := a.deliveredAt) == a
  {
    a.(order := a.order.(status := status),
       deliveredAt := if status == Delivered then Some(now) else a.deliveredAt)
  }

  class DeliveryNode {
    var assignment: Assignment
    var next: DeliveryNode?

    constructor (assignment: Assignment)
      ensures this.assignment == assignment && next == null
    {
      this.assignment := assignment;
      next := null;
    }
  }

  /** The assignments held by a sequence of nodes. */
  ghost function Assignments(nodes: seq<DeliveryNode>): (r: seq<Assignment>)
    reads nodes`assignment
    ensures |r| == |nodes|
    ensures forall i :: 0 <= i < |nodes| ==> r[i] == nodes[i].assignment
    decreases |nodes|
  {
    if nodes == [] then []
    else Assignments(nodes[..|nodes| - 1]) + [nodes[|nodes| - 1].assignment]
  }

  class DeliveryLinkedList {
    var head: DeliveryNode?
    var tail: DeliveryNode?
    var size: int
    /** The nodes reachable from head, in order. */
    ghost var spine: seq<DeliveryNode>

    /** size counts the nodes, head and tail are the first and last node (null when
        empty), each node links to the next and the last one to null. */
    ghost predicate Valid()
      reads this, spine`next
    {
      && size == |spine|
      && (spine == [] ==> head == null && tail == null)
      && (spine != [] ==> head == spine[0] && tail == spine[|spine| - 1] && spine[|spine| - 1].next == null)
      && (forall i :: 0 <= i < |spine| - 1 ==> spine[i].next == spine[i + 1])
      && (forall i, j :: 0 <= i < j < |spine| ==> spine[i] != spine[j])
    }

    ghost function Contents(): (r: seq<Assignment>)
      reads this, spine`assignment
    {
      Assignments(spine)
    }

    constructor ()
      ensures Valid() && Contents() == [] && spine == []
    {
      head := null;
      tail := null;
      size := 0;
      spine := [];
    }

    /** Append at the tail. */
    method AddDelivery(assignment: Assignment) returns (node: DeliveryNode)
      requires Valid()
      modifies this, spine
      ensures Valid() && fresh(node) && node.assignment == assignment
      ensures spine == old(spine) + [node]
      ensures Contents() == old(Contents()) + [assignment]
      ensures size == old(size) + 1
    {
      ghost var before := spine;
      node := new DeliveryNode(assignment);
      if head == null {
        head := node;
        tail := node;
      } else {
        tail.next := node;
        tail := node;
      }
      size := size + 1;
      spine := spine + [node];
      assert spine[..|spine| - 1] == before;
    }

    /** Unlink the first node for this order: the other nodes keep their order. */
    method RemoveDeliveryByOrderId(orderId: nat) returns (removed: DeliveryNode?)
      requires Valid()
      modifies this, spine`next
      ensures Valid()
      ensures FirstWithOrder(old(Contents()), orderId).None? ==>
        removed == null && spine == old(spine) && Contents() == old(Contents())
      ensures FirstWithOrder(old(Contents()), orderId).Some? ==>
        var k := FirstWithOrder(old(Contents()), orderId).value;
        && removed == old(spine)[k] && removed.assignment == old(Contents())[k]
        && spine == old(spine)[..k] + old(spine)[k + 1..]
        && Contents() == old(Contents())[..k] + old(Contents())[k + 1..]
        && size == old(size) - 1
    {
      if head == null {
        return null;
      } else if head.assignment.orderId == orderId {
        removed := RemoveHead(orderId);
      } else {
        removed := RemoveBeyondHead(orderId);
      }
    }

    /** Removal when the head itself is for the order. */
    method RemoveHead(orderId: nat) returns (removed: DeliveryNode)
      requires Valid() && head != null && head.assignment.orderId == orderId
      modifies this
      ensures Valid()
      ensures FirstWithOrder(old(Contents()), orderId) == Some(0)
      ensures removed == old(spine)[0] && removed.assignment == old(Contents())[0]
      ensures spine == old(spine)[..0] + old(spine)[1..]
      ensures Contents() == old(Contents())[..0] + old(Contents())[1..]
      ensures size == old(size) - 1
    {
      ghost var s, c := spine, Contents();
      assert s[..0] + s[1..] == s[1..] && c[..0] + c[1..] == c[1..];
      removed := UnlinkHead();
    }

    /** Removal when the head is for another order: the walk finds the predecessor of
        the first match, if any. */
    method RemoveBeyondHead(orderId: nat) returns (removed: DeliveryNode?)
      requires Valid() && head != null && head.assignment.orderId != orderId
      modifies this, spine`next
      ensures Valid()
      ensures FirstWithOrder(old(Contents()), orderId).None? ==>
        removed == null && spine == old(spine) && Contents() == old(Contents())
      ensures FirstWithOrder(old(Contents()), orderId).Some? ==>
        var k := FirstWithOrder(old(Contents()), orderId).value;
        && removed == old(spine)[k] && removed.assignment == old(Contents())[k]
        && spine == old(spine)[..k] + old(spine)[k + 1..]
        && Contents() == old(Contents())[..k] + old(Contents())[k + 1..]
        && size == old(size) - 1
    {
      var current, i := FindPredecessor(orderId);
      if current.next != null {
        assert FirstWithOrder(Contents(), orderId) == Some(i + 1);
        removed := UnlinkAfter(current, i);
      } else {
        removed := null;
      }
    }

    /** The walk of removeDeliveryByOrderId: the last node before the first match (the
        tail when nothing matches), the head itself not matching. */
    method FindPredecessor(orderId: nat) returns (current: DeliveryNode, ghost i: nat)
      requires Valid() && head != null && head.assignment.orderId != orderId
      ensures i < |spine| && current == spine[i]
      ensures forall j :: 0 <= j <= i ==> spine[j].assignment.orderId != orderId
      ensures current.next == null ==> i == |spine| - 1
      ensures current.next != null ==>
        i + 1 < |spine| && current.next == spine[i + 1] && spine[i + 1].assignment.orderId == orderId
    {
      current := head;
      i := 0;
      while current.next != null && current.next.assignment.orderId != orderId
        invariant 0 <= i < |spine| && current == spine[i]
        invariant forall j :: 0 <= j <= i ==> spine[j].assignment.orderId != orderId
        decreases |spine| - i
      {
        current := current.next;
        i := i + 1;
      }
      assert i < |spine| - 1 ==> spine[i].next == spine[i + 1];
    }

    /** The head case of removal: head moves to the second node (tail too when emptied). */
    method UnlinkHead() returns (removed: DeliveryNode)
      requires Valid() && spine != []
      modifies this
      ensures Valid()
      ensures removed == old(spine)[0] && spine == old(spine)[1..]
      ensures Contents() == old(Contents())[1..] && size == old(size) - 1
    {
      removed := head;
      head := head.next;
      if head == null {
        tail := null;
      }
      size := size - 1;
      spine := spine[1..];
    }

    /** The middle case of removal: current's successor is bypassed (and becomes the
        tail's predecessor's job when it was the tail). */
    method UnlinkAfter(current: DeliveryNode, ghost i: nat) returns (removed: DeliveryNode)
      requires Valid() && i + 1 < |spine| && current == spine[i]
      modifies this, current`next
      ensures Valid()
      ensures removed == old(spine)[i + 1]
      ensures spine == old(spine)[..i + 1] + old(spine)[i + 2..]
      ensures Contents() == old(Contents())[..i + 1] + old(Contents())[i + 2..]
      ensures size == old(size) - 1
    {
      ghost var s := spine;
      ghost var c := Contents();
      assert current.next == s[i + 1];
      assert i + 2 < |s| ==> s[i + 1] != s[|s| - 1];
      removed := current.next;
      current.next := current.next.next;
      if removed == tail {
        tail := current;
      }
      size := size - 1;
      spine := s[..i + 1] + s[i + 2..];
      forall j | 0 <= j < |spine| - 1 ensures spine[j].next == spine[j + 1] {
        if j < i {
          assert spine[j] == s[j] != s[i];
        } else if j > i {
          assert spine[j] == s[j + 1] != s[i];
        }
      }
      assert spine[|spine| - 1].next == null by {
        if i + 2 < |s| {
          assert s[|s| - 1] != s[i];
        }
      }
      assert Contents() == c[..i + 1] + c[i + 2..] by {
        forall j | 0 <= j < |spine| ensures Contents()[j] == (c[..i + 1] + c[i + 2..])[j] {
          if j <= i {
            assert spine[j] == s[j];
          } else {
            assert spine[j] == s[j + 1];
          }
        }
      }
    }

    /** The first node for this order, or null. */
    method GetDeliveryByOrderId(orderId: nat) returns (node: DeliveryNode?)
      requires Valid()
      ensures FirstWithOrder(Contents(), orderId).None? ==> node == null
      ensures FirstWithOrder(Contents(), orderId).Some? ==>
        node == spine[FirstWithOrder(Contents(), orderId).value]
    {
      var current := head;
      ghost var i := 0;
      while current != null
        invariant 0 <= i <= |spine|
        invariant current == (if i < |spine| then spine[i] else null)
        invariant forall j :: 0 <= j < i ==> spine[j].assignment.orderId != orderId
        decreases |spine| - i
      {
        if current.assignment.orderId == orderId {
          return current;
        }
        current := current.next;
        i := i + 1;
      }
      return null;
    }

    /** The first node for this partner, or null. */
    method GetDeliveryByPartnerId(partnerId: int) returns (node: DeliveryNode?)
      requires Valid()
      ensures FirstWithPartner(Contents(), partnerId).None? ==> node == null
      ensures FirstWithPartner(Contents(), partnerId).Some? ==>
        node == spine[FirstWithPartner(Contents(), partnerId).value]
    {
      var current := head;
      ghost var i := 0;
      while current != null
        invariant 0 <= i <= |spine|
        invariant current == (if i < |spine| then spine[i] else null)
        invariant forall j :: 0 <= j < i ==> spine[j].assignment.partnerId != partnerId
        decreases |spine| - i
      {
        if current.assignment.partnerId == partnerId {
          return current;
        }
        current := current.next;
        i := i + 1;
      }
      return null;
    }

    /** All assignments, from head to tail. */
    method GetAllDeliveries() returns (deliveries: seq<Assignment>)
      requires Valid()
      ensures deliveries == Contents()
    {
      deliveries := [];
      var current := head;
      ghost var i := 0;
      while current != null
        invariant 0 <= i <= |spine|
        invariant current == (if i < |spine| then spine[i] else null)
        invariant deliveries == Contents()[..i]
        decreases |spine| - i
      {
        deliveries := deliveries + [current.assignment];
        current := current.next;
        i := i + 1;
      }
    }

    /** The assignments whose order has this status, from head to tail. */
    method GetDeliveriesByStatus(status: Status) returns (deliveries: seq<Assignment>)
      requires Valid()
      ensures deliveries == WithStatus(Contents(), status)
    {
      deliveries := [];
      var current := head;
      ghost var i := 0;
      while current != null
        invariant 0 <= i <= |spine|
        invariant current == (if i < |spine| then spine[i] else null)
        invariant deliveries == WithStatus(Contents()[..i], status)
        decreases |spine| - i
      {
        assert Contents()[..i + 1] == Contents()[..i] + [current.assignment];
        WithStatusAppend(Contents()[..i], [current.assignment], status);
        if current.assignment.order.status == status {
          deliveries := deliveries + [current.assignment];
        }
        current := current.next;
        i := i + 1;
      }
      assert Contents()[..i] == Contents();
    }

    /** Set the status of the first assignment for this order; false when there is none. */
    method UpdateDeliveryStatus(orderId: nat, newStatus: Status, now: Timestamp) returns (found: bool)
      requires Valid()
      modifies spine`assignment
      ensures Valid() && spine == old(spine)
      ensures found <==> FirstWithOrder(old(Contents()), orderId).Some?
      ensures !found ==> Contents() == old(Contents())
      ensures found ==>
        var k := FirstWithOrder(old(Contents()), orderId).value;
        Contents() == old(Contents())[k := WithOrderStatus(old(Contents())[k], newStatus, now)]
    {
      ghost var c := Contents();
      var deliveryNode := GetDeliveryByOrderId(orderId);
      if deliveryNode != null {
        ghost var k := FirstWithOrder(c, orderId).value;
        deliveryNode.assignment := WithOrderStatus(deliveryNode.assignment, newStatus, now);
        forall j | 0 <= j < |spine|
          ensures Contents()[j] == c[k := WithOrderStatus(c[k], newStatus, now)][j]
        {
          if j != k {
            assert spine[j] != spine[k];
          }
        }
        return true;
      }
      return false;
    }

    function GetSize(): (n: int)
      reads this, spine
      requires Valid()
      ensures n == |Contents()|
    {
      size
    }

    function IsEmpty(): (e: bool)
      reads this, spine
      requires Valid()
      ensures e <==> Contents() == []
    {
      size == 0
    }

    method Clear()
      modifies this
      ensures Valid() && Contents() == [] && spine == []
    {
      head := null;
      tail := null;
      size := 0;
      spine := [];
    }
  }

  lemma MiddleIsFirst(a1: Assignment, a2: Assignment, a3: Assignment)
    requires a1.orderId != a2.orderId
    ensures FirstWithOrder([a1, a2, a3], a2.orderId) == Some(1)
  {
    assert [a1, a2, a3][1..] == [a2, a3];
  }

  /** A fresh list holding three deliveries in the order they were added. */
  method ListOfThree(a1: Assignment, a2: Assignment, a3: Assignment)
    returns (list: DeliveryLinkedList)
    ensures fresh(list) && fresh(list.spine) && list.Valid()
    ensures list.Contents() == [a1, a2, a3]
  {
    list := new DeliveryLinkedList();
    var _ := list.AddDelivery(a1);
    assert list.Contents() == [a1];
    var _ := list.AddDelivery(a2);
    assert list.Contents() == [a1, a2];
    var _ := list.AddDelivery(a3);
  }

  /** Three deliveries are added and the middle one is completed: the other two remain,
      in their original order. */
  method CompleteMiddleOfThree(a1: Assignment, a2: Assignment, a3: Assignment)
    returns (removed: Assignment, rest: seq<Assignment>)
    requires a1.orderId != a2.orderId
    ensures removed == a2 && rest == [a1, a3]
  {
    var list := ListOfThree(a1, a2, a3);
    MiddleIsFirst(a1, a2, a3);
    var node := list.RemoveDeliveryByOrderId(a2.orderId);
    removed := node.assignment;
    assert list.Contents() == [a1, a3];
    rest := list.GetAllDeliveries();
  }
}
