/** The records the dispatcher passes around: orders, assignments and delivery partners. */
module Domain {
  import opened Options
  import opened Graphs

  /** The order statuses the dispatcher and its screens use. */
  datatype Status = Pending | Assigned | OutForDelivery | Delivered

  /** What a caller supplies for a new order (the free-form payload is not modelled). */
  datatype OrderData = OrderData(customerName: string, orderValue: real, deliveryLocation: Node)

  /** An order once it is in the system: identity, value, destination, status and the
      priority information computed when it was queued. */
  datatype Order = Order(
    id: nat,
    customerName: string,
    orderValue: real,
    deliveryLocation: Node,
    status: Status,
    priorityScore: real,
    actualDistance: Dist,
    assignedPartner: Option<string>)

  /** The key both order heaps are ordered on (lower score = served first). */
  function Score(o: Order): real { o.priorityScore }

  /** Wall-clock times are supplied by the caller (milliseconds). */
  type Timestamp = int

  /** A delivery assignment: who delivers which order, along which routes. */
  datatype Assignment = Assignment(
    orderId: nat,
    partnerId: int,
    partnerName: string,
    partnerToStoreDistance: Dist,
    partnerToStorePath: seq<Node>,
    storeToDeliveryDistance: Dist,
    storeToDeliveryPath: seq<Node>,
    totalDistance: Dist,
    order: Order,
    estimatedDeliveryTime: Dist,
    deliveredAt: Option<Timestamp>)

  /** The assignment's totals agree with its legs: the total is the sum of the two legs and
      the estimate is ten minutes plus two per unit of the total. */
  ghost predicate WellPriced(a: Assignment) {
    && a.totalDistance == Plus(a.partnerToStoreDistance, a.storeToDeliveryDistance)
    && a.estimatedDeliveryTime == EstimatedDeliveryTime(a.totalDistance)
  }

  /** A delivery partner.  Partner objects belong to the caller; the dispatcher
      flips their availability, current order and location in place. */
  class Partner {
    const id: int
    const name: string
    var location: Node
    var isAvailable: bool
    var currentOrder: Option<nat>

    constructor (id: int, name: string, location: Node, isAvailable: bool)
      ensures this.id == id && this.name == name && this.location == location
      ensures this.isAvailable == isAvailable && currentOrder == None
    {
      this.id := id;
      this.name := name;
      this.location := location;
      this.isAvailable := isAvailable;
      currentOrder := None;
    }
  }

  /** What the dispatcher may change about a partner: where it is, whether it is free and
      which order it carries. */
  datatype PartnerState = PartnerState(location: Node, isAvailable: bool, currentOrder: Option<nat>)

  /** The current state of each partner of a list, in list order. */
  ghost function States(ps: seq<Partner>): (r: seq<PartnerState>)
    reads ps
    ensures |r| == |ps|
    ensures forall j :: 0 <= j < |ps| ==>
      r[j] == PartnerState(ps[j].location, ps[j].isAvailable, ps[j].currentOrder)
    decreases |ps|
  {
    if ps == [] then []
    else
      var p := ps[|ps| - 1];
      States(ps[..|ps| - 1]) + [PartnerState(p.location, p.isAvailable, p.currentOrder)]
  }

  /** The states after partner p (wherever it occurs in the list) takes state s and every
      other partner keeps its own. */
  ghost function Reassign(states: seq<PartnerState>, ps: seq<Partner>, p: Partner, s: PartnerState): (r: seq<PartnerState>)
    requires |states| == |ps|
    ensures |r| == |ps|
    ensures forall j :: 0 <= j < |ps| ==> r[j] == (if ps[j] == p then s else states[j])
  {
    seq(|ps|, j requires 0 <= j < |ps| => if ps[j] == p then s else states[j])
  }

  /** Estimated delivery time in minutes: ten minutes plus two per distance unit
      (Infinity stays Infinity). */
  function EstimatedDeliveryTime(totalDistance: Dist): (t: Dist)
    ensures t.Fin? <==> totalDistance.Fin?
    ensures t.Fin? ==> t.n == 10 + 2 * totalDistance.n
    ensures t.Fin? ==> t.n >= 10 && (t.n - 10) % 2 == 0
  {
    match totalDistance
    case Fin(d) => Fin(10 + d * 2)
    case Inf => Inf
  }

  // ---------------------------------------------------------------------------
  // The priority formula (lower score = higher priority)

  const DistanceWeight: real := 0.6
  const ValueWeight: real := 0.4
  const MaxDistance: real := 20.0
  const MaxOrderValue: real := 1000.0

  function Min(a: real, b: real): real { if a <= b then a else b }

  /** min(distance / 20, 1); an Infinity distance saturates at 1. */
  function NormalizedDistance(d: Dist): (r: real)
    ensures 0.0 <= r <= 1.0
    ensures d == Inf ==> r == 1.0
    ensures d.Fin? && d.n >= 20 ==> r == 1.0
    ensures d.Fin? && d.n < 20 ==> r * MaxDistance == d.n as real
  {
    match d
    case Inf => 1.0
    case Fin(n) => Min(n as real / MaxDistance, 1.0)
  }

  /** 1 - min(value / 1000, 1): larger orders get smaller values. */
  function NormalizedValue(orderValue: real): (r: real)
    ensures orderValue >= 0.0 ==> 0.0 <= r <= 1.0
    ensures orderValue >= MaxOrderValue ==> r == 0.0
    ensures orderValue <= MaxOrderValue ==> r * MaxOrderValue == MaxOrderValue - orderValue
  {
    1.0 - Min(orderValue / MaxOrderValue, 1.0)
  }

  /** The full priority breakdown of one order. */
  datatype PriorityInfo = PriorityInfo(
    priorityScore: real,
    actualDistance: Dist,
    normalizedDistance: real,
    normalizedValue: real)

  /** 0.6 * normalised distance + 0.4 * normalised value. */
  function PriorityFromDistance(actualDistance: Dist, orderValue: real): (p: PriorityInfo)
    ensures p.actualDistance == actualDistance
    ensures p.priorityScore == DistanceWeight * p.normalizedDistance + ValueWeight * p.normalizedValue
    ensures p.normalizedDistance == NormalizedDistance(actualDistance)
    ensures p.normalizedValue == NormalizedValue(orderValue)
    ensures orderValue >= 0.0 ==> 0.0 <= p.priorityScore <= 1.0
  {
    var nd := NormalizedDistance(actualDistance);
    var nv := NormalizedValue(orderValue);
    PriorityInfo(DistanceWeight * nd + ValueWeight * nv, actualDistance, nd, nv)
  }

  /** Closer is better: with the value fixed, the score does not decrease with the distance. */
  lemma ScoreMonotoneInDistance(d1: Dist, d2: Dist, v: real)
    requires d1.AtMost(d2)
    ensures PriorityFromDistance(d1, v).priorityScore <= PriorityFromDistance(d2, v).priorityScore
  {
    var a := NormalizedDistance(d1);
    var b := NormalizedDistance(d2);
    if d1.Fin? && d2.Fin? && d2.n < 20 {
      assert a * MaxDistance == d1.n as real && b * MaxDistance == d2.n as real;
      assert a <= b;
    }
  }

  /** Larger is better: with the distance fixed, the score does not increase with the value. */
  lemma ScoreAntitoneInValue(d: Dist, v1: real, v2: real)
    requires v1 <= v2
    ensures PriorityFromDistance(d, v2).priorityScore <= PriorityFromDistance(d, v1).priorityScore
  {
    var a := NormalizedValue(v1);
    var b := NormalizedValue(v2);
    if v2 <= MaxOrderValue {
      assert a * MaxOrderValue == MaxOrderValue - v1 && b * MaxOrderValue == MaxOrderValue - v2;
      assert b <= a;
    }
  }
}
