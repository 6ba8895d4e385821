/** Price levels: intrusive queues threaded through the pool's slots, and what a whole side must satisfy. */
module Levels {
  import opened Types
  import opened Pigeonhole
  import opened Pool
  import opened PriceTime
  import opened MatchLaws

  datatype PriceLevel = PriceLevel(head: u32, tail: u32, totalQuantity: u64, orderCount: u32) {
    predicate IsEmpty() {
      head == INVALID_INDEX
    }
  }

  const EMPTY_LEVEL := PriceLevel(INVALID_INDEX, INVALID_INDEX, 0, 0)

  /** The resting order a slot holds. */
  function OrderOf(slots: seq<Slot>, x: u32): Order {
    if x < |slots| then Order(slots[x].id, slots[x].price, slots[x].quantity) else Order(0, 0, 0)
  }

  /** The resting orders a queue of slots holds. */
  function Orders(slots: seq<Slot>, q: seq<u32>): (r: Line)
    ensures |r| == |q|
    ensures forall k :: 0 <= k < |q| ==> r[k] == OrderOf(slots, q[k])
  {
    seq(|q|, k requires 0 <= k < |q| => OrderOf(slots, q[k]))
  }

  /** `q` is threaded through the slots in both directions, with `INVALID_INDEX` at either end. */
  ghost predicate QueueLinks(slots: seq<Slot>, q: seq<u32>) {
    && Distinct(q)
    && Links(slots, q, INVALID_INDEX)
    && forall k :: 0 <= k < |q| ==> slots[q[k]].prev == PrevIn(q, k)
  }

  /** A level's four words describe `q`. */
  ghost predicate LevelInv(slots: seq<Slot>, lv: PriceLevel, q: seq<u32>) {
    && QueueLinks(slots, q)
    && lv.head == First(q) && lv.tail == Last(q)
    && lv.orderCount == |q|
    && lv.totalQuantity == Total(Orders(slots, q))
  }

  /** Every slot of `q` is live and says itself that it rests at this side and price. */
  ghost predicate Owned(s: Side, price: int, slots: seq<Slot>, live: seq<bool>, q: seq<u32>) {
    forall k :: 0 <= k < |q| ==> HomeIs(s, price, slots, live, q[k])
  }

  ghost predicate HomeIs(s: Side, price: int, slots: seq<Slot>, live: seq<bool>, x: u32) {
    && x < |slots| && x < |live| && live[x]
    && slots[x].side == s && slots[x].price == price && slots[x].quantity > 0
  }

  /** A whole side: each level describes its queue, each queue holds slots of that side and price,
      and no live slot of the side is missing from the queue of its price. */
  ghost predicate SideInv(s: Side, minPrice: u32, slots: seq<Slot>, live: seq<bool>, levels: seq<PriceLevel>,
                          queues: seq<seq<u32>>) {
    && |levels| == |queues|
    && (forall i :: 0 <= i < |queues| ==> LevelInv(slots, levels[i], queues[i]))
    && (forall i :: 0 <= i < |queues| ==> Owned(s, minPrice + i, slots, live, queues[i]))
    && (forall x: u32 :: x < |slots| && x < |live| && live[x] && slots[x].side == s ==>
        Queued(minPrice, slots, queues, x))
  }

  ghost predicate Queued(minPrice: u32, slots: seq<Slot>, queues: seq<seq<u32>>, x: u32)
    requires x < |slots|
  {
    && minPrice <= slots[x].price < minPrice + |queues|
    && x in queues[slots[x].price - minPrice]
  }

  // ----- queues

  lemma OrdersConcat(slots: seq<Slot>, a: seq<u32>, b: seq<u32>)
    ensures Orders(slots, a + b) == Orders(slots, a) + Orders(slots, b)
  {}

  lemma OrdersSame(slots: seq<Slot>, slots': seq<Slot>, q: seq<u32>)
    requires |slots| == |slots'|
    requires forall k :: 0 <= k < |q| ==> q[k] < |slots| && slots'[q[k]] == slots[q[k]]
    ensures Orders(slots', q) == Orders(slots, q)
  {}

  /** Untouched slots keep their level's description true. */
  lemma LevelFrame(slots: seq<Slot>, slots': seq<Slot>, lv: PriceLevel, q: seq<u32>)
    requires LevelInv(slots, lv, q) && |slots'| == |slots|
    requires forall k :: 0 <= k < |q| ==> slots'[q[k]] == slots[q[k]]
    ensures LevelInv(slots', lv, q)
  {
    OrdersSame(slots, slots', q);
  }

  lemma {:induction false} TotalBound(line: Line)
    ensures Total(line) <= |line| * 0xFFFF_FFFF
    decreases line
  {
    if line != [] {
      TotalBound(line[1..]);
    }
  }

  lemma LevelDistinct(slots: seq<Slot>, lv: PriceLevel, q: seq<u32>)
    requires LevelInv(slots, lv, q)
    ensures Distinct(q) && QueueLinks(slots, q) && InRange(|slots|, q)
    ensures lv.totalQuantity == Total(Orders(slots, q)) && lv.orderCount == |q|
    ensures lv.head == First(q) && lv.tail == Last(q)
  {}

  /** A level with room for one more order has room for its quantity: the 64-bit total never wraps. */
  lemma TotalFits(slots: seq<Slot>, q: seq<u32>)
    requires |slots| <= MAX_POOL_CAPACITY && Distinct(q) && InRange(|slots|, q)
    ensures |q| <= MAX_POOL_CAPACITY
    ensures Total(Orders(slots, q)) + 0xFFFF_FFFF <= 0xFFFF_FFFF_FFFF_FFFF
  {
    DistinctBound(q, |slots|);
    TotalBound(Orders(slots, q));
  }

  lemma SingleTotal(o: Order)
    ensures Total([o]) == o.quantity
  {}

  lemma TotalPositive(line: Line)
    requires Positive(line) && line != []
    ensures Total(line) > 0
  {}

  lemma AppendLinks(slots: seq<Slot>, slots': seq<Slot>, q: seq<u32>, x: u32)
    requires QueueLinks(slots, q) && |slots'| == |slots| && x < |slots| && x !in q
    requires slots'[x].next == INVALID_INDEX && slots'[x].prev == Last(q)
    requires q != [] ==> slots'[Last(q)] == slots[Last(q)].(next := x)
    requires forall k :: 0 <= k < |q| - 1 ==> slots'[q[k]] == slots[q[k]]
    ensures QueueLinks(slots', q + [x])
  {}

  /** Appending at the tail: links, count and total follow. */
  lemma AppendLevel(slots: seq<Slot>, slots': seq<Slot>, lv: PriceLevel, lv': PriceLevel, q: seq<u32>, x: u32)
    requires LevelInv(slots, lv, q) && |slots'| == |slots| && x < |slots| && x !in q
    requires slots'[x].next == INVALID_INDEX && slots'[x].prev == Last(q)
    requires q != [] ==> slots'[Last(q)] == slots[Last(q)].(next := x)
    requires forall k :: 0 <= k < |q| - 1 ==> slots'[q[k]] == slots[q[k]]
    requires lv'.head == (if q == [] then x else lv.head) && lv'.tail == x
    requires lv'.orderCount == lv.orderCount + 1
    requires lv'.totalQuantity == lv.totalQuantity + slots'[x].quantity
    ensures LevelInv(slots', lv', q + [x])
  {
    AppendLinks(slots, slots', q, x);
    AppendOrders(slots, slots', q, x);
    hide QueueLinks, Orders, Total;
  }

  lemma AppendOrders(slots: seq<Slot>, slots': seq<Slot>, q: seq<u32>, x: u32)
    requires InRange(|slots|, q) && |slots'| == |slots| && x < |slots|
    requires q != [] ==> slots'[Last(q)] == slots[Last(q)].(next := x)
    requires forall k :: 0 <= k < |q| - 1 ==> slots'[q[k]] == slots[q[k]]
    ensures Total(Orders(slots', q + [x])) == Total(Orders(slots, q)) + slots'[x].quantity
  {
    hide Orders, Total;
    forall k | 0 <= k < |q| ensures Orders(slots', q)[k] == Orders(slots, q)[k] {
      assert k == |q| - 1 ==> q[k] == Last(q);
    }
    assert Orders(slots', q) == Orders(slots, q);
    OrdersConcat(slots', q, [x]);
    assert Orders(slots', [x]) == [OrderOf(slots', x)];
    TotalConcat(Orders(slots', q), [OrderOf(slots', x)]);
    SingleTotal(OrderOf(slots', x));
  }

  /** `q` without its `k`-th slot. */
  function Without(q: seq<u32>, k: nat): seq<u32>
    requires k < |q|
  {
    q[..k] + q[k + 1..]
  }

  /** What unlinking does to a neighbour slot at position `i` of the queue. */
  function Relinked(slots: seq<Slot>, q: seq<u32>, k: nat, i: nat): Slot
    requires k < |q| && i < |q| && InRange(|slots|, q)
  {
    if i + 1 == k then slots[q[i]].(next := NextIn(q, k, INVALID_INDEX))
    else if i == k + 1 then slots[q[i]].(prev := PrevIn(q, k))
    else slots[q[i]]
  }

  lemma RemoveLinkAt(slots: seq<Slot>, slots': seq<Slot>, q: seq<u32>, k: nat, i: nat)
    requires QueueLinks(slots, q) && |slots'| == |slots| && k < |q| && i < |q| - 1
    requires var m := if i < k then i else i + 1; slots'[q[m]] == Relinked(slots, q, k, m)
    ensures var q' := Without(q, k);
            && q'[i] < |slots'|
            && slots'[q'[i]].next == NextIn(q', i, INVALID_INDEX)
            && slots'[q'[i]].prev == PrevIn(q', i)
  {
    hide Distinct;
    var m := if i < k then i else i + 1;
    assert Without(q, k)[i] == q[m];
    assert slots[q[m]].next == NextIn(q, m, INVALID_INDEX) && slots[q[m]].prev == PrevIn(q, m);
  }

  lemma WithoutDistinct(q: seq<u32>, k: nat)
    requires k < |q| && Distinct(q)
    ensures Distinct(Without(q, k))
  {}

  lemma RemoveLinks(slots: seq<Slot>, slots': seq<Slot>, q: seq<u32>, k: nat)
    requires QueueLinks(slots, q) && |slots'| == |slots| && k < |q|
    requires forall i :: 0 <= i < |q| && i != k ==> slots'[q[i]] == Relinked(slots, q, k, i)
    ensures QueueLinks(slots', Without(q, k))
  {
    hide Distinct, Relinked, NextIn, PrevIn;
    WithoutDistinct(q, k);
    var q' := Without(q, k);
    WithoutLength(q, k);
    hide Without;
    forall i: nat | i < |q'|
      ensures q'[i] < |slots'| && slots'[q'[i]].next == NextIn(q', i, INVALID_INDEX)
      ensures slots'[q'[i]].prev == PrevIn(q', i)
    {
      RemoveLinkAt(slots, slots', q, k, i);
    }
  }

  lemma RemoveOrders(slots: seq<Slot>, slots': seq<Slot>, q: seq<u32>, k: nat)
    requires InRange(|slots|, q) && |slots'| == |slots| && k < |q|
    requires forall i :: 0 <= i < |q| && i != k ==> OrderOf(slots', q[i]) == OrderOf(slots, q[i])
    ensures Orders(slots, q) == Orders(slots, q[..k]) + [OrderOf(slots, q[k])] + Orders(slots, q[k + 1..])
    ensures Orders(slots', Without(q, k)) == Orders(slots, q[..k]) + Orders(slots, q[k + 1..])
    ensures Total(Orders(slots, q)) == Total(Orders(slots', Without(q, k))) + slots[q[k]].quantity
  {
    hide Orders;
    assert Orders(slots', q[..k]) == Orders(slots, q[..k]);
    assert Orders(slots', q[k + 1..]) == Orders(slots, q[k + 1..]);
    OrdersConcat(slots', q[..k], q[k + 1..]);
    var o := OrderOf(slots, q[k]);
    assert Orders(slots, q) == Orders(slots, q[..k]) + [o] + Orders(slots, q[k + 1..]);
    TotalConcat(Orders(slots, q[..k]) + [o], Orders(slots, q[k + 1..]));
    TotalConcat(Orders(slots, q[..k]), [o]);
    SingleTotal(o);
    TotalConcat(Orders(slots, q[..k]), Orders(slots, q[k + 1..]));
  }

  lemma WithoutEnds(q: seq<u32>, k: nat)
    requires k < |q|
    ensures First(Without(q, k)) == if k == 0 then NextIn(q, k, INVALID_INDEX) else First(q)
    ensures Last(Without(q, k)) == if k + 1 == |q| then PrevIn(q, k) else Last(q)
  {}

  /** Unlinking any one slot, first, middle or last. */
  lemma RemoveLevel(slots: seq<Slot>, slots': seq<Slot>, lv: PriceLevel, lv': PriceLevel, q: seq<u32>, k: nat)
    requires LevelInv(slots, lv, q) && |slots'| == |slots| && k < |q|
    requires forall i :: 0 <= i < |q| && i != k ==> slots'[q[i]] == Relinked(slots, q, k, i)
    requires lv'.head == (if k == 0 then NextIn(q, k, INVALID_INDEX) else lv.head)
    requires lv'.tail == (if k + 1 == |q| then PrevIn(q, k) else lv.tail)
    requires lv'.orderCount == lv.orderCount - 1
    requires lv'.totalQuantity == lv.totalQuantity - slots[q[k]].quantity
    ensures LevelInv(slots', lv', Without(q, k))
    ensures Orders(slots', Without(q, k)) == Orders(slots, q[..k]) + Orders(slots, q[k + 1..])
  {
    hide Relinked, Distinct, Orders, Total, NextIn, PrevIn, First, Last, Without, OrderOf;
    RelinkedOrders(slots, slots', q, k);
    RemoveLinks(slots, slots', q, k);
    RemoveOrders(slots, slots', q, k);
    WithoutEnds(q, k);
    WithoutLength(q, k);
  }

  lemma RelinkedOrders(slots: seq<Slot>, slots': seq<Slot>, q: seq<u32>, k: nat)
    requires InRange(|slots|, q) && |slots'| == |slots| && k < |q|
    requires forall i :: 0 <= i < |q| && i != k ==> slots'[q[i]] == Relinked(slots, q, k, i)
    ensures forall i :: 0 <= i < |q| && i != k ==> OrderOf(slots', q[i]) == OrderOf(slots, q[i])
  {}

  lemma WithoutLength(q: seq<u32>, k: nat)
    requires k < |q|
    ensures |Without(q, k)| == |q| - 1
  {}

  // ----- sides

  /** A level whose slots are all untouched. */
  lemma LevelKept(s: Side, price: int, slots: seq<Slot>, live: seq<bool>, slots': seq<Slot>, live': seq<bool>,
                  lv: PriceLevel, q: seq<u32>)
    requires |slots| == |live| == |slots'| == |live'|
    requires LevelInv(slots, lv, q) && Owned(s, price, slots, live, q)
    requires forall x: u32 :: HomeIs(s, price, slots, live, x) ==> live'[x] && slots'[x] == slots[x]
    ensures LevelInv(slots', lv, q) && Owned(s, price, slots', live', q)
  {
    hide LevelInv;
    assert forall k :: 0 <= k < |q| ==> HomeIs(s, price, slots, live, q[k]);
    LevelFrame(slots, slots', lv, q);
  }

  /** A side none of whose slots is touched, gained or lost stays as it is. */
  lemma SideFrame(s: Side, minPrice: u32, slots: seq<Slot>, live: seq<bool>, slots': seq<Slot>, live': seq<bool>,
                  levels: seq<PriceLevel>, queues: seq<seq<u32>>)
    requires SideInv(s, minPrice, slots, live, levels, queues)
    requires |slots| == |live| == |slots'| == |live'|
    requires forall x: u32 :: x < |slots| && live[x] && slots[x].side == s ==> live'[x] && slots'[x] == slots[x]
    requires forall x: u32 :: x < |slots| && live'[x] && slots'[x].side == s ==> live[x] && slots[x].side == s
    ensures SideInv(s, minPrice, slots', live', levels, queues)
  {
    hide LevelInv, Owned;
    forall i | 0 <= i < |queues|
      ensures LevelInv(slots', levels[i], queues[i]) && Owned(s, minPrice + i, slots', live', queues[i])
    {
      LevelKept(s, minPrice + i, slots, live, slots', live', levels[i], queues[i]);
    }
    forall x: u32 | x < |slots| && live'[x] && slots'[x].side == s ensures Queued(minPrice, slots', queues, x) {
      assert Queued(minPrice, slots, queues, x);
    }
  }

  /** Slots of the side resting at any other price are as before, and no new ones appeared. */
  ghost predicate OthersKept(s: Side, price: int, slots: seq<Slot>, live: seq<bool>, slots': seq<Slot>,
                             live': seq<bool>)
    requires |slots| == |live| == |slots'| == |live'|
  {
    && (forall x: u32 :: x < |slots| && live[x] && slots[x].side == s && slots[x].price != price ==>
        live'[x] && slots'[x] == slots[x])
    && (forall x: u32 :: x < |slots| && live'[x] && slots'[x].side == s && slots'[x].price != price ==>
        live[x] && slots'[x] == slots[x])
  }

  /** One level of a side changes: only that level has anything to prove. */
  lemma SideUpdate(s: Side, minPrice: u32, slots: seq<Slot>, live: seq<bool>, slots': seq<Slot>, live': seq<bool>,
                   levels: seq<PriceLevel>, queues: seq<seq<u32>>, b: nat, lv: PriceLevel, q: seq<u32>)
    requires SideInv(s, minPrice, slots, live, levels, queues) && b < |queues|
    requires |slots| == |live| == |slots'| == |live'|
    requires OthersKept(s, minPrice + b, slots, live, slots', live')
    requires LevelInv(slots', lv, q) && Owned(s, minPrice + b, slots', live', q)
    requires forall x: u32 :: x < |slots| && live'[x] && slots'[x].side == s && slots'[x].price == minPrice + b ==>
               x in q
    ensures SideInv(s, minPrice, slots', live', levels[b := lv], queues[b := q])
  {
    hide LevelInv, Owned;
    var levels', queues' := levels[b := lv], queues[b := q];
    forall i | 0 <= i < |queues'|
      ensures LevelInv(slots', levels'[i], queues'[i]) && Owned(s, minPrice + i, slots', live', queues'[i])
    {
      if i != b {
        LevelKept(s, minPrice + i, slots, live, slots', live', levels[i], queues[i]);
      }
    }
    forall x: u32 | x < |slots| && live'[x] && slots'[x].side == s ensures Queued(minPrice, slots', queues', x) {
      if slots'[x].price != minPrice + b {
        assert Queued(minPrice, slots, queues, x);
      }
    }
  }
}
