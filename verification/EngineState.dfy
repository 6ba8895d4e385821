/** What ties the parts of the engine together, and why a change at one level disturbs nothing else. */
module EngineState {
  import opened Types
  import opened Pigeonhole
  import opened Pool
  import opened PriceTime
  import opened MatchLaws
  import opened Ladder
  import opened Levels

  /** The order map and the live slots point at each other. */
  ghost predicate MapInv(slots: seq<Slot>, live: seq<bool>, orderMap: seq<u32>) {
    && |slots| == |live| && orderMap != [] && orderMap[0] == INVALID_INDEX
    && (forall id :: 0 <= id < |orderMap| ==> orderMap[id] == INVALID_INDEX || MapsTo(slots, live, id, orderMap[id]))
    && (forall x: u32 :: x < |slots| && live[x] ==> slots[x].id < |orderMap| && orderMap[slots[x].id] == x)
  }

  ghost predicate MapsTo(slots: seq<Slot>, live: seq<bool>, id: int, x: u32) {
    x < |slots| && x < |live| && live[x] && slots[x].id == id
  }

  /** From one state to the next, only slots resting at this side and price were touched, freed or added. */
  ghost predicate LocalTo(s: Side, price: int, slots: seq<Slot>, live: seq<bool>, slots': seq<Slot>, live': seq<bool>) {
    && |slots| == |live| == |slots'| == |live'|
    && (forall x: u32 :: x < |slots| && live[x] && !(slots[x].side == s && slots[x].price == price) ==>
        live'[x] && slots'[x] == slots[x])
    && (forall x: u32 :: x < |slots| && live'[x] && !(slots'[x].side == s && slots'[x].price == price) ==>
        live[x] && slots'[x] == slots[x])
  }

  lemma LocalSizes(s: Side, price: int, slots: seq<Slot>, live: seq<bool>, slots': seq<Slot>, live': seq<bool>)
    requires LocalTo(s, price, slots, live, slots', live')
    ensures |slots| == |live| == |slots'| == |live'|
  {}

  /** The other side is untouched by a change local to side `s`. */
  lemma LocalOther(s: Side, price: int, minPrice: u32, slots: seq<Slot>, live: seq<bool>, slots': seq<Slot>,
                   live': seq<bool>,
                   levels: seq<PriceLevel>, queues: seq<seq<u32>>)
    requires LocalTo(s, price, slots, live, slots', live')
    requires SideInv(s.Opposite(), minPrice, slots, live, levels, queues)
    ensures SideInv(s.Opposite(), minPrice, slots', live', levels, queues)
    ensures Orders(slots', Flat(s.Opposite(), queues)) == Orders(slots, Flat(s.Opposite(), queues))
  {
    var t := s.Opposite();
    SideFrame(t, minPrice, slots, live, slots', live', levels, queues);
    var f := Flat(t, queues);
    hide LevelInv, Orders, Flat;
    forall k | 0 <= k < |f| ensures f[k] < |slots| && slots'[f[k]] == slots[f[k]] {
      FlatHome(t, minPrice, slots, live, levels, queues, f[k]);
    }
    OrdersSame(slots, slots', f);
  }

  /** Whatever is in the line rests at some tick of the side. */
  lemma FlatHome(s: Side, minPrice: u32, slots: seq<Slot>, live: seq<bool>, levels: seq<PriceLevel>,
                 queues: seq<seq<u32>>, x: u32)
    requires SideInv(s, minPrice, slots, live, levels, queues) && x in Flat(s, queues)
    ensures x < |slots| && x < |live| && live[x] && slots[x].side == s && slots[x].quantity > 0
    ensures minPrice <= slots[x].price < minPrice + |queues|
  {
    hide LevelInv, Flat;
    FlatMembers(s, queues, x);
    var i :| 0 <= i < |queues| && x in queues[i];
    assert Owned(s, minPrice + i, slots, live, queues[i]);
    var k :| 0 <= k < |queues[i]| && queues[i][k] == x;
    assert HomeIs(s, minPrice + i, slots, live, queues[i][k]);
  }

  /** A queue member's home. */
  lemma QueueHome(s: Side, minPrice: u32, slots: seq<Slot>, live: seq<bool>, levels: seq<PriceLevel>,
                  queues: seq<seq<u32>>, i: nat, x: u32)
    requires SideInv(s, minPrice, slots, live, levels, queues) && i < |queues| && x in queues[i]
    ensures HomeIs(s, minPrice + i, slots, live, x)
  {
    hide LevelInv;
    assert Owned(s, minPrice + i, slots, live, queues[i]);
    var k :| 0 <= k < |queues[i]| && queues[i][k] == x;
    assert HomeIs(s, minPrice + i, slots, live, queues[i][k]);
  }

  lemma OtherTickSame(s: Side, minPrice: u32, slots: seq<Slot>, live: seq<bool>, slots': seq<Slot>, live': seq<bool>,
                      levels: seq<PriceLevel>, queues: seq<seq<u32>>, b: nat, i: nat, x: u32)
    requires SideInv(s, minPrice, slots, live, levels, queues) && b < |queues| && i < |queues| && i != b
    requires LocalTo(s, minPrice + b, slots, live, slots', live') && x in queues[i]
    ensures x < |slots| && slots'[x] == slots[x]
  {
    QueueHome(s, minPrice, slots, live, levels, queues, i, x);
  }

  /** The stretches of the line around tick `b` are not touched by a change local to it. */
  lemma AroundSame(s: Side, minPrice: u32, slots: seq<Slot>, live: seq<bool>, slots': seq<Slot>, live': seq<bool>,
                   levels: seq<PriceLevel>, queues: seq<seq<u32>>, b: nat)
    requires SideInv(s, minPrice, slots, live, levels, queues) && b < |queues|
    requires LocalTo(s, minPrice + b, slots, live, slots', live')
    ensures Orders(slots', Ahead(s, queues, b)) == Orders(slots, Ahead(s, queues, b))
    ensures Orders(slots', Behind(s, queues, b)) == Orders(slots, Behind(s, queues, b))
  {
    hide SideInv, LocalTo, Orders, Ahead, Behind;
    LocalSizes(s, minPrice + b, slots, live, slots', live');
    var a, c := Ahead<u32>(s, queues, b), Behind<u32>(s, queues, b);
    forall k | 0 <= k < |a| ensures a[k] < |slots| && slots'[a[k]] == slots[a[k]] {
      var i := AheadTick<u32>(s, queues, b, a[k]);
      OtherTickSame(s, minPrice, slots, live, slots', live', levels, queues, b, i, a[k]);
    }
    forall k | 0 <= k < |c| ensures c[k] < |slots| && slots'[c[k]] == slots[c[k]] {
      var i := BehindTick<u32>(s, queues, b, c[k]);
      OtherTickSame(s, minPrice, slots, live, slots', live', levels, queues, b, i, c[k]);
    }
    OrdersSame(slots, slots', a);
    OrdersSame(slots, slots', c);
  }

  /** A change local to tick `b` replaces that queue's stretch of the priority line and nothing else. */
  lemma LineUpdate(s: Side, minPrice: u32, slots: seq<Slot>, live: seq<bool>, slots': seq<Slot>, live': seq<bool>,
                   levels: seq<PriceLevel>, queues: seq<seq<u32>>, b: nat, q: seq<u32>)
    requires SideInv(s, minPrice, slots, live, levels, queues) && b < |queues|
    requires LocalTo(s, minPrice + b, slots, live, slots', live')
    ensures Orders(slots, Flat(s, queues))
         == Orders(slots, Ahead(s, queues, b)) + Orders(slots, queues[b]) + Orders(slots, Behind(s, queues, b))
    ensures Orders(slots', Flat(s, queues[b := q]))
         == Orders(slots, Ahead(s, queues, b)) + Orders(slots', q) + Orders(slots, Behind(s, queues, b))
    ensures |Flat(s, queues[b := q])| == |Flat(s, queues)| - |queues[b]| + |q|
  {
    hide Orders, Flat, Ahead, Behind, SideInv, LocalTo;
    AroundSame(s, minPrice, slots, live, slots', live', levels, queues, b);
    FlatSplit(s, queues, b);
    FlatUpdate(s, queues, b, q);
    var a, c := Ahead<u32>(s, queues, b), Behind<u32>(s, queues, b);
    OrdersConcat(slots, a + queues[b], c);
    OrdersConcat(slots, a, queues[b]);
    OrdersConcat(slots', a + q, c);
    OrdersConcat(slots', a, q);
  }

  /** Nothing is ahead of tick `b`, and `behind` is what is behind it. */
  ghost predicate FrontLine(s: Side, slots: seq<Slot>, queues: seq<seq<u32>>, b: nat, behind: Line) {
    b < |queues| && Ahead<u32>(s, queues, b) == [] && Orders(slots, Behind<u32>(s, queues, b)) == behind
  }

  lemma FrontLineIs(s: Side, slots: seq<Slot>, queues: seq<seq<u32>>, b: nat, behind: Line)
    requires FrontLine(s, slots, queues, b, behind)
    ensures Orders(slots, Flat<u32>(s, queues)) == Orders(slots, queues[b]) + behind
  {
    hide Orders, Flat, Ahead, Behind;
    FlatSplit<u32>(s, queues, b);
    assert [] + queues[b] == queues[b];
    OrdersConcat(slots, queues[b], Behind<u32>(s, queues, b));
  }

  /** A change local to the front tick leaves what is behind it as it was. */
  lemma FrontLineKept(s: Side, minPrice: u32, slots: seq<Slot>, live: seq<bool>, slots': seq<Slot>, live': seq<bool>,
                      levels: seq<PriceLevel>, queues: seq<seq<u32>>, b: nat, q: seq<u32>, behind: Line)
    requires SideInv(s, minPrice, slots, live, levels, queues) && FrontLine(s, slots, queues, b, behind)
    requires LocalTo(s, minPrice + b, slots, live, slots', live')
    ensures FrontLine(s, slots', queues[b := q], b, behind)
    ensures |Flat<u32>(s, queues[b := q])| == |Flat<u32>(s, queues)| - |queues[b]| + |q|
  {
    assert queues[b := q][..b] == queues[..b] && queues[b := q][b + 1..] == queues[b + 1..];
    AroundSame(s, minPrice, slots, live, slots', live', levels, queues, b);
    FlatSplit<u32>(s, queues, b);
    FlatUpdate<u32>(s, queues, b, q);
  }

  lemma LocalOthersKept(s: Side, price: int, slots: seq<Slot>, live: seq<bool>, slots': seq<Slot>, live': seq<bool>)
    requires LocalTo(s, price, slots, live, slots', live')
    ensures OthersKept(s, price, slots, live, slots', live')
  {}

  // ----- the changes the engine makes to a side

  lemma QueueLive(s: Side, minPrice: u32, slots: seq<Slot>, live: seq<bool>, levels: seq<PriceLevel>,
                  queues: seq<seq<u32>>, b: nat)
    requires SideInv(s, minPrice, slots, live, levels, queues) && b < |queues|
    ensures b < |levels| && LevelInv(slots, levels[b], queues[b])
    ensures forall k :: 0 <= k < |queues[b]| ==> HomeIs(s, minPrice + b, slots, live, queues[b][k])
    ensures forall k :: 0 <= k < |queues[b]| ==> queues[b][k] < |slots| && queues[b][k] < |live| && live[queues[b][k]]
  {}

  /** A slot rests at tick `b` exactly when it is in that queue. */
  lemma HomeIffQueued(s: Side, minPrice: u32, slots: seq<Slot>, live: seq<bool>, levels: seq<PriceLevel>,
                      queues: seq<seq<u32>>, b: nat, x: u32)
    requires SideInv(s, minPrice, slots, live, levels, queues) && b < |queues| && x < |slots| == |live|
    ensures x in queues[b] <==> live[x] && slots[x].side == s && slots[x].price == minPrice + b
  {
    hide LevelInv;
    if x in queues[b] {
      QueueHome(s, minPrice, slots, live, levels, queues, b, x);
    } else if live[x] && slots[x].side == s {
      assert Queued(minPrice, slots, queues, x);
    }
  }

  /** Emptying a whole level. */
  lemma EmptyLevel(s: Side, minPrice: u32, slots: seq<Slot>, live: seq<bool>, slots': seq<Slot>, live': seq<bool>,
                   levels: seq<PriceLevel>, queues: seq<seq<u32>>, b: nat)
    requires SideInv(s, minPrice, slots, live, levels, queues) && b < |queues|
    requires |slots| == |live| == |slots'| == |live'|
    requires forall x: u32 :: x < |slots| ==> (live'[x] <==> live[x] && x !in queues[b])
    requires forall x: u32 :: x < |slots| && x !in queues[b] ==> slots'[x] == slots[x]
    ensures LocalTo(s, minPrice + b, slots, live, slots', live')
    ensures SideInv(s, minPrice, slots', live', levels[b := EMPTY_LEVEL], queues[b := []])
  {
    hide SideInv;
    forall x: u32 | x < |slots|
      ensures x in queues[b] <==> live[x] && slots[x].side == s && slots[x].price == minPrice + b
    {
      HomeIffQueued(s, minPrice, slots, live, levels, queues, b, x);
    }
    LocalOthersKept(s, minPrice + b, slots, live, slots', live');
    SideUpdate(s, minPrice, slots, live, slots', live', levels, queues, b, EMPTY_LEVEL, []);
  }

  lemma MapClear(slots: seq<Slot>, live: seq<bool>, orderMap: seq<u32>, slots': seq<Slot>, live': seq<bool>,
                 orderMap': seq<u32>, q: seq<u32>)
    requires MapInv(slots, live, orderMap)
    requires |slots'| == |live'| == |slots| <= MAX_POOL_CAPACITY && |orderMap'| == |orderMap|
    requires forall x: u32 :: x < |slots| ==> (live'[x] <==> live[x] && x !in q)
    requires forall x: u32 :: x < |slots| && x !in q ==> slots'[x].id == slots[x].id
    requires forall id :: 0 <= id < |orderMap| ==>
               orderMap'[id] == if orderMap[id] in q then INVALID_INDEX else orderMap[id]
    ensures MapInv(slots', live', orderMap')
  {}

  /** Writing live slots leaves the pool's own bookkeeping alone: the free list runs through free slots only. */
  lemma PoolKept(slots: seq<Slot>, slots': seq<Slot>, live: seq<bool>, freeHead: u32, liveCount: nat, free: seq<u32>)
    requires PoolInv(slots, live, freeHead, liveCount, free) && |slots'| == |slots|
    requires forall x: u32 :: x < |slots| && !live[x] ==> slots'[x] == slots[x]
    ensures PoolInv(slots', live, freeHead, liveCount, free)
  {}

  lemma RelinkedHome(slots: seq<Slot>, q: seq<u32>, k: nat, i: nat)
    requires InRange(|slots|, q) && k < |q| && i < |q|
    ensures var r := Relinked(slots, q, k, i);
            r.side == slots[q[i]].side && r.price == slots[q[i]].price && r.id == slots[q[i]].id
              && r.quantity == slots[q[i]].quantity
  {}

  /** The slots after one queue member was unlinked and freed. */
  ghost predicate Dropped(slots: seq<Slot>, live: seq<bool>, slots': seq<Slot>, live': seq<bool>, q: seq<u32>, k: nat) {
    && |slots| == |live| == |slots'| == |live'| && k < |q| && InRange(|slots|, q)
    && live' == live[q[k] := false]
    && (forall i :: 0 <= i < |q| && i != k ==> slots'[q[i]] == Relinked(slots, q, k, i))
    && (forall x: u32 :: x < |slots| && x !in q ==> slots'[x] == slots[x])
  }

  lemma DroppedLevel(slots: seq<Slot>, live: seq<bool>, slots': seq<Slot>, live': seq<bool>, lv: PriceLevel,
                     lv': PriceLevel, q: seq<u32>, k: nat)
    requires Dropped(slots, live, slots', live', q, k) && LevelInv(slots, lv, q)
    requires lv'.head == (if k == 0 then NextIn(q, k, INVALID_INDEX) else lv.head)
    requires lv'.tail == (if k + 1 == |q| then PrevIn(q, k) else lv.tail)
    requires lv'.orderCount == lv.orderCount - 1
    requires lv'.totalQuantity == lv.totalQuantity - slots[q[k]].quantity
    ensures LevelInv(slots', lv', Without(q, k))
    ensures Orders(slots', Without(q, k)) == Orders(slots, q[..k]) + Orders(slots, q[k + 1..])
  {
    hide LevelInv, Relinked;
    RemoveLevel(slots, slots', lv, lv', q, k);
  }

  lemma DroppedLocal(s: Side, minPrice: u32, slots: seq<Slot>, live: seq<bool>, slots': seq<Slot>, live': seq<bool>,
                     levels: seq<PriceLevel>, queues: seq<seq<u32>>, b: nat, k: nat)
    requires SideInv(s, minPrice, slots, live, levels, queues) && b < |queues|
    requires Dropped(slots, live, slots', live', queues[b], k)
    ensures LocalTo(s, minPrice + b, slots, live, slots', live')
    ensures forall x: u32 :: x < |slots| && live'[x] && slots'[x].side == s && slots'[x].price == minPrice + b ==>
              x in queues[b]
  {
    hide SideInv, Relinked;
    var q := queues[b];
    forall x: u32 | x < |slots|
      ensures x in q <==> live[x] && slots[x].side == s && slots[x].price == minPrice + b
      ensures live'[x] && x in q ==> slots'[x].side == s && slots'[x].price == minPrice + b
    {
      HomeIffQueued(s, minPrice, slots, live, levels, queues, b, x);
      if live'[x] && x in q {
        var i :| 0 <= i < |q| && q[i] == x;
        RelinkedHome(slots, q, k, i);
      }
    }
  }

  lemma DroppedOwned(s: Side, price: int, slots: seq<Slot>, live: seq<bool>, slots': seq<Slot>, live': seq<bool>,
                     q: seq<u32>, k: nat)
    requires Dropped(slots, live, slots', live', q, k) && Distinct(q)
    requires forall i :: 0 <= i < |q| ==> HomeIs(s, price, slots, live, q[i])
    ensures k < |q| && Owned(s, price, slots', live', Without(q, k))
  {}

  lemma DroppedMembers(slots: seq<Slot>, live: seq<bool>, slots': seq<Slot>, live': seq<bool>, q: seq<u32>, k: nat,
                       x: u32)
    requires Dropped(slots, live, slots', live', q, k)
    requires x < |slots| && live'[x] && x in q
    ensures x in Without(q, k)
  {}

  /** Removing one order from a queue, wherever it stands, and freeing its slot. */
  lemma DropOne(s: Side, minPrice: u32, slots: seq<Slot>, live: seq<bool>, slots': seq<Slot>, live': seq<bool>,
                levels: seq<PriceLevel>, queues: seq<seq<u32>>, b: nat, k: nat, lv: PriceLevel)
    requires SideInv(s, minPrice, slots, live, levels, queues) && b < |queues|
    requires Dropped(slots, live, slots', live', queues[b], k)
    requires LevelInv(slots', lv, Without(queues[b], k))
    ensures LocalTo(s, minPrice + b, slots, live, slots', live')
    ensures SideInv(s, minPrice, slots', live', levels[b := lv], queues[b := Without(queues[b], k)])
  {
    hide SideInv, LevelInv, LocalTo, Dropped, Without, Owned, HomeIs, OthersKept, QueueLinks, Distinct;
    var q := queues[b];
    QueueLive(s, minPrice, slots, live, levels, queues, b);
    LevelDistinct(slots, levels[b], q);
    DroppedLocal(s, minPrice, slots, live, slots', live', levels, queues, b, k);
    LocalSizes(s, minPrice + b, slots, live, slots', live');
    DroppedOwned(s, minPrice + b, slots, live, slots', live', q, k);
    forall x: u32 | x < |slots| && live'[x] && slots'[x].side == s && slots'[x].price == minPrice + b
      ensures x in Without(q, k)
    {
      DroppedMembers(slots, live, slots', live', q, k, x);
    }
    LocalOthersKept(s, minPrice + b, slots, live, slots', live');
    SideUpdate(s, minPrice, slots, live, slots', live', levels, queues, b, lv, Without(q, k));
  }

  /** Only the quantity of the slot at the head of a queue went down. */
  ghost predicate Shrunk(slots: seq<Slot>, slots': seq<Slot>, x: u32, d: u32) {
    && x < |slots| == |slots'| && 0 < d < slots[x].quantity
    && slots' == slots[x := slots[x].(quantity := slots[x].quantity - d)]
  }

  lemma ShrinkLinks(slots: seq<Slot>, slots': seq<Slot>, q: seq<u32>, x: u32, d: u32)
    requires QueueLinks(slots, q) && Shrunk(slots, slots', x, d)
    ensures QueueLinks(slots', q)
  {}

  lemma ShrinkOrders(slots: seq<Slot>, slots': seq<Slot>, q: seq<u32>, d: u32)
    requires InRange(|slots|, q) && Distinct(q) && q != [] && Shrunk(slots, slots', q[0], d)
    ensures var o := OrderOf(slots, q[0]);
            Orders(slots', q) == [o.(quantity := o.quantity - d)] + Orders(slots, q)[1..]
    ensures Total(Orders(slots, q)) == Total(Orders(slots', q)) + d
  {}

  lemma ShrinkLevel(slots: seq<Slot>, slots': seq<Slot>, lv: PriceLevel, q: seq<u32>, d: u32)
    requires LevelInv(slots, lv, q) && q != [] && Shrunk(slots, slots', q[0], d)
    ensures d <= lv.totalQuantity
    ensures LevelInv(slots', lv.(totalQuantity := lv.totalQuantity - d), q)
    ensures var o := OrderOf(slots, q[0]);
            Orders(slots', q) == [o.(quantity := o.quantity - d)] + Orders(slots, q)[1..]
  {
    hide Orders, Total, Shrunk, Distinct;
    ShrinkLinks(slots, slots', q, q[0], d);
    ShrinkOrders(slots, slots', q, d);
  }

  /** A partly filled head: the queue keeps its shape. */
  lemma ShrinkHead(s: Side, minPrice: u32, slots: seq<Slot>, live: seq<bool>, slots': seq<Slot>,
                   levels: seq<PriceLevel>, queues: seq<seq<u32>>, b: nat, lv: PriceLevel, d: u32)
    requires SideInv(s, minPrice, slots, live, levels, queues) && b < |queues| && queues[b] != [] && |slots| == |live|
    requires Shrunk(slots, slots', queues[b][0], d) && LevelInv(slots', lv, queues[b])
    ensures LocalTo(s, minPrice + b, slots, live, slots', live)
    ensures SideInv(s, minPrice, slots', live, levels[b := lv], queues[b := queues[b]])
  {
    hide SideInv, LevelInv;
    var q := queues[b];
    QueueLive(s, minPrice, slots, live, levels, queues, b);
    forall x: u32 | x < |slots| ensures x in q <==> live[x] && slots[x].side == s && slots[x].price == minPrice + b {
      HomeIffQueued(s, minPrice, slots, live, levels, queues, b, x);
    }
    LocalOthersKept(s, minPrice + b, slots, live, slots', live);
    SideUpdate(s, minPrice, slots, live, slots', live, levels, queues, b, lv, q);
  }

  lemma MapShrunk(slots: seq<Slot>, live: seq<bool>, orderMap: seq<u32>, slots': seq<Slot>, x: u32, d: u32)
    requires MapInv(slots, live, orderMap) && Shrunk(slots, slots', x, d)
    ensures MapInv(slots', live, orderMap)
  {}

  // ----- the same changes with everything they entail

  /** What a local change at the front tick leaves: both sides hold, the rest of the line and the other line stand. */
  ghost predicate FrontStep(s: Side, minPrice: u32, slots: seq<Slot>, slots': seq<Slot>, live': seq<bool>,
                            levels': seq<PriceLevel>, queues: seq<seq<u32>>, queues': seq<seq<u32>>,
                            olevels: seq<PriceLevel>, oqueues: seq<seq<u32>>, b: nat, behind: Line)
    requires b < |queues| == |queues'|
  {
    && SideInv(s, minPrice, slots', live', levels', queues')
    && SideInv(s.Opposite(), minPrice, slots', live', olevels, oqueues)
    && FrontLine(s, slots', queues', b, behind)
    && |Flat<u32>(s, queues')| == |Flat<u32>(s, queues)| - |queues[b]| + |queues'[b]|
    && Orders(slots', Flat<u32>(s.Opposite(), oqueues)) == Orders(slots, Flat<u32>(s.Opposite(), oqueues))
  }

  lemma FrontStepFrom(s: Side, minPrice: u32, slots: seq<Slot>, live: seq<bool>, slots': seq<Slot>, live': seq<bool>,
                      levels: seq<PriceLevel>, queues: seq<seq<u32>>, olevels: seq<PriceLevel>, oqueues: seq<seq<u32>>,
                      b: nat, lv: PriceLevel, q: seq<u32>, behind: Line)
    requires SideInv(s, minPrice, slots, live, levels, queues)
    requires SideInv(s.Opposite(), minPrice, slots, live, olevels, oqueues)
    requires FrontLine(s, slots, queues, b, behind) && LocalTo(s, minPrice + b, slots, live, slots', live')
    requires b < |queues| == |levels| && SideInv(s, minPrice, slots', live', levels[b := lv], queues[b := q])
    ensures FrontStep(s, minPrice, slots, slots', live', levels[b := lv], queues, queues[b := q], olevels, oqueues, b,
              behind)
  {
    hide SideInv, LocalTo, FrontLine, Flat, Orders;
    LocalOther(s, minPrice + b, minPrice, slots, live, slots', live', olevels, oqueues);
    FrontLineKept(s, minPrice, slots, live, slots', live', levels, queues, b, q, behind);
  }

  lemma WithoutFirst(slots: seq<Slot>, q: seq<u32>)
    requires q != []
    ensures Without(q, 0) == q[1..]
    ensures Orders(slots, q[..0]) + Orders(slots, q[1..]) == Orders(slots, q)[1..]
  {}

  lemma PopFrontStep(s: Side, minPrice: u32, slots: seq<Slot>, live: seq<bool>, slots': seq<Slot>, live': seq<bool>,
                     levels: seq<PriceLevel>, queues: seq<seq<u32>>, olevels: seq<PriceLevel>, oqueues: seq<seq<u32>>,
                     b: nat, lv: PriceLevel, behind: Line)
    requires SideInv(s, minPrice, slots, live, levels, queues)
    requires SideInv(s.Opposite(), minPrice, slots, live, olevels, oqueues)
    requires FrontLine(s, slots, queues, b, behind) && b < |queues| == |levels| && |queues[b]| > 1
    requires Dropped(slots, live, slots', live', queues[b], 0)
    requires var q := queues[b];
             lv.head == q[1] && lv.tail == levels[b].tail && lv.orderCount == levels[b].orderCount - 1
             && lv.totalQuantity == levels[b].totalQuantity - OrderOf(slots, q[0]).quantity
    ensures FrontStep(s, minPrice, slots, slots', live', levels[b := lv], queues, queues[b := queues[b][1..]], olevels,
              oqueues, b, behind)
    ensures Orders(slots', queues[b][1..]) == Orders(slots, queues[b])[1..]
  {
    hide SideInv, LevelInv, LocalTo, FrontLine, FrontStep, Flat, Orders, HomeIs, Dropped, Without;
    var q := queues[b];
    QueueLive(s, minPrice, slots, live, levels, queues, b);
    DroppedLevel(slots, live, slots', live', levels[b], lv, q, 0);
    WithoutFirst(slots, q);
    DropOne(s, minPrice, slots, live, slots', live', levels, queues, b, 0, lv);
    FrontStepFrom(s, minPrice, slots, live, slots', live', levels, queues, olevels, oqueues, b, lv, q[1..], behind);
  }

  lemma EmptyLevelStep(s: Side, minPrice: u32, slots: seq<Slot>, live: seq<bool>, slots': seq<Slot>, live': seq<bool>,
                       levels: seq<PriceLevel>, queues: seq<seq<u32>>, olevels: seq<PriceLevel>, oqueues: seq<seq<u32>>,
                       b: nat, behind: Line)
    requires SideInv(s, minPrice, slots, live, levels, queues)
    requires SideInv(s.Opposite(), minPrice, slots, live, olevels, oqueues)
    requires FrontLine(s, slots, queues, b, behind) && b < |queues| == |levels|
    requires |slots| == |live| == |slots'| == |live'|
    requires forall x: u32 :: x < |slots| ==> (live'[x] <==> live[x] && x !in queues[b])
    requires forall x: u32 :: x < |slots| && x !in queues[b] ==> slots'[x] == slots[x]
    ensures FrontStep(s, minPrice, slots, slots', live', levels[b := EMPTY_LEVEL], queues, queues[b := []], olevels,
              oqueues, b, behind)
  {
    hide SideInv, LocalTo, FrontLine, FrontStep;
    EmptyLevel(s, minPrice, slots, live, slots', live', levels, queues, b);
    FrontStepFrom(s, minPrice, slots, live, slots', live', levels, queues, olevels, oqueues, b, EMPTY_LEVEL, [],
                  behind);
  }

  lemma ShrinkStep(s: Side, minPrice: u32, slots: seq<Slot>, live: seq<bool>, slots': seq<Slot>,
                   levels: seq<PriceLevel>, queues: seq<seq<u32>>, olevels: seq<PriceLevel>, oqueues: seq<seq<u32>>,
                   b: nat, lv: PriceLevel, d: u32, behind: Line)
    requires SideInv(s, minPrice, slots, live, levels, queues)
    requires SideInv(s.Opposite(), minPrice, slots, live, olevels, oqueues)
    requires FrontLine(s, slots, queues, b, behind) && b < |queues| == |levels| && queues[b] != [] && |slots| == |live|
    requires Shrunk(slots, slots', queues[b][0], d)
    requires lv.totalQuantity == levels[b].totalQuantity - d
    requires lv.head == levels[b].head && lv.tail == levels[b].tail && lv.orderCount == levels[b].orderCount
    ensures FrontStep(s, minPrice, slots, slots', live, levels[b := lv], queues, queues, olevels, oqueues, b, behind)
    ensures var o := OrderOf(slots, queues[b][0]);
            Orders(slots', queues[b]) == [o.(quantity := o.quantity - d)] + Orders(slots, queues[b])[1..]
  {
    hide SideInv, LevelInv, LocalTo, FrontLine, FrontStep, Orders, HomeIs, Shrunk;
    var q := queues[b];
    QueueLive(s, minPrice, slots, live, levels, queues, b);
    ShrinkLevel(slots, slots', levels[b], q, d);
    ShrinkHead(s, minPrice, slots, live, slots', levels, queues, b, lv, d);
    assert queues[b := q] == queues;
    FrontStepFrom(s, minPrice, slots, live, slots', live, levels, queues, olevels, oqueues, b, lv, q, behind);
  }

  /** Every order of a queue is at the tick's price and has quantity left. */
  lemma QueuePrices(s: Side, minPrice: u32, slots: seq<Slot>, live: seq<bool>, levels: seq<PriceLevel>,
                    queues: seq<seq<u32>>, b: nat)
    requires SideInv(s, minPrice, slots, live, levels, queues) && b < |queues|
    ensures Positive(Orders(slots, queues[b]))
    ensures forall k :: 0 <= k < |queues[b]| ==> Orders(slots, queues[b])[k].price == minPrice + b
  {}

  lemma MatchDone(s: Side, taker: u32, limit: u32, left: u32, line: Line, trades: seq<Trade>)
    requires line == [] || left == 0 || !Crosses(s, limit, line[0].price)
    ensures Prepend(trades, Match(s, taker, limit, left, line)) == Fill(trades, line, left)
  {}

  // ----- resting a new order

  /** An order goes behind everything at least as good and ahead of everything strictly worse. */
  lemma {:induction false} InsertBetween(s: Side, a: Line, c: Line, o: Order)
    requires forall k :: 0 <= k < |a| ==> !Beats(s, o.price, a[k].price)
    requires c != [] ==> Beats(s, o.price, c[0].price)
    ensures Insert(s, a + c, o) == a + [o] + c
    decreases |a|
  {
    if a == [] {
      assert a + c == c;
    } else {
      assert (a + c)[1..] == a[1..] + c;
      InsertBetween(s, a[1..], c, o);
      assert [a[0]] + (a[1..] + [o] + c) == a + [o] + c;
    }
  }

  /** Prices ahead of a tick beat its price; prices behind it are beaten. */
  lemma AroundPrices(s: Side, minPrice: u32, slots: seq<Slot>, live: seq<bool>, levels: seq<PriceLevel>,
                     queues: seq<seq<u32>>, b: nat, price: u32)
    requires SideInv(s, minPrice, slots, live, levels, queues) && b < |queues| && price == minPrice + b
    ensures forall k :: 0 <= k < |Ahead<u32>(s, queues, b)| ==>
              Beats(s, Orders(slots, Ahead<u32>(s, queues, b))[k].price, price)
    ensures forall k :: 0 <= k < |Behind<u32>(s, queues, b)| ==>
              Beats(s, price, Orders(slots, Behind<u32>(s, queues, b))[k].price)
  {
    hide SideInv, Orders, Ahead, Behind;
    var a, c := Ahead<u32>(s, queues, b), Behind<u32>(s, queues, b);
    forall k | 0 <= k < |a| ensures Beats(s, OrderOf(slots, a[k]).price, price) {
      var i := AheadTick<u32>(s, queues, b, a[k]);
      QueueHome(s, minPrice, slots, live, levels, queues, i, a[k]);
    }
    forall k | 0 <= k < |c| ensures Beats(s, price, OrderOf(slots, c[k]).price) {
      var i := BehindTick<u32>(s, queues, b, c[k]);
      QueueHome(s, minPrice, slots, live, levels, queues, i, c[k]);
    }
  }

  /** A free slot was filled in and linked behind the last one of queue `q`. */
  ghost predicate Appended(slots: seq<Slot>, live: seq<bool>, slots': seq<Slot>, live': seq<bool>, q: seq<u32>,
                           x: u32) {
    && |slots| == |live| == |slots'| == |live'| <= MAX_POOL_CAPACITY && x < |slots| && !live[x]
    && live' == live[x := true]
    && (forall y: u32 :: y < |slots| && y != x && y != Last(q) ==> slots'[y] == slots[y])
    && (forall y: u32 :: y < |slots| && y != x && y == Last(q) ==> slots'[y] == slots[y].(next := x))
  }

  lemma AppendedOwned(s: Side, price: int, slots: seq<Slot>, live: seq<bool>, slots': seq<Slot>, live': seq<bool>,
                      q: seq<u32>, x: u32)
    requires Appended(slots, live, slots', live', q, x)
    requires forall k :: 0 <= k < |q| ==> HomeIs(s, price, slots, live, q[k])
    requires slots'[x].side == s && slots'[x].price == price && slots'[x].quantity > 0
    ensures Owned(s, price, slots', live', q + [x])
    ensures Orders(slots', q) == Orders(slots, q)
  {}

  /** Appending a fresh order to one queue. */
  lemma AppendOne(s: Side, minPrice: u32, slots: seq<Slot>, live: seq<bool>, slots': seq<Slot>, live': seq<bool>,
                  levels: seq<PriceLevel>, queues: seq<seq<u32>>, b: nat, x: u32, lv: PriceLevel)
    requires SideInv(s, minPrice, slots, live, levels, queues) && b < |queues|
    requires Appended(slots, live, slots', live', queues[b], x)
    requires slots'[x].side == s && slots'[x].price == minPrice + b && slots'[x].quantity > 0
    requires LevelInv(slots', lv, queues[b] + [x])
    ensures LocalTo(s, minPrice + b, slots, live, slots', live')
    ensures SideInv(s, minPrice, slots', live', levels[b := lv], queues[b := queues[b] + [x]])
    ensures Orders(slots', queues[b]) == Orders(slots, queues[b])
  {
    hide SideInv, LevelInv, HomeIs, Owned, OthersKept, Orders;
    var q := queues[b];
    QueueLive(s, minPrice, slots, live, levels, queues, b);
    AppendedOwned(s, minPrice + b, slots, live, slots', live', q, x);
    forall y: u32 | y < |slots| ensures y in q <==> live[y] && slots[y].side == s && slots[y].price == minPrice + b {
      HomeIffQueued(s, minPrice, slots, live, levels, queues, b, y);
    }
    LastIn(q);
    LocalOthersKept(s, minPrice + b, slots, live, slots', live');
    SideUpdate(s, minPrice, slots, live, slots', live', levels, queues, b, lv, q + [x]);
  }

  lemma LastIn(q: seq<u32>)
    ensures q == [] ==> Last(q) == INVALID_INDEX
    ensures q != [] ==> Last(q) in q
  {}

  /** Resting: the line gains the order where price-time priority puts it. */
  lemma RestStep(s: Side, minPrice: u32, slots: seq<Slot>, live: seq<bool>, slots': seq<Slot>, live': seq<bool>,
                 levels: seq<PriceLevel>, queues: seq<seq<u32>>, olevels: seq<PriceLevel>, oqueues: seq<seq<u32>>,
                 b: nat, x: u32, lv: PriceLevel)
    requires SideInv(s, minPrice, slots, live, levels, queues)
    requires SideInv(s.Opposite(), minPrice, slots, live, olevels, oqueues)
    requires b < |queues| && Appended(slots, live, slots', live', queues[b], x)
    requires slots'[x].side == s && slots'[x].price == minPrice + b && slots'[x].quantity > 0
    requires LevelInv(slots', lv, queues[b] + [x])
    ensures SideInv(s, minPrice, slots', live', levels[b := lv], queues[b := queues[b] + [x]])
    ensures SideInv(s.Opposite(), minPrice, slots', live', olevels, oqueues)
    ensures |Flat<u32>(s, queues[b := queues[b] + [x]])| == |Flat<u32>(s, queues)| + 1
    ensures Orders(slots', Flat<u32>(s, queues[b := queues[b] + [x]]))
              == Insert(s, Orders(slots, Flat<u32>(s, queues)), OrderOf(slots', x))
    ensures Orders(slots', Flat<u32>(s.Opposite(), oqueues)) == Orders(slots, Flat<u32>(s.Opposite(), oqueues))
  {
    hide SideInv, LevelInv, LocalTo, Flat, Ahead, Behind, Orders, Insert, Appended, Positive;
    var q := queues[b];
    var o := OrderOf(slots', x);
    AppendedSizes(slots, live, slots', live', q, x);
    AppendOne(s, minPrice, slots, live, slots', live', levels, queues, b, x, lv);
    LocalOther(s, minPrice + b, minPrice, slots, live, slots', live', olevels, oqueues);
    LineUpdate(s, minPrice, slots, live, slots', live', levels, queues, b, q + [x]);
    OrdersConcat(slots', q, [x]);
    assert Orders(slots', [x]) == [o];
    var a, c := Orders(slots, Ahead<u32>(s, queues, b)), Orders(slots, Behind<u32>(s, queues, b));
    AroundPrices(s, minPrice, slots, live, levels, queues, b, o.price);
    QueuePrices(s, minPrice, slots, live, levels, queues, b);
    InsertBetween(s, a + Orders(slots, q), c, o);
    assert a + (Orders(slots, q) + [o]) + c == (a + Orders(slots, q)) + [o] + c;
  }

  lemma AppendedSizes(slots: seq<Slot>, live: seq<bool>, slots': seq<Slot>, live': seq<bool>, q: seq<u32>, x: u32)
    requires Appended(slots, live, slots', live', q, x)
    ensures |slots| == |live| == |slots'| == |live'| && x < |slots|
  {}

  lemma MapAdd(slots: seq<Slot>, live: seq<bool>, orderMap: seq<u32>, slots': seq<Slot>, live': seq<bool>, q: seq<u32>,
               x: u32, id: u32)
    requires MapInv(slots, live, orderMap) && Appended(slots, live, slots', live', q, x)
    requires 0 < id < |orderMap| && orderMap[id] == INVALID_INDEX && slots'[x].id == id
    ensures MapInv(slots', live', orderMap[id := x])
  {}

  // ----- cancelling a resting order

  lemma {:induction false} RemoveBetween(a: Line, o: Order, c: Line)
    requires forall k :: 0 <= k < |a| ==> a[k].id != o.id
    ensures Remove(a + [o] + c, o.id) == a + c
    decreases |a|
  {
    if a == [] {
      assert a + [o] + c == [o] + c;
    } else {
      assert (a + [o] + c)[1..] == a[1..] + [o] + c;
      RemoveBetween(a[1..], o, c);
      assert [a[0]] + (a[1..] + c) == a + c;
    }
  }

  /** Ids are unique: any other live slot carries another id. */
  lemma OtherId(slots: seq<Slot>, live: seq<bool>, orderMap: seq<u32>, x: u32, y: u32)
    requires MapInv(slots, live, orderMap) && x < |slots| && y < |slots| && live[x] && live[y] && x != y
    ensures slots[x].id != slots[y].id
  {}

  lemma IdsAhead(s: Side, minPrice: u32, slots: seq<Slot>, live: seq<bool>, levels: seq<PriceLevel>,
                 queues: seq<seq<u32>>,
                 orderMap: seq<u32>, b: nat, k: nat)
    requires SideInv(s, minPrice, slots, live, levels, queues) && MapInv(slots, live, orderMap)
    requires b < |queues| && k < |queues[b]|
    ensures var id := OrderOf(slots, queues[b][k]).id;
            && (forall i :: 0 <= i < |Ahead<u32>(s, queues, b)| ==> Orders(slots, Ahead<u32>(s, queues, b))[i].id != id)
            && (forall i :: 0 <= i < k ==> Orders(slots, queues[b][..k])[i].id != id)
  {
    hide SideInv, MapInv, LevelInv, Orders, Ahead, HomeIs;
    var q := queues[b];
    var x := q[k];
    MapSizes(slots, live, orderMap);
    QueueLive(s, minPrice, slots, live, levels, queues, b);
    LevelDistinct(slots, levels[b], q);
    var a := Ahead<u32>(s, queues, b);
    forall i | 0 <= i < |a| ensures OrderOf(slots, a[i]).id != OrderOf(slots, x).id {
      var j := AheadTick<u32>(s, queues, b, a[i]);
      TicksDisjoint(s, minPrice, slots, live, levels, queues, b, j, x, a[i]);
      OtherId(slots, live, orderMap, x, a[i]);
    }
    forall i | 0 <= i < k ensures OrderOf(slots, q[..k][i]).id != OrderOf(slots, x).id {
      assert q[i] != q[k];
      OtherId(slots, live, orderMap, x, q[i]);
    }
  }

  lemma MapSizes(slots: seq<Slot>, live: seq<bool>, orderMap: seq<u32>)
    requires MapInv(slots, live, orderMap)
    ensures |slots| == |live|
  {}

  lemma TicksDisjoint(s: Side, minPrice: u32, slots: seq<Slot>, live: seq<bool>, levels: seq<PriceLevel>,
                      queues: seq<seq<u32>>,
                      b: nat, j: nat, x: u32, y: u32)
    requires SideInv(s, minPrice, slots, live, levels, queues) && b < |queues| && j < |queues| && b != j
    requires x in queues[b] && y in queues[j]
    ensures x != y && y < |slots| && y < |live| && live[y]
  {
    QueueHome(s, minPrice, slots, live, levels, queues, b, x);
    QueueHome(s, minPrice, slots, live, levels, queues, j, y);
  }

  /** Cancelling: exactly that order leaves the line, wherever it stood. */
  lemma CancelStep(s: Side, minPrice: u32, slots: seq<Slot>, live: seq<bool>, slots': seq<Slot>, live': seq<bool>,
                   orderMap: seq<u32>,
                   levels: seq<PriceLevel>, queues: seq<seq<u32>>, olevels: seq<PriceLevel>, oqueues: seq<seq<u32>>,
                   b: nat, k: nat, lv: PriceLevel)
    requires SideInv(s, minPrice, slots, live, levels, queues)
    requires SideInv(s.Opposite(), minPrice, slots, live, olevels, oqueues)
    requires MapInv(slots, live, orderMap)
    requires b < |queues| && k < |queues[b]| && Dropped(slots, live, slots', live', queues[b], k)
    requires LevelInv(slots', lv, Without(queues[b], k))
    ensures SideInv(s, minPrice, slots', live', levels[b := lv], queues[b := Without(queues[b], k)])
    ensures SideInv(s.Opposite(), minPrice, slots', live', olevels, oqueues)
    ensures |Flat<u32>(s, queues[b := Without(queues[b], k)])| == |Flat<u32>(s, queues)| - 1
    ensures Orders(slots', Flat<u32>(s, queues[b := Without(queues[b], k)]))
         == Remove(Orders(slots, Flat<u32>(s, queues)), OrderOf(slots, queues[b][k]).id)
    ensures Orders(slots', Flat<u32>(s.Opposite(), oqueues)) == Orders(slots, Flat<u32>(s.Opposite(), oqueues))
  {
    hide SideInv, LevelInv, MapInv, LocalTo, Flat, Ahead, Behind, Orders, Remove, Dropped, Without;
    var q := queues[b];
    var o := OrderOf(slots, q[k]);
    DropOne(s, minPrice, slots, live, slots', live', levels, queues, b, k, lv);
    LocalOther(s, minPrice + b, minPrice, slots, live, slots', live', olevels, oqueues);
    LineUpdate(s, minPrice, slots, live, slots', live', levels, queues, b, Without(q, k));
    WithoutLength(q, k);
    IdsAhead(s, minPrice, slots, live, levels, queues, orderMap, b, k);
    DroppedOrders(slots, live, slots', live', q, k);
    var a, c := Orders(slots, Ahead<u32>(s, queues, b)), Orders(slots, Behind<u32>(s, queues, b));
    var p, n := Orders(slots, q[..k]), Orders(slots, q[k + 1..]);
    RemoveBetween(a + p, o, n + c);
    assert a + (p + [o] + n) + c == (a + p) + [o] + (n + c);
    assert a + (p + n) + c == (a + p) + (n + c);
  }

  lemma DroppedOrders(slots: seq<Slot>, live: seq<bool>, slots': seq<Slot>, live': seq<bool>, q: seq<u32>, k: nat)
    requires Dropped(slots, live, slots', live', q, k)
    ensures Orders(slots, q) == Orders(slots, q[..k]) + [OrderOf(slots, q[k])] + Orders(slots, q[k + 1..])
    ensures Orders(slots', Without(q, k)) == Orders(slots, q[..k]) + Orders(slots, q[k + 1..])
  {}

  /** An id is in a side's line exactly when the map sends it to a slot of that side. */
  lemma IdInLine(s: Side, minPrice: u32, slots: seq<Slot>, live: seq<bool>, levels: seq<PriceLevel>,
                 queues: seq<seq<u32>>, orderMap: seq<u32>, id: u32)
    requires SideInv(s, minPrice, slots, live, levels, queues) && MapInv(slots, live, orderMap)
    requires id < |orderMap| && |slots| <= MAX_POOL_CAPACITY
    ensures HasId(Orders(slots, Flat<u32>(s, queues)), id)
       <==> orderMap[id] != INVALID_INDEX && orderMap[id] < |slots| && slots[orderMap[id]].side == s
  {
    hide LevelInv, Flat, Orders;
    var f := Flat<u32>(s, queues);
    var line := Orders(slots, f);
    if HasId(line, id) {
      var k :| 0 <= k < |line| && line[k].id == id;
      FlatHome(s, minPrice, slots, live, levels, queues, f[k]);
    }
    if orderMap[id] != INVALID_INDEX && orderMap[id] < |slots| && slots[orderMap[id]].side == s {
      var x := orderMap[id];
      assert MapsTo(slots, live, id, orderMap[id]);
      assert Queued(minPrice, slots, queues, x);
      FlatMembers<u32>(s, queues, x);
      var k :| 0 <= k < |f| && f[k] == x;
      assert line[k].id == id;
    }
  }

  /** Where the map says an order is, it is: in the queue of its own side and price. */
  lemma Locate(s: Side, minPrice: u32, slots: seq<Slot>, live: seq<bool>, levels: seq<PriceLevel>,
               queues: seq<seq<u32>>, orderMap: seq<u32>, id: u32)
    returns (k: nat)
    requires SideInv(s, minPrice, slots, live, levels, queues) && MapInv(slots, live, orderMap)
    requires id < |orderMap| && orderMap[id] != INVALID_INDEX && orderMap[id] < |slots| && slots[orderMap[id]].side == s
    ensures minPrice <= slots[orderMap[id]].price < minPrice + |queues|
    ensures var q := queues[slots[orderMap[id]].price - minPrice]; k < |q| && q[k] == orderMap[id]
    ensures slots[orderMap[id]].id == id
  {
    hide LevelInv;
    var x := orderMap[id];
    assert MapsTo(slots, live, id, orderMap[id]);
    assert Queued(minPrice, slots, queues, x);
    k :| 0 <= k < |queues[slots[x].price - minPrice]| && queues[slots[x].price - minPrice][k] == x;
  }

  lemma MapTarget(slots: seq<Slot>, live: seq<bool>, orderMap: seq<u32>, id: u32)
    requires MapInv(slots, live, orderMap) && id < |orderMap| && orderMap[id] != INVALID_INDEX
    ensures id > 0 && MapsTo(slots, live, id, orderMap[id])
  {}

  lemma WithoutAbsent(q: seq<u32>, k: nat)
    requires k < |q| && Distinct(q)
    ensures forall j :: 0 <= j < |q| - 1 ==> Without(q, k)[j] != q[k]
  {}
}
