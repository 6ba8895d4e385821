/** The matching engine. */
module Engine {
  import opened Types
  import opened Pigeonhole
  import opened Pool
  import opened PriceTime
  import opened MatchLaws
  import opened Ladder
  import opened Levels
  import opened PriceIndex
  import opened Sides
  import opened EngineState
  import opened BookLaws

  class OrderBook {
    const cfg: Config
    const pool: MemoryPool
    const bids: BookSide
    const asks: BookSide
    var orderMap: seq<u32>
    var activeCount: nat

    function SideOf(s: Side): BookSide {
      if s.Buy? then bids else asks
    }

    /** The priority line a side stands for. */
    ghost function Line(s: Side): PriceTime.Line
      reads this, pool, bids, asks
    {
      Orders(pool.slots, Flat<u32>(s, SideOf(s).queues))
    }

    /** The price-time book this engine state stands for. */
    ghost function Abs(): Book
      reads this, pool, bids, asks
    {
      Book(Line(Buy), Line(Sell))
    }

    /** The fixed geometry. */
    ghost predicate Geometry()
      reads this, pool, bids, asks
    {
      && cfg.Valid()
      && |pool.slots| == cfg.capacity && |orderMap| == cfg.maxOrderId + 1
      && bids.side == Buy && asks.side == Sell && bids != asks
      && bids.minPrice == asks.minPrice == cfg.minPrice && bids.maxPrice == asks.maxPrice == cfg.maxPrice
      && bids.Shape() && asks.Shape()
    }

    ghost predicate SideHolds(s: Side)
      reads this, pool, bids, asks
    {
      SideInv(s, cfg.minPrice, pool.slots, pool.live, SideOf(s).levels, SideOf(s).queues)
    }

    ghost function Resting(): nat
      reads this, bids, asks
    {
      |Flat<u32>(Buy, bids.queues)| + |Flat<u32>(Sell, asks.queues)|
    }

    /** Pool, queues, levels, map and counters agree; nothing is said yet about bits and best prices. */
    ghost predicate Core()
      reads this, pool, bids, asks
    {
      && Geometry()
      && pool.Valid()
      && SideHolds(Buy) && SideHolds(Sell)
      && MapInv(pool.slots, pool.live, orderMap)
      && activeCount == pool.liveCount == Resting()
    }

    constructor (maxOrderId: nat, maxActiveOrders: nat, minPrice: u32, maxPrice: u32)
      requires minPrice <= maxPrice < 0xFFFF_FFFF && maxOrderId <= MAX_ORDER_IDS
      requires maxPrice - minPrice + 1 <= MAX_PRICE_RANGE_TICKS
      ensures cfg == Config(maxOrderId, Clamped(maxActiveOrders), minPrice, maxPrice)
      ensures Valid() && Abs() == EMPTY_BOOK
      ensures fresh(pool) && fresh(bids) && fresh(asks)
    {
      hide WordCounts, SideInv, IndexInv, BestInv, Flat, Orders, Links, Distinct;
      cfg := Config(maxOrderId, Clamped(maxActiveOrders), minPrice, maxPrice);
      pool := new MemoryPool(maxActiveOrders);
      bids := new BookSide(Buy, minPrice, maxPrice);
      asks := new BookSide(Sell, minPrice, maxPrice);
      orderMap := seq(maxOrderId + 1, _ => INVALID_INDEX);
      activeCount := 0;
      new;
      EmptySide(Buy, minPrice, pool.slots, pool.live, bids.levels, bids.queues);
      EmptySide(Sell, minPrice, pool.slots, pool.live, asks.levels, asks.queues);
      EmptyWf(cfg);
    }

    // ----- consuming a whole level

    /** The trade walk: one whole fill per maker in queue order, clearing each maker's map entry. */
    method WalkMakers(taker: u32, head: u32, ghost q: seq<u32>) returns (trades: seq<Trade>)
      requires QueueLinks(pool.slots, q) && head == First(q) && |pool.slots| <= MAX_POOL_CAPACITY
      requires MapInv(pool.slots, pool.live, orderMap)
      requires forall k :: 0 <= k < |q| ==> q[k] < |pool.live| && pool.live[q[k]]
      modifies this`orderMap
      ensures trades == WholeFills(taker, Orders(pool.slots, q))
      ensures |orderMap| == old(|orderMap|)
      ensures forall id :: 0 <= id < |orderMap| ==>
                orderMap[id] == if old(orderMap)[id] in q then INVALID_INDEX else old(orderMap)[id]
    {
      hide MapInv, Distinct, Orders, WholeFills;
      trades := [];
      NoFillsYet(taker, pool.slots, q);
      var maker := head;
      ghost var k := 0;
      while maker != INVALID_INDEX
        invariant 0 <= k <= |q| && maker == if k < |q| then q[k] else INVALID_INDEX
        invariant trades == WholeFills(taker, Orders(pool.slots, q[..k]))
        invariant |orderMap| == old(|orderMap|)
        invariant forall id :: 0 <= id < |orderMap| ==>
                    orderMap[id] == if old(orderMap)[id] in q[..k] then INVALID_INDEX else old(orderMap)[id]
        decreases |q| - k
      {
        var order := pool.Get(maker);
        var next := order.next;
        trades := trades + [Trade(order.id, taker, order.price, order.quantity)];
        ClearStep(pool.slots, pool.live, old(orderMap), orderMap, q, k);
        orderMap := orderMap[order.id := INVALID_INDEX];
        FillsStep(taker, pool.slots, q, k);
        maker := next;
        k := k + 1;
      }
      assert q[..k] == q;
    }

    /** The one-order path. */
    method TakeOnlyMaker(taker: u32, x: u32) returns (trade: Trade)
      requires pool.Valid() && MapInv(pool.slots, pool.live, orderMap)
      requires x < |pool.slots| && pool.live[x] && activeCount > 0
      modifies this`orderMap, this`activeCount, pool
      ensures trade == WholeFill(taker, old(OrderOf(pool.slots, x)))
      ensures pool.Valid() && |pool.slots| == old(|pool.slots|) && |orderMap| == old(|orderMap|)
      ensures pool.free == [x] + old(pool.free)
      ensures pool.liveCount == old(pool.liveCount) - 1 && activeCount == old(activeCount) - 1
      ensures pool.live == old(pool.live)[x := false]
      ensures forall y: u32 :: y < |pool.slots| && y != x ==> pool.slots[y] == old(pool.slots)[y]
      ensures forall id :: 0 <= id < |orderMap| ==>
                orderMap[id] == if old(orderMap)[id] == x then INVALID_INDEX else old(orderMap)[id]
    {
      hide Links, Distinct;
      var maker := pool.Get(x);
      trade := Trade(maker.id, taker, maker.price, maker.quantity);
      assert forall id :: 0 <= id < |orderMap| && orderMap[id] == x ==> MapsTo(pool.slots, pool.live, id, orderMap[id]);
      orderMap := orderMap[maker.id := INVALID_INDEX];
      pool.Deallocate(x);
      activeCount := activeCount - 1;
    }

    /** Trades with every maker of a level and hands their slots back, by the one-order path or by one splice. */
    method TakeMakers(taker: u32, lv: PriceLevel, ghost q: seq<u32>) returns (trades: seq<Trade>)
      requires pool.Valid() && MapInv(pool.slots, pool.live, orderMap)
      requires LevelInv(pool.slots, lv, q) && q != [] && |q| <= activeCount
      requires forall k :: 0 <= k < |q| ==> pool.live[q[k]]
      modifies this`orderMap, this`activeCount, pool
      ensures trades == WholeFills(taker, old(Orders(pool.slots, q)))
      ensures pool.Valid() && |pool.slots| == old(|pool.slots|) && |orderMap| == old(|orderMap|)
      ensures pool.free == q + old(pool.free)
      ensures pool.liveCount == old(pool.liveCount) - |q| && activeCount == old(activeCount) - |q|
      ensures forall x: u32 :: x < |pool.slots| ==> (pool.live[x] <==> old(pool.live)[x] && x !in q)
      ensures forall x: u32 :: x < |pool.slots| && x !in q ==> pool.slots[x] == old(pool.slots)[x]
      ensures forall id :: 0 <= id < |orderMap| ==>
                orderMap[id] == if old(orderMap)[id] in q then INVALID_INDEX else old(orderMap)[id]
    {
      hide Total, MapInv, Links, Distinct, WholeFills, LevelInv, LiveChain, Orders;
      LevelDistinct(pool.slots, lv, q);
      QueueIsChain(pool.slots, pool.live, q);
      if lv.orderCount == 1 {
        assert q == [q[0]];
        OneFill(taker, pool.slots, q);
        var trade := TakeOnlyMaker(taker, lv.head);
        trades := [trade];
      } else {
        trades := WalkMakers(taker, lv.head, q);
        pool.DeallocateChain(lv.head, lv.tail, q);
        activeCount := activeCount - lv.orderCount;
      }
    }

    /** The bulk path: the taker swallows the best level. Bits and best price still name the emptied level. */
    method ConsumeLevel(taker: u32, opp: BookSide, ghost behind: PriceTime.Line)
      returns (levelQty: u64, trades: seq<Trade>)
      requires Core() && opp == SideOf(opp.side)
      requires opp.bestIdx < |opp.queues| && opp.queues[opp.bestIdx] != []
      requires FrontLine(opp.side, pool.slots, opp.queues, opp.bestIdx, behind)
      modifies this`orderMap, this`activeCount, pool, opp`levels, opp`queues
      ensures Core()
      ensures opp.queues == old(opp.queues)[opp.bestIdx := []]
      ensures pool.free == old(opp.queues)[opp.bestIdx] + old(pool.free)
      ensures trades == WholeFills(taker, old(Orders(pool.slots, opp.queues[opp.bestIdx])))
      ensures levelQty == Total(old(Orders(pool.slots, opp.queues[opp.bestIdx])))
      ensures FrontLine(opp.side, pool.slots, opp.queues, opp.bestIdx, behind)
      ensures Line(opp.side.Opposite()) == old(Line(opp.side.Opposite()))
    {
      hide WordCounts, SideInv, LevelInv, MapInv, PoolInv, Orders, Total, Flat, Ahead, Behind, Distinct, QueueLinks,
        HomeIs, FrontLine, WholeFills, LocalTo;
      var b := opp.bestIdx;
      ghost var s := opp.side;
      ghost var other := SideOf(s.Opposite());
      ghost var q := opp.queues[b];
      ghost var slots0, live0, map0, levels0, queues0 := pool.slots, pool.live, orderMap, opp.levels, opp.queues;
      PoolSizes(slots0, live0, pool.freeHead, pool.liveCount, pool.free);
      QueueLive(s, cfg.minPrice, slots0, live0, levels0, queues0, b);
      QueueLength<u32>(s, queues0, b);
      var lv := opp.levels[b];
      levelQty := lv.totalQuantity;
      LevelDistinct(slots0, lv, q);
      trades := TakeMakers(taker, lv, q);
      opp.levels := opp.levels[b := EMPTY_LEVEL];
      opp.queues := opp.queues[b := []];
      PoolSizes(pool.slots, pool.live, pool.freeHead, pool.liveCount, pool.free);
      EmptyLevelStep(s, cfg.minPrice, slots0, live0, pool.slots, pool.live, levels0, queues0, other.levels,
                     other.queues, b, behind);
      MapClear(slots0, live0, map0, pool.slots, pool.live, orderMap, q);
    }

    // ----- trading inside a level

    /** The head maker is only partly filled: its quantity and the level's total go down. */
    method ShrinkFront(opp: BookSide, b: nat, d: u32, ghost behind: PriceTime.Line)
      requires Core() && opp == SideOf(opp.side) && b < |opp.queues| && opp.queues[b] != []
      requires FrontLine(opp.side, pool.slots, opp.queues, b, behind)
      requires 0 < d < OrderOf(pool.slots, opp.queues[b][0]).quantity
      modifies pool`slots, opp`levels
      ensures Core()
      ensures opp.levels[b].totalQuantity == old(opp.levels)[b].totalQuantity - d
      ensures var o := old(OrderOf(pool.slots, opp.queues[b][0]));
              Orders(pool.slots, opp.queues[b]) == [o.(quantity := o.quantity - d)]
                + old(Orders(pool.slots, opp.queues[b]))[1..]
      ensures FrontLine(opp.side, pool.slots, opp.queues, b, behind)
      ensures Line(opp.side.Opposite()) == old(Line(opp.side.Opposite()))
    {
      hide WordCounts, SideInv, LevelInv, MapInv, PoolInv, Orders, Total, Flat, Ahead, Behind, Distinct, QueueLinks,
        HomeIs, FrontLine, LocalTo;
      ghost var s := opp.side;
      ghost var other := SideOf(s.Opposite());
      ghost var slots0, levels0, queues0 := pool.slots, opp.levels, opp.queues;
      ghost var q := queues0[b];
      PoolSizes(slots0, pool.live, pool.freeHead, pool.liveCount, pool.free);
      QueueLive(s, cfg.minPrice, slots0, pool.live, levels0, queues0, b);
      var x := opp.levels[b].head;
      LevelDistinct(slots0, levels0[b], q);
      pool.Set(x, pool.Get(x).(quantity := pool.Get(x).quantity - d));
      QuantityWithin(slots0, q, 0);
      opp.levels := opp.levels[b := opp.levels[b].(totalQuantity := opp.levels[b].totalQuantity - d)];
      ShrinkStep(s, cfg.minPrice, slots0, pool.live, pool.slots, levels0, queues0, other.levels, other.queues, b,
                 opp.levels[b], d, behind);
      MapShrunk(slots0, pool.live, orderMap, pool.slots, x, d);
      PoolKept(slots0, pool.slots, pool.live, pool.freeHead, pool.liveCount, pool.free);
    }

    /** Frees the head slot of a queue and repairs the links of its successor. */
    method FreeFront(x: u32, next: u32, ghost q: seq<u32>)
      requires pool.Valid() && MapInv(pool.slots, pool.live, orderMap) && activeCount > 0
      requires QueueLinks(pool.slots, q) && |q| > 1 && x == q[0] && next == q[1] && pool.live[q[0]] && pool.live[q[1]]
      modifies this`orderMap, this`activeCount, pool
      ensures pool.Valid() && |pool.slots| == old(|pool.slots|)
      ensures Dropped(old(pool.slots), old(pool.live), pool.slots, pool.live, q, 0)
      ensures pool.free == [x] + old(pool.free)
      ensures pool.liveCount == old(pool.liveCount) - 1 && activeCount == old(activeCount) - 1
      ensures |orderMap| == old(|orderMap|) && MapInv(pool.slots, pool.live, orderMap)
    {
      hide MapInv, Distinct, Links, QueueLinks, PoolInv;
      ghost var slots0, live0, map0 := pool.slots, pool.live, orderMap;
      PoolSizes(slots0, live0, pool.freeHead, pool.liveCount, pool.free);
      QueueRange(slots0, q);
      MapAt(slots0, live0, map0, x);
      pool.Set(x, pool.Get(x).(quantity := 0));
      PoolKept(slots0, pool.slots, live0, pool.freeHead, pool.liveCount, pool.free);
      orderMap := orderMap[pool.Get(x).id := INVALID_INDEX];
      pool.Deallocate(x);
      activeCount := activeCount - 1;
      ghost var slots1 := pool.slots;
      pool.Set(next, pool.Get(next).(prev := INVALID_INDEX));
      PoolKept(slots1, pool.slots, pool.live, pool.freeHead, pool.liveCount, pool.free);
      MapClear(slots0, live0, map0, pool.slots, pool.live, orderMap, [x]);
    }

    /** The head maker is wholly filled and its level keeps others: it leaves the queue. */
    method PopFront(opp: BookSide, b: nat, ghost behind: PriceTime.Line)
      requires Core() && opp == SideOf(opp.side) && b < |opp.queues| && |opp.queues[b]| > 1
      requires FrontLine(opp.side, pool.slots, opp.queues, b, behind)
      modifies this`orderMap, this`activeCount, pool, opp`levels, opp`queues
      ensures Core()
      ensures opp.queues == old(opp.queues)[b := old(opp.queues)[b][1..]]
      ensures pool.free == [old(opp.queues)[b][0]] + old(pool.free)
      ensures opp.levels[b].totalQuantity
           == old(opp.levels)[b].totalQuantity - old(OrderOf(pool.slots, opp.queues[b][0])).quantity
      ensures Orders(pool.slots, opp.queues[b]) == old(Orders(pool.slots, opp.queues[b]))[1..]
      ensures FrontLine(opp.side, pool.slots, opp.queues, b, behind)
      ensures Line(opp.side.Opposite()) == old(Line(opp.side.Opposite()))
    {
      hide WordCounts, SideInv, LevelInv, MapInv, PoolInv, Orders, Total, Flat, Distinct, QueueLinks, HomeIs, FrontLine,
        LocalTo, Dropped, Relinked;
      ghost var s := opp.side;
      ghost var other := SideOf(s.Opposite());
      ghost var slots0, live0, levels0, queues0 := pool.slots, pool.live, opp.levels, opp.queues;
      ghost var q := queues0[b];
      PoolSizes(slots0, live0, pool.freeHead, pool.liveCount, pool.free);
      QueueLive(s, cfg.minPrice, slots0, live0, levels0, queues0, b);
      QueueLength<u32>(s, queues0, b);
      var lv := opp.levels[b];
      LevelDistinct(slots0, lv, q);
      QueueAt(slots0, q, 0);
      QuantityWithin(slots0, q, 0);
      var x := lv.head;
      var quantity, next := pool.Get(x).quantity, pool.Get(x).next;
      FreeFront(x, next, q);
      lv := lv.(totalQuantity := lv.totalQuantity - quantity, orderCount := lv.orderCount - 1, head := next);
      opp.levels := opp.levels[b := lv];
      opp.queues := opp.queues[b := q[1..]];
      PoolSizes(pool.slots, pool.live, pool.freeHead, pool.liveCount, pool.free);
      PopFrontStep(s, cfg.minPrice, slots0, live0, pool.slots, pool.live, levels0, queues0, other.levels, other.queues,
                   b, lv, behind);
    }

    /** The opposite side's best level is occupied and is the front of its line. */
    ghost predicate AtFront(opp: BookSide, behind: PriceTime.Line)
      reads this, pool, bids, asks, opp
    {
      && Core() && opp == SideOf(opp.side)
      && opp.bestIdx < |opp.queues| == |opp.levels| && opp.queues[opp.bestIdx] != []
      && FrontLine(opp.side, pool.slots, opp.queues, opp.bestIdx, behind)
    }

    /** The orders of the opposite side's best level. */
    ghost function Front(opp: BookSide): PriceTime.Line
      requires opp.bestIdx < |opp.queues|
      reads pool, opp
    {
      Orders(pool.slots, opp.queues[opp.bestIdx])
    }

    /** One turn of the partial path: trade with the head maker, then shrink it or drop it. */
    method TradeFront(taker: u32, opp: BookSide, left: u32, ghost tside: Side, ghost limit: u32, ghost price: u32,
                      ghost behind: PriceTime.Line)
      returns (left': u32, trade: Trade, next: u32)
      requires AtFront(opp, behind) && 0 < left < opp.levels[opp.bestIdx].totalQuantity
      requires price == cfg.minPrice + opp.bestIdx && Crosses(tside, limit, price)
      modifies this`orderMap, this`activeCount, pool, opp`levels, opp`queues
      ensures AtFront(opp, behind) && left' < left && left' < opp.levels[opp.bestIdx].totalQuantity
      ensures left' > 0 ==> next == opp.queues[opp.bestIdx][0]
      ensures |opp.queues| == old(|opp.queues|) && opp.queues == old(opp.queues)[opp.bestIdx := opp.queues[opp.bestIdx]]
      ensures Match(tside, taker, limit, left, old(Front(opp)))
                == Prepend([trade], Match(tside, taker, limit, left', Front(opp)))
      ensures Line(opp.side.Opposite()) == old(Line(opp.side.Opposite()))
    {
      hide Core, Orders, Total, Flat, FrontLine, Match, Line;
      var b := opp.bestIdx;
      ghost var q := opp.queues[b];
      ghost var line := Orders(pool.slots, q);
      HeadIsSlot(opp, behind);
      HeadNext(opp);
      MatchHead(tside, taker, limit, left, line);
      var maker := pool.Get(opp.levels[b].head);
      next := maker.next;
      assert line[0] == OrderOf(pool.slots, q[0]);
      var quantity := if left < maker.quantity then left else maker.quantity;
      trade := Trade(maker.id, taker, maker.price, quantity);
      left' := left - quantity;
      if quantity < maker.quantity {
        ShrinkFront(opp, b, quantity, behind);
        MatchDone(tside, taker, limit, 0, Orders(pool.slots, opp.queues[b]), [trade]);
      } else {
        MoreMakers(line, left);
        PopFront(opp, b, behind);
      }
      SameTicks(opp);
    }

    /** The partial path: the taker is filled inside the best level, which keeps at least one order, so the level's
        tail never needs updating. */
    method FillWithin(taker: u32, opp: BookSide, quantity: u32, ghost tside: Side, ghost limit: u32, ghost price: u32,
                      ghost behind: PriceTime.Line)
      returns (left: u32, trades: seq<Trade>)
      requires AtFront(opp, behind) && 0 < quantity < opp.levels[opp.bestIdx].totalQuantity
      requires price == cfg.minPrice + opp.bestIdx && Crosses(tside, limit, price)
      modifies this`orderMap, this`activeCount, pool, opp`levels, opp`queues
      ensures AtFront(opp, behind) && left == 0
      ensures |opp.queues| == old(|opp.queues|) && opp.queues == old(opp.queues)[opp.bestIdx := opp.queues[opp.bestIdx]]
      ensures Match(tside, taker, limit, quantity, old(Front(opp))) == Fill(trades, Front(opp), 0)
      ensures Line(opp.side.Opposite()) == old(Line(opp.side.Opposite()))
    {
      hide Core, Orders, FrontLine, Match, Flat;
      left := quantity;
      trades := [];
      EmptyPrepend(Match(tside, taker, limit, left, Front(opp)));
      var maker := opp.levels[opp.bestIdx].head;
      HeadIsSlot(opp, behind);
      while maker != INVALID_INDEX && left > 0
        invariant AtFront(opp, behind) && left < opp.levels[opp.bestIdx].totalQuantity
        invariant left > 0 ==> maker != INVALID_INDEX
        invariant |opp.queues| == old(|opp.queues|)
        invariant opp.queues == old(opp.queues)[opp.bestIdx := opp.queues[opp.bestIdx]]
        invariant Match(tside, taker, limit, quantity, old(Front(opp)))
                    == Prepend(trades, Match(tside, taker, limit, left, Front(opp)))
        invariant Line(opp.side.Opposite()) == old(Line(opp.side.Opposite()))
        decreases left
      {
        var trade;
        ghost var before := trades;
        left, trade, maker := TradeFront(taker, opp, left, tside, limit, price, behind);
        trades := trades + [trade];
        PrependTwice(before, [trade], Match(tside, taker, limit, left, Front(opp)));
        HeadIsSlot(opp, behind);
      }
      MatchDone(tside, taker, limit, left, Front(opp), trades);
    }

    /** The same level consumed one maker at a time. Same trades, same queues, same lines as the bulk path; by the same
        invariant the same levels, map and counters; only the free list comes out in the opposite order. */
    method ConsumeOneByOne(taker: u32, opp: BookSide, ghost behind: PriceTime.Line) returns (trades: seq<Trade>)
      requires AtFront(opp, behind)
      modifies this`orderMap, this`activeCount, pool, opp`levels, opp`queues
      ensures Core()
      ensures opp.queues == old(opp.queues)[opp.bestIdx := []]
      ensures trades == WholeFills(taker, old(Front(opp)))
      ensures pool.free == Backwards(old(opp.queues)[opp.bestIdx]) + old(pool.free)
      ensures Members(pool.free) == Members(old(opp.queues)[opp.bestIdx] + old(pool.free))
      ensures FrontLine(opp.side, pool.slots, opp.queues, opp.bestIdx, behind)
      ensures Line(opp.side.Opposite()) == old(Line(opp.side.Opposite()))
    {
      hide Core, Orders, Total, Flat, FrontLine, WholeFills, Backwards, Line;
      ghost var b := opp.bestIdx;
      ghost var q, front, queues0 := opp.queues[b], Front(opp), opp.queues;
      trades := [];
      ghost var k := 0;
      StepStart(taker, front, q);
      HeadIsSlot(opp, behind);
      while opp.levels[opp.bestIdx].orderCount > 1
        invariant AtFront(opp, behind) && 0 <= k < |q|
        invariant opp.levels[opp.bestIdx].head == opp.queues[opp.bestIdx][0] < |pool.slots| == |pool.live|
        invariant pool.live[opp.levels[opp.bestIdx].head]
        invariant opp.queues == queues0[b := q[k..]] && opp.levels[opp.bestIdx].orderCount == |q| - k
        invariant Front(opp) == front[k..] && trades == WholeFills(taker, front[..k])
        invariant pool.free == Backwards(q[..k]) + old(pool.free)
        invariant Line(opp.side.Opposite()) == old(Line(opp.side.Opposite()))
        decreases |q| - k
      {
        var maker := pool.Get(opp.levels[opp.bestIdx].head);
        trades := trades + [Trade(maker.id, taker, maker.price, maker.quantity)];
        assert front[k] == Front(opp)[0] == OrderOf(pool.slots, opp.queues[opp.bestIdx][0]);
        OneStep(taker, front, q, k, old(pool.free));
        PopFront(opp, opp.bestIdx, behind);
        SameTicks(opp);
        k := k + 1;
        HeadIsSlot(opp, behind);
      }
      var levelQty, last := ConsumeLevel(taker, opp, behind);
      trades := trades + last;
      OneStep(taker, front, q, k, old(pool.free));
      LastStep(taker, front, q, k);
      BackwardsMembers(q, old(pool.free));
    }

    /** An occupied side's best level is the front of its line. */
    lemma BestIsFront(opp: BookSide) returns (behind: PriceTime.Line)
      requires Core() && opp == SideOf(opp.side) && opp.Indexed() && opp.has
      ensures AtFront(opp, behind) && opp.best == cfg.minPrice + opp.bestIdx
      ensures Line(opp.side) == Front(opp) + behind
    {
      hide WordCounts, SideInv, MapInv, PoolInv, Orders, Flat, Ahead, Behind, IndexInv;
      var b := opp.bestIdx;
      behind := Orders(pool.slots, Behind<u32>(opp.side, opp.queues, b));
      forall i: nat | i < |opp.queues| && BetterTick(opp.side, i, b) ensures opp.queues[i] == [] {
        assert i !in Occupied(opp.queues);
      }
      FlatFront<u32>(opp.side, opp.queues, b);
      FrontLineIs(opp.side, pool.slots, opp.queues, b, behind);
    }

    /** The bulk path and the advance after it: the best level is gone from every structure. */
    method SweepLevel(taker: u32, opp: BookSide, ghost behind: PriceTime.Line)
      returns (levelQty: u64, trades: seq<Trade>)
      requires AtFront(opp, behind) && opp.Indexed() && opp.has
      modifies this`orderMap, this`activeCount, pool, opp
      ensures Core() && opp.Indexed()
      ensures trades == WholeFills(taker, old(Front(opp))) && levelQty == Total(old(Front(opp)))
      ensures opp.queues == old(opp.queues)[old(opp.bestIdx) := []]
      ensures pool.free == old(opp.queues)[old(opp.bestIdx)] + old(pool.free)
      ensures Line(opp.side) == behind
      ensures Line(opp.side.Opposite()) == old(Line(opp.side.Opposite()))
    {
      hide WordCounts, SideInv, LevelInv, MapInv, PoolInv, Orders, Total, Flat, FrontLine, WholeFills, IndexInv;
      ghost var queues0 := opp.queues;
      var b := opp.bestIdx;
      levelQty, trades := ConsumeLevel(taker, opp, behind);
      FrontLineIs(opp.side, pool.slots, opp.queues, b, behind);
      assert Orders(pool.slots, []) + behind == behind;
      OccupiedAfter(opp.side, queues0, opp.queues, b);
      LevelsEmptyIff(opp.side, cfg.minPrice, pool.slots, pool.live, opp.levels, opp.queues);
      opp.AdvanceBest();
    }

    /** The same with the makers consumed one at a time. */
    method SweepOneByOne(taker: u32, opp: BookSide, ghost behind: PriceTime.Line) returns (trades: seq<Trade>)
      requires AtFront(opp, behind) && opp.Indexed() && opp.has
      modifies this`orderMap, this`activeCount, pool, opp
      ensures Core() && opp.Indexed()
      ensures trades == WholeFills(taker, old(Front(opp)))
      ensures opp.queues == old(opp.queues)[old(opp.bestIdx) := []]
      ensures pool.free == Backwards(old(opp.queues)[old(opp.bestIdx)]) + old(pool.free)
      ensures Line(opp.side) == behind
      ensures Line(opp.side.Opposite()) == old(Line(opp.side.Opposite()))
    {
      hide WordCounts, SideInv, LevelInv, MapInv, PoolInv, Orders, Total, Flat, FrontLine, WholeFills, IndexInv;
      ghost var queues0 := opp.queues;
      var b := opp.bestIdx;
      trades := ConsumeOneByOne(taker, opp, behind);
      FrontLineIs(opp.side, pool.slots, opp.queues, b, behind);
      assert Orders(pool.slots, []) + behind == behind;
      OccupiedAfter(opp.side, queues0, opp.queues, b);
      LevelsEmptyIff(opp.side, cfg.minPrice, pool.slots, pool.live, opp.levels, opp.queues);
      opp.AdvanceBest();
    }

    /** Pool, queues, map, counters, bits and best prices all agree. */
    ghost predicate Consistent()
      reads this, pool, bids, asks
    {
      Core() && bids.Indexed() && asks.Indexed()
    }

    /** These are the pool's slots, live marks and free list, and these the queues of side `s`. */
    ghost predicate Untouched(slots: seq<Slot>, live: seq<bool>, free: seq<u32>, s: Side, queues: seq<seq<u32>>)
      reads this, pool, bids, asks
    {
      pool.slots == slots && pool.live == live && pool.free == free && SideOf(s).queues == queues
    }

    /** One turn of the match loop at the best opposite level. */
    method MatchBest(taker: u32, tside: Side, limit: u32, quantity: u32) returns (left: u32, trades: seq<Trade>)
      requires Consistent() && quantity > 0
      requires SideOf(tside.Opposite()).has && Crosses(tside, limit, SideOf(tside.Opposite()).best)
      modifies this`orderMap, this`activeCount, pool, SideOf(tside.Opposite())
      ensures Consistent() && left < quantity && trades != []
      ensures Match(tside, taker, limit, quantity, old(Line(tside.Opposite())))
           == Prepend(trades, Match(tside, taker, limit, left, Line(tside.Opposite())))
      ensures Line(tside) == old(Line(tside))
    {
      hide WordCounts, SideInv, LevelInv, MapInv, PoolInv, Orders, Total, Flat, FrontLine, WholeFills, IndexInv, Match;
      var opp := SideOf(tside.Opposite());
      ghost var behind := BestIsFront(opp);
      ghost var front := Front(opp);
      HeadIsSlot(opp, behind);
      TotalPositive(front);
      if quantity >= opp.levels[opp.bestIdx].totalQuantity {
        MatchThrough(tside, taker, limit, quantity, front, behind);
        var levelQty;
        levelQty, trades := SweepLevel(taker, opp, behind);
        left := quantity - levelQty;
        FillsCount(taker, front);
      } else {
        MatchWithin(tside, taker, limit, quantity, front, behind);
        ghost var queues0 := opp.queues;
        left, trades := FillWithin(taker, opp, quantity, tside, limit, opp.best, behind);
        FrontLineIs(opp.side, pool.slots, opp.queues, opp.bestIdx, behind);
        SameOccupied(queues0, opp.queues, opp.bestIdx);
        MatchDone(tside, taker, limit, 0, Line(opp.side), trades);
        MatchHead(tside, taker, limit, quantity, front);
      }
    }

    /** The match loop: sweep the opposite side from its best price while the taker has quantity and reach. */
    method MatchOrder(taker: u32, tside: Side, limit: u32, quantity: u32) returns (left: u32, trades: seq<Trade>)
      requires Consistent()
      modifies this`orderMap, this`activeCount, pool, SideOf(tside.Opposite())
      ensures Consistent()
      ensures Match(tside, taker, limit, quantity, old(Line(tside.Opposite())))
                == Fill(trades, Line(tside.Opposite()), left)
      ensures Line(tside) == old(Line(tside))
      ensures trades == [] ==>
                Untouched(old(pool.slots), old(pool.live), old(pool.free), tside.Opposite(),
                          old(SideOf(tside.Opposite()).queues))
    {
      hide Core, Match, Orders, Flat;
      var opp := SideOf(tside.Opposite());
      left := quantity;
      trades := [];
      EmptyPrepend(Match(tside, taker, limit, left, Line(tside.Opposite())));
      while opp.has && left > 0 && Crosses(tside, limit, opp.best)
        invariant Consistent()
        invariant Match(tside, taker, limit, quantity, old(Line(tside.Opposite())))
               == Prepend(trades, Match(tside, taker, limit, left, Line(tside.Opposite())))
        invariant Line(tside) == old(Line(tside))
        invariant trades == [] ==>
                    Untouched(old(pool.slots), old(pool.live), old(pool.free), tside.Opposite(),
                              old(SideOf(tside.Opposite()).queues))
        decreases left
      {
        ghost var before := trades;
        var more;
        left, more := MatchBest(taker, tside, limit, left);
        trades := trades + more;
        PrependTwice(before, more, Match(tside, taker, limit, left, Line(tside.Opposite())));
      }
      BestIsHead(tside.Opposite());
      MatchDone(tside, taker, limit, left, Line(tside.Opposite()), trades);
    }

    /** The flag says whether the line is empty, and the best price is its head's price. */
    lemma BestIsHead(s: Side)
      requires Consistent()
      ensures SideOf(s).has <==> Line(s) != []
      ensures SideOf(s).has ==> Line(s)[0].price == SideOf(s).best
    {
      hide WordCounts, SideInv, LevelInv, MapInv, PoolInv, Flat, FrontLine, IndexInv;
      var opp := SideOf(s);
      if opp.has {
        var behind := BestIsFront(opp);
        HeadIsSlot(opp, behind);
        assert (Front(opp) + behind)[0] == Front(opp)[0];
      } else {
        FlatEmpty<u32>(opp.side, opp.queues);
        forall i: nat | i < |opp.queues| ensures opp.queues[i] == [] {
          assert i !in Occupied(opp.queues);
        }
      }
    }

    // ----- resting

    /** Takes a slot, fills it in, maps it and appends it to its level: the pool, the map and one queue. */
    method Enlist(id: u32, own: BookSide, price: u32, quantity: u32, b: nat) returns (x: u32)
      requires pool.Valid() && MapInv(pool.slots, pool.live, orderMap)
      requires b < |own.levels| == |own.queues| && LevelInv(pool.slots, own.levels[b], own.queues[b])
      requires pool.AllLive(own.queues[b])
      requires 0 < id < |orderMap| && orderMap[id] == INVALID_INDEX
      modifies this`orderMap, this`activeCount, pool, own`levels, own`queues
      ensures pool.Valid() && |pool.slots| == old(|pool.slots|)
      ensures x == INVALID_INDEX <==> old(pool.free) == []
      ensures x == INVALID_INDEX ==>
                orderMap == old(orderMap) && own.levels == old(own.levels) && own.queues == old(own.queues)
      ensures x == INVALID_INDEX ==>
                pool.slots == old(pool.slots) && pool.live == old(pool.live) && pool.free == old(pool.free)
      ensures x == INVALID_INDEX ==> pool.liveCount == old(pool.liveCount) && activeCount == old(activeCount)
      ensures x != INVALID_INDEX ==>
                && Appended(old(pool.slots), old(pool.live), pool.slots, pool.live, old(own.queues)[b], x)
                && pool.slots[x].id == id && pool.slots[x].price == price && pool.slots[x].quantity == quantity
                && pool.slots[x].side == own.side
                && x == old(pool.free)[0] && pool.free == old(pool.free)[1..]
                && pool.liveCount == old(pool.liveCount) + 1 && activeCount == old(activeCount) + 1
                && orderMap == old(orderMap)[id := x] && MapInv(pool.slots, pool.live, orderMap)
                && |own.levels| == old(|own.levels|) && own.levels == old(own.levels)[b := own.levels[b]]
                && own.queues == old(own.queues)[b := old(own.queues)[b] + [x]]
                && LevelInv(pool.slots, own.levels[b], own.queues[b])
    {
      hide LevelInv, MapInv, PoolInv, Links, Distinct, QueueLinks;
      ghost var slots0, live0, map0 := pool.slots, pool.live, orderMap;
      ghost var q := own.queues[b];
      PoolSizes(slots0, live0, pool.freeHead, pool.liveCount, pool.free);
      FreeIsDead(slots0, live0, pool.freeHead, pool.liveCount, pool.free);
      x := pool.Allocate();
      if x == INVALID_INDEX {
        return;
      }
      NotQueued(live0, q, x);
      ghost var slots1 := pool.slots;
      pool.Set(x, Slot(INVALID_INDEX, INVALID_INDEX, id, price, quantity, own.side));
      activeCount := activeCount + 1;
      orderMap := orderMap[id := x];
      LevelFrame(slots0, pool.slots, own.levels[b], q);
      own.AppendOrder(b, x, pool);
      PoolKept(slots1, pool.slots, pool.live, pool.freeHead, pool.liveCount, pool.free);
      MapAdd(slots0, live0, map0, pool.slots, pool.live, q, x, id);
    }

    /** Everything about resting except bits and best price. */
    method Link(id: u32, own: BookSide, price: u32, quantity: u32, b: nat) returns (x: u32)
      requires Core() && own == SideOf(own.side) && b < |own.queues| && price == cfg.minPrice + b
      requires 0 < id <= cfg.maxOrderId && orderMap[id] == INVALID_INDEX && quantity > 0
      modifies this`orderMap, this`activeCount, pool, own`levels, own`queues
      ensures Core()
      ensures x == INVALID_INDEX <==> old(pool.free) == []
      ensures x == INVALID_INDEX ==>
                && orderMap == old(orderMap) && own.levels == old(own.levels) && own.queues == old(own.queues)
                && pool.slots == old(pool.slots) && pool.live == old(pool.live) && pool.free == old(pool.free)
      ensures x != INVALID_INDEX ==>
                && x == old(pool.free)[0] && pool.free == old(pool.free)[1..]
                && own.queues == old(own.queues)[b := old(own.queues)[b] + [x]]
                && orderMap[id] == x < |pool.slots| && pool.slots[x].side == own.side && pool.slots[x].price == price
                && Line(own.side) == Insert(own.side, old(Line(own.side)), Order(id, price, quantity))
      ensures Line(own.side.Opposite()) == old(Line(own.side.Opposite()))
    {
      hide WordCounts, SideInv, LevelInv, MapInv, PoolInv, Orders, Total, Flat, Insert, HomeIs, Links, Distinct,
        QueueLinks, Appended;
      ghost var s := own.side;
      ghost var other := SideOf(s.Opposite());
      ghost var slots0, live0, levels0, queues0 := pool.slots, pool.live, own.levels, own.queues;
      QueueLive(s, cfg.minPrice, slots0, live0, levels0, queues0, b);
      x := Enlist(id, own, price, quantity, b);
      if x == INVALID_INDEX {
        return;
      }
      AppendedAt(slots0, live0, pool.slots, pool.live, queues0[b], x);
      RestStep(s, cfg.minPrice, slots0, live0, pool.slots, pool.live, levels0, queues0, other.levels, other.queues, b,
               x, own.levels[b]);
    }

    /** Rests what is left of a limit order, or reports that no slot is free. */
    method RestOrder(id: u32, side: Side, price: u32, quantity: u32) returns (x: u32)
      requires Consistent() && cfg.minPrice <= price <= cfg.maxPrice
      requires 0 < id <= cfg.maxOrderId && orderMap[id] == INVALID_INDEX && quantity > 0
      modifies this`orderMap, this`activeCount, pool, SideOf(side)
      ensures Consistent()
      ensures x == INVALID_INDEX <==> old(Resting()) >= cfg.capacity
      ensures x == INVALID_INDEX ==> Line(side) == old(Line(side)) && pool.free == old(pool.free)
      ensures x != INVALID_INDEX ==>
                && Line(side) == Insert(side, old(Line(side)), Order(id, price, quantity))
                && old(pool.free) == [x] + pool.free
                && id < |orderMap| && orderMap[id] == x < |pool.slots|
                && pool.slots[x].side == side && pool.slots[x].price == price
                && var queues, b := old(SideOf(side).queues), price - cfg.minPrice;
                   SideOf(side).queues == queues[b := queues[b] + [x]]
      ensures Line(side.Opposite()) == old(Line(side.Opposite()))
    {
      hide WordCounts, SideInv, LevelInv, MapInv, Orders, Flat, Insert, IndexInv, BestInv, Links, Distinct, Occupied;
      var own := SideOf(side);
      var b: nat := price - cfg.minPrice;
      LevelsEmptyIff(side, cfg.minPrice, pool.slots, pool.live, own.levels, own.queues);
      ghost var queues0 := own.queues;
      var wasEmpty := own.levels[b].IsEmpty();
      x := Link(id, own, price, quantity, b);
      if x == INVALID_INDEX {
        return;
      }
      OccupiedGrows(queues0, own.queues, b);
      own.IndexRested(price, b, wasEmpty, Occupied(queues0));
    }

    // ----- cancelling

    /** Unlinks, unmaps and frees one resting order: one queue, the map and the pool. */
    method Extract(id: u32, x: u32, own: BookSide, b: nat, ghost k: nat)
      requires pool.Valid() && MapInv(pool.slots, pool.live, orderMap) && activeCount > 0
      requires b < |own.levels| == |own.queues| && LevelInv(pool.slots, own.levels[b], own.queues[b])
      requires pool.AllLive(own.queues[b])
      requires k < |own.queues[b]| && own.queues[b][k] == x && OrderOf(pool.slots, x).id == id
      modifies this`orderMap, this`activeCount, pool, own`levels, own`queues
      ensures pool.Valid() && |pool.slots| == old(|pool.slots|)
      ensures Dropped(old(pool.slots), old(pool.live), pool.slots, pool.live, old(own.queues)[b], k)
      ensures pool.free == [x] + old(pool.free)
      ensures pool.liveCount == old(pool.liveCount) - 1 && activeCount == old(activeCount) - 1
      ensures |orderMap| == old(|orderMap|) && MapInv(pool.slots, pool.live, orderMap)
      ensures |own.levels| == old(|own.levels|) && own.levels == old(own.levels)[b := own.levels[b]]
      ensures own.queues == old(own.queues)[b := Without(old(own.queues)[b], k)]
      ensures LevelInv(pool.slots, own.levels[b], own.queues[b])
    {
      hide LevelInv, MapInv, PoolInv, Links, Distinct, QueueLinks, Relinked, Without;
      ghost var slots0, live0, map0 := pool.slots, pool.live, orderMap;
      ghost var q := own.queues[b];
      PoolSizes(slots0, live0, pool.freeHead, pool.liveCount, pool.free);
      LevelDistinct(slots0, own.levels[b], q);
      MapAt(slots0, live0, map0, x);
      own.RemoveOrder(b, x, pool, k);
      ghost var slots1 := pool.slots;
      PoolKeptInQueue(slots0, slots1, live0, pool.freeHead, pool.liveCount, pool.free, q);
      orderMap := orderMap[id := INVALID_INDEX];
      pool.Deallocate(x);
      activeCount := activeCount - 1;
      DetachLevel(slots1, pool.slots, own.levels[b], q, k);
      DroppedFrom(slots0, live0, slots1, pool.slots, pool.live, q, k);
      DroppedIds(slots0, live0, pool.slots, pool.live, q, k);
      MapClear(slots0, live0, map0, pool.slots, pool.live, orderMap, [x]);
    }

    /** Everything about cancelling except bits and best price. */
    method Detach(id: u32, x: u32, own: BookSide, b: nat, ghost k: nat)
      requires Core() && own == SideOf(own.side) && b < |own.queues| && k < |own.queues[b]| && own.queues[b][k] == x
      requires OrderOf(pool.slots, x).id == id
      modifies this`orderMap, this`activeCount, pool, own`levels, own`queues
      ensures Core()
      ensures own.queues == old(own.queues)[b := Without(old(own.queues)[b], k)]
      ensures pool.free == [x] + old(pool.free)
      ensures Line(own.side) == Remove(old(Line(own.side)), id)
      ensures Line(own.side.Opposite()) == old(Line(own.side.Opposite()))
    {
      hide WordCounts, SideInv, LevelInv, MapInv, PoolInv, Orders, Total, Flat, Remove, HomeIs, Distinct, Dropped,
        Without;
      ghost var s := own.side;
      ghost var other := SideOf(s.Opposite());
      ghost var slots0, live0, map0, levels0, queues0 := pool.slots, pool.live, orderMap, own.levels, own.queues;
      QueueLive(s, cfg.minPrice, slots0, live0, levels0, queues0, b);
      QueueLength<u32>(s, queues0, b);
      Extract(id, x, own, b, k);
      CancelStep(s, cfg.minPrice, slots0, live0, pool.slots, pool.live, map0, levels0, queues0, other.levels,
                 other.queues, b, k, own.levels[b]);
    }

    /** One slot, the `k`-th of its queue, went back on the free list. */
    ghost predicate RemovedOnly(x: u32, k: nat, side: Side, price: u32, free: seq<u32>, queues: seq<seq<u32>>,
                                oqueues: seq<seq<u32>>)
      reads this, pool, bids, asks
    {
      && pool.free == [x] + free
      && SideOf(side.Opposite()).queues == oqueues
      && cfg.minPrice <= price < cfg.minPrice + |queues|
      && var q := queues[price - cfg.minPrice];
         k < |q| && q[k] == x && SideOf(side).queues == queues[price - cfg.minPrice := Without(q, k)]
    }

    /** `cancel_order`. */
    method CancelOrder(id: u32) returns (code: RejectReason, ghost k: nat)
      requires Consistent()
      modifies this`orderMap, this`activeCount, pool, bids, asks
      ensures Consistent()
      ensures Outcome(Abs(), Reply(code, 0, [])) == Cancelled(cfg, old(Abs()), id)
      ensures code.Accepted? ==>
                && id < |old(orderMap)| && old(orderMap)[id] < |old(pool.slots)|
                && var x := old(orderMap)[id]; var o := old(pool.slots)[x];
                   RemovedOnly(x, k, o.side, o.price, old(pool.free), old(SideOf(o.side).queues),
                               old(SideOf(o.side.Opposite()).queues))
    {
      hide WordCounts, SideInv, LevelInv, MapInv, PoolInv, Orders, Flat, Remove, HasId, IndexInv, BestInv, Occupied,
        Without;
      k := 0;
      if id == 0 || id > cfg.maxOrderId {
        return OutOfBoundsOrderId, k;
      }
      PoolSizes(pool.slots, pool.live, pool.freeHead, pool.liveCount, pool.free);
      IdInLine(Buy, cfg.minPrice, pool.slots, pool.live, bids.levels, bids.queues, orderMap, id);
      IdInLine(Sell, cfg.minPrice, pool.slots, pool.live, asks.levels, asks.queues, orderMap, id);
      if orderMap[id] == INVALID_INDEX {
        return CancelFailed, k;
      }
      MapTarget(pool.slots, pool.live, orderMap, id);
      var x := orderMap[id];
      var order := pool.Get(x);
      var own := SideOf(order.side);
      k := Locate(order.side, cfg.minPrice, pool.slots, pool.live, own.levels, own.queues, orderMap, id);
      var b: nat := order.price - cfg.minPrice;
      ghost var queues0 := own.queues;
      Detach(id, x, own, b, k);
      LevelsEmptyIff(order.side, cfg.minPrice, pool.slots, pool.live, own.levels, own.queues);
      OccupiedShrinks(queues0, own.queues, b);
      own.IndexRemoved(order.price, b, Occupied(queues0));
      return Accepted, k;
    }

    // ----- adding

    /** The full invariant of a book between calls: all structures agree, and the book they stand for is well-formed
        and uncrossed. */
    ghost predicate Valid()
      reads this, pool, bids, asks
    {
      Consistent() && Wf(cfg, Abs())
    }

    lemma MapAgrees(id: u32)
      requires Consistent() && id <= cfg.maxOrderId
      ensures id < |orderMap|
      ensures orderMap[id] == INVALID_INDEX <==> !HasId(Abs().bids, id) && !HasId(Abs().asks, id)
    {
      hide WordCounts, SideInv, MapInv, PoolInv, Orders, Flat, HasId, IndexInv, BestInv;
      PoolSizes(pool.slots, pool.live, pool.freeHead, pool.liveCount, pool.free);
      IdInLine(Buy, cfg.minPrice, pool.slots, pool.live, bids.levels, bids.queues, orderMap, id);
      IdInLine(Sell, cfg.minPrice, pool.slots, pool.live, asks.levels, asks.queues, orderMap, id);
      if orderMap[id] != INVALID_INDEX {
        MapTarget(pool.slots, pool.live, orderMap, id);
      }
    }

    /** The checks before an order touches the book. */
    method CheckOrder(id: u32, kind: OrderType, price: u32, quantity: u32, side: Side) returns (code: RejectReason)
      requires Consistent() && !kind.Cancel?
      ensures code == Validate(cfg, Abs(), id, kind, price, quantity, side)
    {
      hide Core, HasId, Line;
      if quantity == 0 {
        return InvalidQuantity;
      }
      if id == 0 || id > cfg.maxOrderId {
        return OutOfBoundsOrderId;
      }
      MapAgrees(id);
      if orderMap[id] != INVALID_INDEX {
        return DuplicateOrderId;
      }
      if kind.Limit? {
        if price < cfg.minPrice || price > cfg.maxPrice {
          return OutOfBoundsPrice;
        }
      }
      if kind.Market? {
        BestIsHead(side.Opposite());
        if !SideOf(side.Opposite()).has {
          return MarketOnEmptyBook;
        }
      }
      return Accepted;
    }

    /** The only trace of the call is one more slot, taken off the free list, at the end of one queue. */
    ghost predicate RestedOnly(id: u32, side: Side, price: u32, free: seq<u32>, queues: seq<seq<u32>>,
                               oqueues: seq<seq<u32>>)
      reads this, pool, bids, asks
    {
      && cfg.minPrice <= price < cfg.minPrice + |queues| && free != []
      && pool.free == free[1..]
      && id < |orderMap| && orderMap[id] == free[0] < |pool.slots|
      && pool.slots[free[0]].side == side && pool.slots[free[0]].price == price
      && SideOf(side).queues == queues[price - cfg.minPrice := queues[price - cfg.minPrice] + [free[0]]]
      && SideOf(side.Opposite()).queues == oqueues
    }

    /** Matching a validated order and settling what is left of it. */
    method Execute(id: u32, kind: OrderType, price: u32, quantity: u32, side: Side)
      returns (code: RejectReason, filled: u32, trades: seq<Trade>)
      requires Valid() && !kind.Cancel? && Validate(cfg, Abs(), id, kind, price, quantity, side).Accepted?
      modifies this`orderMap, this`activeCount, pool, bids, asks
      ensures Consistent()
      ensures Outcome(Abs(), Reply(code, filled, trades)) == Submitted(cfg, old(Abs()), id, kind, price, quantity, side)
      ensures code.Accepted? && kind.Limit? && trades == [] ==>
                RestedOnly(id, side, price, old(pool.free), old(SideOf(side).queues),
                           old(SideOf(side.Opposite()).queues))
    {
      hide Core, Line, Match, Insert, HasId, Wf, Crosses, IndexInv, BestInv, WordCounts;
      var limit := ResolvedPrice(kind, price, side);
      ghost var b0 := Abs();
      ghost var off := MatchKeeps(cfg, b0, id, limit, quantity, side);
      LeftBound(side, id, limit, quantity, b0.On(side.Opposite()));
      var left;
      left, trades := MatchOrder(id, side, limit, quantity);
      filled := quantity - left;
      if left == 0 || kind.Market? {
        return Accepted, filled, trades;
      }
      MapAgrees(id);
      RestingIsCount();
      CoreGeometry();
      var x := RestOrder(id, side, limit, left);
      if x == INVALID_INDEX {
        return PoolExhausted, filled, trades;
      }
      return Accepted, filled, trades;
    }

    /** `add_order`: same code, fill, trades and resulting book as the price-time specification. */
    method AddOrder(id: u32, kind: OrderType, price: u32, quantity: u32, side: Side)
      returns (code: RejectReason, filled: u32, trades: seq<Trade>)
      requires Valid()
      modifies this`orderMap, this`activeCount, pool, bids, asks
      ensures Valid()
      ensures Outcome(Abs(), Reply(code, filled, trades)) == Submitted(cfg, old(Abs()), id, kind, price, quantity, side)
      ensures code.Accepted? && kind.Limit? && trades == [] ==>
                RestedOnly(id, side, price, old(pool.free), old(SideOf(side).queues),
                           old(SideOf(side.Opposite()).queues))
    {
      hide Core, Line, Match, Insert, Remove, HasId, Wf;
      SubmitKeeps(cfg, Abs(), id, kind, price, quantity, side);
      if kind.Cancel? {
        ghost var k;
        code, k := CancelOrder(id);
        return code, 0, [];
      }
      code := CheckOrder(id, kind, price, quantity, side);
      if !code.Accepted? {
        return code, 0, [];
      }
      code, filled, trades := Execute(id, kind, price, quantity, side);
    }

    // ----- introspection

    /** `price_level_count`: the number of distinct prices at which orders rest. */
    method PriceLevelCount(s: Side) returns (count: nat)
      requires Consistent()
      ensures count == |Prices(Line(s))|
    {
      hide SideInv, MapInv, PoolInv, Orders, Flat, BestInv, Describes, WordCounts;
      var side := SideOf(s);
      count := CountOccupied(side.words, Occupied(side.queues));
      PricesAreTicks(s, cfg.minPrice, pool.slots, pool.live, side.levels, side.queues);
    }

    lemma CoreGeometry()
      requires Core()
      ensures Geometry()
    {}

    lemma RestingIsCount()
      ensures Resting() == Abs().Count()
    {}

    /** One level and one queue for each tick. */
    lemma SameTicks(opp: BookSide)
      requires Core() && opp == SideOf(opp.side)
      ensures |opp.levels| == |opp.queues|
    {
      hide SideInv, MapInv, PoolInv, Flat, WordCounts;
    }

    /** The head leads to the second in the queue. */
    lemma HeadNext(opp: BookSide)
      requires Core() && opp == SideOf(opp.side) && opp.bestIdx < |opp.queues| && opp.queues[opp.bestIdx] != []
      ensures var q := opp.queues[opp.bestIdx];
              q[0] < |pool.slots| && pool.slots[q[0]].next == NextIn(q, 0, INVALID_INDEX)
    {
      hide WordCounts, SideInv, LevelInv, MapInv, PoolInv, Orders, Total, Flat, Distinct, QueueLinks, HomeIs;
      ghost var q := opp.queues[opp.bestIdx];
      QueueLive(opp.side, cfg.minPrice, pool.slots, pool.live, opp.levels, opp.queues, opp.bestIdx);
      LevelDistinct(pool.slots, opp.levels[opp.bestIdx], q);
      QueueAt(pool.slots, q, 0);
    }

    lemma HeadIsSlot(opp: BookSide, behind: PriceTime.Line)
      requires AtFront(opp, behind)
      ensures opp.levels[opp.bestIdx].head == opp.queues[opp.bestIdx][0] < |pool.slots|
                == |pool.live| <= MAX_POOL_CAPACITY
      ensures pool.live[opp.levels[opp.bestIdx].head]
      ensures opp.levels[opp.bestIdx].totalQuantity == Total(Front(opp))
      ensures opp.levels[opp.bestIdx].orderCount == |opp.queues[opp.bestIdx]|
      ensures Positive(Front(opp))
      ensures forall k :: 0 <= k < |Front(opp)| ==> Front(opp)[k].price == cfg.minPrice + opp.bestIdx
    {
      hide WordCounts, SideInv, LevelInv, MapInv, Orders, Total, Flat, Distinct, QueueLinks, HomeIs, FrontLine;
      var b := opp.bestIdx;
      QueueLive(opp.side, cfg.minPrice, pool.slots, pool.live, opp.levels, opp.queues, b);
      LevelDistinct(pool.slots, opp.levels[b], opp.queues[b]);
      QueuePrices(opp.side, cfg.minPrice, pool.slots, pool.live, opp.levels, opp.queues, b);
    }
  }

  lemma OccupiedAfter(s: Side, queues: seq<seq<u32>>, queues': seq<seq<u32>>, b: nat)
    requires b < |queues| && queues[b] != [] && queues' == queues[b := []]
    requires forall i: nat :: i in Occupied(queues) ==> !BetterTick(s, i, b)
    ensures Occupied(queues) == Occupied(queues') + {b}
    ensures forall i: nat :: i in Occupied(queues') ==> BetterTick(s, b, i)
  {}

  lemma NotQueued(live: seq<bool>, q: seq<u32>, x: u32)
    requires x < |live| && !live[x]
    requires forall k :: 0 <= k < |q| ==> q[k] < |live| && live[q[k]]
    ensures x !in q
  {}

  lemma OccupiedGrows(queues: seq<seq<u32>>, queues': seq<seq<u32>>, b: nat)
    requires b < |queues| == |queues'| && queues' == queues[b := queues'[b]] && queues'[b] != []
    ensures Occupied(queues') == Occupied(queues) + {b}
    ensures queues[b] != [] ==> b in Occupied(queues)
  {}

  lemma OccupiedShrinks(queues: seq<seq<u32>>, queues': seq<seq<u32>>, b: nat)
    requires b < |queues| == |queues'| && queues' == queues[b := queues'[b]] && queues[b] != []
    ensures b in Occupied(queues)
    ensures Occupied(queues') == if queues'[b] == [] then Occupied(queues) - {b} else Occupied(queues)
  {}

  lemma PoolKeptInQueue(slots: seq<Slot>, slots': seq<Slot>, live: seq<bool>, freeHead: u32, liveCount: nat,
                        free: seq<u32>, q: seq<u32>)
    requires PoolInv(slots, live, freeHead, liveCount, free) && |slots'| == |slots|
    requires forall k :: 0 <= k < |q| ==> q[k] < |live| && live[q[k]]
    requires forall j: u32 :: j < |slots| && j !in q ==> slots'[j] == slots[j]
    ensures PoolInv(slots', live, freeHead, liveCount, free)
  {}

  lemma DetachLevel(slots: seq<Slot>, slots': seq<Slot>, lv: PriceLevel, q: seq<u32>, k: nat)
    requires k < |q| && Distinct(q) && |slots'| == |slots| && LevelInv(slots, lv, Without(q, k))
    requires forall j: u32 :: j < |slots| && j != q[k] ==> slots'[j] == slots[j]
    ensures LevelInv(slots', lv, Without(q, k))
  {
    hide LevelInv, Distinct, Without;
    LevelDistinct(slots, lv, Without(q, k));
    WithoutLength(q, k);
    WithoutAbsent(q, k);
    LevelFrame(slots, slots', lv, Without(q, k));
  }

  /** Relinked around a slot, which was then freed. */
  lemma DroppedFrom(slots: seq<Slot>, live: seq<bool>, slots1: seq<Slot>, slots': seq<Slot>, live': seq<bool>,
                    q: seq<u32>, k: nat)
    requires |slots| == |live| == |slots1| == |slots'| == |live'| && k < |q| && InRange(|slots|, q) && Distinct(q)
    requires live' == live[q[k] := false]
    requires forall i :: 0 <= i < |q| && i != k ==> slots1[q[i]] == Relinked(slots, q, k, i)
    requires forall x: u32 :: x < |slots| && x !in q ==> slots1[x] == slots[x]
    requires forall x: u32 :: x < |slots| && x != q[k] ==> slots'[x] == slots1[x]
    ensures Dropped(slots, live, slots', live', q, k)
  {
    hide Relinked;
  }

  lemma AppendedAt(slots: seq<Slot>, live: seq<bool>, slots': seq<Slot>, live': seq<bool>, q: seq<u32>, x: u32)
    requires Appended(slots, live, slots', live', q, x)
    ensures x < |slots'|
  {}

  lemma DroppedIds(slots: seq<Slot>, live: seq<bool>, slots': seq<Slot>, live': seq<bool>, q: seq<u32>, k: nat)
    requires Dropped(slots, live, slots', live', q, k)
    ensures forall x: u32 :: x < |slots| && x != q[k] ==> slots'[x].id == slots[x].id
  {}

  lemma SameOccupied(queues: seq<seq<u32>>, queues': seq<seq<u32>>, b: nat)
    requires b < |queues| == |queues'| && queues[b] != [] && queues'[b] != [] && queues' == queues[b := queues'[b]]
    ensures Occupied(queues') == Occupied(queues)
  {}

  lemma LevelsEmptyIff(s: Side, minPrice: u32, slots: seq<Slot>, live: seq<bool>, levels: seq<PriceLevel>,
                       queues: seq<seq<u32>>)
    requires SideInv(s, minPrice, slots, live, levels, queues) && |slots| <= MAX_POOL_CAPACITY
    ensures |levels| == |queues|
    ensures forall i :: 0 <= i < |levels| ==> (levels[i].IsEmpty() <==> queues[i] == [])
  {}

  function Backwards(q: seq<u32>): seq<u32> {
    if q == [] then [] else Backwards(q[1..]) + [q[0]]
  }

  lemma {:induction false} BackwardsSnoc(q: seq<u32>, x: u32)
    ensures Backwards(q + [x]) == [x] + Backwards(q)
    decreases |q|
  {
    if q == [] {
      assert q + [x] == [x] && [x][1..] == [];
    } else {
      assert (q + [x])[1..] == q[1..] + [x];
      BackwardsSnoc(q[1..], x);
    }
  }

  lemma {:induction false} BackwardsHolds(q: seq<u32>, x: u32)
    ensures x in Backwards(q) <==> x in q
    decreases |q|
  {
    if q != [] {
      BackwardsHolds(q[1..], x);
    }
  }

  lemma BackwardsMembers(q: seq<u32>, free: seq<u32>)
    ensures Members(Backwards(q) + free) == Members(q + free)
  {
    hide Backwards;
    forall i: int ensures i in Members(Backwards(q) + free) <==> i in Members(q + free) {
      if 0 <= i <= 0xFFFF_FFFF {
        BackwardsHolds(q, i);
      }
    }
  }

  lemma StepStart(taker: u32, front: PriceTime.Line, q: seq<u32>)
    ensures q[0..] == q && front[0..] == front && WholeFills(taker, front[..0]) == []
    ensures forall free: seq<u32> :: Backwards(q[..0]) + free == free
  {}

  lemma OneStep(taker: u32, front: PriceTime.Line, q: seq<u32>, k: nat, free: seq<u32>)
    requires k < |q| == |front|
    ensures WholeFills(taker, front[..k + 1]) == WholeFills(taker, front[..k]) + [WholeFill(taker, front[k])]
    ensures Backwards(q[..k + 1]) + free == [q[k]] + (Backwards(q[..k]) + free)
    ensures q[k..][1..] == q[k + 1..] && front[k..][1..] == front[k + 1..]
  {
    assert front[..k + 1] == front[..k] + [front[k]];
    WholeFillsConcat(taker, front[..k], [front[k]]);
    assert [front[k]][1..] == [];
    assert q[..k + 1] == q[..k] + [q[k]];
    BackwardsSnoc(q[..k], q[k]);
  }

  lemma LastStep(taker: u32, front: PriceTime.Line, q: seq<u32>, k: nat)
    requires k + 1 == |q| == |front|
    ensures q[..k + 1] == q && front[..k + 1] == front && q[k..] == [q[k]]
    ensures WholeFills(taker, front[k..]) == [WholeFill(taker, front[k])]
  {}

  /** The distinct prices of a line. */
  ghost function Prices(line: PriceTime.Line): set<int> {
    set o | o in line :: o.price
  }

  ghost function Shifted(S: set<nat>, d: int): set<int> {
    set i | i in S :: d + i
  }

  lemma {:induction false} ShiftedSize(S: set<nat>, d: int)
    ensures |Shifted(S, d)| == |S|
    decreases |S|
  {
    if S != {} {
      var i :| i in S;
      ShiftedSize(S - {i}, d);
      forall x: int ensures x in Shifted(S, d) <==> x in Shifted(S - {i}, d) || x == d + i {
        if x in Shifted(S, d) && x != d + i {
          var j :| j in S && d + j == x;
          assert j in S - {i};
        }
      }
      assert Shifted(S, d) == Shifted(S - {i}, d) + {d + i};
    }
  }

  lemma PricesAreTicks(s: Side, minPrice: u32, slots: seq<Slot>, live: seq<bool>, levels: seq<PriceLevel>,
                       queues: seq<seq<u32>>)
    requires SideInv(s, minPrice, slots, live, levels, queues)
    ensures |Prices(Orders(slots, Flat<u32>(s, queues)))| == |Occupied(queues)|
  {
    hide LevelInv, Owned, Orders, Flat;
    var f := Flat<u32>(s, queues);
    var line := Orders(slots, f);
    forall p: int ensures p in Prices(line) <==> p in Shifted(Occupied(queues), minPrice) {
      if p in Prices(line) {
        var o :| o in line && o.price == p;
        var k :| 0 <= k < |line| && line[k] == o;
        FlatMembers<u32>(s, queues, f[k]);
        assert f[k] in f;
        var i :| 0 <= i < |queues| && f[k] in queues[i];
        QueueHome(s, minPrice, slots, live, levels, queues, i, f[k]);
        assert i in Occupied(queues);
      }
      if p in Shifted(Occupied(queues), minPrice) {
        var i: nat :| i in Occupied(queues) && p == minPrice + i;
        var x := queues[i][0];
        QueueHome(s, minPrice, slots, live, levels, queues, i, x);
        FlatMembers<u32>(s, queues, x);
        assert x in queues[i];
        var k :| 0 <= k < |f| && f[k] == x;
        assert line[k] in line;
      }
    }
    assert Prices(line) == Shifted(Occupied(queues), minPrice);
    ShiftedSize(Occupied(queues), minPrice);
  }

  lemma FillsCount(taker: u32, line: PriceTime.Line)
    ensures |WholeFills(taker, line)| == |line|
  {}

  /** A taker that eats its first maker but not the whole level leaves another maker. */
  lemma MoreMakers(line: PriceTime.Line, left: u32)
    requires line != [] && line[0].quantity <= left < Total(line)
    ensures |line| > 1
  {}

  lemma QueueRange(slots: seq<Slot>, q: seq<u32>)
    requires QueueLinks(slots, q)
    ensures InRange(|slots|, q)
    ensures forall i :: 0 < i < |q| ==> q[i] != q[0]
    ensures forall i :: 1 < i < |q| ==> q[i] != q[1]
  {}

  /** A live slot is the only one its id maps to. */
  lemma MapAt(slots: seq<Slot>, live: seq<bool>, orderMap: seq<u32>, x: u32)
    requires MapInv(slots, live, orderMap) && x < |slots| <= MAX_POOL_CAPACITY && live[x]
    ensures 0 < slots[x].id < |orderMap|
    ensures forall id :: 0 <= id < |orderMap| ==> (orderMap[id] == x <==> id == slots[x].id)
  {}

  lemma EmptySide(s: Side, minPrice: u32, slots: seq<Slot>, live: seq<bool>, levels: seq<PriceLevel>,
                  queues: seq<seq<u32>>)
    requires |levels| == |queues| && |slots| == |live|
    requires forall i :: 0 <= i < |queues| ==> queues[i] == [] && levels[i] == EMPTY_LEVEL
    requires forall x :: 0 <= x < |live| ==> !live[x]
    ensures SideInv(s, minPrice, slots, live, levels, queues)
    ensures Flat<u32>(s, queues) == [] && Orders(slots, Flat<u32>(s, queues)) == []
  {
    FlatEmpty<u32>(s, queues);
  }

  lemma OneFill(taker: u32, slots: seq<Slot>, q: seq<u32>)
    requires |q| == 1 && q[0] < |slots|
    ensures WholeFills(taker, Orders(slots, q)) == [WholeFill(taker, OrderOf(slots, q[0]))]
  {}

  lemma QueueIsChain(slots: seq<Slot>, live: seq<bool>, q: seq<u32>)
    requires |slots| == |live| && QueueLinks(slots, q) && q != []
    requires forall k :: 0 <= k < |q| ==> live[q[k]]
    ensures LiveChain(slots, live, q)
  {}

  lemma NoFillsYet(taker: u32, slots: seq<Slot>, q: seq<u32>)
    ensures WholeFills(taker, Orders(slots, q[..0])) == []
  {}

  /** Clearing one maker's entry extends the cleared prefix by one. */
  lemma ClearStep(slots: seq<Slot>, live: seq<bool>, map0: seq<u32>, map1: seq<u32>, q: seq<u32>, k: nat)
    requires MapInv(slots, live, map0) && |slots| <= MAX_POOL_CAPACITY && k < |q| && q[k] < |slots| && live[q[k]]
    requires |map1| == |map0|
    requires forall id :: 0 <= id < |map1| ==> map1[id] == if map0[id] in q[..k] then INVALID_INDEX else map0[id]
    ensures slots[q[k]].id < |map1|
    ensures var map2 := map1[slots[q[k]].id := INVALID_INDEX];
            forall id :: 0 <= id < |map2| ==> map2[id] == if map0[id] in q[..k + 1] then INVALID_INDEX else map0[id]
  {}

  lemma FillsStep(taker: u32, slots: seq<Slot>, q: seq<u32>, k: nat)
    requires k < |q| && InRange(|slots|, q)
    ensures q[..k + 1] == q[..k] + [q[k]]
    ensures WholeFills(taker, Orders(slots, q[..k + 1]))
         == WholeFills(taker, Orders(slots, q[..k]))
           + [Trade(slots[q[k]].id, taker, slots[q[k]].price, slots[q[k]].quantity)]
  {
    assert q[..k + 1] == q[..k] + [q[k]];
    OrdersConcat(slots, q[..k], [q[k]]);
    assert Orders(slots, [q[k]]) == [OrderOf(slots, q[k])];
    WholeFillsConcat(taker, Orders(slots, q[..k]), [OrderOf(slots, q[k])]);
    assert [OrderOf(slots, q[k])][1..] == [];
  }
}
