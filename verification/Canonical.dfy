/** The engine's redundant state is a function of very little: the queues, the free list and the resting orders
determine every level, link, bit, summary bit, best price, map entry and counter. */
module Canonical {
  import opened Types
  import opened Pigeonhole
  import opened Pool
  import opened PriceTime
  import opened MatchLaws
  import opened BookLaws
  import opened Ladder
  import opened Levels
  import opened PriceIndex
  import opened Sides
  import opened EngineState
  import opened Engine

  datatype SideState = SideState(levels: seq<PriceLevel>, words: seq<bv64>, summary: seq<bv64>,
                                 best: u32, bestIdx: nat, has: bool, queues: seq<seq<u32>>)

  /** Everything an engine holds. */
  datatype State = State(slots: seq<Slot>, live: seq<bool>, freeHead: u32, liveCount: nat, free: seq<u32>,
                         orderMap: seq<u32>, activeCount: nat, bids: SideState, asks: SideState) {
    function On(s: Side): SideState {
      if s.Buy? then bids else asks
    }

    ghost function Line(s: Side): PriceTime.Line {
      Orders(slots, Flat<u32>(s, On(s).queues))
    }
  }

  ghost predicate SideOk(cfg: Config, s: Side, slots: seq<Slot>, live: seq<bool>, side: SideState) {
    && SideInv(s, cfg.minPrice, slots, live, side.levels, side.queues)
    && WordCounts(|side.levels|, |side.words|, |side.summary|)
    && IndexInv(side.words, side.summary, Occupied(side.queues))
    && BestInv(s, cfg.minPrice, cfg.maxPrice, Occupied(side.queues), side.has, side.best, side.bestIdx)
  }

  ghost predicate StateOk(cfg: Config, a: State) {
    && |a.slots| == cfg.capacity && |a.orderMap| == cfg.maxOrderId + 1
    && PoolInv(a.slots, a.live, a.freeHead, a.liveCount, a.free)
    && MapInv(a.slots, a.live, a.orderMap)
    && SideOk(cfg, Buy, a.slots, a.live, a.bids) && SideOk(cfg, Sell, a.slots, a.live, a.asks)
    && a.activeCount == a.liveCount == |Flat<u32>(Buy, a.bids.queues)| + |Flat<u32>(Sell, a.asks.queues)|
  }

  ghost function SideStateOf(side: BookSide): SideState
    reads side
  {
    SideState(side.levels, side.words, side.summary, side.best, side.bestIdx, side.has, side.queues)
  }

  ghost function StateOf(book: OrderBook): State
    reads book, book.pool, book.bids, book.asks
  {
    State(book.pool.slots, book.pool.live, book.pool.freeHead, book.pool.liveCount, book.pool.free,
          book.orderMap, book.activeCount, SideStateOf(book.bids), SideStateOf(book.asks))
  }

  /** On a book of the right shape, the class invariant and the condition on the state are one. */
  lemma ConsistentIffOk(book: OrderBook)
    ensures book.Consistent() ==> book.Geometry()
    ensures book.Geometry() ==> (book.Consistent() <==> StateOk(book.cfg, StateOf(book)))
  {
    hide SideInv, IndexInv, BestInv, PoolInv, MapInv;
  }

  // ----- what is determined

  lemma LevelDetermined(slots: seq<Slot>, slots': seq<Slot>, lv: PriceLevel, lv': PriceLevel, q: seq<u32>)
    requires LevelInv(slots, lv, q) && LevelInv(slots', lv', q) && Orders(slots, q) == Orders(slots', q)
    ensures lv == lv'
  {}

  lemma LiveDetermined(a: State, b: State)
    requires PoolInv(a.slots, a.live, a.freeHead, a.liveCount, a.free)
    requires PoolInv(b.slots, b.live, b.freeHead, b.liveCount, b.free)
    requires Members(a.free) == Members(b.free) && |a.slots| == |b.slots|
    ensures a.live == b.live && a.liveCount == b.liveCount
  {
    forall i | 0 <= i < |a.live| ensures a.live[i] == b.live[i] {
      var x: u32 := i;
      assert a.live[x] <==> x !in a.free;
      assert b.live[x] <==> x !in b.free;
      assert x as int in Members(a.free) <==> x as int in Members(b.free);
    }
    DistinctCount(a.free);
    DistinctCount(b.free);
  }

  lemma FreeLinksDetermined(a: State, b: State)
    requires PoolInv(a.slots, a.live, a.freeHead, a.liveCount, a.free)
    requires PoolInv(b.slots, b.live, b.freeHead, b.liveCount, b.free)
    requires a.free == b.free && |a.slots| == |b.slots|
    ensures a.freeHead == b.freeHead
    ensures forall x: u32 :: x < |a.slots| && !a.live[x] ==> a.slots[x].next == b.slots[x].next
  {}

  /** Same line over the same queues: same orders in every queue. */
  lemma QueueOrdersSame(s: Side, queues: seq<seq<u32>>, slots: seq<Slot>, slots': seq<Slot>, i: nat)
    requires i < |queues| && Orders(slots, Flat<u32>(s, queues)) == Orders(slots', Flat<u32>(s, queues))
    ensures Orders(slots, queues[i]) == Orders(slots', queues[i])
  {
    hide Flat, Orders;
    var f := Flat<u32>(s, queues);
    var q := queues[i];
    forall k | 0 <= k < |q| ensures OrderOf(slots, q[k]) == OrderOf(slots', q[k]) {
      FlatMembers<u32>(s, queues, q[k]);
      assert q[k] in queues[i];
      var j :| 0 <= j < |f| && f[j] == q[k];
      assert Orders(slots, f)[j] == Orders(slots', f)[j];
    }
  }

  lemma SlotDetermined(s: Side, price: int, slots: seq<Slot>, slots': seq<Slot>, live: seq<bool>, lv: PriceLevel,
                       lv': PriceLevel, q: seq<u32>, x: u32)
    requires LevelInv(slots, lv, q) && LevelInv(slots', lv', q) && Orders(slots, q) == Orders(slots', q)
    requires |slots| == |slots'|
    requires Owned(s, price, slots, live, q) && Owned(s, price, slots', live, q) && x in q
    ensures x < |slots| && slots[x] == slots'[x]
  {
    hide Distinct, Total, Orders;
    var k :| 0 <= k < |q| && q[k] == x;
    assert HomeIs(s, price, slots, live, q[k]) && HomeIs(s, price, slots', live, q[k]);
    assert slots[q[k]].next == NextIn(q, k, INVALID_INDEX) && slots'[q[k]].next == NextIn(q, k, INVALID_INDEX);
    assert slots[q[k]].prev == PrevIn(q, k) && slots'[q[k]].prev == PrevIn(q, k);
    assert OrderOf(slots, q[k]) == Orders(slots, q)[k] == Orders(slots', q)[k];
  }

  lemma SideDetermined(cfg: Config, s: Side, slots: seq<Slot>, slots': seq<Slot>, live: seq<bool>, side: SideState,
                       side': SideState)
    requires SideOk(cfg, s, slots, live, side) && SideOk(cfg, s, slots', live, side') && side.queues == side'.queues
    requires Orders(slots, Flat<u32>(s, side.queues)) == Orders(slots', Flat<u32>(s, side.queues))
    requires |slots| == |slots'| == |live|
    ensures side == side'
    ensures forall x: u32 :: x < |slots| && live[x] && slots[x].side == s ==> slots[x] == slots'[x]
  {
    hide LevelInv, Flat, Orders, Owned, IndexInv, BestInv, Occupied;
    forall i | 0 <= i < |side.levels| ensures side.levels[i] == side'.levels[i] {
      QueueOrdersSame(s, side.queues, slots, slots', i);
      LevelDetermined(slots, slots', side.levels[i], side'.levels[i], side.queues[i]);
    }
    assert side.levels == side'.levels;
    IndexDetermined(side.words, side.summary, side'.words, side'.summary, Occupied(side.queues));
    BestDetermined(s, cfg.minPrice, cfg.maxPrice, Occupied(side.queues), side.has, side.best, side.bestIdx, side'.has,
                   side'.best, side'.bestIdx);
    forall x: u32 | x < |slots| && live[x] && slots[x].side == s ensures slots[x] == slots'[x] {
      assert Queued(cfg.minPrice, slots, side.queues, x);
      var i := slots[x].price - cfg.minPrice;
      QueueOrdersSame(s, side.queues, slots, slots', i);
      SlotDetermined(s, cfg.minPrice + i, slots, slots', live, side.levels[i], side'.levels[i], side.queues[i], x);
    }
  }

  lemma MapDetermined(slots: seq<Slot>, slots': seq<Slot>, live: seq<bool>, orderMap: seq<u32>, orderMap': seq<u32>)
    requires MapInv(slots, live, orderMap) && MapInv(slots', live, orderMap') && |orderMap| == |orderMap'|
    requires |slots| == |slots'|
    requires forall x: u32 :: x < |slots| && live[x] ==> slots[x].id == slots'[x].id
    ensures orderMap == orderMap'
  {}

  /** Equal in every field, except for the payload of slots that are free. */
  ghost predicate SameState(a: State, b: State) {
    && a.(slots := b.slots) == b && |a.slots| == |a.live| == |b.slots|
    && (forall x: u32 :: x < |a.slots| && a.live[x] ==> a.slots[x] == b.slots[x])
    && (forall x: u32 :: x < |a.slots| ==> a.slots[x].next == b.slots[x].next)
  }

  /** Equal in everything but the free list, which holds the same slots in another order. */
  ghost predicate SameButFreeOrder(a: State, b: State) {
    && a.(slots := b.slots, freeHead := b.freeHead, free := b.free) == b && |a.slots| == |a.live| == |b.slots|
    && (forall x: u32 :: x < |a.slots| && a.live[x] ==> a.slots[x] == b.slots[x])
    && Members(a.free) == Members(b.free)
  }

  /** Two consistent states with the same queues, resting orders and set of free slots differ at most in the order of
      the free list: the bulk path and the one-by-one path end in the same levels, bits, best prices, map
      and counters. */
  lemma SameUpToFreeOrder(cfg: Config, a: State, b: State)
    requires StateOk(cfg, a) && StateOk(cfg, b)
    requires Members(a.free) == Members(b.free) && a.bids.queues == b.bids.queues && a.asks.queues == b.asks.queues
    requires a.Line(Buy) == b.Line(Buy) && a.Line(Sell) == b.Line(Sell)
    ensures SameButFreeOrder(a, b)
  {
    hide SideOk, MapInv, PoolInv, Flat, Orders;
    LiveDetermined(a, b);
    PoolSizes(a.slots, a.live, a.freeHead, a.liveCount, a.free);
    SideDetermined(cfg, Buy, a.slots, b.slots, a.live, a.bids, b.bids);
    SideDetermined(cfg, Sell, a.slots, b.slots, a.live, a.asks, b.asks);
    assert forall x: u32 :: x < |a.slots| && a.live[x] ==> a.slots[x] == b.slots[x];
    MapDetermined(a.slots, b.slots, a.live, a.orderMap, b.orderMap);
  }

  /** Two consistent states with the same queues, resting orders and free list are the same state. */
  lemma RepresentationIsCanonical(cfg: Config, a: State, b: State)
    requires StateOk(cfg, a) && StateOk(cfg, b)
    requires a.free == b.free && a.bids.queues == b.bids.queues && a.asks.queues == b.asks.queues
    requires a.Line(Buy) == b.Line(Buy) && a.Line(Sell) == b.Line(Sell)
    ensures SameState(a, b)
  {
    hide SideOk, MapInv, PoolInv, Flat, Orders;
    SameUpToFreeOrder(cfg, a, b);
    FreeLinksDetermined(a, b);
  }

  // ----- adding and cancelling

  lemma RemoveUndoesInsert(s: Side, line: PriceTime.Line, o: Order)
    requires !HasId(line, o.id)
    ensures Remove(Insert(s, line, o), o.id) == line && HasId(Insert(s, line, o), o.id)
  {}

  /** In the specification, cancelling an order that rested untouched undoes it. */
  lemma CancelUndoesRest(cfg: Config, b: Book, id: u32, price: u32, quantity: u32, side: Side)
    requires Wf(cfg, b)
    requires var out := Submitted(cfg, b, id, Limit, price, quantity, side);
             out.reply.code.Accepted? && out.reply.trades == []
    ensures Cancelled(cfg, Submitted(cfg, b, id, Limit, price, quantity, side).book, id)
              == Outcome(b, Reply(Accepted, 0, []))
  {
    hide Match, Insert, Remove, HasId, Wf, Crosses;
    var off := MatchKeeps(cfg, b, id, price, quantity, side);
    RemoveUndoesInsert(side, b.On(side), Order(id, price, quantity));
  }

  lemma WithoutAppended(q: seq<u32>, x: u32, k: nat)
    requires Distinct(q + [x]) && k < |q + [x]| && (q + [x])[k] == x
    ensures Without(q + [x], k) == q
  {
    assert (q + [x])[|q|] == x;
  }

  lemma QueueDistinct(cfg: Config, a: State, s: Side, i: nat)
    requires StateOk(cfg, a) && i < |a.On(s).queues|
    ensures Distinct(a.On(s).queues[i])
  {
    hide Flat, Orders, IndexInv, BestInv, PoolInv, MapInv;
    assert LevelInv(a.slots, a.On(s).levels[i], a.On(s).queues[i]);
  }

  lemma BestSide(book: OrderBook, s: Side)
    requires book.Consistent() && book.SideOf(s).has
    ensures book.bids != book.asks && book.SideOf(s).side == s && book.SideOf(s).bestIdx < |book.SideOf(s).queues|
  {
    hide SideInv, MapInv, PoolInv, IndexInv, Flat;
  }

  /** Two books in the same state consume their best level, one in bulk and one maker by maker: same trades, and the
      same state but for the order of the free list. */
  method PathsAgree(a: OrderBook, b: OrderBook, taker: u32, s: Side) returns (bulk: seq<Trade>, single: seq<Trade>)
    requires a != b && a.pool != b.pool && a.bids != b.bids && a.bids != b.asks && a.asks != b.bids && a.asks != b.asks
    requires a.cfg == b.cfg && StateOf(a) == StateOf(b)
    requires a.Consistent() && b.Consistent() && a.SideOf(s).has
    modifies a`orderMap, a`activeCount, a.pool, a.SideOf(s), b`orderMap, b`activeCount, b.pool, b.SideOf(s)
    ensures a.Consistent() && b.Consistent() && bulk == single
    ensures SameButFreeOrder(StateOf(a), StateOf(b))
    ensures b.pool.free == old(Backwards(b.SideOf(s).queues[b.SideOf(s).bestIdx]) + b.pool.free)
    ensures a.pool.free == old(a.SideOf(s).queues[a.SideOf(s).bestIdx] + a.pool.free)
  {
    hide OrderBook.Core, Flat, Orders, IndexInv, BestInv, StateOk, SameButFreeOrder, WholeFills, WordCounts, Backwards,
      Members;
    BestSide(a, s);
    BestSide(b, s);
    ghost var q, free := a.SideOf(s).queues[a.SideOf(s).bestIdx], a.pool.free;
    ghost var behindA := a.BestIsFront(a.SideOf(s));
    ghost var behindB := b.BestIsFront(b.SideOf(s));
    var levelQty;
    levelQty, bulk := a.SweepLevel(taker, a.SideOf(s), behindA);
    single := b.SweepOneByOne(taker, b.SideOf(s), behindB);
    ConsistentIffOk(a);
    ConsistentIffOk(b);
    BackwardsMembers(q, free);
    SameUpToFreeOrder(a.cfg, StateOf(a), StateOf(b));
  }

  /** An order that rests without trading and is then cancelled leaves no trace: every queue, link, bit, summary bit,
      best price, map entry and counter is back, and so is the exact free list. */
  method AddThenCancel(book: OrderBook, id: u32, price: u32, quantity: u32, side: Side)
    returns (added: RejectReason, trades: seq<Trade>, cancelled: RejectReason)
    requires book.Valid()
    modifies book`orderMap, book`activeCount, book.pool, book.bids, book.asks
    ensures book.Consistent()
    ensures added.Accepted? && trades == [] ==> cancelled.Accepted? && SameState(old(StateOf(book)), StateOf(book))
  {
    hide OrderBook.Core, Match, Insert, Remove, HasId, Wf, Flat, Orders, IndexInv, BestInv, StateOk, SameState, Without,
      Distinct;
    ghost var s0, b0 := StateOf(book), book.Abs();
    ConsistentIffOk(book);
    var filled;
    added, filled, trades := book.AddOrder(id, Limit, price, quantity, side);
    ghost var s1 := StateOf(book);
    ConsistentIffOk(book);
    ghost var k;
    cancelled, k := book.CancelOrder(id);
    ghost var s2 := StateOf(book);
    ConsistentIffOk(book);
    if added.Accepted? && trades == [] {
      CancelUndoesRest(book.cfg, b0, id, price, quantity, side);
      ghost var i := price - book.cfg.minPrice;
      QueueDistinct(book.cfg, s1, side, i);
      WithoutAppended(s0.On(side).queues[i], s0.free[0], k);
      assert s2.On(side).queues == s0.On(side).queues;
      assert s2.free == s0.free;
      RepresentationIsCanonical(book.cfg, s0, s2);
    }
  }
}
