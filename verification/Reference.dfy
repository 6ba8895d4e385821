/** The reference book: on each side a map from price to queue, matched maker by maker. */
module Reference {
  import opened Types
  import opened PriceTime
  import opened MatchLaws
  import opened BookLaws
  import opened Ladder
  import opened EngineState

  type Levels = map<u32, Line>

  /** Both sides' maps. */
  datatype Queues = Queues(bids: Levels, asks: Levels) {
    function On(s: Side): Levels {
      if s.Buy? then bids else asks
    }

    function With(s: Side, m: Levels): Queues {
      if s.Buy? then this.(bids := m) else this.(asks := m)
    }
  }

  // ----- a map of queues as a ladder

  ghost function Rung(m: Levels, p: int): Line {
    if p in m then m[p] else []
  }

  /** The map read as a ladder of `ticks` queues starting at price `lo`. */
  ghost function Rungs(m: Levels, lo: u32, ticks: nat): (r: seq<Line>)
    ensures |r| == ticks
    ensures forall i :: 0 <= i < ticks ==> r[i] == Rung(m, lo + i)
  {
    seq(ticks, i requires 0 <= i < ticks => Rung(m, lo + i))
  }

  ghost function LineOf(s: Side, m: Levels, lo: u32, ticks: nat): Line {
    Flat<Order>(s, Rungs(m, lo, ticks))
  }

  /** Replacing the queue at one price replaces that rung. */
  lemma RungsUpdate(m: Levels, m': Levels, lo: u32, ticks: nat, p: u32, q: Line)
    requires lo <= p < lo + ticks && Rung(m', p) == q
    requires forall x: u32 :: x != p ==> Rung(m', x) == Rung(m, x)
    requires forall x: u32 :: x in m ==> lo <= x < lo + ticks
    ensures Rungs(m', lo, ticks) == Rungs(m, lo, ticks)[p - lo := q]
  {}

  lemma LineUpdated(s: Side, m: Levels, m': Levels, lo: u32, ticks: nat, p: u32, q: Line)
    requires lo <= p < lo + ticks && Rung(m', p) == q
    requires forall x: u32 :: x != p ==> Rung(m', x) == Rung(m, x)
    requires forall x: u32 :: x in m ==> lo <= x < lo + ticks
    ensures var r := Rungs(m, lo, ticks);
            && LineOf(s, m, lo, ticks) == Ahead<Order>(s, r, p - lo) + Rung(m, p) + Behind<Order>(s, r, p - lo)
            && LineOf(s, m', lo, ticks) == Ahead<Order>(s, r, p - lo) + q + Behind<Order>(s, r, p - lo)
  {
    hide Rungs, Flat, Ahead, Behind;
    RungsUpdate(m, m', lo, ticks, p, q);
    FlatSplit<Order>(s, Rungs(m, lo, ticks), p - lo);
    FlatUpdate<Order>(s, Rungs(m, lo, ticks), p - lo, q);
  }

  /** At the best price nothing is ahead. */
  lemma BestAhead(s: Side, m: Levels, lo: u32, ticks: nat, p: u32)
    requires lo <= p < lo + ticks && forall x: u32 :: x in m ==> !Beats(s, x, p)
    ensures Ahead<Order>(s, Rungs(m, lo, ticks), p - lo) == []
  {
    hide Rungs, Flat, Behind;
    var r := Rungs(m, lo, ticks);
    forall i | 0 <= i < |r| && BetterTick(s, i, p - lo) ensures r[i] == [] {
      if lo + i <= 0xFFFF_FFFF {
        var x: u32 := lo + i;
        assert x in m ==> !Beats(s, x, p);
      }
    }
    FlatFront<Order>(s, r, p - lo);
  }

  // ----- the invariant

  ghost predicate Registered(orderMap: map<u32, u32>, sideMap: map<u32, Side>, id: u32, p: u32, s: Side) {
    id in orderMap && orderMap[id] == p && id in sideMap && sideMap[id] == s
  }

  ghost predicate QueueOk(s: Side, p: u32, q: Line, orderMap: map<u32, u32>, sideMap: map<u32, Side>) {
    && UniqueIds(q)
    && forall k :: 0 <= k < |q| ==> q[k].price == p && q[k].quantity > 0 && Registered(orderMap, sideMap, q[k].id, p, s)
  }

  ghost predicate SideAgrees(s: Side, m: Levels, lo: u32, hi: u32, orderMap: map<u32, u32>, sideMap: map<u32, Side>) {
    forall p: u32 :: p in m ==> lo <= p <= hi && QueueOk(s, p, m[p], orderMap, sideMap)
  }

  ghost predicate FoundAt(qs: Queues, orderMap: map<u32, u32>, sideMap: map<u32, Side>, id: u32) {
    && id in orderMap && id in sideMap
    && orderMap[id] in qs.On(sideMap[id])
    && HasId(qs.On(sideMap[id])[orderMap[id]], id)
  }

  /** Queues, order map and side map agree. */
  ghost predicate RefInv(qs: Queues, lo: u32, hi: u32, orderMap: map<u32, u32>, sideMap: map<u32, Side>) {
    && SideAgrees(Buy, qs.bids, lo, hi, orderMap, sideMap) && SideAgrees(Sell, qs.asks, lo, hi, orderMap, sideMap)
    && orderMap.Keys == sideMap.Keys
    && forall id: u32 :: id in orderMap ==> FoundAt(qs, orderMap, sideMap, id)
  }

  /** No price is kept without orders. */
  ghost predicate NoEmptyQueue(m: Levels) {
    forall p: u32 :: p in m ==> m[p] != []
  }

  lemma SideIsAgreed(s: Side, qs: Queues, lo: u32, hi: u32, orderMap: map<u32, u32>, sideMap: map<u32, Side>)
    requires RefInv(qs, lo, hi, orderMap, sideMap)
    ensures SideAgrees(s, qs.On(s), lo, hi, orderMap, sideMap)
  {}

  lemma RefFrom(s: Side, qs: Queues, lo: u32, hi: u32, orderMap: map<u32, u32>, sideMap: map<u32, Side>)
    requires SideAgrees(s, qs.On(s), lo, hi, orderMap, sideMap)
    requires SideAgrees(s.Opposite(), qs.On(s.Opposite()), lo, hi, orderMap, sideMap)
    requires orderMap.Keys == sideMap.Keys && forall id: u32 :: id in orderMap ==> FoundAt(qs, orderMap, sideMap, id)
    ensures RefInv(qs, lo, hi, orderMap, sideMap)
  {}

  /** Erasing an id that a queue does not hold leaves the queue registered. */
  lemma EraseOther(s: Side, p: u32, q: Line, orderMap: map<u32, u32>, sideMap: map<u32, Side>, id: u32)
    requires QueueOk(s, p, q, orderMap, sideMap) && !HasId(q, id)
    ensures QueueOk(s, p, q, orderMap - {id}, sideMap - {id})
  {}

  lemma NotElsewhere(s: Side, p: u32, q: Line, orderMap: map<u32, u32>, sideMap: map<u32, Side>, id: u32)
    requires QueueOk(s, p, q, orderMap, sideMap)
    requires id in orderMap && id in sideMap && (orderMap[id] != p || sideMap[id] != s)
    ensures !HasId(q, id)
  {}

  /** Erasing one order: its queue shrinks to `q'`, which holds the same ids but that one; everything else stands. */
  lemma EraseKeeps(s: Side, qs: Queues, lo: u32, hi: u32, orderMap: map<u32, u32>, sideMap: map<u32, Side>, p: u32,
                   q': Line, id: u32)
    requires RefInv(qs, lo, hi, orderMap, sideMap) && p in qs.On(s)
    requires Registered(orderMap, sideMap, id, p, s)
    requires QueueOk(s, p, q', orderMap - {id}, sideMap - {id})
    requires forall x: u32 :: HasId(qs.On(s)[p], x) && x != id ==> HasId(q', x)
    ensures RefInv(qs.With(s, qs.On(s)[p := q']), lo, hi, orderMap - {id}, sideMap - {id})
  {
    hide QueueOk, HasId;
    var om, sm := orderMap - {id}, sideMap - {id};
    var qs' := qs.With(s, qs.On(s)[p := q']);
    SideIsAgreed(s, qs, lo, hi, orderMap, sideMap);
    SideIsAgreed(s.Opposite(), qs, lo, hi, orderMap, sideMap);
    forall x: u32 | x in qs'.On(s) ensures lo <= x <= hi && QueueOk(s, x, qs'.On(s)[x], om, sm) {
      if x != p {
        NotElsewhere(s, x, qs.On(s)[x], orderMap, sideMap, id);
        EraseOther(s, x, qs.On(s)[x], orderMap, sideMap, id);
      }
    }
    var t := s.Opposite();
    forall x: u32 | x in qs'.On(t) ensures lo <= x <= hi && QueueOk(t, x, qs'.On(t)[x], om, sm) {
      NotElsewhere(t, x, qs.On(t)[x], orderMap, sideMap, id);
      EraseOther(t, x, qs.On(t)[x], orderMap, sideMap, id);
    }
    forall x: u32 | x in om ensures FoundAt(qs', om, sm, x) {
      assert FoundAt(qs, orderMap, sideMap, x);
    }
    RefFrom(s, qs', lo, hi, om, sm);
  }

  /** A queue without its `k`-th order. */
  lemma QueueErase(s: Side, p: u32, q: Line, orderMap: map<u32, u32>, sideMap: map<u32, Side>, k: nat)
    requires QueueOk(s, p, q, orderMap, sideMap) && k < |q|
    ensures var id := q[k].id;
            var q' := q[..k] + q[k + 1..];
            && Registered(orderMap, sideMap, id, p, s)
            && QueueOk(s, p, q', orderMap - {id}, sideMap - {id})
            && forall x: u32 :: HasId(q, x) && x != id ==> HasId(q', x)
  {
    var id := q[k].id;
    var q' := q[..k] + q[k + 1..];
    var om, sm := orderMap - {id}, sideMap - {id};
    assert Registered(orderMap, sideMap, q[k].id, p, s);
    forall i | 0 <= i < |q'|
      ensures q'[i].price == p && q'[i].quantity > 0 && Registered(om, sm, q'[i].id, p, s)
    {
      var j := if i < k then i else i + 1;
      assert q'[i] == q[j] && q[j].id != id;
      assert Registered(orderMap, sideMap, q[j].id, p, s);
    }
    forall i, j | 0 <= i < j < |q'| ensures q'[i].id != q'[j].id {
      var i0, j0 := if i < k then i else i + 1, if j < k then j else j + 1;
      assert q[i0].id != q[j0].id;
    }
    forall x: u32 | HasId(q, x) && x != id ensures HasId(q', x) {
      var i :| 0 <= i < |q| && q[i].id == x;
      assert q'[if i < k then i else i - 1].id == x;
    }
  }

  /** Same ids, same price, new quantities: the book stands. */
  lemma RequeueKeeps(s: Side, qs: Queues, lo: u32, hi: u32, orderMap: map<u32, u32>, sideMap: map<u32, Side>, p: u32,
                     q': Line)
    requires RefInv(qs, lo, hi, orderMap, sideMap) && p in qs.On(s)
    requires QueueOk(s, p, q', orderMap, sideMap) && forall x: u32 :: HasId(qs.On(s)[p], x) ==> HasId(q', x)
    ensures RefInv(qs.With(s, qs.On(s)[p := q']), lo, hi, orderMap, sideMap)
  {
    hide QueueOk, HasId;
    var qs' := qs.With(s, qs.On(s)[p := q']);
    SideIsAgreed(s, qs, lo, hi, orderMap, sideMap);
    SideIsAgreed(s.Opposite(), qs, lo, hi, orderMap, sideMap);
    forall x: u32 | x in orderMap ensures FoundAt(qs', orderMap, sideMap, x) {
      assert FoundAt(qs, orderMap, sideMap, x);
    }
    RefFrom(s, qs', lo, hi, orderMap, sideMap);
  }

  lemma QueueShrink(s: Side, p: u32, q: Line, orderMap: map<u32, u32>, sideMap: map<u32, Side>, d: u32)
    requires QueueOk(s, p, q, orderMap, sideMap) && q != [] && d < q[0].quantity
    ensures var q' := [q[0].(quantity := q[0].quantity - d)] + q[1..];
            QueueOk(s, p, q', orderMap, sideMap) && forall x: u32 :: HasId(q, x) ==> HasId(q', x)
  {
    var q' := [q[0].(quantity := q[0].quantity - d)] + q[1..];
    assert forall i :: 0 <= i < |q| ==> q'[i].id == q[i].id && q'[i].price == q[i].price && q'[i].quantity > 0;
    forall x: u32 | HasId(q, x) ensures HasId(q', x) {
      var i :| 0 <= i < |q| && q[i].id == x;
      assert q'[i].id == x;
    }
  }

  /** An emptied queue can leave the map. */
  lemma ForgetKeeps(s: Side, qs: Queues, lo: u32, hi: u32, orderMap: map<u32, u32>, sideMap: map<u32, Side>, p: u32)
    requires RefInv(qs, lo, hi, orderMap, sideMap) && p in qs.On(s) && qs.On(s)[p] == []
    ensures RefInv(qs.With(s, qs.On(s) - {p}), lo, hi, orderMap, sideMap)
  {
    hide QueueOk;
    var qs' := qs.With(s, qs.On(s) - {p});
    SideIsAgreed(s, qs, lo, hi, orderMap, sideMap);
    SideIsAgreed(s.Opposite(), qs, lo, hi, orderMap, sideMap);
    forall x: u32 | x in orderMap ensures FoundAt(qs', orderMap, sideMap, x) {
      assert FoundAt(qs, orderMap, sideMap, x);
    }
    RefFrom(s, qs', lo, hi, orderMap, sideMap);
  }

  lemma RegisterOther(s: Side, p: u32, q: Line, orderMap: map<u32, u32>, sideMap: map<u32, Side>, id: u32, p': u32,
                      s': Side)
    requires QueueOk(s, p, q, orderMap, sideMap) && id !in orderMap
    ensures QueueOk(s, p, q, orderMap[id := p'], sideMap[id := s']) && !HasId(q, id)
  {}

  lemma QueueAppend(s: Side, p: u32, q: Line, orderMap: map<u32, u32>, sideMap: map<u32, Side>, o: Order)
    requires QueueOk(s, p, q, orderMap, sideMap) && !HasId(q, o.id)
    requires o.price == p && o.quantity > 0 && Registered(orderMap, sideMap, o.id, p, s)
    ensures QueueOk(s, p, q + [o], orderMap, sideMap) && HasId(q + [o], o.id)
    ensures forall x: u32 :: HasId(q, x) ==> HasId(q + [o], x)
  {
    var q' := q + [o];
    forall x: u32 | HasId(q, x) ensures HasId(q', x) {
      var i :| 0 <= i < |q| && q[i].id == x;
      assert q'[i].id == x;
    }
    assert q'[|q|].id == o.id;
  }

  /** Resting a new order. */
  lemma PushKeeps(s: Side, qs: Queues, lo: u32, hi: u32, orderMap: map<u32, u32>, sideMap: map<u32, Side>, o: Order)
    requires RefInv(qs, lo, hi, orderMap, sideMap) && o.id !in orderMap && o.quantity > 0 && lo <= o.price <= hi
    ensures RefInv(qs.With(s, qs.On(s)[o.price := Rung(qs.On(s), o.price) + [o]]), lo, hi, orderMap[o.id := o.price],
              sideMap[o.id := s])
  {
    hide HasId, UniqueIds;
    var p := o.price;
    var om, sm := orderMap[o.id := p], sideMap[o.id := s];
    var q := Rung(qs.On(s), p);
    var qs' := qs.With(s, qs.On(s)[p := q + [o]]);
    SideIsAgreed(s, qs, lo, hi, orderMap, sideMap);
    SideIsAgreed(s.Opposite(), qs, lo, hi, orderMap, sideMap);
    EmptyQueueOk(s, p, orderMap, sideMap);
    RegisterOther(s, p, q, orderMap, sideMap, o.id, p, s);
    QueueAppend(s, p, q, om, sm, o);
    hide QueueOk;
    forall x: u32 | x in qs'.On(s) ensures lo <= x <= hi && QueueOk(s, x, qs'.On(s)[x], om, sm) {
      if x != p {
        RegisterOther(s, x, qs.On(s)[x], orderMap, sideMap, o.id, p, s);
      }
    }
    var t := s.Opposite();
    forall x: u32 | x in qs'.On(t) ensures lo <= x <= hi && QueueOk(t, x, qs'.On(t)[x], om, sm) {
      RegisterOther(t, x, qs.On(t)[x], orderMap, sideMap, o.id, p, s);
    }
    forall x: u32 | x in om ensures FoundAt(qs', om, sm, x) {
      if x != o.id {
        assert FoundAt(qs, orderMap, sideMap, x);
      }
    }
    RefFrom(s, qs', lo, hi, om, sm);
  }

  lemma EmptyQueueOk(s: Side, p: u32, orderMap: map<u32, u32>, sideMap: map<u32, Side>)
    ensures QueueOk(s, p, [], orderMap, sideMap)
    ensures forall x: u32 :: !HasId([], x)
  {}

  /** `begin()` of an ordered map: lowest key first for asks, highest first for bids. */
  method Begin(s: Side, m: Levels) returns (p: u32)
    requires m != map[]
    ensures p in m && forall x: u32 :: x in m ==> !Beats(s, x, p)
  {
    assert m.Keys != {};
    p :| p in m.Keys;
    var rest := m.Keys - {p};
    while rest != {}
      invariant p in m.Keys && rest <= m.Keys
      invariant forall x: u32 :: x in m.Keys && x !in rest ==> !Beats(s, x, p)
      decreases |rest|
    {
      var x :| x in rest;
      if Beats(s, x, p) {
        p := x;
      }
      rest := rest - {x};
    }
  }

  class StdOrderBook {
    const cfg: Config
    var bids: Levels
    var asks: Levels
    var orderMap: map<u32, u32>
    var sideMap: map<u32, Side>
    var liveCount: nat

    ghost function Both(): Queues
      reads this
    {
      Queues(bids, asks)
    }

    /** The priority line a side stands for. */
    ghost function SideLine(s: Side): Line
      reads this
    {
      LineOf(s, Both().On(s), cfg.minPrice, cfg.Ticks())
    }

    ghost function Abs(): Book
      reads this
    {
      Book(SideLine(Buy), SideLine(Sell))
    }

    ghost predicate Agrees()
      reads this
    {
      RefInv(Both(), cfg.minPrice, cfg.maxPrice, orderMap, sideMap)
    }

    ghost predicate Consistent()
      reads this
    {
      && Agrees() && NoEmptyQueue(bids) && NoEmptyQueue(asks)
      && liveCount == Abs().Count()
    }

    constructor (maxOrderId: nat, maxActiveOrders: nat, minPrice: u32, maxPrice: u32)
      ensures cfg == Config(maxOrderId, maxActiveOrders, minPrice, maxPrice)
      ensures Consistent() && Abs() == EMPTY_BOOK
    {
      cfg := Config(maxOrderId, maxActiveOrders, minPrice, maxPrice);
      bids, asks, orderMap, sideMap := map[], map[], map[], map[];
      liveCount := 0;
      new;
      FlatEmpty<Order>(Buy, Rungs(map[], minPrice, cfg.Ticks()));
      FlatEmpty<Order>(Sell, Rungs(map[], minPrice, cfg.Ticks()));
    }

    method Put(s: Side, m: Levels)
      modifies this`bids, this`asks
      ensures Both() == old(Both()).With(s, m)
    {
      if s.Buy? {
        bids := m;
      } else {
        asks := m;
      }
    }

    /** One turn of the inner loop: the taker trades with the first order of the queue at `p`. */
    method TradeHead(t: Side, taker: u32, left: u32, p: u32) returns (left': u32, trade: Trade)
      requires Agrees() && p in Both().On(t) && Both().On(t)[p] != [] && left > 0 && liveCount > 0
      modifies this
      ensures Agrees() && left' < left
      ensures var q := old(Both().On(t)[p]);
              && trade.makerId == q[0].id && trade.takerId == taker && trade.price == q[0].price && q[0].price == p
              && (left < q[0].quantity ==>
                    && trade.quantity == left && left' == 0 && liveCount == old(liveCount)
                    && var q' := [q[0].(quantity := q[0].quantity - left)] + q[1..];
                       Both() == old(Both()).With(t, old(Both().On(t))[p := q']))
              && (left >= q[0].quantity ==>
                    && trade.quantity == q[0].quantity && left' == left - q[0].quantity
                      && liveCount == old(liveCount) - 1
                    && Both() == old(Both()).With(t, old(Both().On(t))[p := q[1..]]))
    {
      hide HasId, UniqueIds;
      var m := if t.Buy? then bids else asks;
      var q := m[p];
      ghost var qs := Both();
      SideIsAgreed(t, qs, cfg.minPrice, cfg.maxPrice, orderMap, sideMap);
      var quantity := if left < q[0].quantity then left else q[0].quantity;
      trade := Trade(q[0].id, taker, q[0].price, quantity);
      left' := left - quantity;
      if q[0].quantity - quantity == 0 {
        QueueErase(t, p, q, orderMap, sideMap, 0);
        assert q[..0] + q[1..] == q[1..];
        EraseKeeps(t, qs, cfg.minPrice, cfg.maxPrice, orderMap, sideMap, p, q[1..], q[0].id);
        orderMap := orderMap - {q[0].id};
        sideMap := sideMap - {q[0].id};
        Put(t, m[p := q[1..]]);
        liveCount := liveCount - 1;
      } else {
        QueueShrink(t, p, q, orderMap, sideMap, quantity);
        RequeueKeeps(t, qs, cfg.minPrice, cfg.maxPrice, orderMap, sideMap, p,
                     [q[0].(quantity := q[0].quantity - quantity)] + q[1..]);
        Put(t, m[p := [q[0].(quantity := q[0].quantity - quantity)] + q[1..]]);
      }
    }
  
    /** The inner loop over one queue. */
    method SweepQueue(s: Side, taker: u32, limit: u32, quantity: u32, p: u32, ghost behind: Line)
      returns (left: u32, trades: seq<Trade>)
      requires Agrees() && p in Both().On(s.Opposite()) && Both().On(s.Opposite())[p] != [] && quantity > 0
      requires Crosses(s, limit, p) && |Both().On(s.Opposite())[p]| <= liveCount
      modifies this
      ensures Agrees() && left < quantity
      ensures p in Both().On(s.Opposite())
      ensures Both() == old(Both()).With(s.Opposite(), old(Both().On(s.Opposite()))[p := Both().On(s.Opposite())[p]])
      ensures liveCount == old(liveCount) - |old(Both().On(s.Opposite())[p])| + |Both().On(s.Opposite())[p]|
      ensures Match(s, taker, limit, quantity, old(Both().On(s.Opposite())[p]) + behind)
           == Prepend(trades, Match(s, taker, limit, left, Both().On(s.Opposite())[p] + behind))
    {
      hide RefInv, Match;
      var t := s.Opposite();
      ghost var q0, m0, qs0 := Both().On(t)[p], Both().On(t), Both();
      left := quantity;
      trades := [];
      EmptyPrepend(Match(s, taker, limit, left, q0 + behind));
      var level := if s.Buy? then asks[p] else bids[p];
      assert m0[p := q0] == m0;
      while level != [] && left > 0
        invariant Agrees() && p in Both().On(t) && level == Both().On(t)[p]
        invariant Both() == qs0.With(t, m0[p := level])
        invariant |level| <= |q0| && liveCount == old(liveCount) - |q0| + |level|
        invariant left <= quantity && (left == quantity ==> level == q0)
        invariant Match(s, taker, limit, quantity, q0 + behind)
                    == Prepend(trades, Match(s, taker, limit, left, level + behind))
        decreases left
      {
        ghost var level0, left0, trades0 := level, left, trades;
        var trade;
        left, trade := TradeHead(t, taker, left, p);
        trades := trades + [trade];
        level := if s.Buy? then asks[p] else bids[p];
        HeadStep(s, taker, limit, left0, left, level0, level, behind, trade);
        PrependTwice(trades0, [trade], Match(s, taker, limit, left, level + behind));
      }
    }

    /** The front of a side's line is the queue at its best price. */
    lemma FrontIsBest(t: Side, p: u32) returns (behind: Line)
      requires Agrees() && p in Both().On(t) && forall x: u32 :: x in Both().On(t) ==> !Beats(t, x, p)
      ensures SideLine(t) == Both().On(t)[p] + behind
      ensures forall m': Levels, q: Line :: (Rung(m', p) == q && forall x: u32 :: x != p ==>
                Rung(m', x) == Rung(Both().On(t), x))
                ==> LineOf(t, m', cfg.minPrice, cfg.Ticks()) == q + behind
    {
      hide RefInv, Flat, Rungs, Ahead, Behind;
      var m := Both().On(t);
      KeysInRange(t, Both(), cfg.minPrice, cfg.maxPrice, orderMap, sideMap);
      BestAhead(t, m, cfg.minPrice, cfg.Ticks(), p);
      behind := Behind<Order>(t, Rungs(m, cfg.minPrice, cfg.Ticks()), p - cfg.minPrice);
      LineUpdated(t, m, m, cfg.minPrice, cfg.Ticks(), p, m[p]);
      assert [] + m[p] + behind == m[p] + behind;
      forall m': Levels, q: Line | Rung(m', p) == q && forall x: u32 :: x != p ==> Rung(m', x) == Rung(m, x)
        ensures LineOf(t, m', cfg.minPrice, cfg.Ticks()) == q + behind
      {
        LineUpdated(t, m, m', cfg.minPrice, cfg.Ticks(), p, q);
        assert [] + q + behind == q + behind;
      }
    }

    /** One turn of the outer loop: the best price's queue, erased from the map if it ran empty. */
    method SweepLevel(s: Side, taker: u32, limit: u32, quantity: u32, p: u32) returns (left: u32, trades: seq<Trade>)
      requires Consistent() && quantity > 0 && Crosses(s, limit, p)
      requires p in Both().On(s.Opposite()) && forall x: u32 :: x in Both().On(s.Opposite()) ==>
                 !Beats(s.Opposite(), x, p)
      modifies this
      ensures Consistent() && left < quantity
      ensures Match(s, taker, limit, quantity, old(SideLine(s.Opposite())))
           == Prepend(trades, Match(s, taker, limit, left, SideLine(s.Opposite())))
      ensures SideLine(s) == old(SideLine(s))
    {
      hide RefInv, Match, LineOf;
      var t := s.Opposite();
      ghost var behind := FrontIsBest(t, p);
      left, trades := SweepQueue(s, taker, limit, quantity, p, behind);
      var m := if s.Buy? then asks else bids;
      if m[p] == [] {
        ForgetKeeps(t, Both(), cfg.minPrice, cfg.maxPrice, orderMap, sideMap, p);
        Put(t, m - {p});
        assert LineOf(t, m - {p}, cfg.minPrice, cfg.Ticks()) == m[p] + behind;
      } else {
        assert LineOf(t, m, cfg.minPrice, cfg.Ticks()) == m[p] + behind;
      }
    }

    /** Matching against the opposite map from its first price. */
    method MatchOrder(s: Side, taker: u32, limit: u32, quantity: u32) returns (left: u32, trades: seq<Trade>)
      requires Consistent()
      modifies this
      ensures Consistent()
      ensures Match(s, taker, limit, quantity, old(SideLine(s.Opposite())))
                == Fill(trades, SideLine(s.Opposite()), left)
      ensures SideLine(s) == old(SideLine(s))
    {
      hide RefInv, Match, LineOf;
      var t := s.Opposite();
      left := quantity;
      trades := [];
      EmptyPrepend(Match(s, taker, limit, left, SideLine(t)));
      while left > 0 && (if t.Buy? then bids else asks) != map[]
        invariant Consistent()
        invariant Match(s, taker, limit, quantity, old(SideLine(t)))
                    == Prepend(trades, Match(s, taker, limit, left, SideLine(t)))
        invariant SideLine(s) == old(SideLine(s))
        decreases left
      {
        var p := Begin(t, if t.Buy? then bids else asks);
        if !Crosses(s, limit, p) {
          HeadPrice(t, p);
          MatchDone(s, taker, limit, left, SideLine(t), trades);
          return;
        }
        ghost var before := trades;
        var more;
        left, more := SweepLevel(s, taker, limit, left, p);
        trades := trades + more;
        PrependTwice(before, more, Match(s, taker, limit, left, SideLine(t)));
      }
      EmptyMapLine(t);
      MatchDone(s, taker, limit, left, SideLine(t), trades);
    }

    lemma HeadPrice(t: Side, p: u32)
      requires Consistent() && p in Both().On(t) && forall x: u32 :: x in Both().On(t) ==> !Beats(t, x, p)
      ensures SideLine(t) != [] && SideLine(t)[0].price == p
    {
      hide LineOf, UniqueIds;
      var behind := FrontIsBest(t, p);
      SideIsAgreed(t, Both(), cfg.minPrice, cfg.maxPrice, orderMap, sideMap);
      assert QueueOk(t, p, Both().On(t)[p], orderMap, sideMap);
      assert (Both().On(t)[p] + behind)[0] == Both().On(t)[p][0];
    }

    /** A side's map is empty exactly when its line is. */
    lemma EmptyMapLine(t: Side)
      requires Consistent()
      ensures Both().On(t) == map[] <==> SideLine(t) == []
    {
      hide Flat;
      var m := Both().On(t);
      var r := Rungs(m, cfg.minPrice, cfg.Ticks());
      FlatEmpty<Order>(t, r);
      if m != map[] {
        var p :| p in m;
        SideIsAgreed(t, Both(), cfg.minPrice, cfg.maxPrice, orderMap, sideMap);
        assert r[p - cfg.minPrice] == Rung(m, p);
      }
    }

    /** Pushes the remainder at the back of its price's queue. */
    method Rest(s: Side, o: Order)
      requires Consistent() && o.id !in orderMap && o.quantity > 0 && cfg.minPrice <= o.price <= cfg.maxPrice
      modifies this
      ensures Consistent()
      ensures SideLine(s) == Insert(s, old(SideLine(s)), o) && SideLine(s.Opposite()) == old(SideLine(s.Opposite()))
    {
      hide RefInv, SideAgrees, LineOf, Insert, QueueOk, FoundAt, Registered, HasId, UniqueIds;
      SideIsAgreed(s, Both(), cfg.minPrice, cfg.maxPrice, orderMap, sideMap);
      PushKeeps(s, Both(), cfg.minPrice, cfg.maxPrice, orderMap, sideMap, o);
      PushIsInsert(s, Both().On(s), cfg.minPrice, cfg.maxPrice, orderMap, sideMap, cfg.Ticks(), o);
      InsertLength(s, SideLine(s), o);
      var m := if s.Buy? then bids else asks;
      Put(s, m[o.price := (if o.price in m then m[o.price] else []) + [o]]);
      orderMap := orderMap[o.id := o.price];
      sideMap := sideMap[o.id := s];
      liveCount := liveCount + 1;
    }

    /** `cancel_order`. An id out of range is simply not found here. */
    method CancelOrder(id: u32) returns (code: RejectReason)
      requires Consistent() && Wf(cfg, Abs())
      modifies this
      ensures Consistent() && Wf(cfg, Abs())
      ensures Abs() == Cancelled(cfg, old(Abs()), id).book
      ensures code == RefCode(Cancelled(cfg, old(Abs()), id).reply.code)
    {
      hide LineOf, Remove, HasId, QueueOk, Wf;
      CancelKeeps(cfg, Abs(), id);
      IdsInBounds(cfg, Abs(), id);
      IdInSide(Buy, Both(), cfg.minPrice, cfg.maxPrice, orderMap, sideMap, cfg.Ticks(), id);
      IdInSide(Sell, Both(), cfg.minPrice, cfg.maxPrice, orderMap, sideMap, cfg.Ticks(), id);
      if id !in orderMap || id !in sideMap {
        return CancelFailed;
      }
      assert FoundAt(Both(), orderMap, sideMap, id);
      Erase(id, orderMap[id], sideMap[id]);
      return Accepted;
    }

    method Erase(id: u32, p: u32, s: Side)
      requires Consistent() && Registered(orderMap, sideMap, id, p, s) && FoundAt(Both(), orderMap, sideMap, id)
      modifies this
      ensures Consistent()
      ensures SideLine(s) == Remove(old(SideLine(s)), id) && SideLine(s.Opposite()) == old(SideLine(s.Opposite()))
    {
      hide RefInv, LineOf, Remove, QueueOk, HasId, UniqueIds, SideAgrees, NoEmptyQueue;
      SideIsAgreed(s, Both(), cfg.minPrice, cfg.maxPrice, orderMap, sideMap);
      var m := if s.Buy? then bids else asks;
      var k := FindId(m[p], id);
      var q' := m[p][..k] + m[p][k + 1..];
      EraseStep(s, Both(), cfg.minPrice, cfg.maxPrice, orderMap, sideMap, cfg.Ticks(), p, k, id);
      Put(s, m[p := q']);
      if q' == [] {
        Put(s, m[p := q'] - {p});
        assert m[p := q'] - {p} == m - {p};
      }
      orderMap := orderMap - {id};
      sideMap := sideMap - {id};
      liveCount := liveCount - 1;
    }

    /** `add_order`. It reports no fill when the pool is exhausted, and by then there was none. */
    method AddOrder(id: u32, kind: OrderType, price: u32, quantity: u32, side: Side)
      returns (code: RejectReason, filled: u32, trades: seq<Trade>)
      requires Consistent() && Wf(cfg, Abs())
      modifies this
      ensures Consistent() && Wf(cfg, Abs())
      ensures var out := Submitted(cfg, old(Abs()), id, kind, price, quantity, side);
              && Abs() == out.book && filled == out.reply.filled && trades == out.reply.trades
              && code == if kind.Cancel? then RefCode(out.reply.code) else out.reply.code
    {
      hide RefInv, LineOf, Match, Insert, Remove, HasId, Wf, Crosses;
      SubmitKeeps(cfg, Abs(), id, kind, price, quantity, side);
      TradedNeverExhausts(cfg, Abs(), Add(id, kind, price, quantity, side));
      if kind.Cancel? {
        CancelReports(cfg, Abs(), id);
        code := CancelOrder(id);
        return code, 0, [];
      }
      IdInSide(Buy, Both(), cfg.minPrice, cfg.maxPrice, orderMap, sideMap, cfg.Ticks(), id);
      IdInSide(Sell, Both(), cfg.minPrice, cfg.maxPrice, orderMap, sideMap, cfg.Ticks(), id);
      KeysAgree(Both(), cfg.minPrice, cfg.maxPrice, orderMap, sideMap, id);
      EmptyMapLine(side.Opposite());
      if quantity == 0 {
        return InvalidQuantity, 0, [];
      }
      if id == 0 || id > cfg.maxOrderId {
        return OutOfBoundsOrderId, 0, [];
      }
      if id in orderMap {
        return DuplicateOrderId, 0, [];
      }
      if kind.Limit? && (price < cfg.minPrice || price > cfg.maxPrice) {
        return OutOfBoundsPrice, 0, [];
      }
      if kind.Market? && (if side.Buy? then asks else bids) == map[] {
        return MarketOnEmptyBook, 0, [];
      }
      code, filled, trades := Execute(id, kind, price, quantity, side);
    }

    method Execute(id: u32, kind: OrderType, price: u32, quantity: u32, side: Side)
      returns (code: RejectReason, filled: u32, trades: seq<Trade>)
      requires Consistent() && Wf(cfg, Abs()) && !kind.Cancel?
      requires Validate(cfg, Abs(), id, kind, price, quantity, side).Accepted?
      modifies this
      ensures Consistent()
      ensures Outcome(Abs(), Reply(code, filled, trades)) == Submitted(cfg, old(Abs()), id, kind, price, quantity, side)
    {
      hide RefInv, LineOf, Match, Insert, HasId, Wf, Crosses;
      var limit := ResolvedPrice(kind, price, side);
      TradedNeverExhausts(cfg, Abs(), Add(id, kind, price, quantity, side));
      ghost var off := MatchKeeps(cfg, Abs(), id, limit, quantity, side);
      LeftBound(side, id, limit, quantity, Abs().On(side.Opposite()));
      var left;
      left, trades := MatchOrder(side, id, limit, quantity);
      if left > 0 && kind.Limit? {
        if liveCount + 1 > cfg.capacity {
          return PoolExhausted, 0, trades;
        }
        IdInSide(Buy, Both(), cfg.minPrice, cfg.maxPrice, orderMap, sideMap, cfg.Ticks(), id);
        IdInSide(Sell, Both(), cfg.minPrice, cfg.maxPrice, orderMap, sideMap, cfg.Ticks(), id);
        KeysAgree(Both(), cfg.minPrice, cfg.maxPrice, orderMap, sideMap, id);
        Rest(side, Order(id, limit, left));
      }
      return Accepted, quantity - left, trades;
    }
  }

  /** The reference has one code for every cancel it cannot serve. */
  function RefCode(code: RejectReason): RejectReason {
    if code.OutOfBoundsOrderId? then CancelFailed else code
  }

  lemma KeysAgree(qs: Queues, lo: u32, hi: u32, orderMap: map<u32, u32>, sideMap: map<u32, Side>, id: u32)
    requires RefInv(qs, lo, hi, orderMap, sideMap)
    ensures id in orderMap <==> id in sideMap
  {}

  lemma IdsInBounds(cfg: Config, b: Book, id: u32)
    requires Wf(cfg, b)
    ensures id == 0 || id > cfg.maxOrderId ==> !HasId(b.bids, id) && !HasId(b.asks, id)
  {}

  lemma CancelReports(cfg: Config, b: Book, id: u32)
    ensures Cancelled(cfg, b, id).reply.filled == 0 && Cancelled(cfg, b, id).reply.trades == []
  {}

  lemma {:induction false} InsertLength(s: Side, line: Line, o: Order)
    ensures |Insert(s, line, o)| == |line| + 1
    decreases |line|
  {
    if line != [] && !Beats(s, o.price, line[0].price) {
      InsertLength(s, line[1..], o);
    }
  }

  lemma RemoveLength(line: Line, id: u32)
    requires HasId(line, id)
    ensures |Remove(line, id)| == |line| - 1
  {}

  /** The position of an id in a queue: what the stored iterator points at. */
  method FindId(q: Line, id: u32) returns (k: nat)
    requires HasId(q, id)
    ensures k < |q| && q[k].id == id
  {
    k := 0;
    while k < |q| && q[k].id != id
      invariant k <= |q| && forall i :: 0 <= i < k ==> q[i].id != id
    {
      k := k + 1;
    }
  }

  lemma KeysInRange(s: Side, qs: Queues, lo: u32, hi: u32, orderMap: map<u32, u32>, sideMap: map<u32, Side>)
    requires RefInv(qs, lo, hi, orderMap, sideMap)
    ensures forall x: u32 :: x in qs.On(s) ==> lo <= x <= hi
  {}

  /** Whatever stands on rung `i` is priced at that rung and registered there. */
  lemma RungHolds(s: Side, m: Levels, lo: u32, hi: u32, orderMap: map<u32, u32>, sideMap: map<u32, Side>, ticks: nat,
                  i: nat, o: Order)
    requires SideAgrees(s, m, lo, hi, orderMap, sideMap) && i < ticks && o in Rungs(m, lo, ticks)[i]
    ensures o.price == lo + i && Registered(orderMap, sideMap, o.id, o.price, s)
  {}

  /** Pushing at the back of a price's queue is inserting by price-time priority. */
  lemma PushIsInsert(s: Side, m: Levels, lo: u32, hi: u32, orderMap: map<u32, u32>, sideMap: map<u32, Side>, ticks: nat,
                     o: Order)
    requires SideAgrees(s, m, lo, hi, orderMap, sideMap) && lo <= o.price <= hi && ticks == hi - lo + 1
    ensures LineOf(s, m[o.price := Rung(m, o.price) + [o]], lo, ticks) == Insert(s, LineOf(s, m, lo, ticks), o)
  {
    hide Rungs, Flat, Ahead, Behind, LineOf, Insert, QueueOk;
    var p := o.price;
    var r := Rungs(m, lo, ticks);
    var a, q, c := Ahead<Order>(s, r, p - lo), Rung(m, p), Behind<Order>(s, r, p - lo);
    LineUpdated(s, m, m[p := q + [o]], lo, ticks, p, q + [o]);
    forall k | 0 <= k < |a| ensures !Beats(s, o.price, a[k].price) {
      var i := AheadTick<Order>(s, r, p - lo, a[k]);
      RungHolds(s, m, lo, hi, orderMap, sideMap, ticks, i, a[k]);
    }
    forall k | 0 <= k < |q| ensures !Beats(s, o.price, q[k].price) {
      assert q[k] in r[p - lo];
      RungHolds(s, m, lo, hi, orderMap, sideMap, ticks, p - lo, q[k]);
    }
    forall k | 0 <= k < |c| ensures Beats(s, o.price, c[k].price) {
      var i := BehindTick<Order>(s, r, p - lo, c[k]);
      RungHolds(s, m, lo, hi, orderMap, sideMap, ticks, i, c[k]);
    }
    InsertBetween(s, a + q, c, o);
    assert a + (q + [o]) + c == (a + q) + [o] + c;
  }

  /** Erasing one order from its queue removes it from the line. */
  lemma EraseIsRemove(s: Side, m: Levels, m': Levels, lo: u32, hi: u32, orderMap: map<u32, u32>, sideMap: map<u32,
                      Side>, ticks: nat, p: u32, k: nat)
    requires SideAgrees(s, m, lo, hi, orderMap, sideMap) && ticks == hi - lo + 1 && p in m && k < |m[p]|
    requires Rung(m', p) == m[p][..k] + m[p][k + 1..] && forall x: u32 :: x != p ==> Rung(m', x) == Rung(m, x)
    ensures LineOf(s, m', lo, ticks) == Remove(LineOf(s, m, lo, ticks), m[p][k].id)
  {
    hide Rungs, Flat, Ahead, Behind, LineOf, Remove;
    var r := Rungs(m, lo, ticks);
    var q, o := m[p], m[p][k];
    assert QueueOk(s, p, q, orderMap, sideMap);
    assert Registered(orderMap, sideMap, q[k].id, p, s);
    var a, c := Ahead<Order>(s, r, p - lo), Behind<Order>(s, r, p - lo);
    LineUpdated(s, m, m', lo, ticks, p, q[..k] + q[k + 1..]);
    forall i | 0 <= i < |a| ensures a[i].id != o.id {
      var j := AheadTick<Order>(s, r, p - lo, a[i]);
      RungHolds(s, m, lo, hi, orderMap, sideMap, ticks, j, a[i]);
    }
    RemoveInside(a, q, k, c);
  }

  lemma RemoveInside(a: Line, q: Line, k: nat, c: Line)
    requires k < |q| && forall i :: 0 <= i < |a| ==> a[i].id != q[k].id
    requires forall i :: 0 <= i < k ==> q[i].id != q[k].id
    ensures Remove(a + q + c, q[k].id) == a + (q[..k] + q[k + 1..]) + c
  {
    hide Remove;
    RemoveBetween(a + q[..k], q[k], q[k + 1..] + c);
    assert a + q + c == (a + q[..k]) + [q[k]] + (q[k + 1..] + c);
    assert a + (q[..k] + q[k + 1..]) + c == (a + q[..k]) + (q[k + 1..] + c);
  }

  /** One order out of its queue, and the queue out of the map if that was its last. */
  lemma EraseStep(s: Side, qs: Queues, lo: u32, hi: u32, orderMap: map<u32, u32>, sideMap: map<u32, Side>, ticks: nat,
                  p: u32, k: nat, id: u32)
    requires RefInv(qs, lo, hi, orderMap, sideMap) && NoEmptyQueue(qs.On(s)) && lo <= hi && ticks == hi - lo + 1
    requires Registered(orderMap, sideMap, id, p, s) && p in qs.On(s) && k < |qs.On(s)[p]| && qs.On(s)[p][k].id == id
    ensures var m := qs.On(s);
            var q' := m[p][..k] + m[p][k + 1..];
            var m' := if q' == [] then m - {p} else m[p := q'];
            && RefInv(qs.With(s, m'), lo, hi, orderMap - {id}, sideMap - {id}) && NoEmptyQueue(m')
            && LineOf(s, m', lo, ticks) == Remove(LineOf(s, m, lo, ticks), id)
            && |LineOf(s, m', lo, ticks)| == |LineOf(s, m, lo, ticks)| - 1
  {
    hide RefInv, LineOf, Remove, QueueOk, HasId, UniqueIds;
    var m := qs.On(s);
    var q' := m[p][..k] + m[p][k + 1..];
    var m' := if q' == [] then m - {p} else m[p := q'];
    SideIsAgreed(s, qs, lo, hi, orderMap, sideMap);
    QueueErase(s, p, m[p], orderMap, sideMap, k);
    EraseKeeps(s, qs, lo, hi, orderMap, sideMap, p, q', id);
    EraseIsRemove(s, m, m', lo, hi, orderMap, sideMap, ticks, p, k);
    IdInSide(s, qs, lo, hi, orderMap, sideMap, ticks, id);
    RemoveLength(LineOf(s, m, lo, ticks), id);
    if q' == [] {
      ForgetKeeps(s, qs.With(s, m[p := q']), lo, hi, orderMap - {id}, sideMap - {id}, p);
      assert m[p := q'] - {p} == m - {p};
    }
  }

  /** An id is in a side's line exactly when it is registered on that side. */
  lemma IdInSide(s: Side, qs: Queues, lo: u32, hi: u32, orderMap: map<u32, u32>, sideMap: map<u32, Side>, ticks: nat,
                 id: u32)
    requires RefInv(qs, lo, hi, orderMap, sideMap) && ticks == if lo <= hi then hi - lo + 1 else 0
    ensures HasId(LineOf(s, qs.On(s), lo, ticks), id) <==> id in orderMap && id in sideMap && sideMap[id] == s
  {
    hide Rungs, Flat, QueueOk;
    var m := qs.On(s);
    var r := Rungs(m, lo, ticks);
    var line := LineOf(s, m, lo, ticks);
    SideIsAgreed(s, qs, lo, hi, orderMap, sideMap);
    if HasId(line, id) {
      var k :| 0 <= k < |line| && line[k].id == id;
      FlatMembers<Order>(s, r, line[k]);
      var i :| 0 <= i < |r| && line[k] in r[i];
      RungHolds(s, m, lo, hi, orderMap, sideMap, ticks, i, line[k]);
    }
    if id in orderMap && id in sideMap && sideMap[id] == s {
      assert FoundAt(qs, orderMap, sideMap, id);
      var q := m[orderMap[id]];
      var j :| 0 <= j < |q| && q[j].id == id;
      assert q == r[orderMap[id] - lo];
      FlatMembers<Order>(s, r, q[j]);
      var k :| 0 <= k < |line| && line[k] == q[j];
    }
  }

  /** What one turn of the inner loop does to the match still to be done. */
  lemma HeadStep(s: Side, taker: u32, limit: u32, left: u32, left': u32, q: Line, q': Line, behind: Line, trade: Trade)
    requires q != [] && left > 0 && Crosses(s, limit, q[0].price)
    requires trade.makerId == q[0].id && trade.takerId == taker && trade.price == q[0].price
    requires left < q[0].quantity ==>
               trade.quantity == left && left' == 0 && q' == [q[0].(quantity := q[0].quantity - left)] + q[1..]
    requires left >= q[0].quantity ==> trade.quantity == q[0].quantity && left' == left - q[0].quantity && q' == q[1..]
    ensures Match(s, taker, limit, left, q + behind) == Prepend([trade], Match(s, taker, limit, left', q' + behind))
  {
    hide Match;
    MatchHead(s, taker, limit, left, q + behind);
    assert (q + behind)[0] == q[0] && (q + behind)[1..] == q[1..] + behind;
    if left < q[0].quantity {
      var m := q[0].(quantity := q[0].quantity - left);
      assert [m] + (q[1..] + behind) == ([m] + q[1..]) + behind;
      MatchDone(s, taker, limit, 0, q' + behind, [trade]);
    }
  }
}
