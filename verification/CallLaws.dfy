/** What a call answers and does, said of its arguments and the two lines alone.

Nothing here is stated through the functions that define matching, admission, resting or cancelling; these laws say
from outside what those functions have to compute, and the last of them says that nothing else satisfies the laws.
*/
module CallLaws {
  import opened Types
  import opened PriceTime
  import opened MatchLaws
  import opened BookLaws
  import Conservation

  /** Some resting order carries this id. */
  ghost predicate Carried(b: Book, id: u32) {
    exists o: Order :: (o in b.bids || o in b.asks) && o.id == id
  }

  /** The line an order on this side trades against. */
  function Makers(b: Book, side: Side): Line {
    match side
    case Buy => b.asks
    case Sell => b.bids
  }

  /** The line it rests on. */
  function Own(b: Book, side: Side): Line {
    match side
    case Buy => b.bids
    case Sell => b.asks
  }

  lemma CarriedIs(b: Book, id: u32)
    ensures Carried(b, id) <==> HasId(b.bids, id) || HasId(b.asks, id)
  {
    if HasId(b.bids, id) {
      var k :| 0 <= k < |b.bids| && b.bids[k].id == id;
      assert b.bids[k] in b.bids;
    }
    if HasId(b.asks, id) {
      var k :| 0 <= k < |b.asks| && b.asks[k].id == id;
      assert b.asks[k] in b.asks;
    }
  }

  // ----- the limit

  /** No fill is beyond the limit; and a taker with quantity left has nothing within it in front of it. */
  lemma {:induction false} MatchHoldsLimit(s: Side, taker: u32, limit: u32, quantity: u32, line: Line)
    ensures var f := Match(s, taker, limit, quantity, line);
            && (forall i :: 0 <= i < |f.trades| ==>
                  if s.Buy? then f.trades[i].price <= limit else f.trades[i].price >= limit)
            && (f.left > 0 && f.line != [] ==>
                  if s.Buy? then f.line[0].price > limit else f.line[0].price < limit)
    decreases line
  {
    if line != [] && 0 < line[0].quantity <= quantity && Crosses(s, limit, line[0].price) {
      MatchHoldsLimit(s, taker, limit, quantity - line[0].quantity, line[1..]);
    } else if line != [] && line[0].quantity == 0 && quantity > 0 && Crosses(s, limit, line[0].price) {
      MatchHoldsLimit(s, taker, limit, quantity, line[1..]);
    }
  }

  /** Of a whole call: a limit buyer never pays more than its price, a limit seller never gets less; and what it leaves
      unfilled could not have been filled within its price. */
  lemma LimitIsHeld(cfg: Config, b: Book, op: Op)
    requires op.Add? && op.kind.Limit?
    ensures var out := Apply(cfg, b, op);
            && (forall i :: 0 <= i < |out.reply.trades| ==>
                  if op.side.Buy? then out.reply.trades[i].price <= op.price else out.reply.trades[i].price >= op.price)
            && ((out.reply.code.Accepted? || out.reply.code.PoolExhausted?)
                && out.reply.filled < op.quantity && Makers(out.book, op.side) != [] ==>
                  if op.side.Buy? then out.book.asks[0].price > op.price else out.book.bids[0].price < op.price)
  {
    hide Match, Insert, HasId, Crosses;
    var Add(id, kind, price, quantity, side) := op;
    MatchHoldsLimit(side, id, price, quantity, b.On(side.Opposite()));
    LeftBound(side, id, price, quantity, b.On(side.Opposite()));
  }

  // ----- admission

  /** An order the book must take: a quantity, a free id in bounds, and a limit price in bounds or somebody to trade
      with. */
  ghost predicate Admitted(cfg: Config, b: Book, id: u32, kind: OrderType, price: u32, quantity: u32, side: Side) {
    && quantity > 0
    && 1 <= id <= cfg.maxOrderId
    && !Carried(b, id)
    && (kind.Limit? ==> cfg.minPrice <= price <= cfg.maxPrice)
    && (kind.Market? ==> Makers(b, side) != [])
  }

  /** Nothing on the other side is within the order's price. */
  ghost predicate OutOfReach(b: Book, price: u32, side: Side) {
    match side
    case Buy => forall o :: o in b.asks ==> o.price > price
    case Sell => forall o :: o in b.bids ==> o.price < price
  }

  /** The first order is as near as any. */
  lemma OutOfReachIs(cfg: Config, b: Book, price: u32, side: Side)
    requires Wf(cfg, b)
    ensures OutOfReach(b, price, side) <==>
              Makers(b, side) == [] || !Crosses(side, price, Makers(b, side)[0].price)
  {
    hide UniqueIds, ApartIds, ValidOrder;
    var line := Makers(b, side);
    if line != [] && !Crosses(side, price, line[0].price) {
      forall o | o in line ensures !Crosses(side, price, o.price) {
        var k :| 0 <= k < |line| && line[k] == o;
      }
    }
    if line != [] && OutOfReach(b, price, side) {
      assert line[0] in line;
    }
  }

  lemma AdmittedIs(cfg: Config, b: Book, id: u32, kind: OrderType, price: u32, quantity: u32, side: Side)
    requires !kind.Cancel?
    ensures Admitted(cfg, b, id, kind, price, quantity, side) <==>
              Validate(cfg, b, id, kind, price, quantity, side).Accepted?
  {
    hide HasId, Carried;
    CarriedIs(b, id);
  }

  /** A taker trades exactly if the first order across is within reach. */
  lemma TradesIff(s: Side, taker: u32, limit: u32, quantity: u32, line: Line)
    requires quantity > 0
    ensures Match(s, taker, limit, quantity, line).trades == [] <==> line == [] || !Crosses(s, limit, line[0].price)
  {}

  /** A market order reaches every price. */
  lemma MarketReaches(side: Side, price: u32, p: u32)
    ensures Crosses(side, ResolvedPrice(Market, price, side), p)
  {}

  /** The answer to an order that must be taken. */
  lemma AdmittedReply(cfg: Config, b: Book, id: u32, kind: OrderType, price: u32, quantity: u32, side: Side)
    requires Wf(cfg, b) && !kind.Cancel? && Admitted(cfg, b, id, kind, price, quantity, side)
    ensures var reply := Submitted(cfg, b, id, kind, price, quantity, side).reply;
            && (reply.code.PoolExhausted? <==>
                  kind.Limit? && OutOfReach(b, price, side) && |b.bids| + |b.asks| == cfg.capacity)
            && (reply.code.Accepted? <==> !reply.code.PoolExhausted?)
            && (kind.Market? ==> reply.trades != [])
  {
    hide Match, Insert, Wf, Crosses, OutOfReach, Admitted, HasId;
    AdmittedIs(cfg, b, id, kind, price, quantity, side);
    var limit, line := ResolvedPrice(kind, price, side), Makers(b, side);
    var off := MatchKeeps(cfg, b, id, limit, quantity, side);
    LeftBound(side, id, limit, quantity, line);
    OutOfReachIs(cfg, b, price, side);
    WfCount(cfg, b);
    TakesSome(cfg, b, id, kind, price, quantity, side);
    TradesIff(side, id, limit, quantity, line);
    if kind.Market? {
      MarketReaches(side, price, line[0].price);
    }
  }

  lemma TakesSome(cfg: Config, b: Book, id: u32, kind: OrderType, price: u32, quantity: u32, side: Side)
    requires Admitted(cfg, b, id, kind, price, quantity, side)
    ensures quantity > 0 && (kind.Market? ==> Makers(b, side) != [])
  {}

  /** Every code an order can be answered with, exactly when, in order of precedence. */
  lemma RepliesToOrder(cfg: Config, b: Book, op: Op)
    requires Wf(cfg, b) && op.Add? && !op.kind.Cancel?
    ensures var out := Apply(cfg, b, op);
            var Add(id, kind, price, quantity, side) := op;
            var code := out.reply.code;
            && (code.InvalidQuantity? <==> quantity == 0)
            && (code.OutOfBoundsOrderId? <==> quantity > 0 && !(1 <= id <= cfg.maxOrderId))
            && (code.DuplicateOrderId? <==> quantity > 0 && 1 <= id <= cfg.maxOrderId && Carried(b, id))
            && (code.OutOfBoundsPrice? <==>
                  && quantity > 0 && 1 <= id <= cfg.maxOrderId && !Carried(b, id)
                  && kind.Limit? && !(cfg.minPrice <= price <= cfg.maxPrice))
            && (code.MarketOnEmptyBook? <==>
                  && quantity > 0 && 1 <= id <= cfg.maxOrderId && !Carried(b, id)
                  && kind.Market? && Makers(b, side) == [])
            && (code.PoolExhausted? <==>
                  && Admitted(cfg, b, id, kind, price, quantity, side) && kind.Limit?
                  && OutOfReach(b, price, side) && |b.bids| + |b.asks| == cfg.capacity)
            && (code.Accepted? <==>
                  && Admitted(cfg, b, id, kind, price, quantity, side)
                  && !(kind.Limit? && OutOfReach(b, price, side) && |b.bids| + |b.asks| == cfg.capacity))
            && (code.Accepted? && kind.Market? ==> out.reply.trades != [])
            && (!code.Accepted? ==> out.reply.filled == 0 && out.reply.trades == [] && out.book == b)
  {
    hide Match, Settle, Insert, Remove, HasId, Wf, Crosses, OutOfReach, Carried;
    var Add(id, kind, price, quantity, side) := op;
    CarriedIs(b, id);
    AdmittedIs(cfg, b, id, kind, price, quantity, side);
    if Admitted(cfg, b, id, kind, price, quantity, side) {
      AdmittedReply(cfg, b, id, kind, price, quantity, side);
    }
    TradedNeverExhausts(cfg, b, op);
  }

  // ----- cancelling

  /** The id a call asks to cancel. */
  predicate Cancels(op: Op, id: u32) {
    match op
    case Add(i, kind, _, _, _) => kind.Cancel? && i == id
    case CancelOrder(i) => i == id
  }

  /** `after` is `before` without one order, which carried this id. */
  ghost predicate WithoutOne(before: Line, after: Line, id: u32) {
    exists p: nat :: p < |before| && before[p].id == id && after == before[..p] + before[p + 1..]
  }

  /** By either entry point: accepted exactly if a resting order carries the id, out of bounds exactly if no order
      could, and failed otherwise. An accepted cancel takes that order out of its line and does nothing else, and then
      no order carries the id; any other does nothing at all. */
  lemma RepliesToCancel(cfg: Config, b: Book, op: Op, id: u32)
    requires Wf(cfg, b) && Cancels(op, id)
    ensures var out := Apply(cfg, b, op);
            && (out.reply.code.Accepted? <==> Carried(b, id))
            && (out.reply.code.OutOfBoundsOrderId? <==> !(1 <= id <= cfg.maxOrderId))
            && (out.reply.code.CancelFailed? <==> 1 <= id <= cfg.maxOrderId && !Carried(b, id))
            && out.reply.filled == 0 && out.reply.trades == []
            && (Carried(b, id) ==>
                  && !Carried(out.book, id)
                  && ((WithoutOne(b.bids, out.book.bids, id) && out.book.asks == b.asks)
                      || (WithoutOne(b.asks, out.book.asks, id) && out.book.bids == b.bids)))
            && (!Carried(b, id) ==> out.book == b)
  {
    hide Remove, Carried, HasId, WithoutOne, LineOk, Wf;
    CarriedIs(b, id);
    if Carried(b, id) {
      CarriedInBounds(cfg, b, id);
    }
    SidesIds(cfg, b);
    if HasId(b.bids, id) {
      RemovedOnce(b.bids, id);
      NotOnBoth(b.bids, b.asks, id);
    } else if HasId(b.asks, id) {
      RemovedOnce(b.asks, id);
    }
    CarriedIs(Apply(cfg, b, op).book, id);
  }

  lemma SidesIds(cfg: Config, b: Book)
    requires Wf(cfg, b)
    ensures UniqueIds(b.bids) && UniqueIds(b.asks) && ApartIds(b.bids, b.asks)
  {}

  lemma CarriedInBounds(cfg: Config, b: Book, id: u32)
    requires Wf(cfg, b) && Carried(b, id)
    ensures 1 <= id <= cfg.maxOrderId
  {
    var o: Order :| (o in b.bids || o in b.asks) && o.id == id;
    if o in b.bids {
      var k :| 0 <= k < |b.bids| && b.bids[k] == o;
      assert ValidOrder(cfg, b.bids[k]);
    } else {
      var k :| 0 <= k < |b.asks| && b.asks[k] == o;
      assert ValidOrder(cfg, b.asks[k]);
    }
  }

  lemma RemovedOnce(line: Line, id: u32)
    requires UniqueIds(line) && HasId(line, id)
    ensures WithoutOne(line, Remove(line, id), id) && !HasId(Remove(line, id), id)
  {
    hide Remove;
    var p := RemoveSplices(line, id);
    var after := line[..p] + line[p + 1..];
    assert forall k :: 0 <= k < |after| ==> after[k] == line[if k < p then k else k + 1];
  }

  lemma NotOnBoth(a: Line, c: Line, id: u32)
    requires ApartIds(a, c) && HasId(a, id)
    ensures !HasId(c, id)
  {}

  // ----- what is filled

  /** The quantity on a line within an order's price; a market order's price is no object. */
  function WithinReach(kind: OrderType, price: u32, side: Side, line: Line): nat {
    if line == [] then 0
    else
      var o := line[0];
      var rest := WithinReach(kind, price, side, line[1..]);
      if kind.Market? || (if side.Buy? then o.price <= price else o.price >= price) then o.quantity + rest else rest
  }

  /** A taker is filled up to its quantity or to all there is within its price, whichever is less. */
  lemma FilledAsFarAsPossible(cfg: Config, b: Book, op: Op)
    requires Wf(cfg, b) && op.Add? && !op.kind.Cancel?
    requires Admitted(cfg, b, op.id, op.kind, op.price, op.quantity, op.side)
    ensures var reach := WithinReach(op.kind, op.price, op.side, Makers(b, op.side));
            Apply(cfg, b, op).reply.filled == if op.quantity <= reach then op.quantity else reach
  {
    hide Match, Insert, HasId, Wf, Admitted, WithinReach, Crosses;
    var Add(id, kind, price, quantity, side) := op;
    AdmittedIs(cfg, b, id, kind, price, quantity, side);
    var limit, line := ResolvedPrice(kind, price, side), Makers(b, side);
    LeftBound(side, id, limit, quantity, line);
    MakersSorted(cfg, b, side);
    MatchFills(side, id, limit, quantity, line, kind, price);
  }

  lemma MakersSorted(cfg: Config, b: Book, side: Side)
    requires Wf(cfg, b)
    ensures Sorted(side.Opposite(), Makers(b, side))
  {}

  lemma {:induction false} MatchFills(s: Side, taker: u32, limit: u32, quantity: u32, line: Line, kind: OrderType,
                                      price: u32)
    requires Sorted(s.Opposite(), line) && limit == ResolvedPrice(kind, price, s) && !kind.Cancel?
    ensures var reach := WithinReach(kind, price, s, line);
            quantity - Match(s, taker, limit, quantity, line).left == if quantity <= reach then quantity else reach
    decreases line
  {
    if line != [] && Crosses(s, limit, line[0].price) {
      if 0 < quantity && line[0].quantity <= quantity {
        MatchFills(s, taker, limit, quantity - line[0].quantity, line[1..], kind, price);
      }
    } else {
      NothingWithinReach(s, line, kind, price);
    }
  }

  lemma {:induction false} NothingWithinReach(s: Side, line: Line, kind: OrderType, price: u32)
    requires Sorted(s.Opposite(), line) && !kind.Cancel?
    requires line == [] || !Crosses(s, ResolvedPrice(kind, price, s), line[0].price)
    ensures WithinReach(kind, price, s, line) == 0
    decreases line
  {
    if line != [] {
      NothingWithinReach(s, line[1..], kind, price);
    }
  }

  /** To a market order everything is within reach. */
  lemma MarketTakesAll(cfg: Config, b: Book, op: Op)
    requires Wf(cfg, b) && op.Add? && op.kind.Market?
    requires Admitted(cfg, b, op.id, op.kind, op.price, op.quantity, op.side)
    ensures var total := Total(Makers(b, op.side));
            Apply(cfg, b, op).reply.filled == if op.quantity <= total then op.quantity else total
  {
    hide Wf, Admitted, Apply;
    FilledAsFarAsPossible(cfg, b, op);
    AllWithinReach(op.price, op.side, Makers(b, op.side));
  }

  lemma {:induction false} AllWithinReach(price: u32, side: Side, line: Line)
    ensures WithinReach(Market, price, side, line) == Total(line)
    decreases line
  {
    if line != [] {
      AllWithinReach(price, side, line[1..]);
    }
  }

  /** `after` is `before` with its first `|ts|` orders filled by `ts`: gone, or the last of them smaller. */
  ghost predicate EatenBy(before: Line, after: Line, ts: seq<Trade>)
    requires |ts| <= |before|
  {
    if ts == [] then after == before
    else
      var k := |ts| - 1;
      var rest := before[k].quantity - ts[k].quantity;
      after == (if rest > 0 then [Order(before[k].id, before[k].price, rest)] else []) + before[k + 1..]
  }

  /** The fills of an order: the first orders of the line in turn, each at its own price and within the order's, whole
      but perhaps for the last; and if the order has quantity left, they are all whole and nothing within its price is
      left on the line. */
  ghost predicate Fills(id: u32, kind: OrderType, price: u32, quantity: u32, side: Side, before: Line, after: Line,
                        ts: seq<Trade>, filled: u32) {
    && |ts| <= |before| && filled <= quantity && filled == Traded(ts)
    && (forall i :: 0 <= i < |ts| ==>
          && ts[i].makerId == before[i].id && ts[i].takerId == id && ts[i].price == before[i].price
          && 0 < ts[i].quantity <= before[i].quantity
          && (kind.Limit? ==> if side.Buy? then ts[i].price <= price else ts[i].price >= price)
          && (i < |ts| - 1 || filled < quantity ==> ts[i].quantity == before[i].quantity))
    && EatenBy(before, after, ts)
    && (filled < quantity && after != [] ==>
          kind.Limit? && if side.Buy? then after[0].price > price else after[0].price < price)
  }

  /** There is one such way to fill an order, and matching finds it. */
  lemma FillsIffMatch(id: u32, kind: OrderType, price: u32, quantity: u32, side: Side, before: Line, after: Line,
                      ts: seq<Trade>, filled: u32)
    requires Positive(before) && !kind.Cancel?
    ensures Fills(id, kind, price, quantity, side, before, after, ts, filled) <==>
              && filled <= quantity
              && Match(side, id, ResolvedPrice(kind, price, side), quantity, before)
              == Fill(ts, after, quantity - filled)
  {
    hide Match, IsMatch, Fills;
    if filled <= quantity {
      MatchIsMaximalPrefixFill(side, id, ResolvedPrice(kind, price, side), quantity, before,
                               Fill(ts, after, quantity - filled));
      FillsIffMaximal(id, kind, price, quantity, side, before, after, ts, filled);
    } else if Fills(id, kind, price, quantity, side, before, after, ts, filled) {
      FillsBound(id, kind, price, quantity, side, before, after, ts, filled);
    }
  }

  lemma FillsBound(id: u32, kind: OrderType, price: u32, quantity: u32, side: Side, before: Line, after: Line,
                   ts: seq<Trade>, filled: u32)
    requires Fills(id, kind, price, quantity, side, before, after, ts, filled)
    ensures filled <= quantity
  {}

  lemma FillsIffMaximal(id: u32, kind: OrderType, price: u32, quantity: u32, side: Side, before: Line, after: Line,
                        ts: seq<Trade>, filled: u32)
    requires !kind.Cancel? && filled <= quantity
    ensures Fills(id, kind, price, quantity, side, before, after, ts, filled) <==>
              IsMatch(side, id, ResolvedPrice(kind, price, side), quantity, before, Fill(ts, after, quantity - filled))
  {
    hide Traded, AfterFills, EatenBy;
    var limit, k := ResolvedPrice(kind, price, side), |ts|;
    if Fills(id, kind, price, quantity, side, before, after, ts, filled) {
      EatenIs(before, after, ts);
      forall i | 0 <= i < k ensures IsFillOf(side, id, limit, before, ts, i) {
        assert ts[i].makerId == before[i].id;
      }
      assert filled < quantity && k < |before| ==> after[0] == before[k];
    }
    if IsMatch(side, id, limit, quantity, before, Fill(ts, after, quantity - filled)) {
      forall i | 0 <= i < k
        ensures ts[i].makerId == before[i].id && ts[i].takerId == id && ts[i].price == before[i].price
        ensures 0 < ts[i].quantity <= before[i].quantity
        ensures kind.Limit? ==> if side.Buy? then ts[i].price <= price else ts[i].price >= price
      {
        assert IsFillOf(side, id, limit, before, ts, i);
      }
      EatenIs(before, after, ts);
    }
  }

  /** Both ways of writing what the fills leave of a line. */
  lemma EatenIs(before: Line, after: Line, ts: seq<Trade>)
    requires |ts| <= |before| && forall i :: 0 <= i < |ts| ==> ts[i].quantity <= before[i].quantity
    ensures EatenBy(before, after, ts) <==> after == AfterFills(before, ts)
    ensures EatenBy(before, after, ts) && (ts == [] || ts[|ts| - 1].quantity == before[|ts| - 1].quantity) ==>
              && (after == [] <==> |ts| == |before|)
              && (after != [] ==> after[0] == before[|ts|])
  {
    if ts != [] {
      hide AfterFills;
      AfterFillsIs(before, ts, |ts| - 1);
    }
  }

  // ----- what rests

  /** `after` is `before` with `o` in front of its `p`-th order: behind all that are at least as well priced, ahead of
      all that are worse. */
  ghost predicate JoinedAt(side: Side, before: Line, after: Line, o: Order, p: nat) {
    && p <= |before| && after == before[..p] + [o] + before[p..]
    && (forall i :: 0 <= i < p ==> if side.Buy? then before[i].price >= o.price else before[i].price <= o.price)
    && (forall i :: p <= i < |before| ==> if side.Buy? then before[i].price < o.price else before[i].price > o.price)
  }

  ghost predicate Joined(side: Side, before: Line, after: Line, o: Order) {
    exists p: nat :: JoinedAt(side, before, after, o, p)
  }

  /** There is one place to join a sorted line, and resting finds it. */
  lemma JoinedIffInsert(side: Side, before: Line, after: Line, o: Order)
    requires Sorted(side, before)
    ensures Joined(side, before, after, o) <==> after == Insert(side, before, o)
  {
    hide Insert, Sorted;
    var p := InsertSplices(side, before, o);
    assert JoinedAt(side, before, Insert(side, before, o), o, p);
    if Joined(side, before, after, o) {
      var r: nat :| JoinedAt(side, before, after, o, r);
      assert r < |before| ==> Beats(side, o.price, before[r].price);
      assert p < |before| ==> Beats(side, o.price, before[p].price);
      assert r == p;
    }
  }

  // ----- a whole call

  /** Why an order is refused before it touches the book. */
  ghost predicate RefusedFor(cfg: Config, b: Book, id: u32, kind: OrderType, quantity: u32, code: RejectReason) {
    if quantity == 0 then code.InvalidQuantity?
    else if !(1 <= id <= cfg.maxOrderId) then code.OutOfBoundsOrderId?
    else if Carried(b, id) then code.DuplicateOrderId?
    else if kind.Limit? then code.OutOfBoundsPrice?
    else code.MarketOnEmptyBook?
  }

  ghost predicate IsSubmission(cfg: Config, b: Book, id: u32, kind: OrderType, price: u32, quantity: u32, side: Side,
                               out: Outcome) {
    var Outcome(b', Reply(code, filled, trades)) := out;
    if !Admitted(cfg, b, id, kind, price, quantity, side) then
      RefusedFor(cfg, b, id, kind, quantity, code) && filled == 0 && trades == [] && b' == b
    else if kind.Limit? && OutOfReach(b, price, side) && |b.bids| + |b.asks| == cfg.capacity then
      code.PoolExhausted? && filled == 0 && trades == [] && b' == b
    else
      && code.Accepted?
      && Fills(id, kind, price, quantity, side, Makers(b, side), Makers(b', side), trades, filled)
      && if kind.Limit? && filled < quantity
         then Joined(side, Own(b, side), Own(b', side), Order(id, price, quantity - filled))
         else Own(b', side) == Own(b, side)
  }

  ghost predicate IsCancellation(cfg: Config, b: Book, id: u32, out: Outcome) {
    var Outcome(b', Reply(code, filled, trades)) := out;
    && filled == 0 && trades == []
    && if Carried(b, id) then
         && code.Accepted?
         && ((WithoutOne(b.bids, b'.bids, id) && b'.asks == b.asks)
             || (WithoutOne(b.asks, b'.asks, id) && b'.bids == b.bids))
       else
         (if 1 <= id <= cfg.maxOrderId then code.CancelFailed? else code.OutOfBoundsOrderId?) && b' == b
  }

  /** What a call has to come to, by its arguments and the two lines alone. */
  ghost predicate IsOutcome(cfg: Config, b: Book, op: Op, out: Outcome) {
    match op
    case CancelOrder(id) => IsCancellation(cfg, b, id, out)
    case Add(id, kind, price, quantity, side) =>
      if kind.Cancel? then IsCancellation(cfg, b, id, out)
      else IsSubmission(cfg, b, id, kind, price, quantity, side, out)
  }

  lemma RefusedForIs(cfg: Config, b: Book, id: u32, kind: OrderType, price: u32, quantity: u32, side: Side,
                     code: RejectReason)
    requires !kind.Cancel? && !Admitted(cfg, b, id, kind, price, quantity, side)
    ensures RefusedFor(cfg, b, id, kind, quantity, code) <==>
              code == Validate(cfg, b, id, kind, price, quantity, side)
  {
    hide Carried, HasId;
    CarriedIs(b, id);
  }

  lemma SubmissionIs(cfg: Config, b: Book, id: u32, kind: OrderType, price: u32, quantity: u32, side: Side,
                     out: Outcome)
    requires Wf(cfg, b) && !kind.Cancel?
    ensures IsSubmission(cfg, b, id, kind, price, quantity, side, out) <==>
              out == Submitted(cfg, b, id, kind, price, quantity, side)
  {
    hide Match, Insert, Wf, OutOfReach, Admitted, Validate, HasId, Fills, Joined, RefusedFor, LineOk;
    var op := Add(id, kind, price, quantity, side);
    AdmittedIs(cfg, b, id, kind, price, quantity, side);
    if !Admitted(cfg, b, id, kind, price, quantity, side) {
      RefusedForIs(cfg, b, id, kind, price, quantity, side, out.reply.code);
    } else {
      AdmittedReply(cfg, b, id, kind, price, quantity, side);
      TradedNeverExhausts(cfg, b, op);
      if !(kind.Limit? && OutOfReach(b, price, side) && |b.bids| + |b.asks| == cfg.capacity) {
        SubmissionFills(cfg, b, id, kind, price, quantity, side, out);
      }
    }
  }

  lemma SubmissionFills(cfg: Config, b: Book, id: u32, kind: OrderType, price: u32, quantity: u32, side: Side,
                        out: Outcome)
    requires Wf(cfg, b) && !kind.Cancel? && Admitted(cfg, b, id, kind, price, quantity, side)
    requires Submitted(cfg, b, id, kind, price, quantity, side).reply.code.Accepted?
    ensures out == Submitted(cfg, b, id, kind, price, quantity, side) <==>
              && out.reply.code.Accepted?
              && Fills(id, kind, price, quantity, side, Makers(b, side), Makers(out.book, side), out.reply.trades,
                       out.reply.filled)
              && if kind.Limit? && out.reply.filled < quantity
                 then Joined(side, Own(b, side), Own(out.book, side), Order(id, price, quantity - out.reply.filled))
                 else Own(out.book, side) == Own(b, side)
  {
    hide Match, Insert, Wf, Admitted, Validate, HasId, Fills, Joined, LineOk;
    AdmittedIs(cfg, b, id, kind, price, quantity, side);
    WfSides(cfg, b, side);
    WfSides(cfg, b, side.Opposite());
    var limit := ResolvedPrice(kind, price, side);
    var f := Match(side, id, limit, quantity, Makers(b, side));
    LeftBound(side, id, limit, quantity, Makers(b, side));
    FillsIffMatch(id, kind, price, quantity, side, Makers(b, side), Makers(out.book, side), out.reply.trades,
                  out.reply.filled);
    SortedOf(cfg, side, b.On(side));
    JoinedIffInsert(side, Own(b, side), Own(out.book, side), Order(id, price, f.left));
  }

  lemma SortedOf(cfg: Config, s: Side, line: Line)
    requires LineOk(cfg, s, line)
    ensures Sorted(s, line)
  {}

  lemma CancellationIs(cfg: Config, b: Book, id: u32, out: Outcome)
    requires Wf(cfg, b)
    ensures IsCancellation(cfg, b, id, out) <==> out == Cancelled(cfg, b, id)
  {
    hide Remove, Carried, HasId, WithoutOne, LineOk, Wf;
    RepliesToCancel(cfg, b, CancelOrder(id), id);
    CarriedIs(b, id);
    SidesIds(cfg, b);
    if Carried(b, id) {
      WithoutOneIs(b.bids, out.book.bids, id);
      WithoutOneIs(b.asks, out.book.asks, id);
      if HasId(b.bids, id) {
        NotOnBoth(b.bids, b.asks, id);
      }
    }
  }

  lemma WithoutOneIs(before: Line, after: Line, id: u32)
    requires UniqueIds(before)
    ensures WithoutOne(before, after, id) <==> HasId(before, id) && after == Remove(before, id)
  {
    hide Remove;
    if HasId(before, id) {
      var p := RemoveSplices(before, id);
    }
  }

  /** On a well-formed book every call has exactly one outcome by these laws, and it is the specification's. */
  lemma CallIsOutcome(cfg: Config, b: Book, op: Op, out: Outcome)
    requires Wf(cfg, b)
    ensures IsOutcome(cfg, b, op, out) <==> out == Apply(cfg, b, op)
  {
    hide IsSubmission, IsCancellation, Submitted, Cancelled, Wf;
    match op {
      case CancelOrder(id) => CancellationIs(cfg, b, id, out);
      case Add(id, kind, price, quantity, side) =>
        if kind.Cancel? {
          CancelSubmitted(cfg, b, id, kind, price, quantity, side);
          CancellationIs(cfg, b, id, out);
        } else {
          SubmissionIs(cfg, b, id, kind, price, quantity, side, out);
        }
    }
  }

  lemma CancelSubmitted(cfg: Config, b: Book, id: u32, kind: OrderType, price: u32, quantity: u32, side: Side)
    requires kind.Cancel?
    ensures Submitted(cfg, b, id, kind, price, quantity, side) == Cancelled(cfg, b, id)
  {}

  /** What an accepted limit order was not filled rests: with its id, at its price, in its place, for the rest of its
      quantity. Nothing else changes on its own side, ever. */
  lemma RemainderRests(cfg: Config, b: Book, op: Op)
    requires Wf(cfg, b) && op.Add? && !op.kind.Cancel?
    ensures var out := Apply(cfg, b, op);
            var rests := out.reply.code.Accepted? && op.kind.Limit? && out.reply.filled < op.quantity;
            && (rests ==>
                  var o := Order(op.id, op.price, op.quantity - out.reply.filled);
                  Joined(op.side, Own(b, op.side), Own(out.book, op.side), o) && o in Own(out.book, op.side))
            && (!rests ==> Own(out.book, op.side) == Own(b, op.side))
  {
    hide Wf, Apply, Admitted, OutOfReach, Joined, Fills, RefusedFor;
    var out := Apply(cfg, b, op);
    CallIsOutcome(cfg, b, op, out);
    if out.reply.code.Accepted? && op.kind.Limit? && out.reply.filled < op.quantity {
      RepliesToOrder(cfg, b, op);
      JoinedHolds(op.side, Own(b, op.side), Own(out.book, op.side),
                  Order(op.id, op.price, op.quantity - out.reply.filled));
    }
  }

  lemma JoinedHolds(side: Side, before: Line, after: Line, o: Order)
    requires Joined(side, before, after, o)
    ensures o in after
  {}

  /** What the ledger of a call books: an order that had to be taken, with what traded and with what neither traded nor
      rests; a cancel that was accepted, with the quantity of the order it took out; and nothing else. */
  lemma LedgerBooks(cfg: Config, b: Book, op: Op)
    requires Wf(cfg, b)
    ensures var out := Apply(cfg, b, op);
            var l := Conservation.LedgerOf(b, op, out.reply);
            match op
            case CancelOrder(id) => IsCancelLedger(b, id, l)
            case Add(id, kind, price, quantity, side) =>
              if kind.Cancel? then IsCancelLedger(b, id, l)
              else if Admitted(cfg, b, id, kind, price, quantity, side) then
                && l.submitted == quantity && l.traded == out.reply.filled && l.cancelled == 0
                && l.dropped == if out.reply.code.Accepted? && kind.Limit? then 0 else quantity - out.reply.filled
              else l == Conservation.Ledger(0, 0, 0, 0)
  {
    hide Wf, Apply, Admitted, Carried, HasId, Conservation.QuantityOf, Traded, IsCancelLedger;
    match op {
      case CancelOrder(id) => CancelBooks(cfg, b, op, id);
      case Add(id, kind, price, quantity, side) =>
        if kind.Cancel? {
          CancelBooks(cfg, b, op, id);
        } else {
          RepliesToOrder(cfg, b, op);
          Conservation.ApplyConserves(cfg, b, op);
          FilledBound(cfg, b, op);
        }
    }
  }

  lemma FilledBound(cfg: Config, b: Book, op: Op)
    requires op.Add?
    ensures Apply(cfg, b, op).reply.filled <= op.quantity
  {
    hide Match, Insert, Validate;
  }

  /** Nothing, if no order carries the id; the quantity of the one that does, if there is one. */
  ghost predicate IsCancelLedger(b: Book, id: u32, l: Conservation.Ledger) {
    if Carried(b, id)
    then exists o: Order :: (o in b.bids || o in b.asks) && o.id == id && l == Conservation.Ledger(0, 0, o.quantity, 0)
    else l == Conservation.Ledger(0, 0, 0, 0)
  }

  lemma CancelBooks(cfg: Config, b: Book, op: Op, id: u32)
    requires Wf(cfg, b) && Cancels(op, id)
    ensures IsCancelLedger(b, id, Conservation.LedgerOf(b, op, Apply(cfg, b, op).reply))
  {
    hide Wf, Apply, Carried, HasId, Conservation.QuantityOf, WithoutOne;
    RepliesToCancel(cfg, b, op, id);
    CarriedIs(b, id);
    if HasId(b.bids, id) {
      var o := QuantityIs(b.bids, id);
    } else if HasId(b.asks, id) {
      var o := QuantityIs(b.asks, id);
    }
  }

  lemma {:induction false} QuantityIs(line: Line, id: u32) returns (o: Order)
    requires HasId(line, id)
    ensures o in line && o.id == id && Conservation.QuantityOf(line, id) == o.quantity
    decreases line
  {
    if line[0].id == id {
      o := line[0];
    } else {
      var k :| 0 <= k < |line| && line[k].id == id;
      assert line[1..][k - 1].id == id;
      o := QuantityIs(line[1..], id);
    }
  }

  /** In every run from an empty book, every call comes to what these laws say. */
  lemma {:induction false} RunFollowsLaws(cfg: Config, ops: seq<Op>, i: nat)
    requires i < |ops|
    ensures IsOutcome(cfg, Run(cfg, EMPTY_BOOK, ops[..i]).book, ops[i],
                      Outcome(Run(cfg, EMPTY_BOOK, ops[..i + 1]).book, Run(cfg, EMPTY_BOOK, ops).replies[i]))
    decreases |ops|
  {
    hide Wf, Apply, IsOutcome;
    var before := ops[..|ops| - 1];
    if i < |before| {
      RunFollowsLaws(cfg, before, i);
      assert before[..i] == ops[..i] && before[..i + 1] == ops[..i + 1];
    } else {
      assert ops[..i + 1] == ops && ops[..i] == before;
      EmptyWf(cfg);
      RunKeeps(cfg, EMPTY_BOOK, before);
      var b := Run(cfg, EMPTY_BOOK, before).book;
      CallIsOutcome(cfg, b, ops[i], Apply(cfg, b, ops[i]));
    }
  }

  /** And every book a run leaves is sorted by price, holds each id once, in bounds and with a quantity, has no more
      orders than slots, and is not crossed. */
  lemma RunLeaves(cfg: Config, ops: seq<Op>)
    ensures var b := Run(cfg, EMPTY_BOOK, ops).book;
            && (forall i, j :: 0 <= i < j < |b.bids| ==> b.bids[i].price >= b.bids[j].price)
            && (forall i, j :: 0 <= i < j < |b.asks| ==> b.asks[i].price <= b.asks[j].price)
            && (forall i, j :: 0 <= i < |b.bids| && 0 <= j < |b.asks| ==> b.bids[i].price < b.asks[j].price)
            && (forall i, j :: 0 <= i < |b.bids| && 0 <= j < |b.asks| ==> b.bids[i].id != b.asks[j].id)
            && (forall i, j :: 0 <= i < j < |b.bids| ==> b.bids[i].id != b.bids[j].id)
            && (forall i, j :: 0 <= i < j < |b.asks| ==> b.asks[i].id != b.asks[j].id)
            && (forall o :: o in b.bids || o in b.asks ==>
                  1 <= o.id <= cfg.maxOrderId && cfg.minPrice <= o.price <= cfg.maxPrice && o.quantity > 0)
            && |b.bids| + |b.asks| <= cfg.capacity
  {
    hide Run;
    EmptyWf(cfg);
    RunKeeps(cfg, EMPTY_BOOK, ops);
    var b := Run(cfg, EMPTY_BOOK, ops).book;
    forall i, j | 0 <= i < |b.bids| && 0 <= j < |b.asks| ensures b.bids[i].price < b.asks[j].price {
      assert i > 0 ==> !Beats(Buy, b.bids[i].price, b.bids[0].price);
      assert j > 0 ==> !Beats(Sell, b.asks[j].price, b.asks[0].price);
    }
    forall i, j | 0 <= i < j < |b.bids| ensures b.bids[i].price >= b.bids[j].price {
      assert !Beats(Buy, b.bids[j].price, b.bids[i].price);
    }
    forall i, j | 0 <= i < j < |b.asks| ensures b.asks[i].price <= b.asks[j].price {
      assert !Beats(Sell, b.asks[j].price, b.asks[i].price);
    }
  }
}
