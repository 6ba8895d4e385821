/** The engine against the reference book, over every run. */
module Differential {
  import opened Types
  import opened Pigeonhole
  import opened Pool
  import opened PriceTime
  import opened BookLaws
  import opened Engine
  import opened Reference
  import CallLaws

  // ----- the pool's capacity clamp cannot be observed

  function Ids(line: Line): (r: seq<u32>)
    ensures |r| == |line| && forall k :: 0 <= k < |line| ==> r[k] == line[k].id
  {
    seq(|line|, k requires 0 <= k < |line| => line[k].id)
  }

  /** Ids are unique and start at 1, so a book that does not hold `id` has room below the id limit. */
  lemma RoomForId(cfg: Config, b: Book, id: u32)
    requires Wf(cfg, b) && 0 < id <= cfg.maxOrderId && !HasId(b.bids, id) && !HasId(b.asks, id)
    ensures b.Count() < cfg.maxOrderId
  {
    var q := Ids(b.bids) + Ids(b.asks) + [id, 0];
    forall k | 0 <= k < |q| ensures q[k] <= cfg.maxOrderId {
      if k < |b.bids| {
        assert ValidOrder(cfg, b.bids[k]);
      } else if k < b.Count() {
        assert ValidOrder(cfg, b.asks[k - |b.bids|]);
      }
    }
    forall i, j | 0 <= i < j < |q| ensures q[i] != q[j] {
      if i < |b.bids| {
        assert ValidOrder(cfg, b.bids[i]);
      } else if i < b.Count() {
        assert ValidOrder(cfg, b.asks[i - |b.bids|]);
      }
    }
    DistinctBound(q, cfg.maxOrderId + 1);
  }

  /** Clamping the capacity to the pool's maximum changes no reply and no book. */
  lemma ClampInvisible(cfg: Config, b: Book, op: Op)
    requires Wf(cfg.(capacity := Clamped(cfg.capacity)), b) && cfg.maxOrderId <= MAX_ORDER_IDS
    ensures Apply(cfg.(capacity := Clamped(cfg.capacity)), b, op) == Apply(cfg, b, op)
  {
    hide Match, Insert, Remove, HasId, Wf, Crosses;
    var clamped := cfg.(capacity := Clamped(cfg.capacity));
    if op.Add? && !op.kind.Cancel? {
      var Add(id, kind, price, quantity, side) := op;
      if Validate(cfg, b, id, kind, price, quantity, side).Accepted? {
        var limit := ResolvedPrice(kind, price, side);
        var off := MatchKeeps(clamped, b, id, limit, quantity, side);
        RoomForId(clamped, b, id);
      }
    }
  }

  // ----- one call

  method EngineStep(book: OrderBook, op: Op) returns (reply: Reply)
    requires book.Valid()
    modifies book`orderMap, book`activeCount, book.pool, book.bids, book.asks
    ensures book.Valid() && Outcome(book.Abs(), reply) == Apply(book.cfg, old(book.Abs()), op)
    ensures CallLaws.IsOutcome(book.cfg, old(book.Abs()), op, Outcome(book.Abs(), reply))
  {
    hide CallLaws.IsOutcome;
    CallLaws.CallIsOutcome(book.cfg, book.Abs(), op, Apply(book.cfg, book.Abs(), op));
    ApplyKeeps(book.cfg, book.Abs(), op);
    match op {
      case Add(id, kind, price, quantity, side) =>
        var code, filled, trades := book.AddOrder(id, kind, price, quantity, side);
        return Reply(code, filled, trades);
      case CancelOrder(id) =>
        ghost var k;
        var code;
        code, k := book.CancelOrder(id);
        return Reply(code, 0, []);
    }
  }

  /** A cancel whose id no order can have: the one call the two books answer differently. */
  predicate CancelOutOfRange(maxOrderId: nat, op: Op) {
    match op
    case Add(id, kind, _, _, _) => kind.Cancel? && (id == 0 || id > maxOrderId)
    case CancelOrder(id) => id == 0 || id > maxOrderId
  }

  /** What the reference answers where the engine answers `reply`. */
  function ReferenceReply(maxOrderId: nat, op: Op, reply: Reply): Reply {
    if CancelOutOfRange(maxOrderId, op) then reply.(code := CancelFailed) else reply
  }

  /** The reference answers as `ReferenceReply` says, which differs on exactly those calls. */
  predicate Agree(maxOrderId: nat, op: Op, reply: Reply, refReply: Reply) {
    && refReply == ReferenceReply(maxOrderId, op, reply)
    && (reply == refReply <==> !CancelOutOfRange(maxOrderId, op))
    && (reply != refReply ==> reply == Reply(OutOfBoundsOrderId, 0, []) && refReply == Reply(CancelFailed, 0, []))
  }

  lemma DiffersWhen(cfg: Config, b: Book, op: Op)
    ensures var reply := Apply(cfg, b, op).reply;
            Agree(cfg.maxOrderId, op, reply, ReferenceReply(cfg.maxOrderId, op, reply))
  {
    hide Match, Insert, Remove, HasId, Settle;
  }

  method ReferenceStep(book: StdOrderBook, op: Op) returns (reply: Reply)
    requires book.Consistent() && Wf(book.cfg, book.Abs())
    modifies book
    ensures book.Consistent() && Wf(book.cfg, book.Abs())
    ensures var out := Apply(book.cfg, old(book.Abs()), op);
            book.Abs() == out.book && reply == ReferenceReply(book.cfg.maxOrderId, op, out.reply)
  {
    hide HasId, Remove, Settle, Validate, Match, Wf, StdOrderBook.Consistent, StdOrderBook.SideLine;
    match op {
      case Add(id, kind, price, quantity, side) =>
        var code, filled, trades := book.AddOrder(id, kind, price, quantity, side);
        return Reply(code, filled, trades);
      case CancelOrder(id) =>
        var code := book.CancelOrder(id);
        return Reply(code, 0, []);
    }
  }

  // ----- whole runs

  lemma RunEmpty(cfg: Config, b: Book, ops: seq<Op>)
    ensures Run(cfg, b, ops[..0]) == RunResult(b, [])
  {}

  lemma RunStep(cfg: Config, b: Book, ops: seq<Op>, i: nat)
    requires i < |ops|
    ensures var before := Run(cfg, b, ops[..i]);
            var out := Apply(cfg, before.book, ops[i]);
            Run(cfg, b, ops[..i + 1]) == RunResult(out.book, before.replies + [out.reply])
  {
    assert ops[..i + 1][..i] == ops[..i];
  }

  /** Feeds the same calls to both books. Call by call they give the same code, fill and trades, save that an
      out-of-range cancel is "out of bounds" to one and "not found" to the other; and they end as the same book. */
  method RunBoth(maxOrderId: nat, maxActiveOrders: nat, minPrice: u32, maxPrice: u32, ops: seq<Op>)
    returns (engine: OrderBook, reference: StdOrderBook, replies: seq<Reply>, refReplies: seq<Reply>)
    requires minPrice <= maxPrice < 0xFFFF_FFFF && maxOrderId <= MAX_ORDER_IDS
    requires maxPrice - minPrice + 1 <= MAX_PRICE_RANGE_TICKS
    ensures engine.Valid() && reference.Consistent() && engine.Abs() == reference.Abs()
    ensures var run := Run(Config(maxOrderId, maxActiveOrders, minPrice, maxPrice), EMPTY_BOOK, ops);
            engine.Abs() == run.book && replies == run.replies
    ensures |replies| == |refReplies| == |ops|
    ensures forall i :: 0 <= i < |ops| ==> refReplies[i] == ReferenceReply(maxOrderId, ops[i], replies[i])
    ensures forall i :: 0 <= i < |ops| ==> (replies[i] == refReplies[i] <==> !CancelOutOfRange(maxOrderId, ops[i]))
    ensures forall i :: 0 <= i < |ops| && replies[i] != refReplies[i] ==>
              replies[i] == Reply(OutOfBoundsOrderId, 0, []) && refReplies[i] == Reply(CancelFailed, 0, [])
  {
    hide Wf, Apply, Run, Agree, ReferenceReply, CancelOutOfRange, OrderBook.Consistent, OrderBook.Line,
      StdOrderBook.Consistent, StdOrderBook.SideLine;
    ghost var cfg := Config(maxOrderId, maxActiveOrders, minPrice, maxPrice);
    engine := new OrderBook(maxOrderId, maxActiveOrders, minPrice, maxPrice);
    reference := new StdOrderBook(maxOrderId, maxActiveOrders, minPrice, maxPrice);
    EmptyWf(reference.cfg);
    replies, refReplies := [], [];
    RunEmpty(cfg, EMPTY_BOOK, ops);
    for i := 0 to |ops|
      invariant fresh(engine) && fresh(engine.pool) && fresh(engine.bids) && fresh(engine.asks) && fresh(reference)
      invariant engine.cfg == cfg.(capacity := Clamped(maxActiveOrders)) && reference.cfg == cfg
      invariant engine.Valid() && reference.Consistent() && Wf(cfg, reference.Abs())
      invariant engine.Abs() == reference.Abs() == Run(cfg, EMPTY_BOOK, ops[..i]).book
      invariant replies == Run(cfg, EMPTY_BOOK, ops[..i]).replies
      invariant |replies| == |refReplies| == i
      invariant forall j :: 0 <= j < i ==> Agree(maxOrderId, ops[j], replies[j], refReplies[j])
    {
      ClampInvisible(cfg, engine.Abs(), ops[i]);
      RunStep(cfg, EMPTY_BOOK, ops, i);
      var reply := EngineStep(engine, ops[i]);
      var refReply := ReferenceStep(reference, ops[i]);
      DiffersWhen(cfg, Run(cfg, EMPTY_BOOK, ops[..i]).book, ops[i]);
      replies := replies + [reply];
      refReplies := refReplies + [refReply];
    }
    assert ops[..|ops|] == ops;
    AllAgree(maxOrderId, ops, replies, refReplies);
  }

  lemma AllAgree(maxOrderId: nat, ops: seq<Op>, replies: seq<Reply>, refReplies: seq<Reply>)
    requires |replies| == |refReplies| == |ops|
    requires forall i :: 0 <= i < |ops| ==> Agree(maxOrderId, ops[i], replies[i], refReplies[i])
    ensures forall i :: 0 <= i < |ops| ==> refReplies[i] == ReferenceReply(maxOrderId, ops[i], replies[i])
    ensures forall i :: 0 <= i < |ops| ==> (replies[i] == refReplies[i] <==> !CancelOutOfRange(maxOrderId, ops[i]))
    ensures forall i :: 0 <= i < |ops| && replies[i] != refReplies[i] ==>
              replies[i] == Reply(OutOfBoundsOrderId, 0, []) && refReplies[i] == Reply(CancelFailed, 0, [])
  {}
}
