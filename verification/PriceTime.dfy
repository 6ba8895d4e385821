/** Price-time priority, stated on the simplest possible book.

Each side is one line of resting orders, best first: best price first, and
first come first served at equal prices. Matching eats the front of the
opposite line, resting inserts behind every order that is at least as good,
cancelling deletes one order.
*/
module PriceTime {
  import opened Types

  datatype Order = Order(id: u32, price: u32, quantity: u32)

  type Line = seq<Order>

  datatype Book = Book(bids: Line, asks: Line) {
    function On(s: Side): Line {
      if s.Buy? then bids else asks
    }

    function With(s: Side, line: Line): Book {
      if s.Buy? then this.(bids := line) else this.(asks := line)
    }

    function Count(): nat {
      |bids| + |asks|
    }
  }

  const EMPTY_BOOK := Book([], [])

  /** A resting price `p` on side `s` is strictly better than `q`. */
  predicate Beats(s: Side, p: u32, q: u32) {
    if s.Buy? then p > q else p < q
  }

  /** A taker on side `s` with this limit trades against a maker at `p`. */
  predicate Crosses(s: Side, limit: u32, p: u32) {
    if s.Buy? then limit >= p else limit <= p
  }

  // ----- matching

  /** What matching leaves: the fills, the opposite line and the taker's unfilled quantity. */
  datatype Fill = Fill(trades: seq<Trade>, line: Line, left: u32)

  function Prepend(ts: seq<Trade>, f: Fill): Fill {
    f.(trades := ts + f.trades)
  }

  /** Maker by maker from the front, until the taker is filled or the next maker is out of reach. */
  function Match(s: Side, taker: u32, limit: u32, quantity: u32, line: Line): Fill {
    if line == [] || quantity == 0 || !Crosses(s, limit, line[0].price) then
      Fill([], line, quantity)
    else
      var m := line[0];
      if quantity < m.quantity then
        Fill([Trade(m.id, taker, m.price, quantity)], [m.(quantity := m.quantity - quantity)] + line[1..], 0)
      else
        Prepend([Trade(m.id, taker, m.price, m.quantity)], Match(s, taker, limit, quantity - m.quantity, line[1..]))
  }

  // ----- resting and cancelling

  /** Behind every order that is at least as good, in front of every strictly worse one. */
  function Insert(s: Side, line: Line, o: Order): Line {
    if line == [] || Beats(s, o.price, line[0].price) then [o] + line
    else [line[0]] + Insert(s, line[1..], o)
  }

  predicate HasId(line: Line, id: u32) {
    exists k :: 0 <= k < |line| && line[k].id == id
  }

  function Remove(line: Line, id: u32): Line {
    if line == [] then []
    else if line[0].id == id then line[1..]
    else [line[0]] + Remove(line[1..], id)
  }

  // ----- the operations

  datatype Outcome = Outcome(book: Book, reply: Reply)

  function Refuse(b: Book, code: RejectReason): Outcome {
    Outcome(b, Reply(code, 0, []))
  }

  function Cancelled(cfg: Config, b: Book, id: u32): Outcome {
    if id == 0 || id > cfg.maxOrderId then Refuse(b, OutOfBoundsOrderId)
    else if HasId(b.bids, id) then Outcome(b.(bids := Remove(b.bids, id)), Reply(Accepted, 0, []))
    else if HasId(b.asks, id) then Outcome(b.(asks := Remove(b.asks, id)), Reply(Accepted, 0, []))
    else Refuse(b, CancelFailed)
  }

  /** Why an order is turned away before it touches the book; `Accepted` if it is not. */
  function Validate(cfg: Config, b: Book, id: u32, kind: OrderType, price: u32, quantity: u32,
                    side: Side): RejectReason {
    if quantity == 0 then InvalidQuantity
    else if id == 0 || id > cfg.maxOrderId then OutOfBoundsOrderId
    else if HasId(b.bids, id) || HasId(b.asks, id) then DuplicateOrderId
    else if kind.Limit? && (price < cfg.minPrice || price > cfg.maxPrice) then OutOfBoundsPrice
    else if kind.Market? && b.On(side.Opposite()) == [] then MarketOnEmptyBook
    else Accepted
  }

  function ResolvedPrice(kind: OrderType, price: u32, side: Side): u32 {
    if kind.Market? then (if side.Buy? then MARKET_BUY_PRICE else MARKET_SELL_PRICE) else price
  }

  /** The part of an accepted order after matching: rest it, drop it, or refuse it for want of a slot. */
  function Settle(cfg: Config, b: Book, id: u32, kind: OrderType, price: u32, quantity: u32, side: Side,
                  f: Fill): Outcome
    requires f.left <= quantity
  {
    var swept := b.With(side.Opposite(), f.line);
    if f.left == 0 || kind.Market? then
      Outcome(swept, Reply(Accepted, quantity - f.left, f.trades))
    else if swept.Count() >= cfg.capacity then
      Outcome(swept, Reply(PoolExhausted, quantity - f.left, f.trades))
    else
      Outcome(swept.With(side, Insert(side, swept.On(side), Order(id, price, f.left))),
              Reply(Accepted, quantity - f.left, f.trades))
  }

  function Submitted(cfg: Config, b: Book, id: u32, kind: OrderType, price: u32, quantity: u32, side: Side): Outcome {
    if kind.Cancel? then Cancelled(cfg, b, id)
    else
      var code := Validate(cfg, b, id, kind, price, quantity, side);
      if !code.Accepted? then Refuse(b, code)
      else
        var limit := ResolvedPrice(kind, price, side);
        var f := Match(side, id, limit, quantity, b.On(side.Opposite()));
        LeftBound(side, id, limit, quantity, b.On(side.Opposite()));
        Settle(cfg, b, id, kind, limit, quantity, side, f)
  }

  function Apply(cfg: Config, b: Book, op: Op): Outcome {
    match op
    case Add(id, kind, price, quantity, side) => Submitted(cfg, b, id, kind, price, quantity, side)
    case CancelOrder(id) => Cancelled(cfg, b, id)
  }

  datatype RunResult = RunResult(book: Book, replies: seq<Reply>)

  /** A run, as the replies it produced and the book it left. */
  function Run(cfg: Config, b: Book, ops: seq<Op>): (r: RunResult)
    ensures |r.replies| == |ops|
  {
    if ops == [] then RunResult(b, [])
    else
      var before := Run(cfg, b, ops[..|ops| - 1]);
      var last := Apply(cfg, before.book, ops[|ops| - 1]);
      RunResult(last.book, before.replies + [last.reply])
  }

  lemma {:induction false} LeftBound(s: Side, taker: u32, limit: u32, quantity: u32, line: Line)
    ensures Match(s, taker, limit, quantity, line).left <= quantity
    decreases line
  {
    if line == [] || quantity == 0 || !Crosses(s, limit, line[0].price) {
    } else if quantity >= line[0].quantity {
      LeftBound(s, taker, limit, quantity - line[0].quantity, line[1..]);
    }
  }
}
