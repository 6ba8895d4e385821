/** Quantity is never created or lost: over any run, what was submitted is what traded (on both sides),
what rests, what was cancelled and what was dropped. */
module Conservation {
  import opened Types
  import opened PriceTime
  import opened MatchLaws

  /** Where the quantity of one or more calls went. */
  datatype Ledger = Ledger(submitted: nat, traded: nat, cancelled: nat, dropped: nat) {
    function Plus(other: Ledger): Ledger {
      Ledger(submitted + other.submitted, traded + other.traded, cancelled + other.cancelled, dropped + other.dropped)
    }
  }

  function OnBook(b: Book): nat {
    Total(b.bids) + Total(b.asks)
  }

  /** The resting quantity carried by an id. */
  function QuantityOf(line: Line, id: u32): nat {
    if line == [] then 0 else if line[0].id == id then line[0].quantity else QuantityOf(line[1..], id)
  }

  function CancelLedger(b: Book, id: u32, reply: Reply): Ledger {
    if reply.code.Accepted?
    then Ledger(0, 0, if HasId(b.bids, id) then QuantityOf(b.bids, id) else QuantityOf(b.asks, id), 0)
    else Ledger(0, 0, 0, 0)
  }

  /** Read off the call and its reply alone: a validated order submits its quantity; what did not trade rests,
      or is dropped when it is a market order's or no slot was free. */
  function LedgerOf(b: Book, op: Op, reply: Reply): Ledger {
    match op
    case CancelOrder(id) => CancelLedger(b, id, reply)
    case Add(id, kind, _, quantity, _) =>
      if kind.Cancel? then CancelLedger(b, id, reply)
      else if reply.code.Accepted? && kind.Limit? then Ledger(quantity, Traded(reply.trades), 0, 0)
      else if reply.code.Accepted? || reply.code.PoolExhausted? then
        Ledger(quantity, Traded(reply.trades), 0, if reply.filled <= quantity then quantity - reply.filled else 0)
      else Ledger(0, 0, 0, 0)
  }

  function RunLedger(cfg: Config, b: Book, ops: seq<Op>): Ledger {
    if ops == [] then Ledger(0, 0, 0, 0)
    else
      var before := Run(cfg, b, ops[..|ops| - 1]).book;
      var last := ops[|ops| - 1];
      RunLedger(cfg, b, ops[..|ops| - 1]).Plus(LedgerOf(before, last, Apply(cfg, before, last).reply))
  }

  lemma {:induction false} TotalInsert(s: Side, line: Line, o: Order)
    ensures Total(Insert(s, line, o)) == Total(line) + o.quantity
    decreases |line|
  {
    var r := Insert(s, line, o);
    if line == [] || Beats(s, o.price, line[0].price) {
      assert r[1..] == line;
    } else {
      TotalInsert(s, line[1..], o);
      assert r[1..] == Insert(s, line[1..], o);
    }
  }

  lemma {:induction false} TotalRemove(line: Line, id: u32)
    ensures Total(line) == Total(Remove(line, id)) + QuantityOf(line, id)
    decreases |line|
  {
    if line != [] && line[0].id != id {
      TotalRemove(line[1..], id);
      assert Remove(line, id)[1..] == Remove(line[1..], id);
    }
  }

  lemma CancelConserves(cfg: Config, b: Book, id: u32)
    ensures var out := Cancelled(cfg, b, id);
            OnBook(b) == OnBook(out.book) + CancelLedger(b, id, out.reply).cancelled
  {
    TotalRemove(b.bids, id);
    TotalRemove(b.asks, id);
  }

  lemma SettleConserves(cfg: Config, b: Book, id: u32, kind: OrderType, price: u32, quantity: u32, side: Side, f: Fill)
    requires !kind.Cancel? && f.left <= quantity
    requires Traded(f.trades) + f.left == quantity
    requires Total(b.On(side.Opposite())) == Total(f.line) + Traded(f.trades)
    ensures var out := Settle(cfg, b, id, kind, price, quantity, side, f);
            var l := LedgerOf(b, Add(id, kind, price, quantity, side), out.reply);
            && l.submitted + OnBook(b) == 2 * l.traded + OnBook(out.book) + l.cancelled + l.dropped
            && out.reply.filled == Traded(out.reply.trades)
            && Total(b.On(side.Opposite())) == Total(out.book.On(side.Opposite())) + out.reply.filled
  {
    hide Insert, Total, Traded;
    TotalInsert(side, b.On(side), Order(id, price, f.left));
  }

  /** One call: the balance holds, and the reported fill is the sum of the trades and the opposite side's loss. */
  lemma ApplyConserves(cfg: Config, b: Book, op: Op)
    ensures var out := Apply(cfg, b, op);
            var l := LedgerOf(b, op, out.reply);
            && l.submitted + OnBook(b) == 2 * l.traded + OnBook(out.book) + l.cancelled + l.dropped
            && out.reply.filled == Traded(out.reply.trades)
            && (op.Add? && !op.kind.Cancel? ==>
                  Total(b.On(op.side.Opposite())) == Total(out.book.On(op.side.Opposite())) + out.reply.filled)
  {
    hide Match, Settle, Remove, HasId, QuantityOf, Total;
    match op {
      case CancelOrder(id) => CancelConserves(cfg, b, id);
      case Add(id, kind, price, quantity, side) =>
        if kind.Cancel? {
          CancelConserves(cfg, b, id);
        } else if Validate(cfg, b, id, kind, price, quantity, side).Accepted? {
          var limit := ResolvedPrice(kind, price, side);
          var opposite := b.On(side.Opposite());
          MatchConserves(side, id, limit, quantity, opposite);
          LeftBound(side, id, limit, quantity, opposite);
          SettleConserves(cfg, b, id, kind, limit, quantity, side, Match(side, id, limit, quantity, opposite));
        }
    }
  }

  /** The balance of a whole run. */
  lemma {:induction false} RunConserves(cfg: Config, b: Book, ops: seq<Op>)
    ensures var l := RunLedger(cfg, b, ops);
            l.submitted + OnBook(b) == 2 * l.traded + OnBook(Run(cfg, b, ops).book) + l.cancelled + l.dropped
    decreases |ops|
  {
    if ops != [] {
      hide Apply, LedgerOf, OnBook;
      RunConserves(cfg, b, ops[..|ops| - 1]);
      ApplyConserves(cfg, Run(cfg, b, ops[..|ops| - 1]).book, ops[|ops| - 1]);
    }
  }
}
