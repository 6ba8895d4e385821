/** First come, first served: over every run, resting orders at one price stand in the order they were accepted. */
module TimePriority {
  import opened Types
  import opened PriceTime
  import opened BookLaws

  /** An accepted submission of a new order under this id. */
  ghost predicate Accepts(cfg: Config, ops: seq<Op>, id: u32)
    requires ops != []
  {
    var last := ops[|ops| - 1];
    && last.Add? && !last.kind.Cancel? && last.id == id
    && Apply(cfg, Run(cfg, EMPTY_BOOK, ops[..|ops| - 1]).book, last).reply.code.Accepted?
  }

  /** The position in the run at which the latest order with this id was accepted, or -1. */
  ghost function Arrival(cfg: Config, ops: seq<Op>, id: u32): int
    decreases |ops|
  {
    if ops == [] then -1
    else if Accepts(cfg, ops, id) then |ops| - 1
    else Arrival(cfg, ops[..|ops| - 1], id)
  }

  lemma {:induction false} ArrivalBound(cfg: Config, ops: seq<Op>, id: u32)
    ensures -1 <= Arrival(cfg, ops, id) < |ops| || (ops == [] && Arrival(cfg, ops, id) == -1)
    decreases |ops|
  {
    if ops != [] {
      ArrivalBound(cfg, ops[..|ops| - 1], id);
    }
  }

  /** Equal prices stand in order of arrival. */
  ghost predicate Fifo(cfg: Config, ops: seq<Op>, line: Line) {
    forall i, j :: 0 <= i < j < |line| && line[i].price == line[j].price ==>
      Arrival(cfg, ops, line[i].id) < Arrival(cfg, ops, line[j].id)
  }

  /** Nobody standing in line carries the id the last call brought. */
  ghost predicate Settled(cfg: Config, ops: seq<Op>, line: Line)
    requires ops != []
  {
    forall k :: 0 <= k < |line| ==> !Accepts(cfg, ops, line[k].id)
  }

  /** Ids whose arrival the last call did not change keep their order. */
  lemma FifoCarries(cfg: Config, ops: seq<Op>, line: Line)
    requires ops != [] && Fifo(cfg, ops[..|ops| - 1], line)
    requires Settled(cfg, ops, line)
    ensures Fifo(cfg, ops, line)
  {}

  lemma FifoRemnant(cfg: Config, ops: seq<Op>, line: Line, line': Line, off: nat)
    requires Fifo(cfg, ops, line) && Remnant(line, line', off)
    ensures Fifo(cfg, ops, line')
  {}

  lemma FifoRemove(cfg: Config, ops: seq<Op>, line: Line, id: u32)
    requires Fifo(cfg, ops, line) && HasId(line, id)
    ensures Fifo(cfg, ops, Remove(line, id))
    ensures forall x: u32 :: HasId(Remove(line, id), x) ==> HasId(line, x)
  {
    hide Arrival, Remove;
    var p := RemoveSplices(line, id);
    var line' := line[..p] + line[p + 1..];
    assert forall k :: 0 <= k < |line'| ==> line'[k] == line[if k < p then k else k + 1];
    forall i, j | 0 <= i < j < |line'| && line'[i].price == line'[j].price
      ensures Arrival(cfg, ops, line'[i].id) < Arrival(cfg, ops, line'[j].id)
    {
      var i0, j0 := if i < p then i else i + 1, if j < p then j else j + 1;
      assert line[i0].price == line[j0].price;
    }
  }

  /** A newcomer goes behind everyone at its price. */
  lemma FifoInsert(cfg: Config, ops: seq<Op>, s: Side, line: Line, o: Order)
    requires ops != [] && Fifo(cfg, ops, line) && Sorted(s, line) && Arrival(cfg, ops, o.id) == |ops| - 1
    requires forall k :: 0 <= k < |line| ==> Arrival(cfg, ops, line[k].id) < |ops| - 1
    ensures Fifo(cfg, ops, Insert(s, line, o))
  {
    hide Arrival, Insert;
    var p := InsertSplices(s, line, o);
    var r := Spliced(line, o, p);
    assert Insert(s, line, o) == r;
    forall i, j | 0 <= i < j < |r| && r[i].price == r[j].price
      ensures Arrival(cfg, ops, r[i].id) < Arrival(cfg, ops, r[j].id)
    {
      var i0, j0 := if i < p then i else i - 1, if j < p then j else j - 1;
      if i != p && j != p {
        assert line[i0].price == line[j0].price;
      }
    }
  }

  ghost predicate BookFifo(cfg: Config, ops: seq<Op>, b: Book) {
    Fifo(cfg, ops, b.bids) && Fifo(cfg, ops, b.asks)
  }

  lemma OldArrivals(cfg: Config, ops: seq<Op>, line: Line)
    requires ops != [] && Settled(cfg, ops, line)
    ensures forall k :: 0 <= k < |line| ==> Arrival(cfg, ops, line[k].id) < |ops| - 1
  {
    hide Accepts;
    forall k | 0 <= k < |line| ensures Arrival(cfg, ops, line[k].id) < |ops| - 1 {
      ArrivalBound(cfg, ops[..|ops| - 1], line[k].id);
    }
  }

  /** Cancelling, or turning an order away, brings no id and keeps the order of the rest. */
  lemma CancelIsFifo(cfg: Config, ops: seq<Op>, b: Book, id: u32)
    requires BookFifo(cfg, ops, b)
    ensures BookFifo(cfg, ops, Cancelled(cfg, b, id).book)
  {
    hide Fifo, HasId, Remove;
    if HasId(b.bids, id) {
      FifoRemove(cfg, ops, b.bids, id);
    } else if HasId(b.asks, id) {
      FifoRemove(cfg, ops, b.asks, id);
    }
  }

  /** The last call was an accepted-for-matching order with a fresh id: sweep, then maybe rest. */
  lemma SubmitIsFifo(cfg: Config, ops: seq<Op>, b: Book)
    requires ops != [] && b == Run(cfg, EMPTY_BOOK, ops[..|ops| - 1]).book && Wf(cfg, b)
    requires BookFifo(cfg, ops, b) && Settled(cfg, ops, b.bids) && Settled(cfg, ops, b.asks)
    requires ops[|ops| - 1].Add? && !ops[|ops| - 1].kind.Cancel?
    ensures BookFifo(cfg, ops, Apply(cfg, b, ops[|ops| - 1]).book)
  {
    hide Fifo, Settled, HasId, Match, Insert, Wf, LineOk, Run, Arrival, Remnant;
    var Add(id, kind, price, quantity, side) := ops[|ops| - 1];
    if Validate(cfg, b, id, kind, price, quantity, side).Accepted? {
      var t, limit := side.Opposite(), ResolvedPrice(kind, price, side);
      var f := Match(side, id, limit, quantity, b.On(t));
      WfSides(cfg, b, t);
      WfSides(cfg, b, side);
      LeftBound(side, id, limit, quantity, b.On(t));
      var off := MatchLeaves(side, id, limit, quantity, b.On(t));
      FifoRemnant(cfg, ops, b.On(t), f.line, off);
      var swept := b.With(t, f.line);
      if f.left > 0 && kind.Limit? && swept.Count() < cfg.capacity {
        assert Accepts(cfg, ops, id);
        ArrivesNow(cfg, ops, id);
        OldArrivals(cfg, ops, b.On(side));
        SidesSorted(cfg, side, b.On(side));
        FifoInsert(cfg, ops, side, b.On(side), Order(id, limit, f.left));
      }
    }
  }

  lemma ArrivesNow(cfg: Config, ops: seq<Op>, id: u32)
    requires ops != [] && Accepts(cfg, ops, id)
    ensures Arrival(cfg, ops, id) == |ops| - 1
  {}

  lemma SidesSorted(cfg: Config, s: Side, line: Line)
    requires LineOk(cfg, s, line)
    ensures Sorted(s, line)
  {}

  /** An id the last call brought was not in the book before. */
  lemma NewcomerIsFresh(cfg: Config, ops: seq<Op>, b: Book)
    requires ops != [] && b == Run(cfg, EMPTY_BOOK, ops[..|ops| - 1]).book
    ensures Settled(cfg, ops, b.bids) && Settled(cfg, ops, b.asks)
  {}

  /** A cancel means the same by either entry point. */
  function CancelTarget(op: Op): u32
    requires op.CancelOrder? || op.kind.Cancel?
  {
    match op
    case Add(id, _, _, _, _) => id
    case CancelOrder(id) => id
  }

  lemma CancelForms(cfg: Config, b: Book, op: Op)
    requires op.CancelOrder? || op.kind.Cancel?
    ensures Apply(cfg, b, op) == Cancelled(cfg, b, CancelTarget(op))
  {}

  /** Over every run from an empty book, orders resting at one price stand in the order they were accepted. */
  lemma {:induction false} RunIsFifo(cfg: Config, ops: seq<Op>)
    ensures BookFifo(cfg, ops, Run(cfg, EMPTY_BOOK, ops).book)
    decreases |ops|
  {
    if ops != [] {
      hide Fifo, Settled, Wf, Submitted, Cancelled;
      var before := ops[..|ops| - 1];
      var b := Run(cfg, EMPTY_BOOK, before).book;
      RunIsFifo(cfg, before);
      EmptyWf(cfg);
      RunKeeps(cfg, EMPTY_BOOK, before);
      NewcomerIsFresh(cfg, ops, b);
      FifoCarries(cfg, ops, b.bids);
      FifoCarries(cfg, ops, b.asks);
      var op := ops[|ops| - 1];
      if op.CancelOrder? || op.kind.Cancel? {
        CancelForms(cfg, b, op);
        CancelIsFifo(cfg, ops, b, CancelTarget(op));
      } else {
        SubmitIsFifo(cfg, ops, b);
      }
    }
  }
}
