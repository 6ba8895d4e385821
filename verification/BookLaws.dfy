/** What every operation keeps: well-formed lines, unique ids, bounded size, and an uncrossed book. */
module BookLaws {
  import opened Types
  import opened PriceTime
  import opened MatchLaws

  ghost predicate ValidOrder(cfg: Config, o: Order) {
    0 < o.id <= cfg.maxOrderId && cfg.minPrice <= o.price <= cfg.maxPrice && o.quantity > 0
  }

  /** No order is better priced than one ahead of it. */
  ghost predicate Sorted(s: Side, line: Line) {
    forall i, j :: 0 <= i < j < |line| ==> !Beats(s, line[j].price, line[i].price)
  }

  ghost predicate LineOk(cfg: Config, s: Side, line: Line) {
    Sorted(s, line) && forall k :: 0 <= k < |line| ==> ValidOrder(cfg, line[k])
  }

  ghost predicate UniqueIds(line: Line) {
    forall i, j :: 0 <= i < j < |line| ==> line[i].id != line[j].id
  }

  ghost predicate ApartIds(a: Line, b: Line) {
    forall i, j :: 0 <= i < |a| && 0 <= j < |b| ==> a[i].id != b[j].id
  }

  /** Best bid strictly below best ask. */
  ghost predicate Uncrossed(b: Book) {
    b.bids != [] && b.asks != [] ==> b.bids[0].price < b.asks[0].price
  }

  ghost predicate Wf(cfg: Config, b: Book) {
    && LineOk(cfg, Buy, b.bids) && LineOk(cfg, Sell, b.asks)
    && UniqueIds(b.bids) && UniqueIds(b.asks) && ApartIds(b.bids, b.asks)
    && Uncrossed(b)
    && b.Count() <= cfg.capacity
  }

  // ----- what matching leaves of a line

  /** `line'` is what is left of `line` after its first `off` orders went and the next may have shrunk. */
  ghost predicate Remnant(line: Line, line': Line, off: nat) {
    && off + |line'| == |line|
    && forall i :: 0 <= i < |line'| ==>
         line'[i].id == line[off + i].id && line'[i].price == line[off + i].price && 0 < line'[i].quantity
  }

  lemma MatchLeaves(s: Side, taker: u32, limit: u32, quantity: u32, line: Line) returns (off: nat)
    requires Positive(line)
    ensures var f := Match(s, taker, limit, quantity, line);
            && Remnant(line, f.line, off)
            && (f.left > 0 ==> off == |f.trades|)
            && (f.left > 0 && f.line != [] ==> !Crosses(s, limit, f.line[0].price))
            && (f.trades == [] ==> f.left == quantity && f.line == line)
  {
    hide Match, AfterFills;
    MatchMeets(s, taker, limit, quantity, line);
    var f := Match(s, taker, limit, quantity, line);
    AfterFillsRemnant(line, f.trades);
    off := |line| - |f.line|;
  }

  lemma AfterFillsRemnant(line: Line, ts: seq<Trade>)
    requires Positive(line) && |ts| <= |line|
    ensures var line' := AfterFills(line, ts);
            && |line'| <= |line| && Remnant(line, line', |line| - |line'|)
            && (ts == [] || ts[|ts| - 1].quantity >= line[|ts| - 1].quantity ==> line' == line[|ts|..])
  {
    hide Remnant, AfterFills;
    var k := |ts|;
    if ts == [] {
      AfterNone(line);
      RemnantDrop(line, 0);
      return;
    }
    AfterFillsIs(line, ts, k - 1);
    if ts[k - 1].quantity >= line[k - 1].quantity {
      RemnantDrop(line, k);
    } else {
      var m := line[k - 1].(quantity := line[k - 1].quantity - ts[k - 1].quantity);
      RemnantShrink(line, k - 1, m);
    }
  }

  lemma AfterNone(line: Line)
    ensures AfterFills(line, []) == line == line[0..]
  {}

  lemma RemnantDrop(line: Line, k: nat)
    requires Positive(line) && k <= |line|
    ensures Remnant(line, line[k..], k)
  {}

  lemma RemnantShrink(line: Line, k: nat, m: Order)
    requires Positive(line) && k < |line| && m.id == line[k].id && m.price == line[k].price && m.quantity > 0
    ensures Remnant(line, [m] + line[k + 1..], k)
  {}

  lemma RemnantOk(cfg: Config, s: Side, line: Line, line': Line, off: nat)
    requires LineOk(cfg, s, line) && Remnant(line, line', off)
    ensures LineOk(cfg, s, line')
    ensures line' != [] ==> line != [] && !Beats(s, line'[0].price, line[0].price)
  {}

  lemma RemnantIds(line: Line, line': Line, off: nat, other: Line)
    requires UniqueIds(line) && ApartIds(line, other) && ApartIds(other, line) && Remnant(line, line', off)
    ensures UniqueIds(line') && ApartIds(line', other) && ApartIds(other, line')
    ensures forall id: u32 :: HasId(line', id) ==> HasId(line, id)
  {}

  // ----- inserting and removing as splicing

  lemma {:induction false} InsertSplices(s: Side, line: Line, o: Order) returns (p: nat)
    requires Sorted(s, line)
    ensures p <= |line| && Insert(s, line, o) == line[..p] + [o] + line[p..]
    ensures forall i :: 0 <= i < p ==> !Beats(s, o.price, line[i].price)
    ensures forall i :: p <= i < |line| ==> Beats(s, o.price, line[i].price)
    decreases |line|
  {
    if line == [] || Beats(s, o.price, line[0].price) {
      p := 0;
      assert [o] + line == line[..0] + [o] + line[0..];
      forall i | 0 <= i < |line| ensures Beats(s, o.price, line[i].price) {
        assert i > 0 ==> !Beats(s, line[i].price, line[0].price);
      }
    } else {
      var t := line[1..];
      var r := InsertSplices(s, t, o);
      p := r + 1;
      assert [line[0]] + (t[..r] + [o] + t[r..]) == line[..p] + [o] + line[p..];
      forall i | 0 <= i < |line| ensures i < p <==> !Beats(s, o.price, line[i].price) {
        if i > 0 { assert line[i] == t[i - 1]; }
      }
    }
  }

  lemma {:induction false} RemoveSplices(line: Line, id: u32) returns (p: nat)
    requires HasId(line, id)
    ensures p < |line| && line[p].id == id && Remove(line, id) == line[..p] + line[p + 1..]
    decreases |line|
  {
    if line[0].id == id {
      p := 0;
    } else {
      var k :| 0 <= k < |line| && line[k].id == id;
      assert line[1..][k - 1].id == id;
      var r := RemoveSplices(line[1..], id);
      p := r + 1;
      assert [line[0]] + (line[1..][..r] + line[1..][r + 1..]) == line[..p] + line[p + 1..];
    }
  }

  function Spliced(line: Line, o: Order, p: nat): (r: Line)
    requires p <= |line|
    ensures |r| == |line| + 1
    ensures forall i :: 0 <= i < |r| ==> r[i] == if i < p then line[i] else if i == p then o else line[i - 1]
  {
    line[..p] + [o] + line[p..]
  }

  lemma SplicedOk(cfg: Config, s: Side, line: Line, o: Order, p: nat)
    requires LineOk(cfg, s, line) && ValidOrder(cfg, o) && p <= |line|
    requires forall i :: 0 <= i < p ==> !Beats(s, o.price, line[i].price)
    requires forall i :: p <= i < |line| ==> Beats(s, o.price, line[i].price)
    ensures LineOk(cfg, s, Spliced(line, o, p))
  {}

  lemma SplicedIds(line: Line, o: Order, p: nat, other: Line)
    requires p <= |line| && UniqueIds(line) && !HasId(line, o.id) && !HasId(other, o.id)
    requires ApartIds(line, other) && ApartIds(other, line)
    ensures var r := Spliced(line, o, p); UniqueIds(r) && ApartIds(r, other) && ApartIds(other, r)
  {}

  lemma InsertOk(cfg: Config, s: Side, line: Line, o: Order, other: Line)
    requires LineOk(cfg, s, line) && ValidOrder(cfg, o) && UniqueIds(line) && !HasId(line, o.id)
    requires ApartIds(line, other) && ApartIds(other, line) && !HasId(other, o.id)
    ensures var line' := Insert(s, line, o);
            && LineOk(cfg, s, line') && UniqueIds(line') && ApartIds(line', other) && ApartIds(other, line')
            && |line'| == |line| + 1
            && (line'[0].price == o.price || (line != [] && line'[0].price == line[0].price))
  {
    hide Insert, HasId, UniqueIds, ApartIds, ValidOrder;
    var p := InsertSplices(s, line, o);
    SplicedOk(cfg, s, line, o, p);
    SplicedIds(line, o, p, other);
  }

  lemma RemoveOk(cfg: Config, s: Side, line: Line, id: u32, other: Line)
    requires LineOk(cfg, s, line) && UniqueIds(line) && HasId(line, id)
    requires ApartIds(line, other) && ApartIds(other, line)
    ensures var line' := Remove(line, id);
            && LineOk(cfg, s, line') && UniqueIds(line') && ApartIds(line', other) && ApartIds(other, line')
            && |line'| == |line| - 1
            && (line' != [] ==> !Beats(s, line'[0].price, line[0].price))
  {
    hide Remove;
    var p := RemoveSplices(line, id);
    var line' := line[..p] + line[p + 1..];
    hide HasId;
    assert forall i :: 0 <= i < |line'| ==> line'[i] == if i < p then line[i] else line[i + 1];
  }

  // ----- the operations

  lemma WfSides(cfg: Config, b: Book, s: Side)
    requires Wf(cfg, b)
    ensures LineOk(cfg, s, b.On(s)) && UniqueIds(b.On(s)) && Positive(b.On(s))
    ensures ApartIds(b.On(s), b.On(s.Opposite()))
  {}

  /** Wf, read from one side. */
  lemma WfFrom(cfg: Config, b: Book, s: Side)
    requires LineOk(cfg, s, b.On(s)) && LineOk(cfg, s.Opposite(), b.On(s.Opposite()))
    requires UniqueIds(b.On(s)) && UniqueIds(b.On(s.Opposite())) && ApartIds(b.On(s), b.On(s.Opposite()))
    requires ApartIds(b.On(s.Opposite()), b.On(s))
    requires Uncrossed(b) && b.Count() <= cfg.capacity
    ensures Wf(cfg, b)
  {}

  /** After matching: the swept book is well-formed and, if the taker has quantity left, out of its reach. */
  lemma MatchKeeps(cfg: Config, b: Book, id: u32, limit: u32, quantity: u32, side: Side) returns (off: nat)
    requires Wf(cfg, b)
    ensures var f := Match(side, id, limit, quantity, b.On(side.Opposite()));
            var swept := b.With(side.Opposite(), f.line);
            && Wf(cfg, swept)
            && off + swept.Count() == b.Count()
            && (f.left > 0 ==> off == |f.trades|)
            && (f.left > 0 && f.line != [] ==> !Crosses(side, limit, f.line[0].price))
            && (f.trades == [] ==> swept == b && f.left == quantity)
            && (forall x: u32 :: HasId(f.line, x) ==> HasId(b.On(side.Opposite()), x))
  {
    var t := side.Opposite();
    WfSides(cfg, b, side);
    WfSides(cfg, b, t);
    hide Match, LineOk, UniqueIds, ApartIds, HasId, Remnant;
    var f := Match(side, id, limit, quantity, b.On(t));
    off := MatchLeaves(side, id, limit, quantity, b.On(t));
    RemnantOk(cfg, t, b.On(t), f.line, off);
    RemnantIds(b.On(t), f.line, off, b.On(side));
    RemnantCount(b.On(t), f.line, off);
    WfFrom(cfg, b.With(t, f.line), side);
  }

  lemma RemnantCount(line: Line, line': Line, off: nat)
    requires Remnant(line, line', off)
    ensures off + |line'| == |line|
  {}

  /** A remainder that is out of reach rests without crossing the book. */
  lemma RestKeeps(cfg: Config, b: Book, side: Side, o: Order)
    requires Wf(cfg, b) && ValidOrder(cfg, o) && !HasId(b.bids, o.id) && !HasId(b.asks, o.id)
    requires b.Count() < cfg.capacity
    requires b.On(side.Opposite()) != [] ==> !Crosses(side, o.price, b.On(side.Opposite())[0].price)
    ensures Wf(cfg, b.With(side, Insert(side, b.On(side), o)))
  {
    hide Insert, LineOk, UniqueIds, ApartIds, HasId, ValidOrder;
    var t := side.Opposite();
    WfSides(cfg, b, side);
    WfSides(cfg, b, t);
    InsertOk(cfg, side, b.On(side), o, b.On(t));
    WfFrom(cfg, b.With(side, Insert(side, b.On(side), o)), side);
  }

  lemma CancelKeeps(cfg: Config, b: Book, id: u32)
    requires Wf(cfg, b)
    ensures Wf(cfg, Cancelled(cfg, b, id).book)
  {
    hide Remove, HasId, LineOk, UniqueIds, ApartIds;
    WfSides(cfg, b, Buy);
    WfSides(cfg, b, Sell);
    if HasId(b.bids, id) {
      RemoveOk(cfg, Buy, b.bids, id, b.asks);
    } else if HasId(b.asks, id) {
      RemoveOk(cfg, Sell, b.asks, id, b.bids);
    }
  }

  lemma SubmitKeeps(cfg: Config, b: Book, id: u32, kind: OrderType, price: u32, quantity: u32, side: Side)
    requires Wf(cfg, b)
    ensures Wf(cfg, Submitted(cfg, b, id, kind, price, quantity, side).book)
  {
    hide Match, Insert, HasId, Wf, Crosses;
    if kind.Cancel? {
      CancelKeeps(cfg, b, id);
    } else if Validate(cfg, b, id, kind, price, quantity, side).Accepted? {
      var limit := ResolvedPrice(kind, price, side);
      var t := side.Opposite();
      var f := Match(side, id, limit, quantity, b.On(t));
      var off := MatchKeeps(cfg, b, id, limit, quantity, side);
      LeftBound(side, id, limit, quantity, b.On(t));
      var swept := b.With(t, f.line);
      if f.left > 0 && kind.Limit? && swept.Count() < cfg.capacity {
        RestKeeps(cfg, swept, side, Order(id, limit, f.left));
      }
    }
  }

  /** Every operation keeps the book well-formed; in particular no book between calls is crossed. */
  lemma ApplyKeeps(cfg: Config, b: Book, op: Op)
    requires Wf(cfg, b)
    ensures Wf(cfg, Apply(cfg, b, op).book)
  {
    match op
    case Add(id, kind, price, quantity, side) => SubmitKeeps(cfg, b, id, kind, price, quantity, side);
    case CancelOrder(id) => CancelKeeps(cfg, b, id);
  }

  /** A call that traded never finds the pool exhausted; an exhausted pool means no fill and an untouched book. */
  lemma TradedNeverExhausts(cfg: Config, b: Book, op: Op)
    requires Wf(cfg, b)
    ensures var out := Apply(cfg, b, op);
            out.reply.code.PoolExhausted? ==> out.reply.trades == [] && out.reply.filled == 0 && out.book == b
  {
    hide Match, Insert, Remove, HasId, Wf, Crosses;
    if op.Add? && !op.kind.Cancel? {
      var Add(id, kind, price, quantity, side) := op;
      if Validate(cfg, b, id, kind, price, quantity, side).Accepted? {
        var limit := ResolvedPrice(kind, price, side);
        var off := MatchKeeps(cfg, b, id, limit, quantity, side);
        WfCount(cfg, b);
      }
    }
  }

  lemma WfCount(cfg: Config, b: Book)
    requires Wf(cfg, b)
    ensures b.Count() <= cfg.capacity && Uncrossed(b)
  {}

  lemma EmptyWf(cfg: Config)
    ensures Wf(cfg, EMPTY_BOOK)
  {}

  /** Safety over whole runs. */
  lemma {:induction false} RunKeeps(cfg: Config, b: Book, ops: seq<Op>)
    requires Wf(cfg, b)
    ensures Wf(cfg, Run(cfg, b, ops).book)
    decreases |ops|
  {
    if ops != [] {
      hide Wf, Apply;
      RunKeeps(cfg, b, ops[..|ops| - 1]);
      ApplyKeeps(cfg, Run(cfg, b, ops[..|ops| - 1]).book, ops[|ops| - 1]);
    }
  }

  /** In a whole run, every reply that says the pool is exhausted reports no fill and no trade. */
  lemma {:induction false} RunExhaustsUntraded(cfg: Config, b: Book, ops: seq<Op>, i: nat)
    requires Wf(cfg, b) && i < |ops|
    ensures var r := Run(cfg, b, ops).replies[i];
            r.code.PoolExhausted? ==> r.trades == [] && r.filled == 0
    decreases |ops|
  {
    hide Wf, Apply;
    var before := ops[..|ops| - 1];
    if i < |before| {
      RunExhaustsUntraded(cfg, b, before, i);
    } else {
      RunKeeps(cfg, b, before);
      TradedNeverExhausts(cfg, Run(cfg, b, before).book, ops[i]);
    }
  }
}
