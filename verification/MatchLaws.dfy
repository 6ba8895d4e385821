/** What matching means, said without running it, and what it does to quantities and orders. */
module MatchLaws {
  import opened Types
  import opened PriceTime

  ghost predicate Positive(line: Line) {
    forall k :: 0 <= k < |line| ==> line[k].quantity > 0
  }

  function Total(line: Line): nat {
    if line == [] then 0 else line[0].quantity + Total(line[1..])
  }

  function Traded(ts: seq<Trade>): nat {
    if ts == [] then 0 else ts[0].quantity + Traded(ts[1..])
  }

  /** Fill `k` of `f` is a genuine fill of the `k`-th order of the line. */
  ghost predicate IsFillOf(s: Side, taker: u32, limit: u32, line: Line, ts: seq<Trade>, k: nat)
    requires k < |ts| <= |line|
  {
    && ts[k].makerId == line[k].id && ts[k].takerId == taker && ts[k].price == line[k].price
    && Crosses(s, limit, line[k].price)
    && 0 < ts[k].quantity <= line[k].quantity
  }

  /** The line after its first `|ts|` orders were filled, the last of them perhaps partly. */
  function AfterFills(line: Line, ts: seq<Trade>): Line
    requires |ts| <= |line|
  {
    if ts == [] then line
    else
      var k := |ts| - 1;
      if ts[k].quantity < line[k].quantity
      then [line[k].(quantity := line[k].quantity - ts[k].quantity)] + line[k + 1..]
      else line[k + 1..]
  }

  /** A maximal prefix fill: the makers are the front of the line in order, each at its own price and inside
      the taker's limit; only the last may be partly filled; and the taker stops only when it is filled or when
      every touched maker is gone and the next one is out of reach. */
  ghost predicate IsMatch(s: Side, taker: u32, limit: u32, quantity: u32, line: Line, f: Fill) {
    var k := |f.trades|;
    && k <= |line|
    && (forall i :: 0 <= i < k ==> IsFillOf(s, taker, limit, line, f.trades, i))
    && (forall i :: 0 <= i < k - 1 ==> f.trades[i].quantity == line[i].quantity)
    && Traded(f.trades) + f.left == quantity
    && f.line == AfterFills(line, f.trades)
    && (f.left > 0 ==>
          && (k > 0 ==> f.trades[k - 1].quantity == line[k - 1].quantity)
          && (k < |line| ==> !Crosses(s, limit, line[k].price)))
  }

  lemma {:induction false} TradedAtLeast(ts: seq<Trade>, k: nat)
    requires k < |ts|
    ensures ts[k].quantity <= Traded(ts)
  {
    if k > 0 {
      TradedAtLeast(ts[1..], k - 1);
      assert ts[1..][k - 1] == ts[k];
    }
  }

  lemma AfterFillsIs(line: Line, ts: seq<Trade>, k: nat)
    requires k + 1 == |ts| <= |line|
    ensures AfterFills(line, ts)
         == if ts[k].quantity < line[k].quantity
            then [line[k].(quantity := line[k].quantity - ts[k].quantity)] + line[k + 1..]
            else line[k + 1..]
  {}

  lemma AfterFillsCons(line: Line, ts: seq<Trade>)
    requires 1 < |ts| <= |line|
    ensures AfterFills(line, ts) == AfterFills(line[1..], ts[1..])
  {
    hide AfterFills;
    var k := |ts| - 1;
    AfterFillsIs(line, ts, k);
    AfterFillsIs(line[1..], ts[1..], k - 1);
    DropFirst(line, k + 1);
    assert line[1..][k - 1] == line[k] && ts[1..][k - 1] == ts[k];
  }

  lemma DropFirst(line: Line, k: nat)
    requires 1 <= k <= |line|
    ensures line[1..][k - 1..] == line[k..]
  {}

  lemma FillsCons(s: Side, taker: u32, limit: u32, quantity: u32, line: Line, f: Fill)
    requires line != [] && 0 < line[0].quantity <= quantity && Crosses(s, limit, line[0].price)
    requires IsMatch(s, taker, limit, quantity - line[0].quantity, line[1..], f)
    ensures IsMatch(s, taker, limit, quantity, line,
                    Prepend([Trade(line[0].id, taker, line[0].price, line[0].quantity)], f))
  {
    var t := Trade(line[0].id, taker, line[0].price, line[0].quantity);
    var g := Prepend([t], f);
    assert g.trades[1..] == f.trades;
    forall i | 0 <= i < |g.trades| ensures IsFillOf(s, taker, limit, line, g.trades, i) {
      if i > 0 {
        assert IsFillOf(s, taker, limit, line[1..], f.trades, i - 1);
      }
    }
    forall i | 0 <= i < |g.trades| - 1 ensures g.trades[i].quantity == line[i].quantity {
      if i > 0 {
        assert f.trades[i - 1].quantity == line[1..][i - 1].quantity;
      }
    }
    if |g.trades| > 1 {
      assert IsFillOf(s, taker, limit, line, g.trades, |g.trades| - 1);
      AfterFillsCons(line, g.trades);
    }
  }

  /** Matching produces a maximal prefix fill. */
  lemma {:induction false} MatchMeets(s: Side, taker: u32, limit: u32, quantity: u32, line: Line)
    requires Positive(line)
    ensures IsMatch(s, taker, limit, quantity, line, Match(s, taker, limit, quantity, line))
    decreases line
  {
    if line == [] || quantity == 0 || !Crosses(s, limit, line[0].price) {
    } else if quantity < line[0].quantity {
      var f := Match(s, taker, limit, quantity, line);
      assert f.trades[1..] == [];
    } else {
      MatchMeets(s, taker, limit, quantity - line[0].quantity, line[1..]);
      FillsCons(s, taker, limit, quantity, line, Match(s, taker, limit, quantity - line[0].quantity, line[1..]));
    }
  }

  lemma FillsHead(s: Side, taker: u32, limit: u32, quantity: u32, line: Line, f: Fill)
    requires Positive(line) && IsMatch(s, taker, limit, quantity, line, f)
    requires line != [] && quantity > 0 && Crosses(s, limit, line[0].price)
    ensures f.trades != [] && IsFillOf(s, taker, limit, line, f.trades, 0)
    ensures quantity < line[0].quantity ==> |f.trades| == 1 && f.trades[0].quantity == quantity
    ensures quantity >= line[0].quantity ==> f.trades[0].quantity == line[0].quantity
  {
    if f.trades != [] {
      TradedAtLeast(f.trades, 0);
      assert IsFillOf(s, taker, limit, line, f.trades, 0);
    }
  }

  lemma FillsTail(s: Side, taker: u32, limit: u32, quantity: u32, line: Line, f: Fill)
    requires Positive(line) && IsMatch(s, taker, limit, quantity, line, f)
    requires line != [] && line[0].quantity <= quantity && Crosses(s, limit, line[0].price)
    ensures f.trades != []
    ensures IsMatch(s, taker, limit, quantity - line[0].quantity, line[1..], f.(trades := f.trades[1..]))
  {
    FillsHead(s, taker, limit, quantity, line, f);
    var g := f.(trades := f.trades[1..]);
    forall i | 0 <= i < |g.trades| ensures IsFillOf(s, taker, limit, line[1..], g.trades, i) {
      assert IsFillOf(s, taker, limit, line, f.trades, i + 1);
    }
    if |f.trades| > 1 {
      assert IsFillOf(s, taker, limit, line, f.trades, |f.trades| - 1);
      AfterFillsCons(line, f.trades);
    }
  }

  lemma NoFills(s: Side, taker: u32, limit: u32, quantity: u32, line: Line, f: Fill)
    requires IsMatch(s, taker, limit, quantity, line, f)
    requires line == [] || quantity == 0 || !Crosses(s, limit, line[0].price)
    ensures f.trades == []
  {
    assert line != [] && f.trades != [] ==> IsFillOf(s, taker, limit, line, f.trades, 0);
    if line != [] && quantity == 0 && f.trades != [] {
      TradedAtLeast(f.trades, 0);
    }
  }

  /** ... and it is the only one. */
  lemma {:induction false} MatchUnique(s: Side, taker: u32, limit: u32, quantity: u32, line: Line, f: Fill)
    requires Positive(line) && IsMatch(s, taker, limit, quantity, line, f)
    ensures f == Match(s, taker, limit, quantity, line)
    decreases line
  {
    if line == [] || quantity == 0 || !Crosses(s, limit, line[0].price) {
      NoFills(s, taker, limit, quantity, line, f);
    } else {
      FillsHead(s, taker, limit, quantity, line, f);
      assert f.trades == [f.trades[0]] + f.trades[1..];
      if quantity >= line[0].quantity {
        FillsTail(s, taker, limit, quantity, line, f);
        MatchUnique(s, taker, limit, quantity - line[0].quantity, line[1..], f.(trades := f.trades[1..]));
      }
    }
  }

  /** The function and the declarative reading coincide. */
  lemma MatchIsMaximalPrefixFill(s: Side, taker: u32, limit: u32, quantity: u32, line: Line, f: Fill)
    requires Positive(line)
    ensures f == Match(s, taker, limit, quantity, line) <==> IsMatch(s, taker, limit, quantity, line, f)
  {
    MatchMeets(s, taker, limit, quantity, line);
    if IsMatch(s, taker, limit, quantity, line, f) {
      MatchUnique(s, taker, limit, quantity, line, f);
    }
  }

  // ----- quantities

  lemma {:induction false} TotalConcat(a: Line, b: Line)
    ensures Total(a + b) == Total(a) + Total(b)
    decreases a
  {
    if a == [] {
      assert a + b == b;
    } else {
      TotalConcat(a[1..], b);
      assert (a + b)[1..] == a[1..] + b;
    }
  }

  /** The taker's fill is the sum of the trades and exactly what leaves the opposite line. */
  lemma {:induction false} MatchConserves(s: Side, taker: u32, limit: u32, quantity: u32, line: Line)
    ensures var f := Match(s, taker, limit, quantity, line);
            Traded(f.trades) + f.left == quantity && Total(line) == Total(f.line) + Traded(f.trades)
    decreases line
  {
    if line == [] || quantity == 0 || !Crosses(s, limit, line[0].price) {
    } else if quantity < line[0].quantity {
      assert Match(s, taker, limit, quantity, line).trades[1..] == [];
    } else {
      MatchConserves(s, taker, limit, quantity - line[0].quantity, line[1..]);
      var f := Match(s, taker, limit, quantity - line[0].quantity, line[1..]);
      assert ([Trade(line[0].id, taker, line[0].price, line[0].quantity)] + f.trades)[1..] == f.trades;
    }
  }

  // ----- lines split in two

  /** One maker at the head of a queue, whatever is behind. */
  lemma MatchHead(s: Side, taker: u32, limit: u32, left: u32, line: Line)
    requires line != [] && left > 0 && Crosses(s, limit, line[0].price)
    ensures left < line[0].quantity ==>
              Match(s, taker, limit, left, line)
              == Fill([Trade(line[0].id, taker, line[0].price, left)],
                      [line[0].(quantity := line[0].quantity - left)] + line[1..], 0)
    ensures left >= line[0].quantity ==>
              Match(s, taker, limit, left, line)
              == Prepend([WholeFill(taker, line[0])], Match(s, taker, limit, left - line[0].quantity, line[1..]))
  {}

  lemma SplitFirst(front: Line, rest: Line)
    requires front != []
    ensures front + rest != [] && (front + rest)[0] == front[0] && (front + rest)[1..] == front[1..] + rest
  {}

  lemma PrependTwice(a: seq<Trade>, b: seq<Trade>, f: Fill)
    ensures Prepend(a, Prepend(b, f)) == Prepend(a + b, f)
  {}

  lemma EmptyPrepend(f: Fill)
    ensures Prepend([], f) == f
  {}

  /** A front the taker can swallow whole is swallowed whole, and matching goes on behind it. */
  lemma {:induction false} MatchThrough(s: Side, taker: u32, limit: u32, quantity: u32, front: Line, rest: Line)
    requires Total(front) <= quantity && Positive(front)
    requires forall k :: 0 <= k < |front| ==> Crosses(s, limit, front[k].price)
    ensures Match(s, taker, limit, quantity, front + rest)
         == Prepend(WholeFills(taker, front), Match(s, taker, limit, quantity - Total(front), rest))
    decreases front
  {
    hide Match, Prepend;
    var f := Match(s, taker, limit, quantity - Total(front), rest);
    if front == [] {
      assert front + rest == rest;
      EmptyPrepend(f);
    } else {
      SplitFirst(front, rest);
      MatchHead(s, taker, limit, quantity, front + rest);
      MatchThrough(s, taker, limit, quantity - front[0].quantity, front[1..], rest);
      PrependTwice([WholeFill(taker, front[0])], WholeFills(taker, front[1..]), f);
    }
  }

  /** The taker ends at zero inside `front`, which keeps an order, and never looks behind it. */
  ghost predicate EndsWithin(s: Side, taker: u32, limit: u32, quantity: u32, front: Line, rest: Line) {
    var f := Match(s, taker, limit, quantity, front);
    && Match(s, taker, limit, quantity, front + rest) == f.(line := f.line + rest)
    && f.left == 0 && f.line != []
  }

  lemma WithinHead(s: Side, taker: u32, limit: u32, quantity: u32, front: Line, rest: Line)
    requires front != [] && Crosses(s, limit, front[0].price) && (quantity == 0 || quantity < front[0].quantity)
    ensures EndsWithin(s, taker, limit, quantity, front, rest)
  {
    SplitFirst(front, rest);
    if quantity > 0 {
      hide Match;
      MatchHead(s, taker, limit, quantity, front);
      MatchHead(s, taker, limit, quantity, front + rest);
      var m := front[0].(quantity := front[0].quantity - quantity);
      assert [m] + (front[1..] + rest) == ([m] + front[1..]) + rest;
    }
  }

  lemma WithinTail(s: Side, taker: u32, limit: u32, quantity: u32, front: Line, rest: Line)
    requires front != [] && Crosses(s, limit, front[0].price) && 0 < quantity && front[0].quantity <= quantity
    requires EndsWithin(s, taker, limit, quantity - front[0].quantity, front[1..], rest)
    ensures EndsWithin(s, taker, limit, quantity, front, rest)
  {
    hide Match;
    SplitFirst(front, rest);
    MatchHead(s, taker, limit, quantity, front);
    MatchHead(s, taker, limit, quantity, front + rest);
  }

  /** A taker that cannot swallow the front ends within it. */
  lemma {:induction false} MatchWithin(s: Side, taker: u32, limit: u32, quantity: u32, front: Line, rest: Line)
    requires quantity < Total(front)
    requires forall k :: 0 <= k < |front| ==> Crosses(s, limit, front[k].price)
    ensures EndsWithin(s, taker, limit, quantity, front, rest)
    decreases front
  {
    hide Match, EndsWithin;
    if quantity == 0 || quantity < front[0].quantity {
      WithinHead(s, taker, limit, quantity, front, rest);
    } else {
      MatchWithin(s, taker, limit, quantity - front[0].quantity, front[1..], rest);
      WithinTail(s, taker, limit, quantity, front, rest);
    }
  }

  function WholeFill(taker: u32, o: Order): Trade {
    Trade(o.id, taker, o.price, o.quantity)
  }

  function WholeFills(taker: u32, line: Line): (ts: seq<Trade>)
    ensures |ts| == |line|
  {
    if line == [] then [] else [WholeFill(taker, line[0])] + WholeFills(taker, line[1..])
  }

  lemma {:induction false} WholeFillsConcat(taker: u32, a: Line, b: Line)
    ensures WholeFills(taker, a + b) == WholeFills(taker, a) + WholeFills(taker, b)
    decreases a
  {
    if a == [] {
      assert a + b == b;
    } else {
      WholeFillsConcat(taker, a[1..], b);
      assert (a + b)[1..] == a[1..] + b;
      var t := [WholeFill(taker, a[0])];
      assert t + (WholeFills(taker, a[1..]) + WholeFills(taker, b))
        == (t + WholeFills(taker, a[1..])) + WholeFills(taker, b);
    }
  }
}
