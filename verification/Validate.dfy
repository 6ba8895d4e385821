/** `validate_book`: when it answers at all, what it checks, that it accepts every consistent book, and what may be
    concluded from its answer. */
module Validate {
  import opened Types
  import opened Pool
  import opened MatchLaws
  import opened Ladder
  import opened Levels
  import opened EngineState
  import opened Engine
  import opened Canonical
  import opened LevelWalk
  import Bits

  // ----- one side

  /** One side's arrays and best price, as the checker reads them. */
  datatype Table = Table(levels: seq<PriceLevel>, words: seq<bv64>, summary: seq<bv64>,
                         best: u32, bestIdx: nat, has: bool) {
    ghost predicate Sized() {
      |levels| <= 64 * |words| && |words| <= 64 * |summary|
    }
  }

  function ClaimAt(s: Side, minPrice: u32, t: Table, i: nat): Claim
    requires i < |t.levels|
  {
    Claim(s, minPrice + i, t.levels[i])
  }

  ghost predicate TickCheck(v: View, s: Side, minPrice: u32, t: Table, i: nat)
    requires t.Sized() && i < |t.levels|
  {
    && LevelCheck(v, ClaimAt(s, minPrice, t, i))
    && (Bits.Bit(t.words[i / 64], i % 64) <==> !t.levels[i].IsEmpty())
  }

  ghost predicate SummaryCheck(t: Table, w: nat)
    requires t.Sized() && w < |t.words|
  {
    Bits.Bit(t.summary[w / 64], w % 64) <==> t.words[w] != 0
  }

  ghost predicate SideCheck(v: View, s: Side, minPrice: u32, t: Table)
    requires t.Sized()
  {
    && (forall i: nat :: i < |t.levels| ==> TickCheck(v, s, minPrice, t, i))
    && (forall w: nat :: w < |t.words| ==> SummaryCheck(t, w))
  }

  /** The walk of every level of a side. */
  ghost function Walks(v: View, levels: seq<PriceLevel>): (r: seq<seq<u32>>)
    ensures |r| == |levels| && forall i :: 0 <= i < |levels| ==> r[i] == WalkOf(v, levels[i].head, |v.slots|)
  {
    seq(|levels|, i requires 0 <= i < |levels| => WalkOf(v, levels[i].head, |v.slots|))
  }

  // ----- a run of verdicts

  /** The first verdict that is no answer is the end of the run; if all are answers, so is the run. */
  ghost predicate Halts(vs: seq<Verdict>, r: Verdict) {
    if r.Answer? then forall k :: 0 <= k < |vs| ==> vs[k].Answer?
    else exists k :: 0 <= k < |vs| && vs[k] == r && forall j :: 0 <= j < k ==> vs[j].Answer?
  }

  lemma HaltsEarly(a: seq<Verdict>, b: seq<Verdict>, r: Verdict)
    requires !r.Answer? && Halts(a, r)
    ensures Halts(a + b, r)
  {
    var k :| 0 <= k < |a| && a[k] == r && forall j :: 0 <= j < k ==> a[j].Answer?;
    assert (a + b)[k] == r;
  }

  lemma HaltsLater(a: seq<Verdict>, b: seq<Verdict>, r: Verdict)
    requires (forall k :: 0 <= k < |a| ==> a[k].Answer?) && Halts(b, r)
    ensures Halts(a + b, r)
  {
    if !r.Answer? {
      var k :| 0 <= k < |b| && b[k] == r && forall j :: 0 <= j < k ==> b[j].Answer?;
      assert (a + b)[|a| + k] == r;
    }
  }

  /** A run ends in one way only. */
  lemma HaltsOnce(vs: seq<Verdict>, r: Verdict, r': Verdict)
    requires Halts(vs, r) && Halts(vs, r')
    ensures r == r' || (r.Answer? && r'.Answer?)
  {}

  ghost function LevelFates(v: View, s: Side, minPrice: u32, t: Table): (vs: seq<Verdict>)
    ensures |vs| == |t.levels|
    ensures forall i :: 0 <= i < |vs| ==> vs[i] == Fate(v, ClaimAt(s, minPrice, t, i))
  {
    seq(|t.levels|, i requires 0 <= i < |t.levels| => Fate(v, ClaimAt(s, minPrice, t, i)))
  }

  method ValidateSide(v: View, s: Side, minPrice: u32, t: Table) returns (r: Verdict, resting: nat)
    requires v.Sized() && t.Sized()
    ensures Halts(LevelFates(v, s, minPrice, t), r)
    ensures r.Answer? ==> (r.ok <==> SideCheck(v, s, minPrice, t))
    ensures r == Answer(true) ==> resting == |Up<u32>(Walks(v, t.levels))|
  {
    hide LevelCheck, Bits.Bit, Up, Walks, WalkOf, Answers;
    ghost var walks, fates := Walks(v, t.levels), LevelFates(v, s, minPrice, t);
    var ok := true;
    resting := 0;
    UpNone(walks);
    var i := 0;
    while i < |t.levels|
      invariant i <= |t.levels|
      invariant forall j :: 0 <= j < i ==> fates[j].Answer?
      invariant ok <==> forall j: nat :: j < i ==> TickCheck(v, s, minPrice, t, j)
      invariant ok ==> resting == |Up<u32>(walks[..i])|
    {
      var walk, count := WalkLevel(v, ClaimAt(s, minPrice, t, i));
      if !walk.Answer? {
        assert fates[i] == walk;
        return walk, resting;
      }
      resting := resting + count;
      var bitSet := Bits.Bit(t.words[i / 64], i % 64);
      assert TickCheck(v, s, minPrice, t, i) <==> walk.ok && bitSet == !t.levels[i].IsEmpty();
      ok := ok && walk.ok && bitSet == !t.levels[i].IsEmpty();
      UpOne(walks, i);
      i := i + 1;
    }
    assert walks[..i] == walks;
    var w := 0;
    while w < |t.words|
      invariant w <= |t.words|
      invariant ok <==> (forall j: nat :: j < |t.levels| ==> TickCheck(v, s, minPrice, t, j))
                        && forall j: nat :: j < w ==> SummaryCheck(t, j)
    {
      var sumSet := Bits.Bit(t.summary[w / 64], w % 64);
      assert SummaryCheck(t, w) <==> sumSet == (t.words[w] != 0);
      ok := ok && sumSet == (t.words[w] != 0);
      w := w + 1;
    }
    r := Answer(ok);
  }

  lemma UpNone(qs: seq<seq<u32>>)
    ensures Up<u32>(qs[..0]) == []
  {}

  lemma UpOne(qs: seq<seq<u32>>, i: nat)
    requires i < |qs|
    ensures |Up<u32>(qs[..i + 1])| == |Up<u32>(qs[..i])| + |qs[i]|
  {
    assert qs[..i + 1][..i] == qs[..i];
  }

  // ----- the map

  /** Ids below `n` that the map sends somewhere. */
  ghost function Entries(orderMap: seq<u32>, n: nat): (r: set<int>)
    requires 1 <= n <= |orderMap|
    ensures forall id: int :: id in r <==> 1 <= id < n && orderMap[id] != INVALID_INDEX
  {
    if n == 1 then {} else Entries(orderMap, n - 1) + if orderMap[n - 1] != INVALID_INDEX then {n - 1} else {}
  }

  ghost predicate MapCheck(v: View) {
    forall id :: 1 <= id < |v.orderMap| ==>
      v.orderMap[id] == INVALID_INDEX || MapsTo(v.slots, v.live, id, v.orderMap[id])
  }

  /** Every entry is inside the pool. */
  ghost predicate MapFits(v: View) {
    forall id :: 1 <= id < |v.orderMap| ==> v.orderMap[id] == INVALID_INDEX || v.orderMap[id] < |v.slots|
  }

  lemma NoEntries(orderMap: seq<u32>)
    requires orderMap != []
    ensures |Entries(orderMap, 1)| == 0
  {}

  lemma EntriesStep(orderMap: seq<u32>, n: nat)
    requires 1 <= n < |orderMap|
    ensures |Entries(orderMap, n + 1)| == |Entries(orderMap, n)| + if orderMap[n] != INVALID_INDEX then 1 else 0
  {}

  /** The slot of an entry is read whether or not the entry was found to be inside the pool. */
  method ValidateMap(v: View) returns (r: Verdict, count: nat)
    requires v.Sized()
    ensures r == if MapFits(v) then Answer(MapCheck(v)) else ReadsOutside
    ensures r.Answer? ==> count == |Entries(v.orderMap, |v.orderMap|)|
  {
    hide Entries;
    var ok := true;
    count := 0;
    NoEntries(v.orderMap);
    var id := 1;
    while id < |v.orderMap|
      invariant 1 <= id <= |v.orderMap|
      invariant forall i :: 1 <= i < id ==> v.orderMap[i] == INVALID_INDEX || v.orderMap[i] < |v.slots|
      invariant ok <==> forall i :: 1 <= i < id ==>
                          v.orderMap[i] == INVALID_INDEX || MapsTo(v.slots, v.live, i, v.orderMap[i])
      invariant count == |Entries(v.orderMap, id)|
    {
      var x := v.orderMap[id];
      EntriesStep(v.orderMap, id);
      if x != INVALID_INDEX {
        count := count + 1;
        if !v.LiveAt(x) {
          ok := false;
        }
        if x >= |v.slots| {
          return ReadsOutside, count;
        }
        ok := ok && v.slots[x].id == id;
      }
      id := id + 1;
    }
    r := Answer(ok);
  }

  // ----- the best price

  /** `best` and `bestIdx` name the best occupied level. */
  ghost predicate IsBest(s: Side, minPrice: u32, t: Table) {
    && t.bestIdx < |t.levels| && !t.levels[t.bestIdx].IsEmpty() && t.best == minPrice + t.bestIdx
    && forall i :: 0 <= i < |t.levels| && BetterTick(s, i, t.bestIdx) ==> t.levels[i].IsEmpty()
  }

  ghost predicate BestCheck(s: Side, minPrice: u32, t: Table) {
    t.bestIdx < |t.levels| && (t.has ==> IsBest(s, minPrice, t))
  }

  /** Searches from the good end for the first non-empty level. */
  method ValidateBest(s: Side, minPrice: u32, t: Table) returns (ok: bool)
    ensures ok <==> BestCheck(s, minPrice, t)
  {
    if !t.has {
      return t.bestIdx < |t.levels|;
    }
    var n := 0;
    while n < |t.levels|
      invariant n <= |t.levels|
      invariant forall j :: 0 <= j < n ==> t.levels[FromTop(s, |t.levels|, j)].IsEmpty()
    {
      var i := FromTop(s, |t.levels|, n);
      if !t.levels[i].IsEmpty() {
        forall j | 0 <= j < |t.levels| && BetterTick(s, j, i) ensures t.levels[j].IsEmpty() {
          assert j == FromTop(s, |t.levels|, FromTop(s, |t.levels|, j));
        }
        return t.best == minPrice + i && t.bestIdx == i;
      }
      n := n + 1;
    }
    if t.bestIdx < |t.levels| {
      assert t.bestIdx == FromTop(s, |t.levels|, FromTop(s, |t.levels|, t.bestIdx));
    }
    return false;
  }

  /** The `n`-th level counted from the side's good end. */
  function FromTop(s: Side, levels: nat, n: nat): (i: nat)
    requires n < levels
    ensures i < levels
  {
    if s.Buy? then levels - 1 - n else n
  }

  // ----- the whole book

  function TableOf(side: SideState): Table {
    Table(side.levels, side.words, side.summary, side.best, side.bestIdx, side.has)
  }

  function ViewOf(a: State): View {
    View(a.slots, a.live, a.orderMap)
  }

  /** Array sizes, which are fixed when a book is built and hold however corrupt its contents are. */
  ghost predicate Sized(a: State) {
    ViewOf(a).Sized() && TableOf(a.bids).Sized() && TableOf(a.asks).Sized() && |a.bids.levels| == |a.asks.levels|
  }

  /** 64-bit subtraction. */
  function Minus64(x: nat, y: nat): int {
    if y <= x then x - y else x - y + 0x1_0000_0000_0000_0000
  }

  /** What `free_list_depth` answers. */
  ghost predicate DepthIs(slots: seq<Slot>, freeHead: u32, d: int) {
    if d == SIZE_MAX then forall e: nat :: !ReachesEnd(slots, freeHead, e)
    else 0 <= d <= |slots| && ReachesEnd(slots, freeHead, d)
  }

  ghost function Walked(a: State): nat {
    |Up<u32>(Walks(ViewOf(a), a.bids.levels))| + |Up<u32>(Walks(ViewOf(a), a.asks.levels))|
  }

  /** Everything `validate_book` asks. */
  ghost predicate Checks(minPrice: u32, a: State)
    requires Sized(a)
  {
    && (forall s: Side :: SideCheck(ViewOf(a), s, minPrice, TableOf(a.On(s))))
    && MapCheck(ViewOf(a))
    && (forall s: Side :: BestCheck(s, minPrice, TableOf(a.On(s))))
    && a.activeCount == a.liveCount == |Entries(a.orderMap, |a.orderMap|)| == Walked(a)
    && DepthIs(a.slots, a.freeHead, Minus64(|a.slots|, a.liveCount))
  }

  /** The steps that may fail to answer, in the order they are taken. */
  ghost function Fates(minPrice: u32, a: State): seq<Verdict> {
    LevelFates(ViewOf(a), Buy, minPrice, TableOf(a.bids)) + LevelFates(ViewOf(a), Sell, minPrice, TableOf(a.asks))
    + [if MapFits(ViewOf(a)) then Answer(MapCheck(ViewOf(a))) else ReadsOutside]
  }

  /** This is what validating the book comes to. */
  ghost predicate BookGives(minPrice: u32, a: State, r: Verdict)
    requires Sized(a)
  {
    Halts(Fates(minPrice, a), r) && (r.Answer? ==> (r.ok <==> Checks(minPrice, a)))
  }

  /** No level's walk goes round, every id met fits the map, and every map entry is inside the pool. */
  ghost predicate BookAnswers(minPrice: u32, a: State) {
    && (forall s: Side, i: nat :: i < |a.On(s).levels| ==>
          Answers(ViewOf(a), ClaimAt(s, minPrice, TableOf(a.On(s)), i)))
    && MapFits(ViewOf(a))
  }

  /** Exactly when the checker answers, and what it answers. */
  lemma BookFate(minPrice: u32, a: State, r: Verdict)
    requires Sized(a) && BookGives(minPrice, a, r)
    ensures r.Answer? <==> BookAnswers(minPrice, a)
    ensures r == Answer(true) <==> Checks(minPrice, a)
    ensures forall r': Verdict :: BookGives(minPrice, a, r') ==> r' == r
  {
    hide Answers, Met, LevelCheck, SideCheck, MapCheck, BestCheck, Halts, Walked, DepthIs, Entries;
    var fates := Fates(minPrice, a);
    forall r': Verdict | BookGives(minPrice, a, r') ensures r' == r {
      HaltsOnce(fates, r, r');
    }
    AnswersIffFates(minPrice, a);
    HaltsAnswer(fates, r);
    if Checks(minPrice, a) {
      ChecksAnswer(minPrice, a);
    }
  }

  lemma HaltsAnswer(vs: seq<Verdict>, r: Verdict)
    requires Halts(vs, r)
    ensures r.Answer? <==> forall k :: 0 <= k < |vs| ==> vs[k].Answer?
  {}

  lemma AnswersIffFates(minPrice: u32, a: State)
    requires Sized(a)
    ensures BookAnswers(minPrice, a) <==> forall k :: 0 <= k < |Fates(minPrice, a)| ==> Fates(minPrice, a)[k].Answer?
  {
    hide Met, LevelCheck, MapCheck, IdsFit, LevelFates;
    var v, b, n := ViewOf(a), LevelFates(ViewOf(a), Buy, minPrice, TableOf(a.bids)), |a.bids.levels|;
    var fates := Fates(minPrice, a);
    assert fates[2 * n] == if MapFits(v) then Answer(MapCheck(v)) else ReadsOutside;
    forall i: nat | i < n
      ensures fates[i].Answer? <==> Answers(v, ClaimAt(Buy, minPrice, TableOf(a.On(Buy)), i))
      ensures fates[n + i].Answer? <==> Answers(v, ClaimAt(Sell, minPrice, TableOf(a.On(Sell)), i))
    {
      assert fates[i] == Fate(v, ClaimAt(Buy, minPrice, TableOf(a.bids), i));
      assert fates[n + i] == Fate(v, ClaimAt(Sell, minPrice, TableOf(a.asks), i));
    }
    if forall k :: 0 <= k < |fates| ==> fates[k].Answer? {
      forall s: Side, i: nat | i < |a.On(s).levels| ensures Answers(v, ClaimAt(s, minPrice, TableOf(a.On(s)), i)) {
        assert s.Buy? ==> fates[i].Answer?;
        assert s.Sell? ==> fates[n + i].Answer?;
      }
    }
    if BookAnswers(minPrice, a) {
      forall k: nat | k < |fates| ensures fates[k].Answer? {
        if n <= k < 2 * n {
          var i: nat := k - n;
          assert Answers(v, ClaimAt(Sell, minPrice, TableOf(a.On(Sell)), i));
          assert fates[n + i].Answer?;
        }
      }
    }
  }

  /** A book that passes every check is one the checker answers on. */
  lemma ChecksAnswer(minPrice: u32, a: State)
    requires Sized(a) && Checks(minPrice, a)
    ensures BookAnswers(minPrice, a)
  {
    hide LevelCheck, BestCheck, Walked, DepthIs, Entries, Answers, Met, Bits.Bit;
    forall s: Side, i: nat | i < |a.On(s).levels|
      ensures Answers(ViewOf(a), ClaimAt(s, minPrice, TableOf(a.On(s)), i))
    {
      assert SideCheck(ViewOf(a), s, minPrice, TableOf(a.On(s)));
      assert TickCheck(ViewOf(a), s, minPrice, TableOf(a.On(s)), i);
      LevelAnswers(ViewOf(a), ClaimAt(s, minPrice, TableOf(a.On(s)), i));
    }
  }

  lemma LevelAnswers(v: View, c: Claim)
    requires v.Sized() && LevelCheck(v, c)
    ensures Answers(v, c)
  {
    hide WalkOf, Orders, Total, Links;
    ChainEnds(v, c);
    var q := Met(v, c);
    forall k | 0 <= k < |q| ensures v.slots[q[k]].id < |v.orderMap| {
      assert SlotCheck(v, c, q, k);
    }
  }

  lemma DepthUnique(slots: seq<Slot>, freeHead: u32, d: nat, e: int)
    requires |slots| <= MAX_POOL_CAPACITY && DepthIs(slots, freeHead, d)
    ensures DepthIs(slots, freeHead, e) <==> d == e
  {
    if DepthIs(slots, freeHead, e) && d != SIZE_MAX && e != SIZE_MAX {
      ReachesOnce(slots, freeHead, d, e);
    }
  }

  /** The checker, on any book whose arrays have the sizes they were built with. */
  method ValidateBook(book: OrderBook) returns (r: Verdict)
    requires Sized(StateOf(book))
    ensures BookGives(book.cfg.minPrice, StateOf(book), r)
    ensures r.Answer? <==> BookAnswers(book.cfg.minPrice, StateOf(book))
    ensures r == Answer(true) <==> Checks(book.cfg.minPrice, StateOf(book))
  {
    hide SideCheck, MapCheck, MapFits, BestCheck, Entries, Up, Walks, DepthIs, ReachesEnd, LevelFates, Halts,
      BookAnswers;
    var v, minPrice := View(book.pool.slots, book.pool.live, book.orderMap), book.cfg.minPrice;
    var bids := Table(book.bids.levels, book.bids.words, book.bids.summary, book.bids.best, book.bids.bestIdx,
                      book.bids.has);
    var asks := Table(book.asks.levels, book.asks.words, book.asks.summary, book.asks.best, book.asks.bestIdx,
                      book.asks.has);
    ghost var a := StateOf(book);
    var liveCount := book.pool.liveCount;
    ghost var f, g := LevelFates(v, Buy, minPrice, bids), LevelFates(v, Sell, minPrice, asks);
    var onBids, restingBids := ValidateSide(v, Buy, minPrice, bids);
    if !onBids.Answer? {
      HaltsEarly(f, g, onBids);
      HaltsEarly(f + g, [if MapFits(v) then Answer(MapCheck(v)) else ReadsOutside], onBids);
      BookFate(minPrice, a, onBids);
      return onBids;
    }
    var onAsks, restingAsks := ValidateSide(v, Sell, minPrice, asks);
    HaltsAnswer(f, onBids);
    HaltsLater(f, g, onAsks);
    if !onAsks.Answer? {
      HaltsEarly(f + g, [if MapFits(v) then Answer(MapCheck(v)) else ReadsOutside], onAsks);
      BookFate(minPrice, a, onAsks);
      return onAsks;
    }
    var onMap, mapCount := ValidateMap(v);
    HaltsAnswer(f + g, onAsks);
    HaltsSingle(onMap);
    HaltsLater(f + g, [onMap], onMap);
    if !onMap.Answer? {
      BookFate(minPrice, a, onMap);
      return onMap;
    }
    var okBid := ValidateBest(Buy, minPrice, bids);
    var okAsk := ValidateBest(Sell, minPrice, asks);
    var depth := FreeListDepth(v.slots, book.pool.freeHead);
    DepthFound(v.slots, book.pool.freeHead, depth);
    DepthUnique(v.slots, book.pool.freeHead, depth, Minus64(|v.slots|, liveCount));
    var ok := onBids.ok && onAsks.ok && onMap.ok && okBid && okAsk
              && book.activeCount == liveCount && mapCount == liveCount
              && restingBids + restingAsks == liveCount
              && depth == Minus64(|v.slots|, liveCount);
    r := Answer(ok);
    HaltsAnswers(Fates(minPrice, a), onMap, r);
    EachSide(minPrice, a);
    BookFate(minPrice, a, r);
  }

  lemma HaltsSingle(r: Verdict)
    ensures Halts([r], r)
  {
    assert [r][0] == r;
  }

  lemma HaltsAnswers(vs: seq<Verdict>, r: Verdict, r': Verdict)
    requires Halts(vs, r) && r.Answer? && r'.Answer?
    ensures Halts(vs, r')
  {}

  lemma EachSide(minPrice: u32, a: State)
    requires Sized(a)
    ensures (forall s: Side :: SideCheck(ViewOf(a), s, minPrice, TableOf(a.On(s)))) <==>
              SideCheck(ViewOf(a), Buy, minPrice, TableOf(a.bids))
                && SideCheck(ViewOf(a), Sell, minPrice, TableOf(a.asks))
    ensures (forall s: Side :: BestCheck(s, minPrice, TableOf(a.On(s)))) <==>
              BestCheck(Buy, minPrice, TableOf(a.bids)) && BestCheck(Sell, minPrice, TableOf(a.asks))
  {
    hide SideCheck, BestCheck;
    assert a.On(Buy) == a.bids && a.On(Sell) == a.asks;
    if SideCheck(ViewOf(a), Buy, minPrice, TableOf(a.bids)) && SideCheck(ViewOf(a), Sell, minPrice, TableOf(a.asks)) {
      forall s: Side ensures SideCheck(ViewOf(a), s, minPrice, TableOf(a.On(s))) {
        if s.Buy? {} else {}
      }
    }
    if BestCheck(Buy, minPrice, TableOf(a.bids)) && BestCheck(Sell, minPrice, TableOf(a.asks)) {
      forall s: Side ensures BestCheck(s, minPrice, TableOf(a.On(s))) {
        if s.Buy? {} else {}
      }
    }
  }

  lemma DepthFound(slots: seq<Slot>, freeHead: u32, depth: nat)
    requires depth == SIZE_MAX <==> forall d: nat :: !ReachesEnd(slots, freeHead, d)
    requires depth != SIZE_MAX ==> depth <= |slots| && ReachesEnd(slots, freeHead, depth)
    ensures DepthIs(slots, freeHead, depth)
  {}

}
