/** The exact distance between passing `validate_book` and being consistent. */
module CheckGap {
  import opened Types
  import opened Pigeonhole
  import opened Pool
  import opened MatchLaws
  import opened Ladder
  import opened Levels
  import opened PriceIndex
  import opened Sides
  import opened EngineState
  import opened Canonical
  import opened LevelWalk
  import opened Validate
  import opened Passing
  import Bits
  import Engine

  // ----- the best price of a side whose flag is clear

  ghost predicate SideEmpty(t: Table) {
    forall i :: 0 <= i < |t.levels| ==> t.levels[i].IsEmpty()
  }

  /** As documented: on a side that holds orders, the flag is set and the best price is the true extremum. */
  ghost predicate BestDocumented(s: Side, minPrice: u32, t: Table) {
    !SideEmpty(t) ==> t.has && IsBest(s, minPrice, t)
  }

  /** On a book that passes, that holds exactly if no side that holds orders has its flag clear; and whatever the flag,
      the best index is one of a level. */
  lemma FlagGap(minPrice: u32, a: State, s: Side)
    requires Sized(a) && Checks(minPrice, a)
    ensures var t := TableOf(a.On(s)); BestDocumented(s, minPrice, t) <==> (SideEmpty(t) || t.has)
    ensures a.On(s).bestIdx < |a.On(s).levels|
  {
    hide SideCheck, MapCheck, Entries, Walked, DepthIs, IsBest;
    assert BestCheck(s, minPrice, TableOf(a.On(s)));
  }

  // ----- what is not checked

  /** The free list as the links give it. */
  ghost function FreeOf(a: State): (q: seq<u32>)
    ensures InRange(|a.slots|, q)
  {
    if d: nat :| ReachesEnd(a.slots, a.freeHead, d) then Path(a.slots, a.freeHead, d) else []
  }

  /** Bits beyond the last level and summary bits beyond the last word are clear. */
  ghost predicate PaddingClear(t: Table)
    requires t.Sized()
  {
    && (forall i: nat :: |t.levels| <= i < 64 * |t.words| ==> !Bits.Bit(t.words[i / 64], i % 64))
    && (forall w: nat :: |t.words| <= w < 64 * |t.summary| ==> !Bits.Bit(t.summary[w / 64], w % 64))
  }

  ghost predicate LevelUnchecked(v: View, c: Claim) {
    && (c.level.IsEmpty() ==> c.level.tail == INVALID_INDEX)
    && forall k :: 0 <= k < |Met(v, c)| ==> v.slots[Met(v, c)[k]].quantity > 0
  }

  /** What the checker does not ask of a side: the flag of a side with orders, the sentinels of one without, the tails
      of empty levels, positive quantities, and clear padding. */
  ghost predicate SideUnchecked(cfg: Config, v: View, s: Side, t: Table)
    requires t.Sized()
  {
    && (SideEmpty(t) || t.has)
    && (SideEmpty(t) && s.Buy? ==> t.best == 0 && t.bestIdx == 0)
    && (SideEmpty(t) && s.Sell? ==> t.best == cfg.maxPrice + 1 && t.bestIdx == cfg.maxPrice - cfg.minPrice)
    && (forall i: nat :: i < |t.levels| ==> LevelUnchecked(v, ClaimAt(s, cfg.minPrice, t, i)))
    && PaddingClear(t)
  }

  /** What it does not ask of the book: all that of both sides, an unused entry 0, a live counter that counts the live
      slots, and a free list of dead slots only. */
  ghost predicate Unchecked(cfg: Config, a: State)
    requires Sized(a)
  {
    && (forall s: Side :: SideUnchecked(cfg, ViewOf(a), s, TableOf(a.On(s))))
    && a.orderMap[0] == INVALID_INDEX
    && a.liveCount == |LiveSlots(a.live, |a.live|)|
    && forall k :: 0 <= k < |FreeOf(a)| ==> !a.live[FreeOf(a)[k]]
  }

  /** The state with its queues and free list read off the links. */
  ghost function ReadOff(a: State): State {
    a.(bids := a.bids.(queues := Walks(ViewOf(a), a.bids.levels)),
       asks := a.asks.(queues := Walks(ViewOf(a), a.asks.levels)),
       free := FreeOf(a))
  }

  // ----- the free list

  lemma {:induction false} PathLinks(slots: seq<Slot>, cur: u32, d: nat)
    requires ReachesEnd(slots, cur, d)
    ensures Links(slots, Path(slots, cur, d), INVALID_INDEX) && cur == First(Path(slots, cur, d))
    decreases d
  {
    if d > 0 {
      var t := Path(slots, slots[cur].next, d - 1);
      PathLinks(slots, slots[cur].next, d - 1);
      var q := [cur] + t;
      assert Path(slots, cur, d) == q;
      forall k | 0 <= k < |q| ensures slots[q[k]].next == NextIn(q, k, INVALID_INDEX) {
        if k > 0 {
          assert q[k] == t[k - 1] && slots[t[k - 1]].next == NextIn(t, k - 1, INVALID_INDEX);
        }
      }
    }
  }

  lemma FreeIs(a: State, d: nat)
    requires ReachesEnd(a.slots, a.freeHead, d)
    ensures |FreeOf(a)| == d && Links(a.slots, FreeOf(a), INVALID_INDEX) && a.freeHead == First(FreeOf(a))
  {
    var e: nat :| ReachesEnd(a.slots, a.freeHead, e) && FreeOf(a) == Path(a.slots, a.freeHead, e);
    ReachesOnce(a.slots, a.freeHead, d, e);
    PathLinks(a.slots, a.freeHead, e);
  }

  /** Two chains from the same head to the end are the same chain. */
  lemma {:induction false} LinksOnce(slots: seq<Slot>, q: seq<u32>, r: seq<u32>)
    requires Links(slots, q, INVALID_INDEX) && Links(slots, r, INVALID_INDEX) && First(q) == First(r)
    requires |slots| <= MAX_POOL_CAPACITY
    ensures q == r
    decreases |q|
  {
    hide Links, First, NextIn;
    ChainStart(slots, q);
    ChainStart(slots, r);
    if q != [] && r != [] {
      LinksOnce(slots, q[1..], r[1..]);
    }
  }

  lemma ChainStart(slots: seq<Slot>, q: seq<u32>)
    requires Links(slots, q, INVALID_INDEX) && |slots| <= MAX_POOL_CAPACITY
    ensures q == [] <==> First(q) == INVALID_INDEX
    ensures q != [] ==>
              && First(q) == q[0] < |slots| && q == [q[0]] + q[1..]
              && Links(slots, q[1..], INVALID_INDEX) && First(q[1..]) == slots[q[0]].next
  {
    if q != [] {
      LinksTail(slots, q, INVALID_INDEX);
    }
  }

  /** Live slots and dead listed slots are never more than there are; they are as many exactly if the list holds every
      dead slot. */
  lemma LiveAndFree(live: seq<bool>, free: seq<u32>)
    requires |live| <= MAX_POOL_CAPACITY && Distinct(free) && InRange(|live|, free)
    requires forall k :: 0 <= k < |free| ==> !live[free[k]]
    ensures |LiveSlots(live, |live|)| + |free| == |live| <==> forall x: u32 :: x < |live| ==> (live[x] <==> x !in free)
  {
    hide LiveSlots, Distinct, Below, Members;
    var up, down, all := LiveSlots(live, |live|), Members(free), Below(|live|);
    DistinctCount(free);
    BelowCount(|live|);
    Apart(live, free);
    assert |up + down| == |up| + |down|;
    if |up| + |free| == |live| {
      SubsetFills(up + down, all);
      Covers(live, free);
    }
    if forall x: u32 :: x < |live| ==> (live[x] <==> x !in free) {
      forall x: int | 0 <= x < |live| ensures x in up + down {
        var y: u32 := x;
        assert live[y] <==> y !in free;
        assert y in free ==> y as int in down by { InMembers(free, y); }
      }
      assert up + down == all;
    }
  }

  lemma InMembers(q: seq<u32>, x: u32)
    ensures x in q <==> x as int in Members(q)
  {}

  lemma Apart(live: seq<bool>, free: seq<u32>)
    requires InRange(|live|, free) && forall k :: 0 <= k < |free| ==> !live[free[k]]
    ensures LiveSlots(live, |live|) !! Members(free) && LiveSlots(live, |live|) + Members(free) <= Below(|live|)
  {
    hide LiveSlots, Below;
  }

  lemma Covers(live: seq<bool>, free: seq<u32>)
    requires InRange(|live|, free) && forall k :: 0 <= k < |free| ==> !live[free[k]]
    requires LiveSlots(live, |live|) + Members(free) == Below(|live|)
    ensures forall x: u32 :: x < |live| ==> (live[x] <==> x !in free)
  {
    hide LiveSlots, Below;
    forall x: u32 | x < |live| ensures live[x] <==> x !in free {
      assert x as int in LiveSlots(live, |live|) + Members(free);
    }
  }

  // ----- passing, and more, is consistency

  /** Reading off the links changes nothing that is checked. */
  lemma ReadOffChecks(minPrice: u32, a: State)
    requires Sized(a)
    ensures Sized(ReadOff(a)) && (Checks(minPrice, ReadOff(a)) <==> Checks(minPrice, a))
  {
    hide SideCheck, MapCheck, BestCheck, Entries, Walks, Up, DepthIs, FreeOf;
    var b := ReadOff(a);
    assert ViewOf(b) == ViewOf(a) && TableOf(b.bids) == TableOf(a.bids) && TableOf(b.asks) == TableOf(a.asks);
    EachSide(minPrice, a);
    EachSide(minPrice, b);
  }

  lemma LevelHolds(v: View, c: Claim)
    requires v.Sized() && LevelCheck(v, c) && LevelUnchecked(v, c)
    ensures LevelInv(v.slots, c.level, Met(v, c)) && Owned(c.side, c.price, v.slots, v.live, Met(v, c))
  {
    hide WalkOf, Orders, Total;
    var q := Met(v, c);
    LinksDistinct(v.slots, q);
    hide Distinct;
    forall k | 0 <= k < |q|
      ensures v.slots[q[k]].prev == PrevIn(q, k) && HomeIs(c.side, c.price, v.slots, v.live, q[k])
    {
      assert SlotCheck(v, c, q, k);
    }
    if q != [] {
      assert SlotCheck(v, c, q, |q| - 1);
    }
  }

  lemma SideHolds(cfg: Config, v: View, s: Side, side: SideState)
    requires v.Sized() && TableOf(side).Sized() && side.queues == Walks(v, side.levels)
    requires SideCheck(v, s, cfg.minPrice, TableOf(side)) && SideUnchecked(cfg, v, s, TableOf(side))
    requires forall x: u32 :: x < |v.slots| && v.live[x] && v.slots[x].side == s ==>
               Queued(cfg.minPrice, v.slots, side.queues, x)
    ensures SideInv(s, cfg.minPrice, v.slots, v.live, side.levels, side.queues)
  {
    hide LevelInv, Owned, LevelCheck, LevelUnchecked, WalkOf, Bits.Bit, Queued;
    var t := TableOf(side);
    forall i: nat | i < |side.levels|
      ensures LevelInv(v.slots, side.levels[i], side.queues[i])
      ensures Owned(s, cfg.minPrice + i, v.slots, v.live, side.queues[i])
    {
      assert TickCheck(v, s, cfg.minPrice, t, i);
      LevelHolds(v, ClaimAt(s, cfg.minPrice, t, i));
    }
  }

  lemma IndexHolds(cfg: Config, v: View, s: Side, side: SideState)
    requires v.Sized() && TableOf(side).Sized() && |side.queues| == |side.levels|
    requires SideCheck(v, s, cfg.minPrice, TableOf(side)) && PaddingClear(TableOf(side))
    requires forall i :: 0 <= i < |side.levels| ==> (side.levels[i].IsEmpty() <==> side.queues[i] == [])
    ensures IndexInv(side.words, side.summary, Occupied(side.queues))
  {
    hide LevelCheck, Bits.Bit;
    var t := TableOf(side);
    forall w: nat, k: nat | w < |side.words| && k < 64
      ensures Bits.Bit(side.words[w], k) <==> 64 * w + k in Occupied(side.queues)
    {
      var i := 64 * w + k;
      assert i / 64 == w && i % 64 == k;
      if i < |side.levels| {
        assert TickCheck(v, s, cfg.minPrice, t, i);
      }
    }
    forall w: nat, k: nat | w < |side.summary| && k < 64
      ensures Bits.Bit(side.summary[w], k) <==> 64 * w + k in NonZeroWords(side.words)
    {
      var i := 64 * w + k;
      assert i / 64 == w && i % 64 == k;
      if i < |side.words| {
        assert SummaryCheck(t, i);
      }
    }
  }

  lemma BestHolds(cfg: Config, v: View, s: Side, side: SideState)
    requires TableOf(side).Sized() && |side.queues| == |side.levels| && BestCheck(s, cfg.minPrice, TableOf(side))
    requires SideUnchecked(cfg, v, s, TableOf(side))
    requires forall i :: 0 <= i < |side.levels| ==> (side.levels[i].IsEmpty() <==> side.queues[i] == [])
    ensures BestInv(s, cfg.minPrice, cfg.maxPrice, Occupied(side.queues), side.has, side.best, side.bestIdx)
  {
    hide PaddingClear, LevelUnchecked;
    var t := TableOf(side);
    if SideEmpty(t) {
      assert Occupied(side.queues) == {};
    } else {
      var i: nat :| i < |side.levels| && !side.levels[i].IsEmpty();
      assert i in Occupied(side.queues);
    }
  }

  lemma SideOkFrom(cfg: Config, v: View, s: Side, side: SideState)
    requires v.Sized() && TableOf(side).Sized() && side.queues == Walks(v, side.levels)
    requires WordCounts(|side.levels|, |side.words|, |side.summary|)
    requires SideCheck(v, s, cfg.minPrice, TableOf(side)) && BestCheck(s, cfg.minPrice, TableOf(side))
    requires SideUnchecked(cfg, v, s, TableOf(side))
    requires forall x: u32 :: x < |v.slots| && v.live[x] && v.slots[x].side == s ==>
               Queued(cfg.minPrice, v.slots, side.queues, x)
    ensures SideOk(cfg, s, v.slots, v.live, side)
  {
    SideHolds(cfg, v, s, side);
    Engine.LevelsEmptyIff(s, cfg.minPrice, v.slots, v.live, side.levels, side.queues);
    IndexHolds(cfg, v, s, side);
    BestHolds(cfg, v, s, side);
  }

  /** The map half: every live slot's id leads back to it. */
  lemma MapHolds(minPrice: u32, a: State)
    requires Sized(a) && Checks(minPrice, a) && a.liveCount == |LiveSlots(a.live, |a.live|)|
    requires a.orderMap[0] == INVALID_INDEX
    ensures MapInv(a.slots, a.live, a.orderMap)
  {
    hide SideCheck, BestCheck, Entries, Walked, DepthIs, LiveSlots, Up, Walks;
    assert MapCheck(ViewOf(a));
    forall x: u32 | x < |a.slots| && a.live[x] ensures a.slots[x].id < |a.orderMap| && a.orderMap[a.slots[x].id] == x {
      WalksMeetAll(minPrice, a, x);
      WalkedIsMapped(minPrice, a, x);
    }
  }

  /** The pool half: free list and live slots partition the pool. */
  lemma PoolHolds(minPrice: u32, a: State)
    requires Sized(a) && Checks(minPrice, a) && a.liveCount == |LiveSlots(a.live, |a.live|)|
    requires forall k :: 0 <= k < |FreeOf(a)| ==> !a.live[FreeOf(a)[k]]
    ensures PoolInv(a.slots, a.live, a.freeHead, a.liveCount, FreeOf(a))
  {
    hide SideCheck, BestCheck, Entries, Walked, LiveSlots, FreeOf, ReachesEnd, MapCheck, Up, Walks;
    var all := WalkedOnce(minPrice, a);
    DistinctBound(all, |a.slots|);
    FreeIs(a, |a.slots| - a.liveCount);
    LinksDistinct(a.slots, FreeOf(a));
    LiveAndFree(a.live, FreeOf(a));
  }

  /** A state that passes and meets the unchecked conditions is consistent. */
  lemma PassingHolds(cfg: Config, a: State)
    requires Built(cfg, a) && Sized(a) && Checks(cfg.minPrice, a) && Unchecked(cfg, a)
    ensures StateOk(cfg, ReadOff(a))
  {
    hide SideCheck, BestCheck, Entries, LiveSlots, FreeOf, DepthIs, MapCheck, Up, Down, Walks, WalkOf, SideOk,
      SideUnchecked, MapInv, PoolInv;
    var b := ReadOff(a);
    MapHolds(cfg.minPrice, a);
    PoolHolds(cfg.minPrice, a);
    forall s: Side, x: u32 | x < |a.slots| && a.live[x] && a.slots[x].side == s
      ensures Queued(cfg.minPrice, a.slots, b.On(s).queues, x)
    {
      MetAtHome(cfg.minPrice, a, x);
      WalksAt(ViewOf(a), a.On(s).levels, a.slots[x].price - cfg.minPrice);
    }
    forall s: Side ensures SideOk(cfg, s, a.slots, a.live, b.On(s)) {
      assert TableOf(b.On(s)) == TableOf(a.On(s));
      assert SideCheck(ViewOf(a), s, cfg.minPrice, TableOf(a.On(s))) && BestCheck(s, cfg.minPrice, TableOf(a.On(s)));
      assert SideUnchecked(cfg, ViewOf(a), s, TableOf(a.On(s)));
      SideOkFrom(cfg, ViewOf(a), s, b.On(s));
    }
    assert b.On(Buy) == b.bids && b.On(Sell) == b.asks;
    UpDownLength(b.bids.queues);
  }

  lemma WalksAt(v: View, levels: seq<PriceLevel>, i: nat)
    requires i < |levels|
    ensures Walks(v, levels)[i] == WalkOf(v, levels[i].head, |v.slots|)
  {}

  // ----- and consistency is passing, and that much more

  lemma SideLeaves(cfg: Config, v: View, s: Side, side: SideState)
    requires v.Sized() && TableOf(side).Sized() && side.queues == Walks(v, side.levels)
    requires SideOk(cfg, s, v.slots, v.live, side)
    ensures SideUnchecked(cfg, v, s, TableOf(side))
  {
    hide Bits.Bit, LevelInv, Owned, WalkOf;
    var t := TableOf(side);
    Engine.LevelsEmptyIff(s, cfg.minPrice, v.slots, v.live, side.levels, side.queues);
    if SideEmpty(t) {
      assert Occupied(side.queues) == {};
    } else {
      var i: nat :| i < |side.levels| && !side.levels[i].IsEmpty();
      assert i in Occupied(side.queues);
    }
    forall i: nat | i < |t.levels| ensures LevelUnchecked(v, ClaimAt(s, cfg.minPrice, t, i)) {
      LevelLeaves(v, ClaimAt(s, cfg.minPrice, t, i));
    }
    PaddingOf(side.words, Occupied(side.queues), |side.levels|);
    PaddingOf(side.summary, NonZeroWords(side.words), |side.words|);
  }

  lemma LevelLeaves(v: View, c: Claim)
    requires LevelInv(v.slots, c.level, Met(v, c)) && Owned(c.side, c.price, v.slots, v.live, Met(v, c))
    requires |v.slots| <= MAX_POOL_CAPACITY
    ensures LevelUnchecked(v, c)
  {
    hide WalkOf, Orders, Total, Links, Distinct;
    forall k | 0 <= k < |Met(v, c)| ensures v.slots[Met(v, c)[k]].quantity > 0 {
      assert HomeIs(c.side, c.price, v.slots, v.live, Met(v, c)[k]);
    }
  }

  lemma PaddingOf(words: seq<bv64>, S: set<nat>, n: nat)
    requires Describes(words, S) && forall i: nat :: i in S ==> i < n
    ensures forall i: nat :: n <= i < 64 * |words| ==> !Bits.Bit(words[i / 64], i % 64)
  {
    hide Bits.Bit;
    forall i: nat | n <= i < 64 * |words| ensures !Bits.Bit(words[i / 64], i % 64) {
      Split(i);
    }
  }

  lemma PoolLeaves(a: State)
    requires PoolInv(a.slots, a.live, a.freeHead, a.liveCount, a.free)
    ensures a.liveCount == |LiveSlots(a.live, |a.live|)|
    ensures forall k :: 0 <= k < |a.free| ==> !a.live[a.free[k]]
  {
    hide LiveSlots;
    forall k | 0 <= k < |a.free| ensures !a.live[a.free[k]] {
      assert a.free[k] in a.free;
    }
    LiveAndFree(a.live, a.free);
  }

  lemma ConsistentLeaves(cfg: Config, a: State)
    requires Built(cfg, a) && StateOk(cfg, ReadOff(a)) && Sized(a)
    ensures Unchecked(cfg, a)
  {
    hide SideOk, SideUnchecked, Walks, FreeOf, LiveSlots, PoolInv, Flat;
    var b := ReadOff(a);
    forall s: Side ensures SideUnchecked(cfg, ViewOf(a), s, TableOf(a.On(s))) {
      assert TableOf(b.On(s)) == TableOf(a.On(s));
      SideLeaves(cfg, ViewOf(a), s, b.On(s));
    }
    PoolLeaves(b);
  }

  /** Exactly how far the checker falls short: of the states with a book's dimensions, the consistent ones are those
      that pass every check and meet the unchecked conditions. */
  lemma ExactGap(cfg: Config, a: State)
    requires Built(cfg, a)
    ensures Sized(a)
    ensures StateOk(cfg, ReadOff(a)) <==> Checks(cfg.minPrice, a) && Unchecked(cfg, a)
  {
    BuiltIsSized(cfg, a);
    hide Checks, Unchecked, StateOk, Sized;
    ReadOffChecks(cfg.minPrice, a);
    if StateOk(cfg, ReadOff(a)) {
      ConsistentPasses(cfg, ReadOff(a));
      ConsistentLeaves(cfg, a);
    }
    if Checks(cfg.minPrice, a) && Unchecked(cfg, a) {
      PassingHolds(cfg, a);
    }
  }

  lemma BuiltIsSized(cfg: Config, a: State)
    requires Built(cfg, a)
    ensures Sized(a)
  {}

  /** A consistent state's queues and free list are the ones the links give. */
  lemma ConsistentReadsOff(cfg: Config, a: State)
    requires Built(cfg, a) && StateOk(cfg, a)
    ensures ReadOff(a) == a
  {
    hide SideOk, MapInv, Checks, Links, ReachesEnd, FreeOf, Walks;
    ConsistentPasses(cfg, a);
    assert a.On(Buy) == a.bids && a.On(Sell) == a.asks;
    LinksReach(a.slots, a.free);
    FreeIs(a, |a.free|);
    LinksOnce(a.slots, a.free, FreeOf(a));
  }
}
