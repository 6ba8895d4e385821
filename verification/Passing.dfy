/** What passing `validate_book` means: every consistent state passes, and exactly which states pass besides. */
module Passing {
  import opened Types
  import opened Pigeonhole
  import opened Pool
  import opened MatchLaws
  import opened Ladder
  import opened Levels
  import opened PriceIndex
  import opened Sides
  import opened EngineState
  import opened Engine
  import opened Canonical
  import opened LevelWalk
  import opened Validate
  import Bits

  // ----- every consistent state passes

  lemma {:induction false} WalkFollows(v: View, q: seq<u32>, n: nat)
    requires v.Sized() && Links(v.slots, q, INVALID_INDEX) && |q| <= n
    requires forall k :: 0 <= k < |q| ==> v.live[q[k]]
    ensures WalkOf(v, First(q), n) == q
    decreases n
  {
    if q != [] {
      LinksTail(v.slots, q, INVALID_INDEX);
      WalkFollows(v, q[1..], n - 1);
      assert q == [q[0]] + q[1..];
    }
  }

  lemma LevelPasses(v: View, c: Claim, q: seq<u32>)
    requires v.Sized() && LevelInv(v.slots, c.level, q) && MapInv(v.slots, v.live, v.orderMap)
    requires Owned(c.side, c.price, v.slots, v.live, q)
    ensures Met(v, c) == q && LevelCheck(v, c)
  {
    hide WalkOf, Orders, Total;
    assert forall k :: 0 <= k < |q| ==> HomeIs(c.side, c.price, v.slots, v.live, q[k]);
    DistinctBound(q, |v.slots|);
    WalkFollows(v, q, |v.slots|);
    forall k | 0 <= k < |q| ensures SlotCheck(v, c, q, k) {
      assert v.slots[q[k]].next == NextIn(q, k, INVALID_INDEX) && v.slots[q[k]].prev == PrevIn(q, k);
      assert HomeIs(c.side, c.price, v.slots, v.live, q[k]);
    }
  }

  lemma SidePasses(cfg: Config, s: Side, v: View, side: SideState)
    requires v.Sized() && SideOk(cfg, s, v.slots, v.live, side) && MapInv(v.slots, v.live, v.orderMap)
    ensures TableOf(side).Sized() && SideCheck(v, s, cfg.minPrice, TableOf(side))
    ensures Walks(v, side.levels) == side.queues
  {
    hide LevelInv, Owned, MapInv, LevelCheck, WalkOf, BestInv, Bits.Bit;
    var t := TableOf(side);
    LevelsEmptyIff(s, cfg.minPrice, v.slots, v.live, side.levels, side.queues);
    forall i: nat | i < |side.levels|
      ensures TickCheck(v, s, cfg.minPrice, t, i)
      ensures WalkOf(v, side.levels[i].head, |v.slots|) == side.queues[i]
    {
      LevelPasses(v, ClaimAt(s, cfg.minPrice, t, i), side.queues[i]);
      Split(i);
      assert Bits.Bit(side.words[i / 64], i % 64) <==> 64 * (i / 64) + i % 64 in Occupied(side.queues);
    }
    forall w: nat | w < |side.words| ensures SummaryCheck(t, w) {
      Split(w);
      assert Bits.Bit(side.summary[w / 64], w % 64) <==> 64 * (w / 64) + w % 64 in NonZeroWords(side.words);
    }
  }

  lemma BestPasses(cfg: Config, s: Side, slots: seq<Slot>, live: seq<bool>, side: SideState)
    requires |slots| == |live| <= MAX_POOL_CAPACITY && SideOk(cfg, s, slots, live, side)
    requires |side.levels| == cfg.maxPrice - cfg.minPrice + 1 && cfg.minPrice <= cfg.maxPrice
    ensures BestCheck(s, cfg.minPrice, TableOf(side))
  {
    hide LevelInv, Owned, IndexInv;
    LevelsEmptyIff(s, cfg.minPrice, slots, live, side.levels, side.queues);
    forall i: nat | i < |side.levels| && side.has && BetterTick(s, i, side.bestIdx) ensures side.levels[i].IsEmpty() {
      assert i !in Occupied(side.queues);
    }
  }

  // ----- counting slots

  /** No slot is in two queues. */
  ghost predicate Separate(qs: seq<seq<u32>>) {
    forall i, j, x: u32 :: 0 <= i < j < |qs| && x in qs[i] ==> x !in qs[j]
  }

  lemma {:induction false} UpDistinct(qs: seq<seq<u32>>)
    requires Separate(qs) && forall i :: 0 <= i < |qs| ==> Distinct(qs[i])
    ensures Distinct(Up<u32>(qs))
    decreases |qs|
  {
    if qs != [] {
      var front, last := qs[..|qs| - 1], qs[|qs| - 1];
      UpDistinct(front);
      var a := Up<u32>(front);
      hide Up;
      forall i, j | 0 <= i < |a| && 0 <= j < |last| ensures a[i] != last[j] {
        UpMembers<u32>(front, a[i]);
        assert a[i] in a;
        var k :| 0 <= k < |front| && a[i] in front[k];
        assert a[i] in qs[k];
      }
      Join(a, last);
    }
  }

  lemma Join(a: seq<u32>, b: seq<u32>)
    requires Distinct(a) && Distinct(b) && forall i, j :: 0 <= i < |a| && 0 <= j < |b| ==> a[i] != b[j]
    ensures Distinct(a + b)
  {}

  lemma {:induction false} UpDownLength(qs: seq<seq<u32>>)
    ensures |Up<u32>(qs)| == |Down<u32>(qs)|
    decreases |qs|
  {
    if qs != [] {
      UpDownLength(qs[..|qs| - 1]);
    }
  }

  /** Where every slot of a ladder says it rests at that side and rung. */
  ghost predicate AtHome(slots: seq<Slot>, s: Side, minPrice: u32, qs: seq<seq<u32>>) {
    forall i, k :: 0 <= i < |qs| && 0 <= k < |qs[i]| ==>
      qs[i][k] < |slots| && slots[qs[i][k]].side == s && slots[qs[i][k]].price == minPrice + i
  }

  lemma HomeIn(slots: seq<Slot>, s: Side, minPrice: u32, qs: seq<seq<u32>>, i: nat, x: u32)
    requires AtHome(slots, s, minPrice, qs) && i < |qs| && x in qs[i]
    ensures x < |slots| && slots[x].side == s && slots[x].price == minPrice + i
  {}

  /** All the slots of both ladders, each once. */
  lemma BothDistinct(slots: seq<Slot>, minPrice: u32, bq: seq<seq<u32>>, aq: seq<seq<u32>>)
    requires AtHome(slots, Buy, minPrice, bq) && AtHome(slots, Sell, minPrice, aq)
    requires (forall i :: 0 <= i < |bq| ==> Distinct(bq[i])) && (forall i :: 0 <= i < |aq| ==> Distinct(aq[i]))
    ensures Distinct(Up<u32>(bq) + Up<u32>(aq)) && InRange(|slots|, Up<u32>(bq) + Up<u32>(aq))
  {
    hide Up, AtHome, Distinct;
    HomeSeparates(slots, Buy, minPrice, bq);
    HomeSeparates(slots, Sell, minPrice, aq);
    UpDistinct(bq);
    UpDistinct(aq);
    HomeOfUp(slots, Buy, minPrice, bq);
    HomeOfUp(slots, Sell, minPrice, aq);
    Join(Up<u32>(bq), Up<u32>(aq));
  }

  lemma HomeSeparates(slots: seq<Slot>, s: Side, minPrice: u32, qs: seq<seq<u32>>)
    requires AtHome(slots, s, minPrice, qs)
    ensures Separate(qs)
  {}

  lemma HomeOfUp(slots: seq<Slot>, s: Side, minPrice: u32, qs: seq<seq<u32>>)
    requires AtHome(slots, s, minPrice, qs)
    ensures forall k :: 0 <= k < |Up<u32>(qs)| ==> Up<u32>(qs)[k] < |slots| && slots[Up<u32>(qs)[k]].side == s
  {}

  lemma SideAtHome(cfg: Config, s: Side, slots: seq<Slot>, live: seq<bool>, side: SideState)
    requires SideOk(cfg, s, slots, live, side)
    ensures AtHome(slots, s, cfg.minPrice, side.queues)
    ensures forall i :: 0 <= i < |side.queues| ==> Distinct(side.queues[i])
  {}

  function IdsOf(slots: seq<Slot>, q: seq<u32>): (r: seq<u32>)
    requires InRange(|slots|, q)
    ensures |r| == |q| && forall k :: 0 <= k < |q| ==> r[k] == slots[q[k]].id
  {
    seq(|q|, k requires 0 <= k < |q| => slots[q[k]].id)
  }

  /** Distinct live slots that include every live slot are as many as the map's entries. */
  lemma EntryCount(slots: seq<Slot>, live: seq<bool>, orderMap: seq<u32>, all: seq<u32>)
    requires MapInv(slots, live, orderMap) && |slots| <= MAX_POOL_CAPACITY && Distinct(all) && InRange(|slots|, all)
    requires forall x: u32 :: x < |slots| ==> (live[x] <==> x in all)
    ensures |Entries(orderMap, |orderMap|)| == |all|
  {
    hide Entries;
    var ids := IdsOf(slots, all);
    forall i, j | 0 <= i < j < |ids| ensures ids[i] != ids[j] {
      assert all[i] in all && all[j] in all;
      OtherId(slots, live, orderMap, all[i], all[j]);
    }
    forall id: int ensures id in Members(ids) <==> id in Entries(orderMap, |orderMap|) {
      if id in Entries(orderMap, |orderMap|) {
        assert MapsTo(slots, live, id, orderMap[id]);
        var k :| 0 <= k < |all| && all[k] == orderMap[id];
        assert ids[k] == id;
      }
      if id in Members(ids) {
        var k :| 0 <= k < |ids| && ids[k] == id;
        assert all[k] in all;
      }
    }
    assert Members(ids) == Entries(orderMap, |orderMap|);
    DistinctCount(ids);
  }

  /** The live slots are exactly the queued ones. */
  lemma LiveIsQueued(cfg: Config, a: State, x: u32)
    requires StateOk(cfg, a) && x < |a.slots| == |a.live|
    ensures a.live[x] <==> x in Up<u32>(a.bids.queues) + Up<u32>(a.asks.queues)
  {
    hide LevelInv, Owned, IndexInv, BestInv, Up, PoolInv, MapInv, Flat;
    UpMembers<u32>(a.bids.queues, x);
    UpMembers<u32>(a.asks.queues, x);
    if a.live[x] {
      var s := a.slots[x].side;
      assert Queued(cfg.minPrice, a.slots, a.On(s).queues, x);
      assert x in a.On(s).queues[a.slots[x].price - cfg.minPrice];
    } else {
      forall i | 0 <= i < |a.bids.queues| && x in a.bids.queues[i] ensures false {
        QueueHome(Buy, cfg.minPrice, a.slots, a.live, a.bids.levels, a.bids.queues, i, x);
      }
      forall i | 0 <= i < |a.asks.queues| && x in a.asks.queues[i] ensures false {
        QueueHome(Sell, cfg.minPrice, a.slots, a.live, a.asks.levels, a.asks.queues, i, x);
      }
    }
  }

  /** The sizes a book of this configuration is built with. */
  ghost predicate Built(cfg: Config, a: State) {
    && cfg.minPrice <= cfg.maxPrice
    && |a.slots| == |a.live| == cfg.capacity <= MAX_POOL_CAPACITY && |a.orderMap| == cfg.maxOrderId + 1
    && |a.bids.levels| == |a.asks.levels| == cfg.Ticks()
    && WordCounts(|a.bids.levels|, |a.bids.words|, |a.bids.summary|)
    && WordCounts(|a.asks.levels|, |a.asks.words|, |a.asks.summary|)
  }

  /** `validate_book` passes on every consistent state. */
  lemma ConsistentPasses(cfg: Config, a: State)
    requires StateOk(cfg, a) && Built(cfg, a)
    ensures Sized(a) && Checks(cfg.minPrice, a)
    ensures forall s: Side :: Walks(ViewOf(a), a.On(s).levels) == a.On(s).queues
  {
    hide SideOk, MapInv, PoolInv, SideCheck, BestCheck, Entries, Up, Down, Walks, ReachesEnd, AtHome, Distinct;
    PoolSizes(a.slots, a.live, a.freeHead, a.liveCount, a.free);
    MapPasses(ViewOf(a));
    SidePasses(cfg, Buy, ViewOf(a), a.bids);
    SidePasses(cfg, Sell, ViewOf(a), a.asks);
    BestPasses(cfg, Buy, a.slots, a.live, a.bids);
    BestPasses(cfg, Sell, a.slots, a.live, a.asks);
    EachSide(cfg.minPrice, a);
    SideAtHome(cfg, Buy, a.slots, a.live, a.bids);
    SideAtHome(cfg, Sell, a.slots, a.live, a.asks);
    BothDistinct(a.slots, cfg.minPrice, a.bids.queues, a.asks.queues);
    UpDownLength(a.bids.queues);
    var all := Up<u32>(a.bids.queues) + Up<u32>(a.asks.queues);
    forall x: u32 | x < |a.slots| ensures a.live[x] <==> x in all {
      LiveIsQueued(cfg, a, x);
    }
    EntryCount(a.slots, a.live, a.orderMap, all);
    DepthPasses(a.slots, a.live, a.freeHead, a.liveCount, a.free);
  }

  lemma MapPasses(v: View)
    requires MapInv(v.slots, v.live, v.orderMap)
    ensures v.orderMap != [] && MapCheck(v)
  {}

  lemma DepthPasses(slots: seq<Slot>, live: seq<bool>, freeHead: u32, liveCount: nat, free: seq<u32>)
    requires PoolInv(slots, live, freeHead, liveCount, free)
    ensures DepthIs(slots, freeHead, Minus64(|slots|, liveCount))
  {
    LinksReach(slots, free);
  }

  /** So the checker answers, and accepts, on every book the engine can be in. */
  method ValidateReachable(book: OrderBook) returns (r: Verdict)
    requires book.Consistent()
    ensures r == Answer(true)
  {
    ConsistentIffOk(book);
    ConsistentPasses(book.cfg, StateOf(book));
    r := ValidateBook(book);
  }

  // ----- and if it passes, the map is right

  /** The slots marked live, below `n`. */
  ghost function LiveSlots(live: seq<bool>, n: nat): (r: set<int>)
    requires n <= |live|
    ensures forall x: int :: x in r <==> 0 <= x < n && live[x]
  {
    if n == 0 then {} else LiveSlots(live, n - 1) + if live[n - 1] then {n - 1} else {}
  }

  lemma {:induction false} LinksReachAt(slots: seq<Slot>, q: seq<u32>, k: nat)
    requires Links(slots, q, INVALID_INDEX) && |slots| <= MAX_POOL_CAPACITY && k < |q|
    ensures ReachesEnd(slots, q[k], |q| - k)
    decreases k
  {
    hide ReachesEnd, Links, NextIn;
    if k == 0 {
      LinksReach(slots, q);
    } else {
      LinksTail(slots, q, INVALID_INDEX);
      LinksReachAt(slots, q[1..], k - 1);
      assert q[1..][k - 1] == q[k];
    }
  }

  /** A chain that ends cannot repeat a slot. */
  lemma LinksDistinct(slots: seq<Slot>, q: seq<u32>)
    requires Links(slots, q, INVALID_INDEX) && |slots| <= MAX_POOL_CAPACITY
    ensures Distinct(q)
  {
    hide ReachesEnd, Links;
    forall i, j | 0 <= i < j < |q| ensures q[i] != q[j] {
      LinksReachAt(slots, q, i);
      LinksReachAt(slots, q, j);
      if q[i] == q[j] {
        ReachesOnce(slots, q[i], |q| - i, |q| - j);
      }
    }
  }

  lemma WalksAtHome(v: View, s: Side, minPrice: u32, t: Table)
    requires v.Sized() && t.Sized() && SideCheck(v, s, minPrice, t)
    ensures var qs := Walks(v, t.levels);
            AtHome(v.slots, s, minPrice, qs) && forall i :: 0 <= i < |qs| ==> Distinct(qs[i])
  {
    hide WalkOf, Bits.Bit, Orders, Total, Distinct, Links;
    var qs := Walks(v, t.levels);
    forall i: nat | i < |qs|
      ensures Distinct(qs[i])
      ensures forall k :: 0 <= k < |qs[i]| ==>
                qs[i][k] < |v.slots| && v.slots[qs[i][k]].side == s && v.slots[qs[i][k]].price == minPrice + i
    {
      assert TickCheck(v, s, minPrice, t, i);
      LinksDistinct(v.slots, qs[i]);
      forall k | 0 <= k < |qs[i]| ensures v.slots[qs[i][k]].side == s && v.slots[qs[i][k]].price == minPrice + i {
        assert SlotCheck(v, ClaimAt(s, minPrice, t, i), qs[i], k);
      }
    }
  }

  lemma UpLive(v: View, levels: seq<PriceLevel>)
    requires v.Sized()
    ensures var u := Up<u32>(Walks(v, levels)); forall k :: 0 <= k < |u| ==> v.LiveAt(u[k])
  {
    hide Up, WalkOf;
    var qs := Walks(v, levels);
    var u := Up<u32>(qs);
    forall k | 0 <= k < |u| ensures v.LiveAt(u[k]) {
      var x: u32 := u[k];
      UpMembers<u32>(qs, x);
      assert x in u;
      var i :| 0 <= i < |qs| && x in qs[i];
      var j :| 0 <= j < |qs[i]| && qs[i][j] == x;
      assert qs[i] == WalkOf(v, levels[i].head, |v.slots|);
    }
  }

  /** The walked slots, each once. */
  lemma WalkedOnce(minPrice: u32, a: State) returns (all: seq<u32>)
    requires Sized(a) && Checks(minPrice, a)
    ensures all == Up<u32>(Walks(ViewOf(a), a.bids.levels)) + Up<u32>(Walks(ViewOf(a), a.asks.levels))
    ensures Distinct(all) && |all| == a.liveCount && forall k :: 0 <= k < |all| ==> ViewOf(a).LiveAt(all[k])
  {
    hide SideCheck, BestCheck, MapCheck, Entries, Up, Walks, DepthIs, AtHome, Distinct;
    var v := ViewOf(a);
    var bq, aq := Walks(v, a.bids.levels), Walks(v, a.asks.levels);
    EachSide(minPrice, a);
    WalksAtHome(v, Buy, minPrice, TableOf(a.bids));
    WalksAtHome(v, Sell, minPrice, TableOf(a.asks));
    BothDistinct(a.slots, minPrice, bq, aq);
    UpLive(v, a.bids.levels);
    UpLive(v, a.asks.levels);
    all := Up<u32>(bq) + Up<u32>(aq);
  }

  /** If the checks pass and the live counter counts the live slots, the walks met every live slot. */
  lemma WalksMeetAll(minPrice: u32, a: State, x: u32)
    requires Sized(a) && Checks(minPrice, a) && a.liveCount == |LiveSlots(a.live, |a.live|)|
    requires x < |a.live| && a.live[x]
    ensures x in Up<u32>(Walks(ViewOf(a), a.bids.levels)) || x in Up<u32>(Walks(ViewOf(a), a.asks.levels))
  {
    hide Checks, Up, Walks, Distinct, LiveSlots;
    var all := WalkedOnce(minPrice, a);
    DistinctCount(all);
    assert Members(all) <= LiveSlots(a.live, |a.live|);
    SubsetFills(Members(all), LiveSlots(a.live, |a.live|));
    assert x as int in Members(all);
  }

  /** A walked slot was met at the level of its own side and price. */
  lemma WalkedAtHome(minPrice: u32, a: State, x: u32)
    requires Sized(a) && Checks(minPrice, a)
    requires x in Up<u32>(Walks(ViewOf(a), a.bids.levels)) || x in Up<u32>(Walks(ViewOf(a), a.asks.levels))
    ensures x < |a.slots|
    ensures var o := a.slots[x]; var levels := a.On(o.side).levels;
            && minPrice <= o.price < minPrice + |levels|
            && x in WalkOf(ViewOf(a), levels[o.price - minPrice].head, |a.slots|)
  {
    hide SideCheck, BestCheck, Entries, Up, WalkOf, DepthIs, AtHome;
    assert a.On(Buy) == a.bids && a.On(Sell) == a.asks;
    var s: Side := if x in Up<u32>(Walks(ViewOf(a), a.bids.levels)) then Buy else Sell;
    var qs := Walks(ViewOf(a), a.On(s).levels);
    assert SideCheck(ViewOf(a), s, minPrice, TableOf(a.On(s)));
    WalksAtHome(ViewOf(a), s, minPrice, TableOf(a.On(s)));
    UpMembers<u32>(qs, x);
    var i :| 0 <= i < |qs| && x in qs[i];
    HomeIn(a.slots, s, minPrice, qs, i, x);
  }

  /** Then every live slot is met at the level of its own side and price. */
  lemma MetAtHome(minPrice: u32, a: State, x: u32)
    requires Sized(a) && Checks(minPrice, a) && a.liveCount == |LiveSlots(a.live, |a.live|)|
    requires x < |a.slots| && a.live[x]
    ensures var o := a.slots[x]; var levels := a.On(o.side).levels;
            && minPrice <= o.price < minPrice + |levels|
            && x in WalkOf(ViewOf(a), levels[o.price - minPrice].head, |a.slots|)
  {
    hide Checks, Up, Walks, WalkOf, LiveSlots;
    WalksMeetAll(minPrice, a, x);
    WalkedAtHome(minPrice, a, x);
  }

  /** A walked slot's id leads back to it. */
  lemma WalkedIsMapped(minPrice: u32, a: State, x: u32)
    requires Sized(a) && Checks(minPrice, a) && x < |a.slots|
    requires x in Up<u32>(Walks(ViewOf(a), a.bids.levels)) || x in Up<u32>(Walks(ViewOf(a), a.asks.levels))
    ensures a.slots[x].id < |a.orderMap| && a.orderMap[a.slots[x].id] == x
  {
    hide BestCheck, Entries, Walked, DepthIs, WalkOf, LevelCheck, Bits.Bit, Up, Walks;
    WalkedAtHome(minPrice, a, x);
    var s := a.slots[x].side;
    var i := a.slots[x].price - minPrice;
    assert SideCheck(ViewOf(a), s, minPrice, TableOf(a.On(s)));
    assert TickCheck(ViewOf(a), s, minPrice, TableOf(a.On(s)), i);
    MetIsMapped(ViewOf(a), ClaimAt(s, minPrice, TableOf(a.On(s)), i), x);
  }

  lemma MetIsMapped(v: View, c: Claim, x: u32)
    requires LevelCheck(v, c) && x in Met(v, c)
    ensures x < |v.slots| && v.slots[x].id < |v.orderMap| && v.orderMap[v.slots[x].id] == x
  {
    hide WalkOf, Orders, Total, Links;
    var q := Met(v, c);
    var k :| 0 <= k < |q| && q[k] == x;
    assert SlotCheck(v, c, q, k);
  }

  /** The map's own count says as much without the live counter: if all checks pass and entry 0 is unused, there are as
      many entries as walked slots, each walked slot has one, and so every entry's slot was walked. */
  lemma EntriesAreWalked(minPrice: u32, a: State, id: nat)
    requires Sized(a) && Checks(minPrice, a) && a.orderMap[0] == INVALID_INDEX
    requires 1 <= id < |a.orderMap| && a.orderMap[id] != INVALID_INDEX
    ensures var x := a.orderMap[id];
            && MapsTo(a.slots, a.live, id, x)
            && var o := a.slots[x]; var levels := a.On(o.side).levels;
               && minPrice <= o.price < minPrice + |levels|
               && x in WalkOf(ViewOf(a), levels[o.price - minPrice].head, |a.slots|)
  {
    EntryCounts(minPrice, a, id);
    EntryIsWalked(minPrice, a, id);
    hide Checks, Up, Walks, WalkOf;
    WalkedAtHome(minPrice, a, a.orderMap[id]);
  }

  lemma EntryIsWalked(minPrice: u32, a: State, id: nat)
    requires Sized(a) && Checks(minPrice, a) && a.orderMap[0] == INVALID_INDEX
    requires 1 <= id < |a.orderMap| && a.orderMap[id] != INVALID_INDEX
    ensures a.orderMap[id] in Up<u32>(Walks(ViewOf(a), a.bids.levels))
            || a.orderMap[id] in Up<u32>(Walks(ViewOf(a), a.asks.levels))
  {
    hide Checks, Up, Walks, WalkOf, Entries, Distinct;
    EntryCounts(minPrice, a, id);
    var all := WalkedOnce(minPrice, a);
    var ids := IdsOf(a.slots, all);
    forall k | 0 <= k < |all| ensures ids[k] < |a.orderMap| && a.orderMap[ids[k]] == all[k] {
      assert all[k] in all;
      WalkedIsMapped(minPrice, a, all[k]);
    }
    IdsDistinct(a.orderMap, ids, all);
    var k := AllEntries(a.orderMap, ids, all, id);
    assert all[k] in all;
  }

  /** As many distinct ids with entries as there are entries are all of them. */
  lemma AllEntries(orderMap: seq<u32>, ids: seq<u32>, all: seq<u32>, id: nat) returns (k: nat)
    requires orderMap != [] && orderMap[0] == INVALID_INDEX && Distinct(ids) && |ids| == |all|
    requires |Entries(orderMap, |orderMap|)| == |ids|
    requires forall k :: 0 <= k < |all| ==> ids[k] < |orderMap| && orderMap[ids[k]] == all[k] != INVALID_INDEX
    requires 1 <= id < |orderMap| && orderMap[id] != INVALID_INDEX
    ensures k < |all| && orderMap[id] == all[k]
  {
    hide Entries, Distinct;
    DistinctCount(ids);
    SubsetFills(Members(ids), Entries(orderMap, |orderMap|));
    assert id as int in Members(ids);
    k :| 0 <= k < |ids| && ids[k] == id;
  }

  lemma EntryCounts(minPrice: u32, a: State, id: nat)
    requires Sized(a) && Checks(minPrice, a) && 1 <= id < |a.orderMap| && a.orderMap[id] != INVALID_INDEX
    ensures |Entries(a.orderMap, |a.orderMap|)| == a.liveCount && MapsTo(a.slots, a.live, id, a.orderMap[id])
  {
    hide SideCheck, BestCheck, Entries, Walked, DepthIs;
    assert MapCheck(ViewOf(a));
  }

  lemma IdsDistinct(orderMap: seq<u32>, ids: seq<u32>, all: seq<u32>)
    requires |ids| == |all| && Distinct(all)
    requires forall k :: 0 <= k < |all| ==> ids[k] < |orderMap| && orderMap[ids[k]] == all[k]
    ensures Distinct(ids)
  {
    forall i, j | 0 <= i < j < |ids| ensures ids[i] != ids[j] {
      assert orderMap[ids[i]] != orderMap[ids[j]];
    }
  }

  /** Soundness of the counting argument: no map entry is checked against the levels directly, yet if every check
      passes, every entry's slot really is queued, at the level of its own side and price. */
  lemma ChecksAreSound(minPrice: u32, a: State, id: nat)
    requires Sized(a) && Checks(minPrice, a) && a.liveCount == |LiveSlots(a.live, |a.live|)|
    requires 1 <= id < |a.orderMap| && a.orderMap[id] != INVALID_INDEX
    ensures var x := a.orderMap[id];
            && MapsTo(a.slots, a.live, id, x)
            && var o := a.slots[x]; var levels := a.On(o.side).levels;
               && minPrice <= o.price < minPrice + |levels|
               && x in WalkOf(ViewOf(a), levels[o.price - minPrice].head, |a.slots|)
  {
    assert MapsTo(a.slots, a.live, id, a.orderMap[id]) by {
      hide SideCheck, BestCheck, Entries, Walked, DepthIs, LiveSlots;
      assert MapCheck(ViewOf(a));
    }
    hide Checks, WalkOf, LiveSlots;
    MetAtHome(minPrice, a, a.orderMap[id]);
  }
}
