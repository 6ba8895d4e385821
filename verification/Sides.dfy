/** One side of the book: its price levels, its two-level bitset and its best price. */
module Sides {
  import opened Types
  import opened Pigeonhole
  import opened Pool
  import opened PriceTime
  import opened MatchLaws
  import opened Ladder
  import opened Levels
  import opened PriceIndex
  import Bits

  /** The ticks that hold at least one order. */
  ghost function Occupied(queues: seq<seq<u32>>): set<nat> {
    set i: nat | i < |queues| && queues[i] != []
  }

  /** One bit per tick, one summary bit per word. */
  ghost predicate WordCounts(ticks: nat, words: nat, summary: nat) {
    words == (ticks + 63) / 64 && summary == (words + 63) / 64
  }

  /** The best price, its index and the flag name the best occupied tick, or are the empty-side sentinels. */
  ghost predicate BestInv(s: Side, minPrice: u32, maxPrice: u32, occupied: set<nat>, has: bool, best: u32,
                          bestIdx: nat) {
    && (has <==> occupied != {})
    && (has ==> bestIdx in occupied && best == minPrice + bestIdx && forall i: nat :: i in occupied ==>
        !BetterTick(s, i, bestIdx))
    && (!has && s.Buy? ==> best == 0 && bestIdx == 0)
    && (!has && s.Sell? ==> best == maxPrice + 1 && bestIdx == maxPrice - minPrice)
  }

  /** The occupied ticks determine all three. */
  lemma BestDetermined(s: Side, minPrice: u32, maxPrice: u32, occupied: set<nat>,
                       has: bool, best: u32, bestIdx: nat, has': bool, best': u32, bestIdx': nat)
    requires BestInv(s, minPrice, maxPrice, occupied, has, best, bestIdx)
    requires BestInv(s, minPrice, maxPrice, occupied, has', best', bestIdx')
    ensures has == has' && best == best' && bestIdx == bestIdx'
  {}

  class BookSide {
    const side: Side
    const minPrice: u32
    const maxPrice: u32
    var levels: seq<PriceLevel>
    var words: seq<bv64>
    var summary: seq<bv64>
    var best: u32
    var bestIdx: nat
    var has: bool
    ghost var queues: seq<seq<u32>>

    ghost predicate Shape()
      reads this
    {
      && minPrice <= maxPrice < 0xFFFF_FFFF
      && |levels| == |queues| == maxPrice - minPrice + 1
      && WordCounts(|levels|, |words|, |summary|)
    }

    /** Bits, summary bits and best price all describe the queues. */
    ghost predicate Indexed()
      reads this
    {
      && Shape()
      && IndexInv(words, summary, Occupied(queues))
      && BestInv(side, minPrice, maxPrice, Occupied(queues), has, best, bestIdx)
    }

    constructor (side: Side, minPrice: u32, maxPrice: u32)
      requires minPrice <= maxPrice < 0xFFFF_FFFF
      ensures this.side == side && this.minPrice == minPrice && this.maxPrice == maxPrice
      ensures Indexed() && !has
      ensures forall i :: 0 <= i < |queues| ==> queues[i] == [] && levels[i] == EMPTY_LEVEL
    {
      var ticks: nat := maxPrice - minPrice + 1;
      this.side := side;
      this.minPrice := minPrice;
      this.maxPrice := maxPrice;
      levels := seq(ticks, _ => EMPTY_LEVEL);
      queues := seq(ticks, _ => []);
      var bitsetWords: nat := (ticks + 63) / 64;
      words := seq(bitsetWords, _ => 0);
      summary := seq((bitsetWords + 63) / 64, _ => 0);
      best := if side.Buy? then 0 else maxPrice + 1;
      bestIdx := if side.Buy? then 0 else ticks - 1;
      has := false;
      new;
      assert Occupied(queues) == {};
      NoBits(words);
      NoBits(summary);
      assert NonZeroWords(words) == {};
    }

    // ----- PriceLevel::append_order and PriceLevel::remove_order

    /** Appends slot `x` at the tail of level `i`. */
    method AppendOrder(i: nat, x: u32, pool: MemoryPool)
      requires i < |levels| == |queues| && LevelInv(pool.slots, levels[i], queues[i])
      requires x < |pool.slots| <= MAX_POOL_CAPACITY && x !in queues[i] && pool.AllLive(queues[i] + [x])
      modifies this`levels, this`queues, pool`slots
      ensures queues == old(queues)[i := old(queues)[i] + [x]]
      ensures |levels| == old(|levels|) && levels == old(levels)[i := levels[i]]
      ensures |pool.slots| == old(|pool.slots|) && LevelInv(pool.slots, levels[i], queues[i])
      ensures pool.slots[x] == old(pool.slots)[x].(next := INVALID_INDEX, prev := Last(old(queues)[i]))
      ensures old(queues)[i] != [] ==>
                var t := Last(old(queues)[i]); t < |pool.slots| && pool.slots[t] == old(pool.slots)[t].(next := x)
      ensures forall j: u32 :: j < |pool.slots| && j != x && j != Last(old(queues)[i]) ==>
                pool.slots[j] == old(pool.slots)[j]
    {
      hide LevelInv, Orders, Total, Distinct, QueueLinks;
      ghost var q := queues[i];
      ghost var slots0 := pool.slots;
      LevelDistinct(slots0, levels[i], q);
      TotalFits(slots0, q);
      LastApart(q);
      LiveEnds(pool, q, x);
      var lv := levels[i];
      if lv.head != INVALID_INDEX {
        pool.Set(x, pool.Get(x).(prev := lv.tail, next := INVALID_INDEX));
        pool.Set(lv.tail, pool.Get(lv.tail).(next := x));
        lv := lv.(tail := x);
      } else {
        lv := lv.(head := x, tail := x);
        pool.Set(x, pool.Get(x).(prev := INVALID_INDEX, next := INVALID_INDEX));
      }
      lv := lv.(totalQuantity := lv.totalQuantity + pool.Get(x).quantity);
      lv := lv.(orderCount := lv.orderCount + 1);
      AppendLevel(slots0, pool.slots, levels[i], lv, q, x);
      levels := levels[i := lv];
      queues := queues[i := q + [x]];
    }

    /** The link writes of `remove_order`: both neighbours bypass slot `x`, the `k`-th of `q`. */
    static method Unlink(lv: PriceLevel, x: u32, pool: MemoryPool, ghost q: seq<u32>, ghost k: nat)
      returns (lv': PriceLevel)
      requires QueueLinks(pool.slots, q) && k < |q| && q[k] == x && |pool.slots| <= MAX_POOL_CAPACITY && pool.AllLive(q)
      modifies pool`slots
      ensures |pool.slots| == old(|pool.slots|)
      ensures pool.slots[x] == old(pool.slots)[x].(next := INVALID_INDEX, prev := INVALID_INDEX)
      ensures forall j: u32 :: j < |pool.slots| && j != x ==>
                pool.slots[j] == if k > 0 && j == q[k - 1] then old(pool.slots)[j].(next := NextIn(q, k, INVALID_INDEX))
                                 else if k + 1 < |q| && j == q[k + 1] then old(pool.slots)[j].(prev := PrevIn(q, k))
                                 else old(pool.slots)[j]
      ensures lv' == lv.(head := if k == 0 then NextIn(q, k, INVALID_INDEX) else lv.head,
                         tail := if k + 1 == |q| then PrevIn(q, k) else lv.tail)
    {
      QueueAt(pool.slots, q, k);
      hide QueueLinks;
      lv' := lv;
      var order := pool.Get(x);
      if order.prev != INVALID_INDEX {
        pool.Set(order.prev, pool.Get(order.prev).(next := order.next));
      } else {
        lv' := lv'.(head := order.next);
      }
      if order.next != INVALID_INDEX {
        pool.Set(order.next, pool.Get(order.next).(prev := order.prev));
      } else {
        lv' := lv'.(tail := order.prev);
      }
      pool.Set(x, pool.Get(x).(prev := INVALID_INDEX, next := INVALID_INDEX));
    }

    /** Removes slot `x`, the `k`-th of level `i`: first, middle or last. */
    method RemoveOrder(i: nat, x: u32, pool: MemoryPool, ghost k: nat)
      requires i < |levels| == |queues| && LevelInv(pool.slots, levels[i], queues[i])
      requires k < |queues[i]| && queues[i][k] == x && |pool.slots| <= MAX_POOL_CAPACITY && pool.AllLive(queues[i])
      modifies this`levels, this`queues, pool`slots
      ensures queues == old(queues)[i := Without(old(queues)[i], k)]
      ensures |levels| == old(|levels|) && levels == old(levels)[i := levels[i]]
      ensures |pool.slots| == old(|pool.slots|) && LevelInv(pool.slots, levels[i], queues[i])
      ensures pool.slots[x] == old(pool.slots)[x].(next := INVALID_INDEX, prev := INVALID_INDEX)
      ensures forall m :: 0 <= m < |old(queues)[i]| && m != k ==>
                var y := old(queues)[i][m];
                y < |pool.slots| && pool.slots[y] == Relinked(old(pool.slots), old(queues)[i], k, m)
      ensures forall j: u32 :: j < |pool.slots| && j !in old(queues)[i] ==> pool.slots[j] == old(pool.slots)[j]
    {
      hide Distinct, Orders, Total, Without, Relinked, First, Last;
      ghost var q := queues[i];
      ghost var slots0 := pool.slots;
      var lv := Unlink(levels[i], x, pool, q, k);
      Unlinked(slots0, pool.slots, q, k);
      QuantityWithin(slots0, q, k);
      lv := lv.(totalQuantity := lv.totalQuantity - pool.Get(x).quantity);
      lv := lv.(orderCount := lv.orderCount - 1);
      RemoveLevel(slots0, pool.slots, levels[i], lv, q, k);
      levels := levels[i := lv];
      queues := queues[i := Without(q, k)];
    }

    // ----- the bitset

    /** Sets the tick's bit and its word's summary bit. */
    method MarkTick(bitIdx: nat, ghost occupied: set<nat>)
      requires IndexInv(words, summary, occupied) && bitIdx < 64 * |words|
      modifies this`words, this`summary
      ensures |words| == old(|words|) && |summary| == old(|summary|)
      ensures IndexInv(words, summary, occupied + {bitIdx})
    {
      MarkInv(words, summary, occupied, bitIdx);
      var wordOffset := bitIdx / 64;
      words := words[wordOffset := Bits.WithBit(words[wordOffset], bitIdx % 64)];
      summary := summary[wordOffset / 64 := Bits.WithBit(summary[wordOffset / 64], wordOffset % 64)];
    }

    /** Clears the tick's bit, and its word's summary bit if that was the word's last. */
    method ClearTick(bitIdx: nat, ghost occupied: set<nat>)
      requires IndexInv(words, summary, occupied) && bitIdx < 64 * |words|
      modifies this`words, this`summary
      ensures |words| == old(|words|) && |summary| == old(|summary|)
      ensures IndexInv(words, summary, occupied - {bitIdx})
    {
      UnmarkInv(words, summary, occupied, bitIdx);
      var wordOffset := bitIdx / 64;
      words := words[wordOffset := Bits.WithoutBit(words[wordOffset], bitIdx % 64)];
      if words[wordOffset] == 0 {
        summary := summary[wordOffset / 64 := Bits.WithoutBit(summary[wordOffset / 64], wordOffset % 64)];
      }
    }

    // ----- the best price

    /** The scan both advances share: from the tick just emptied to the next occupied one, or to the sentinels. */
    method ScanToNext(bitIdx: nat)
      requires Shape() && IndexInv(words, summary, Occupied(queues)) && bitIdx < |levels|
      requires forall i: nat :: i in Occupied(queues) ==> BetterTick(side, bitIdx, i)
      modifies this`best, this`bestIdx, this`has
      ensures Indexed()
    {
      hide IndexInv;
      assert bitIdx < 64 * |words|;
      ghost var occupied := Occupied(queues);
      if side.Sell? {
        var found, idx := ScanUp(words, summary, bitIdx, occupied);
        if found {
          bestIdx := idx;
          best := minPrice + idx;
          has := true;
        } else {
          has := false;
          best := maxPrice + 1;
          bestIdx := |levels| - 1;
          assert forall i: nat :: i in occupied ==> i < bitIdx && bitIdx < i;
        }
      } else {
        var found, idx := ScanDown(words, summary, bitIdx, occupied);
        if found {
          bestIdx := idx;
          best := minPrice + idx;
          has := true;
        } else {
          has := false;
          best := 0;
          bestIdx := 0;
          assert forall i: nat :: i in occupied ==> bitIdx <= i && bitIdx > i;
        }
      }
    }

    /** The best level was just emptied and its bit cleared: find the new best. */
    method UpdateBestAfterRemove(removedPrice: u32)
      requires Shape() && IndexInv(words, summary, Occupied(queues))
      requires minPrice <= removedPrice <= maxPrice
      requires forall i: nat :: i in Occupied(queues) ==> BetterTick(side, removedPrice - minPrice, i)
      modifies this`best, this`bestIdx, this`has
      ensures Indexed()
    {
      ScanToNext(removedPrice - minPrice);
    }

    /** The advance inlined in the match loop: clear the bit, try the adjacent level itself, and only then scan. */
    method AdvanceBest()
      requires Shape() && has && bestIdx < |levels| && best == minPrice + bestIdx && queues[bestIdx] == []
      requires IndexInv(words, summary, Occupied(queues) + {bestIdx})
      requires forall i: nat :: i in Occupied(queues) ==> BetterTick(side, bestIdx, i)
      requires forall i :: 0 <= i < |levels| ==> (levels[i].IsEmpty() <==> queues[i] == [])
      modifies this`words, this`summary, this`best, this`bestIdx, this`has
      ensures Indexed()
    {
      hide IndexInv;
      var bitIdx: nat := best - minPrice;
      ghost var occupied := Occupied(queues);
      ClearTick(bitIdx, occupied + {bitIdx});
      assert occupied + {bitIdx} - {bitIdx} == occupied;
      if side.Sell? {
        if best + 1 <= maxPrice && !levels[bitIdx + 1].IsEmpty() {
          best := best + 1;
          bestIdx := bitIdx + 1;
          assert bestIdx in occupied;
        } else {
          ScanToNext(bitIdx);
        }
      } else {
        if best > minPrice && !levels[bitIdx - 1].IsEmpty() {
          best := best - 1;
          bestIdx := bestIdx - 1;
          assert bestIdx in occupied;
        } else {
          ScanToNext(bitIdx);
        }
      }
    }

    /** An order came to rest at this tick: set its bit if the level was empty, and the best price if it beats it. */
    method IndexRested(price: u32, bitIdx: nat, wasEmpty: bool, ghost before: set<nat>)
      requires Shape() && IndexInv(words, summary, before)
      requires BestInv(side, minPrice, maxPrice, before, has, best, bestIdx)
      requires bitIdx < |levels| && price == minPrice + bitIdx && Occupied(queues) == before + {bitIdx}
      requires !wasEmpty ==> bitIdx in before
      modifies this`words, this`summary, this`best, this`bestIdx, this`has
      ensures Indexed()
    {
      hide IndexInv;
      if wasEmpty {
        MarkTick(bitIdx, before);
      } else {
        assert before + {bitIdx} == before;
      }
      if !has || Beats(side, price, best) {
        best := price;
        bestIdx := bitIdx;
        has := true;
      }
    }

    /** An order left this tick: if the level is empty now, clear its bit and, if it was the best, find the next. */
    method IndexRemoved(price: u32, bitIdx: nat, ghost before: set<nat>)
      requires Shape() && IndexInv(words, summary, before)
      requires BestInv(side, minPrice, maxPrice, before, has, best, bestIdx)
      requires bitIdx < |levels| && price == minPrice + bitIdx && bitIdx in before
      requires levels[bitIdx].IsEmpty() ==> Occupied(queues) == before - {bitIdx}
      requires !levels[bitIdx].IsEmpty() ==> Occupied(queues) == before
      modifies this`words, this`summary, this`best, this`bestIdx, this`has
      ensures Indexed()
    {
      hide IndexInv;
      if levels[bitIdx].IsEmpty() {
        ClearTick(bitIdx, before);
        assert has && bestIdx in before;
        if has && best == price {
          UpdateBestAfterRemove(price);
        } else {
          assert bestIdx in before - {bitIdx};
        }
      }
    }
  }

  /** Two copies of a side whose best level was just emptied, one advanced by the match loop's inlined code, the other
      by clearing the bit and calling the removal routine: they end the same. */
  method AdvancesAgree(a: BookSide, b: BookSide)
    requires a != b && a.side == b.side && a.minPrice == b.minPrice && a.maxPrice == b.maxPrice
    requires a.levels == b.levels && a.words == b.words && a.summary == b.summary && a.queues == b.queues
    requires a.has && a.has == b.has && a.best == b.best && a.bestIdx == b.bestIdx
    requires a.Shape() && b.Shape() && a.bestIdx < |a.levels| && a.best == a.minPrice + a.bestIdx
    requires a.queues[a.bestIdx] == []
    requires IndexInv(a.words, a.summary, Occupied(a.queues) + {a.bestIdx})
    requires forall i: nat :: i in Occupied(a.queues) ==> BetterTick(a.side, a.bestIdx, i)
    requires forall i :: 0 <= i < |a.levels| ==> (a.levels[i].IsEmpty() <==> a.queues[i] == [])
    modifies a, b
    ensures a.Indexed() && b.Indexed()
    ensures a.has == b.has && a.best == b.best && a.bestIdx == b.bestIdx && a.words == b.words && a.summary == b.summary
  {
    hide IndexInv, BestInv;
    var price := b.best;
    ghost var occupied := Occupied(a.queues);
    assert occupied + {a.bestIdx} - {a.bestIdx} == occupied;
    b.ClearTick(b.bestIdx, occupied + {b.bestIdx});
    b.UpdateBestAfterRemove(price);
    a.AdvanceBest();
    BestDetermined(a.side, a.minPrice, a.maxPrice, occupied, a.has, a.best, a.bestIdx, b.has, b.best, b.bestIdx);
    IndexDetermined(a.words, a.summary, b.words, b.summary, occupied);
  }

  lemma LastApart(q: seq<u32>)
    requires Distinct(q)
    ensures forall k :: 0 <= k < |q| - 1 ==> q[k] != Last(q)
  {}

  lemma LiveEnds(pool: MemoryPool, q: seq<u32>, x: u32)
    requires pool.AllLive(q + [x])
    ensures x < |pool.slots| && x < |pool.live| && pool.live[x]
    ensures q != [] ==> var t := Last(q); t < |pool.slots| && t < |pool.live| && pool.live[t]
  {
    assert (q + [x])[|q|] == x;
    assert q != [] ==> (q + [x])[|q| - 1] == Last(q);
  }

  lemma QueueAt(slots: seq<Slot>, q: seq<u32>, k: nat)
    requires QueueLinks(slots, q) && k < |q|
    ensures q[k] < |slots| && slots[q[k]].next == NextIn(q, k, INVALID_INDEX) && slots[q[k]].prev == PrevIn(q, k)
    ensures k > 0 ==> q[k - 1] < |slots| && q[k - 1] != q[k]
    ensures k + 1 < |q| ==> q[k + 1] < |slots| && q[k + 1] != q[k]
    ensures 0 < k < |q| - 1 ==> q[k - 1] != q[k + 1]
  {}

  /** The two link writes of an unlink, seen from every position of the queue. */
  lemma Unlinked(slots: seq<Slot>, slots': seq<Slot>, q: seq<u32>, k: nat)
    requires QueueLinks(slots, q) && k < |q| && |slots| == |slots'| <= MAX_POOL_CAPACITY
    requires forall j: u32 :: j < |slots| && j != q[k] ==>
               slots'[j] == if k > 0 && j == q[k - 1] then slots[j].(next := NextIn(q, k, INVALID_INDEX))
                            else if k + 1 < |q| && j == q[k + 1] then slots[j].(prev := PrevIn(q, k))
                            else slots[j]
    ensures forall i :: 0 <= i < |q| && i != k ==> slots'[q[i]] == Relinked(slots, q, k, i)
    ensures forall j: u32 :: j < |slots| && j !in q ==> slots'[j] == slots[j]
  {}

  lemma QuantityWithin(slots: seq<Slot>, q: seq<u32>, k: nat)
    requires InRange(|slots|, q) && k < |q|
    ensures slots[q[k]].quantity <= Total(Orders(slots, q))
  {
    RemoveOrders(slots, slots, q, k);
  }

  lemma NoBits(words: seq<bv64>)
    requires forall w :: 0 <= w < |words| ==> words[w] == 0
    ensures Describes(words, {})
  {}
}
