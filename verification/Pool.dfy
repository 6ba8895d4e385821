/** The order pool: one array of slots whose `next` words serve both as queue links and as free-list links. */
module Pool {
  import opened Types
  import opened Pigeonhole

  /** `next` is the word the free list is overlaid on. */
  datatype Slot = Slot(next: u32, prev: u32, id: u32, price: u32, quantity: u32, side: Side)

  /** The capacity a pool really gets: no index may be `INVALID_INDEX`. */
  function Clamped(maxCapacity: nat): nat {
    if maxCapacity > MAX_POOL_CAPACITY then MAX_POOL_CAPACITY else maxCapacity
  }

  // ----- chains of slots

  function First(q: seq<u32>): u32 {
    if q == [] then INVALID_INDEX else q[0]
  }

  function Last(q: seq<u32>): u32 {
    if q == [] then INVALID_INDEX else q[|q| - 1]
  }

  /** What `next` must hold in the `k`-th slot of `q` when `q` is followed by `end`. */
  function NextIn(q: seq<u32>, k: nat, end: u32): u32
    requires k < |q|
  {
    if k + 1 < |q| then q[k + 1] else end
  }

  function PrevIn(q: seq<u32>, k: nat): u32
    requires k < |q|
  {
    if k > 0 then q[k - 1] else INVALID_INDEX
  }

  /** Following `next` from `q[0]` visits `q` and, after its last slot, goes on to `end`. */
  ghost predicate Links(slots: seq<Slot>, q: seq<u32>, end: u32) {
    && InRange(|slots|, q)
    && forall k :: 0 <= k < |q| ==> slots[q[k]].next == NextIn(q, k, end)
  }

  /** Everything the pool keeps: the free list is a simple chain, it holds exactly the slots not handed out,
      and the live counter counts the rest. */
  ghost predicate PoolInv(slots: seq<Slot>, live: seq<bool>, freeHead: u32, liveCount: nat, free: seq<u32>) {
    && |slots| == |live| <= MAX_POOL_CAPACITY
    && Links(slots, free, INVALID_INDEX)
    && freeHead == First(free)
    && Distinct(free)
    && (forall j: u32 :: j < |slots| ==> (live[j] <==> j !in free))
    && liveCount + |free| == |slots|
  }

  lemma LinksTail(slots: seq<Slot>, q: seq<u32>, end: u32)
    requires Links(slots, q, end) && q != []
    ensures Links(slots, q[1..], end) && slots[q[0]].next == NextIn(q, 0, end)
  {}

  /** Each slot of the chain leads to the next. */
  ghost predicate Strung(slots: seq<Slot>, chain: seq<u32>) {
    && chain != []
    && InRange(|slots|, chain)
    && (forall k :: 0 <= k < |chain| - 1 ==> slots[chain[k]].next == chain[k + 1])
  }

  /** A chain that may be handed back in one splice. */
  ghost predicate LiveChain(slots: seq<Slot>, live: seq<bool>, chain: seq<u32>)
    requires |slots| == |live|
  {
    Strung(slots, chain) && Distinct(chain) && forall k :: 0 <= k < |chain| ==> live[chain[k]]
  }

  lemma SpliceLinkAt(slots: seq<Slot>, chain: seq<u32>, free: seq<u32>, s: Slot, k: nat)
    requires Strung(slots, chain) && Links(slots, free, INVALID_INDEX) && Distinct(chain + free)
    requires s.next == First(free) && k < |chain + free|
    ensures var q := chain + free;
            q[k] < |slots| && slots[Last(chain) := s][q[k]].next == NextIn(q, k, INVALID_INDEX)
  {
    var q, t := chain + free, |chain| - 1;
    assert q[t] == Last(chain);
    if k < t {
      assert q[k] == chain[k] && q[k + 1] == chain[k + 1];
    } else if k > t {
      assert q[k] == free[k - |chain|];
    }
  }

  lemma SpliceDistinct(live: seq<bool>, chain: seq<u32>, free: seq<u32>)
    requires Distinct(chain) && Distinct(free) && InRange(|live|, chain) && InRange(|live|, free)
    requires forall k :: 0 <= k < |chain| ==> live[chain[k]]
    requires forall k :: 0 <= k < |free| ==> !live[free[k]]
    ensures Distinct(chain + free)
  {}

  /** Writing one link turns "chain, then free list" into one longer free list. */
  lemma SpliceLinks(slots: seq<Slot>, chain: seq<u32>, free: seq<u32>, s: Slot)
    requires Strung(slots, chain) && Links(slots, free, INVALID_INDEX) && Distinct(chain + free)
    requires s.next == First(free)
    ensures Links(slots[Last(chain) := s], chain + free, INVALID_INDEX)
  {
    hide Distinct, NextIn, First;
    var q := chain + free;
    var slots' := slots[Last(chain) := s];
    forall k: nat | k < |q| ensures q[k] < |slots'| && slots'[q[k]].next == NextIn(q, k, INVALID_INDEX) {
      SpliceLinkAt(slots, chain, free, s, k);
    }
  }

  class MemoryPool {
    var slots: seq<Slot>
    var live: seq<bool>
    var freeHead: u32
    var liveCount: nat
    ghost var free: seq<u32>

    ghost predicate Valid()
      reads this
    {
      PoolInv(slots, live, freeHead, liveCount, free)
    }

    /** The slot handed out as `x`. Slots are read through this alone, so only live ones are. */
    function Get(x: u32): Slot
      requires x < |slots| && x < |live| && live[x]
      reads this
    {
      slots[x]
    }

    /** Writes the slot handed out as `x`: again, live ones only. */
    method Set(x: u32, s: Slot)
      requires x < |slots| && x < |live| && live[x]
      modifies this`slots
      ensures slots == old(slots)[x := s]
    {
      slots := slots[x := s];
    }

    ghost predicate AllLive(q: seq<u32>)
      reads this
    {
      forall k :: 0 <= k < |q| ==> q[k] < |slots| && q[k] < |live| && live[q[k]]
    }

    /** The free list starts as 0, 1, 2, ...; the capacity is clamped. */
    constructor (maxCapacity: nat)
      ensures Valid()
      ensures |slots| == Clamped(maxCapacity)
      ensures liveCount == 0 && |free| == |slots|
      ensures forall k :: 0 <= k < |free| ==> free[k] == k
      ensures forall k :: 0 <= k < |live| ==> !live[k]
    {
      var n := Clamped(maxCapacity);
      var pool := seq(n, _ => Slot(INVALID_INDEX, INVALID_INDEX, 0, 0, 0, Buy));
      var head: u32 := INVALID_INDEX;
      ghost var list: seq<u32> := [];
      var i := n;
      while i > 0
        invariant 0 <= i <= n && |pool| == n && |list| == n - i
        invariant forall k :: 0 <= k < |list| ==> list[k] == i + k
        invariant Links(pool, list, INVALID_INDEX) && head == First(list)
      {
        var idx: u32 := i - 1;
        ghost var list' := [idx] + list;
        var pool' := pool[idx := pool[idx].(next := head)];
        forall k | 0 <= k < |list'|
          ensures list'[k] == i - 1 + k
          ensures pool'[list'[k]].next == NextIn(list', k, INVALID_INDEX)
        {
          if k > 0 {
            assert list'[k] == list[k - 1] == i + k - 1;
            assert pool[list[k - 1]].next == NextIn(list, k - 1, INVALID_INDEX);
          }
        }
        pool := pool';
        head := idx;
        list := list';
        i := i - 1;
      }
      slots := pool;
      live := seq(n, _ => false);
      freeHead := head;
      liveCount := 0;
      free := list;
      forall j: u32 | j < n ensures j in list {
        assert list[j] == j;
      }
    }

    /** Pops the most recently freed slot. The slot's contents are whatever the popping leaves there. */
    method Allocate() returns (idx: u32)
      requires Valid()
      modifies this
      ensures Valid() && |slots| == old(|slots|)
      ensures idx == INVALID_INDEX <==> old(free) == []
      ensures old(free) == [] ==> free == [] && slots == old(slots) && live == old(live) && liveCount == old(liveCount)
      ensures old(free) != [] ==>
                && idx == old(free)[0] && free == old(free)[1..]
                && live == old(live)[idx := true]
                && liveCount == old(liveCount) + 1
                && forall j: u32 :: j < |slots| && j != idx ==> slots[j] == old(slots[j])
    {
      if freeHead == INVALID_INDEX {
        return INVALID_INDEX;
      }
      LinksTail(slots, free, INVALID_INDEX);
      idx := freeHead;
      freeHead := slots[idx].next;
      live := live[idx := true];
      liveCount := liveCount + 1;
      free := free[1..];
    }

    /** Pushes one live slot. Only its link word is promised afterwards. */
    method Deallocate(index: u32)
      requires Valid() && index < |slots| && live[index]
      modifies this
      ensures Valid() && |slots| == old(|slots|)
      ensures free == [index] + old(free) && liveCount == old(liveCount) - 1
      ensures live == old(live)[index := false]
      ensures forall j: u32 :: j < |slots| && j != index ==> slots[j] == old(slots[j])
    {
      SpliceDistinct(live, [index], free);
      SpliceLinks(slots, [index], free, slots[index].(next := freeHead));
      LiveBound(slots, live, freeHead, liveCount, free, index);
      live := live[index := false];
      liveCount := liveCount - 1;
      slots := slots[index := slots[index].(next := freeHead)];
      freeHead := index;
      free := [index] + free;
    }

    /** The splice itself, which is all the Release form does: one link word and the head. It makes the chain followed
        by the free list one chain, and that chain the free list. */
    method SpliceChain(head: u32, tail: u32, ghost chain: seq<u32>, ghost list: seq<u32>)
      requires Strung(slots, chain) && Links(slots, list, INVALID_INDEX) && Distinct(chain + list)
      requires head == First(chain) && tail == Last(chain) && freeHead == First(list)
      modifies this`slots, this`freeHead
      ensures slots == old(slots)[tail := old(slots)[tail].(next := old(freeHead))]
      ensures Links(slots, chain + list, INVALID_INDEX) && freeHead == First(chain + list)
    {
      SpliceLinks(slots, chain, list, slots[tail].(next := freeHead));
      slots := slots[tail := slots[tail].(next := freeHead)];
      freeHead := head;
    }

    /** The instrumented walk: release each slot of the chain in turn. */
    method ReleaseWalk(head: u32, tail: u32, ghost chain: seq<u32>)
      requires |slots| == |live| && LiveChain(slots, live, chain) && |chain| <= liveCount
      requires head == First(chain) && tail == Last(chain)
      modifies this`live, this`liveCount
      ensures |live| == old(|live|) && liveCount == old(liveCount) - |chain|
      ensures forall j: u32 :: j < |live| ==> live[j] == (old(live)[j] && j !in chain)
    {
      var cur := head;
      ghost var k := 0;
      while cur != tail
        invariant 0 <= k < |chain| && cur == chain[k]
        invariant |live| == |slots|
        invariant forall j: u32 :: j < |slots| ==> live[j] == (old(live)[j] && j !in chain[..k])
        invariant liveCount == old(liveCount) - k
        decreases |chain| - k
      {
        live := live[cur := false];
        liveCount := liveCount - 1;
        assert chain[..k + 1] == chain[..k] + [cur];
        cur := slots[cur].next;
        k := k + 1;
      }
      assert k == |chain| - 1;
      assert chain == chain[..k] + [cur];
      live := live[cur := false];
      liveCount := liveCount - 1;
    }

    /** The instrumented form: walk the chain releasing each slot, then splice. The freed queue becomes the front
        of the free list, in queue order. */
    method DeallocateChain(head: u32, tail: u32, ghost chain: seq<u32>)
      requires Valid() && LiveChain(slots, live, chain)
      requires head == First(chain) && tail == Last(chain)
      modifies this
      ensures Valid() && |slots| == old(|slots|)
      ensures free == chain + old(free) && liveCount == old(liveCount) - |chain|
      ensures forall j: u32 :: j < |slots| && j !in chain ==> slots[j] == old(slots[j])
      ensures forall j: u32 :: j < |slots| ==> live[j] == (old(live)[j] && j !in chain)
    {
      hide Links, Distinct;
      FreeIsDead(slots, live, freeHead, liveCount, free);
      SpliceDistinct(live, chain, free);
      DistinctBound(chain + free, |slots|);
      ReleaseWalk(head, tail, chain);
      SpliceChain(head, tail, chain, free);
      free := chain + free;
    }

    /** The same chain freed slot by slot from its tail. */
    method DeallocateEach(chain: seq<u32>)
      requires Valid() && LiveChain(slots, live, chain)
      modifies this
      ensures Valid() && |slots| == old(|slots|)
      ensures free == chain + old(free) && liveCount == old(liveCount) - |chain|
      ensures forall j: u32 :: j < |slots| ==> live[j] == (old(live)[j] && j !in chain)
      ensures forall j: u32 :: j < |slots| && j !in chain ==> slots[j] == old(slots)[j]
      decreases |chain|
    {
      hide PoolInv, LiveChain;
      PoolSizes(slots, live, freeHead, liveCount, free);
      ChainHead(slots, live, chain);
      ghost var free0 := free;
      if |chain| > 1 {
        ChainTail(slots, live, chain);
        DeallocateEach(chain[1..]);
        PoolSizes(slots, live, freeHead, liveCount, free);
      }
      Deallocate(chain[0]);
      assert free == [chain[0]] + (chain[1..] + free0);
    }

    /** Head and links come out of it as `FreeBackwards` says. */
    method DeallocateBackwards(chain: seq<u32>)
      requires Valid() && LiveChain(slots, live, chain)
      modifies this
      ensures Valid() && |slots| == old(|slots|) && free == chain + old(free)
      ensures freeHead == FreeBackwards(old(slots), old(freeHead), chain).1
      ensures forall j: u32 :: j < |slots| ==>
                slots[j].next == FreeBackwards(old(slots), old(freeHead), chain).0[j].next
    {
      hide Links, Distinct, FreeBackwards;
      ghost var slots0, live0, head0, free0 := slots, live, freeHead, free;
      FreeIsDead(slots0, live0, head0, liveCount, free0);
      DeallocateEach(chain);
      BackwardsIs(slots0, live0, head0, free0, chain, slots);
    }
  }

  lemma PoolSizes(slots: seq<Slot>, live: seq<bool>, freeHead: u32, liveCount: nat, free: seq<u32>)
    requires PoolInv(slots, live, freeHead, liveCount, free)
    ensures |slots| == |live| <= MAX_POOL_CAPACITY
  {}

  /** A pool that strings the chain onto the free list, and is otherwise as before, has the links of `FreeBackwards`. */
  lemma BackwardsIs(slots: seq<Slot>, live: seq<bool>, freeHead: u32, free: seq<u32>, chain: seq<u32>,
                    slots': seq<Slot>)
    requires |slots| == |live| == |slots'| && LiveChain(slots, live, chain)
    requires Links(slots, free, INVALID_INDEX) && Distinct(free) && freeHead == First(free)
    requires forall k :: 0 <= k < |free| ==> !live[free[k]]
    requires Links(slots', chain + free, INVALID_INDEX)
    requires forall j: u32 :: j < |slots| && j !in chain ==> slots'[j] == slots[j]
    ensures var r := FreeBackwards(slots, freeHead, chain);
            r.1 == First(chain) && forall j: u32 :: j < |slots| ==> slots'[j].next == r.0[j].next
  {
    SpliceDistinct(live, chain, free);
    SpliceIsFreeingBackwards(slots, live, freeHead, chain);
    hide Distinct, FreeBackwards;
    var s := slots[Last(chain)].(next := freeHead);
    SpliceLinks(slots, chain, free, s);
    hide Links;
    var spliced := slots[Last(chain) := s];
    SameNexts(slots', spliced, chain + free);
    forall j: u32 | j < |slots| ensures slots'[j].next == spliced[j].next {
      if j in chain {
        assert j in chain + free;
      } else {
        assert j != Last(chain);
      }
    }
  }

  lemma FreeIsDead(slots: seq<Slot>, live: seq<bool>, freeHead: u32, liveCount: nat, free: seq<u32>)
    requires PoolInv(slots, live, freeHead, liveCount, free)
    ensures |slots| == |live| && InRange(|live|, free) && Distinct(free) && Links(slots, free, INVALID_INDEX)
    ensures freeHead == First(free) && forall k :: 0 <= k < |free| ==> !live[free[k]]
  {
    forall k | 0 <= k < |free| ensures !live[free[k]] {
      assert free[k] in free;
    }
  }

  /** Two pools that string the same slots together hold the same links in them. */
  lemma SameNexts(slots: seq<Slot>, slots': seq<Slot>, q: seq<u32>)
    requires Links(slots, q, INVALID_INDEX) && Links(slots', q, INVALID_INDEX) && |slots| == |slots'|
    ensures forall j: u32 :: j in q ==> j < |slots| && slots[j].next == slots'[j].next
  {}

  // ----- one splice against freeing one slot at a time

  /** The slots and the head after pushing `chain` one slot at a time, its tail first. */
  function FreeBackwards(slots: seq<Slot>, freeHead: u32, chain: seq<u32>): (r: (seq<Slot>, u32))
    requires InRange(|slots|, chain)
    ensures |r.0| == |slots|
  {
    if chain == [] then (slots, freeHead)
    else
      var (s, h) := FreeBackwards(slots, freeHead, chain[1..]);
      (s[chain[0] := s[chain[0]].(next := h)], chain[0])
  }

  lemma ChainHead(slots: seq<Slot>, live: seq<bool>, chain: seq<u32>)
    requires |slots| == |live| && LiveChain(slots, live, chain)
    ensures chain != [] && chain[0] < |slots| && live[chain[0]]
    ensures chain[0] !in chain[1..] && chain == [chain[0]] + chain[1..]
  {}

  lemma ChainTail(slots: seq<Slot>, live: seq<bool>, chain: seq<u32>)
    requires |slots| == |live| && LiveChain(slots, live, chain) && |chain| > 1
    ensures LiveChain(slots, live, chain[1..]) && Last(chain[1..]) == Last(chain) && First(chain[1..]) == chain[1]
    ensures chain[0] != Last(chain) && slots[chain[0]].next == chain[1]
  {}

  /** The one-write splice and the slot-by-slot pushes leave the same links and the same head. */
  lemma {:induction false} SpliceIsFreeingBackwards(slots: seq<Slot>, live: seq<bool>, freeHead: u32, chain: seq<u32>)
    requires |slots| == |live| && LiveChain(slots, live, chain)
    ensures FreeBackwards(slots, freeHead, chain)
         == (slots[Last(chain) := slots[Last(chain)].(next := freeHead)], First(chain))
    decreases |chain|
  {
    if |chain| == 1 {
      assert FreeBackwards(slots, freeHead, chain[1..]) == (slots, freeHead);
    } else {
      ChainTail(slots, live, chain);
      SpliceIsFreeingBackwards(slots, live, freeHead, chain[1..]);
      hide LiveChain, Distinct;
      var spliced := slots[Last(chain) := slots[Last(chain)].(next := freeHead)];
      assert spliced[chain[0] := spliced[chain[0]].(next := chain[1])] == spliced;
    }
  }

  // ----- walking the free list of any pool, sound or corrupt

  const SIZE_MAX: nat := 0xFFFF_FFFF_FFFF_FFFF

  /** Following `next` from `cur` passes through exactly `d` slots of the pool and then ends. */
  ghost predicate ReachesEnd(slots: seq<Slot>, cur: u32, d: nat)
    decreases d
  {
    if d == 0 then cur == INVALID_INDEX
    else cur != INVALID_INDEX && cur < |slots| && ReachesEnd(slots, slots[cur].next, d - 1)
  }

  lemma {:induction false} ReachesOnce(slots: seq<Slot>, cur: u32, d: nat, e: nat)
    requires ReachesEnd(slots, cur, d) && ReachesEnd(slots, cur, e)
    ensures d == e
    decreases d
  {
    if d > 0 && e > 0 {
      ReachesOnce(slots, slots[cur].next, d - 1, e - 1);
    }
  }

  /** The slots passed on the way to the end. */
  ghost function Path(slots: seq<Slot>, cur: u32, d: nat): (p: seq<u32>)
    requires ReachesEnd(slots, cur, d)
    ensures |p| == d && InRange(|slots|, p)
    ensures forall k :: 0 <= k < d ==> ReachesEnd(slots, p[k], d - k)
    decreases d
  {
    if d == 0 then [] else [cur] + Path(slots, slots[cur].next, d - 1)
  }

  /** A walk that ends cannot revisit a slot, so it is no longer than the pool. */
  lemma ReachesWithinCapacity(slots: seq<Slot>, cur: u32, d: nat)
    requires ReachesEnd(slots, cur, d)
    ensures d <= |slots|
  {
    var p := Path(slots, cur, d);
    forall i, j | 0 <= i < j < d ensures p[i] != p[j] {
      if p[i] == p[j] {
        ReachesOnce(slots, p[i], d - i, d - j);
      }
    }
    DistinctBound(p, |slots|);
  }

  lemma {:induction false} LinksReach(slots: seq<Slot>, q: seq<u32>)
    requires Links(slots, q, INVALID_INDEX) && |slots| <= MAX_POOL_CAPACITY
    ensures ReachesEnd(slots, First(q), |q|)
    decreases |q|
  {
    if q != [] {
      LinksTail(slots, q, INVALID_INDEX);
      LinksReach(slots, q[1..]);
    }
  }

  /** `n` slots of the walk from `head` are behind us and `cur` is next. */
  ghost predicate WalkedTo(slots: seq<Slot>, head: u32, cur: u32, n: nat) {
    && (forall d: nat :: d < n ==> !ReachesEnd(slots, head, d))
    && (forall d: nat :: n <= d ==> (ReachesEnd(slots, head, d) <==> ReachesEnd(slots, cur, d - n)))
  }

  lemma WalkStart(slots: seq<Slot>, head: u32)
    ensures WalkedTo(slots, head, head, 0)
  {}

  lemma WalkStep(slots: seq<Slot>, head: u32, cur: u32, n: nat)
    requires WalkedTo(slots, head, cur, n) && cur != INVALID_INDEX && cur < |slots|
    ensures WalkedTo(slots, head, slots[cur].next, n + 1)
  {}

  lemma WalkEnd(slots: seq<Slot>, head: u32, n: nat)
    requires WalkedTo(slots, head, INVALID_INDEX, n)
    ensures ReachesEnd(slots, head, n)
    ensures exists d: nat :: ReachesEnd(slots, head, d)
  {
    assert ReachesEnd(slots, INVALID_INDEX, 0);
    assert ReachesEnd(slots, head, n);
  }

  lemma WalkOut(slots: seq<Slot>, head: u32, cur: u32, n: nat)
    requires WalkedTo(slots, head, cur, n) && cur != INVALID_INDEX && cur >= |slots|
    ensures forall d: nat :: !ReachesEnd(slots, head, d)
  {}

  lemma WalkTooLong(slots: seq<Slot>, head: u32, cur: u32, n: nat)
    requires WalkedTo(slots, head, cur, n) && cur != INVALID_INDEX && n >= |slots|
    ensures forall d: nat :: !ReachesEnd(slots, head, d)
  {
    forall d: nat ensures !ReachesEnd(slots, head, d) {
      if n <= d && ReachesEnd(slots, head, d) {
        assert ReachesEnd(slots, cur, d - n);
        ReachesWithinCapacity(slots, head, d);
      }
    }
  }

  /** `free_list_depth` on any link array at all: the length of the list if it ends, `SIZE_MAX` if it never does
      or leaves the pool. */
  method FreeListDepth(slots: seq<Slot>, freeHead: u32) returns (depth: nat)
    requires |slots| <= MAX_POOL_CAPACITY
    ensures depth == SIZE_MAX <==> forall d: nat :: !ReachesEnd(slots, freeHead, d)
    ensures depth != SIZE_MAX ==> depth <= |slots| && ReachesEnd(slots, freeHead, depth)
  {
    WalkStart(slots, freeHead);
    hide WalkedTo, ReachesEnd;
    depth := 0;
    var cur: u32 := freeHead;
    while cur != INVALID_INDEX
      invariant 0 <= depth <= |slots|
      invariant WalkedTo(slots, freeHead, cur, depth)
      decreases |slots| - depth
    {
      depth := depth + 1;
      if depth > |slots| {
        WalkTooLong(slots, freeHead, cur, depth - 1);
        return SIZE_MAX;
      }
      if cur >= |slots| {
        WalkOut(slots, freeHead, cur, depth - 1);
        return SIZE_MAX;
      }
      WalkStep(slots, freeHead, cur, depth - 1);
      cur := slots[cur].next;
    }
    WalkEnd(slots, freeHead, depth);
  }

  /** A live slot is counted. */
  lemma LiveBound(slots: seq<Slot>, live: seq<bool>, freeHead: u32, liveCount: nat, free: seq<u32>, index: u32)
    requires PoolInv(slots, live, freeHead, liveCount, free) && index < |slots| && live[index]
    ensures liveCount > 0
  {
    DistinctBound(free + [index], |slots|);
  }
}
