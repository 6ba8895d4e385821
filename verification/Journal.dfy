/** The event journal: a power-of-two ring addressed by masking, against the unbounded log it abbreviates. */
module Journal {
  import opened Types

  datatype Event = OrderSubmitted | OrderRejected | OrderRested | TradeExecuted | MakerFilled | OrderCancelled
                 | PoolExhausted | BestBidChanged | BestAskChanged

  datatype Entry = Entry(timestamp: u64, id: u32, price: u32, quantity: u32, event: Event, reason: nat, side: nat)

  // ----- masks

  function Pow2(k: nat): (r: nat)
    ensures r > 0
  {
    if k == 0 then 1 else 2 * Pow2(k - 1)
  }

  /** Bitwise "and" of two machine words. */
  function And(x: nat, y: nat): nat {
    if x == 0 || y == 0 then 0 else (x % 2) * (y % 2) + 2 * And(x / 2, y / 2)
  }

  /** Position `x` wrapped around a ring of `n` slots. */
  function Wrap(x: nat, n: nat): (r: nat)
    requires n > 0
    ensures r < n
  {
    if x < n then x else Wrap(x - n, n)
  }

  /** It takes off whole laps and nothing else. */
  lemma {:induction false} WrapTakesLaps(x: nat, n: nat) returns (laps: nat)
    requires n > 0
    ensures x == laps * n + Wrap(x, n)
    decreases x
  {
    if x < n {
      laps := 0;
    } else {
      laps := WrapTakesLaps(x - n, n);
      assert (laps + 1) * n == laps * n + n;
      laps := laps + 1;
    }
  }

  lemma {:induction false} WrapHalves(x: nat, n: nat)
    requires n > 0
    ensures Wrap(x, 2 * n) == x % 2 + 2 * Wrap(x / 2, n)
    decreases x
  {
    if x >= 2 * n {
      WrapHalves(x - 2 * n, n);
      assert (x - 2 * n) / 2 == x / 2 - n;
    }
  }

  /** Masking with a power of two minus one is wrapping around. */
  lemma {:induction false} MaskWraps(x: nat, k: nat)
    ensures And(x, Pow2(k) - 1) == Wrap(x, Pow2(k))
    decreases k
  {
    if k == 0 {
      WrapOne(x);
    } else if x > 0 {
      var n := Pow2(k - 1);
      MaskWraps(x / 2, k - 1);
      WrapHalves(x, n);
      assert (2 * n - 1) / 2 == n - 1 && (2 * n - 1) % 2 == 1;
    }
  }

  lemma {:induction false} WrapOne(x: nat)
    ensures Wrap(x, 1) == 0
  {}

  /** `std::bit_floor`: the largest power of two not above `n`. */
  method BitFloor(n: nat) returns (p: nat, ghost k: nat)
    requires n > 0
    ensures p == Pow2(k) && p <= n < 2 * p
  {
    p, k := 1, 0;
    while 2 * p <= n
      invariant p == Pow2(k) && p <= n
      decreases n - p
    {
      p, k := 2 * p, k + 1;
    }
  }

  // ----- the ring

  /** The ring holds the last entries of the log, each at its position wrapped around. */
  ghost predicate RingOf(ring: seq<Entry>, log: seq<Entry>) {
    && |ring| > 0
    && forall j :: 0 <= j < |log| <= j + |ring| ==> ring[Wrap(j, |ring|)] == log[j]
  }

  /** Positions less than one lap apart use different slots. */
  lemma {:induction false} SlotsApart(i: nat, j: nat, n: nat)
    requires 0 < n && i < j < i + n
    ensures Wrap(i, n) != Wrap(j, n)
    decreases i
  {
    if i >= n {
      SlotsApart(i - n, j - n, n);
    }
  }

  /** Recording overwrites the oldest retained entry and no other. */
  lemma RecordKeeps(ring: seq<Entry>, log: seq<Entry>, e: Entry)
    requires RingOf(ring, log)
    ensures RingOf(ring[Wrap(|log|, |ring|) := e], log + [e])
  {
    var n := |ring|;
    var ring', log' := ring[Wrap(|log|, n) := e], log + [e];
    forall j | 0 <= j < |log'| <= j + n ensures ring'[Wrap(j, n)] == log'[j] {
      if j < |log| {
        SlotsApart(j, |log|, n);
      }
    }
  }

  class Journal {
    const entries: array<Entry>
    const mask: nat
    var pos: u64
    ghost const bits: nat
    ghost var log: seq<Entry>

    ghost predicate Valid()
      reads this, entries
    {
      && entries.Length == Pow2(bits) == mask + 1
      && pos == |log|
      && RingOf(entries[..], log)
    }

    /** A zero capacity becomes one; any other is rounded down to a power of two. */
    constructor (capacity: nat)
      ensures Valid() && log == [] && fresh(entries)
      ensures entries.Length <= (if capacity == 0 then 1 else capacity) < 2 * entries.Length
    {
      var requested := if capacity == 0 then 1 else capacity;
      var pow2, k := BitFloor(requested);
      entries := new Entry[pow2](_ => Entry(0, 0, 0, 0, OrderSubmitted, 0, 0));
      mask := pow2 - 1;
      pos := 0;
      bits := k;
      log := [];
    }

    method Record(e: Entry)
      requires Valid() && pos < 0xFFFF_FFFF_FFFF_FFFF
      modifies this`pos, this`log, entries
      ensures Valid() && log == old(log) + [e]
    {
      MaskWraps(pos, bits);
      RecordKeeps(entries[..], log, e);
      entries[And(pos, mask)] := e;
      assert entries[..] == old(entries[..])[Wrap(pos, entries.Length) := e];
      pos := pos + 1;
      log := log + [e];
    }

    /** How many entries are retained: all, or as many as the ring holds. */
    method Size() returns (n: nat)
      requires Valid()
      ensures n <= |log| && n <= entries.Length && (n == |log| || n == entries.Length)
    {
      n := if pos < entries.Length then pos else entries.Length;
    }

    /** Entry `i` of the retained window, oldest first. */
    method At(i: nat) returns (e: Entry)
      requires Valid() && i < (if |log| < entries.Length then |log| else entries.Length)
      ensures e == log[|log| - (if |log| < entries.Length then |log| else entries.Length) + i]
    {
      var n := Size();
      var base := pos - n;
      MaskWraps(base + i, bits);
      var ring := entries[..];
      assert ring[Wrap(base + i, |ring|)] == log[base + i];
      e := entries[And(base + i, mask)];
    }

    method Clear()
      requires Valid()
      modifies this`pos, this`log
      ensures Valid() && log == []
    {
      pos := 0;
      log := [];
    }
  }
}
