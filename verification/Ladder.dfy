/** A side as a ladder of queues, one per price tick, and the single priority line it stands for. */
module Ladder {
  import opened Types

  /** Queues concatenated from the lowest tick up. */
  function Up<T>(qs: seq<seq<T>>): seq<T> {
    if qs == [] then [] else Up(qs[..|qs| - 1]) + qs[|qs| - 1]
  }

  /** Queues concatenated from the highest tick down. */
  function Down<T>(qs: seq<seq<T>>): seq<T> {
    if qs == [] then [] else qs[|qs| - 1] + Down(qs[..|qs| - 1])
  }

  /** The priority line of a side: asks from the lowest price up, bids from the highest price down. */
  function Flat<T>(s: Side, qs: seq<seq<T>>): seq<T> {
    if s.Buy? then Down(qs) else Up(qs)
  }

  /** Tick `i` is strictly better than tick `j` on side `s`. */
  predicate BetterTick(s: Side, i: int, j: int) {
    if s.Buy? then i > j else i < j
  }

  /** Everything ahead of tick `b` in the line. */
  function Ahead<T>(s: Side, qs: seq<seq<T>>, b: nat): seq<T>
    requires b < |qs|
  {
    if s.Buy? then Down(qs[b + 1..]) else Up(qs[..b])
  }

  /** Everything behind tick `b` in the line. */
  function Behind<T>(s: Side, qs: seq<seq<T>>, b: nat): seq<T>
    requires b < |qs|
  {
    if s.Buy? then Down(qs[..b]) else Up(qs[b + 1..])
  }

  lemma {:induction false} UpConcat<T>(a: seq<seq<T>>, b: seq<seq<T>>)
    ensures Up(a + b) == Up(a) + Up(b)
    decreases |b|
  {
    if b == [] {
      assert a + b == a;
    } else {
      UpConcat(a, b[..|b| - 1]);
      assert (a + b)[..|a + b| - 1] == a + b[..|b| - 1];
    }
  }

  lemma {:induction false} DownConcat<T>(a: seq<seq<T>>, b: seq<seq<T>>)
    ensures Down(a + b) == Down(b) + Down(a)
    decreases |b|
  {
    if b == [] {
      assert a + b == a;
    } else {
      DownConcat(a, b[..|b| - 1]);
      assert (a + b)[..|a + b| - 1] == a + b[..|b| - 1];
    }
  }

  lemma OneQueue<T>(q: seq<T>)
    ensures Up([q]) == q && Down([q]) == q
  {}

  /** Changing one queue changes that stretch of the line and nothing else. */
  lemma FlatUpdate<T>(s: Side, qs: seq<seq<T>>, b: nat, q: seq<T>)
    requires b < |qs|
    ensures Flat(s, qs[b := q]) == Ahead(s, qs, b) + q + Behind(s, qs, b)
  {
    assert qs[b := q] == qs[..b] + ([q] + qs[b + 1..]);
    OneQueue(q);
    if s.Buy? {
      DownConcat(qs[..b], [q] + qs[b + 1..]);
      DownConcat([q], qs[b + 1..]);
    } else {
      UpConcat(qs[..b], [q] + qs[b + 1..]);
      UpConcat([q], qs[b + 1..]);
    }
  }

  lemma FlatSplit<T>(s: Side, qs: seq<seq<T>>, b: nat)
    requires b < |qs|
    ensures Flat(s, qs) == Ahead(s, qs, b) + qs[b] + Behind(s, qs, b)
  {
    FlatUpdate(s, qs, b, qs[b]);
    assert qs[b := qs[b]] == qs;
  }

  lemma {:induction false} UpAllEmpty<T>(qs: seq<seq<T>>)
    requires forall i :: 0 <= i < |qs| ==> qs[i] == []
    ensures Up(qs) == [] && Down(qs) == []
    decreases |qs|
  {
    if qs != [] {
      UpAllEmpty(qs[..|qs| - 1]);
    }
  }

  /** When every better tick is empty, the queue at `b` is the front of the line. */
  lemma FlatFront<T>(s: Side, qs: seq<seq<T>>, b: nat)
    requires b < |qs|
    requires forall i :: 0 <= i < |qs| && BetterTick(s, i, b) ==> qs[i] == []
    ensures Ahead(s, qs, b) == []
    ensures Flat(s, qs) == qs[b] + Behind(s, qs, b)
  {
    if s.Buy? {
      UpAllEmpty(qs[b + 1..]);
    } else {
      UpAllEmpty(qs[..b]);
    }
    FlatSplit(s, qs, b);
  }

  /** The line is empty exactly when every queue is. */
  lemma FlatEmpty<T>(s: Side, qs: seq<seq<T>>)
    ensures Flat(s, qs) == [] <==> forall i :: 0 <= i < |qs| ==> qs[i] == []
  {
    if forall i :: 0 <= i < |qs| ==> qs[i] == [] {
      UpAllEmpty(qs);
    } else {
      var i :| 0 <= i < |qs| && qs[i] != [];
      FlatSplit(s, qs, i);
    }
  }

  lemma {:induction false} UpMembers<T>(qs: seq<seq<T>>, x: T)
    ensures x in Up(qs) <==> exists i :: 0 <= i < |qs| && x in qs[i]
    ensures x in Down(qs) <==> exists i :: 0 <= i < |qs| && x in qs[i]
    decreases |qs|
  {
    if qs != [] {
      UpMembers(qs[..|qs| - 1], x);
    }
  }

  /** The line holds exactly what the queues hold. */
  lemma FlatMembers<T>(s: Side, qs: seq<seq<T>>, x: T)
    ensures x in Flat(s, qs) <==> exists i :: 0 <= i < |qs| && x in qs[i]
  {
    UpMembers(qs, x);
  }

  /** Whatever is ahead of (behind) tick `b` sits at a strictly better (worse) tick. */
  lemma AheadMembers<T>(s: Side, qs: seq<seq<T>>, b: nat, x: T)
    requires b < |qs|
    ensures x in Ahead(s, qs, b) <==> exists i :: 0 <= i < |qs| && BetterTick(s, i, b) && x in qs[i]
    ensures x in Behind(s, qs, b) <==> exists i :: 0 <= i < |qs| && BetterTick(s, b, i) && x in qs[i]
  {
    UpMembers(qs[..b], x);
    UpMembers(qs[b + 1..], x);
    assert forall i :: b < i < |qs| ==> qs[b + 1..][i - b - 1] == qs[i];
  }

  lemma AheadTick<T>(s: Side, qs: seq<seq<T>>, b: nat, x: T) returns (i: nat)
    requires b < |qs| && x in Ahead(s, qs, b)
    ensures i < |qs| && BetterTick(s, i, b) && x in qs[i]
  {
    AheadMembers(s, qs, b, x);
    i :| 0 <= i < |qs| && BetterTick(s, i, b) && x in qs[i];
  }

  lemma BehindTick<T>(s: Side, qs: seq<seq<T>>, b: nat, x: T) returns (i: nat)
    requires b < |qs| && x in Behind(s, qs, b)
    ensures i < |qs| && BetterTick(s, b, i) && x in qs[i]
  {
    AheadMembers(s, qs, b, x);
    i :| 0 <= i < |qs| && BetterTick(s, b, i) && x in qs[i];
  }

  lemma {:induction false} UpLength<T>(qs: seq<seq<T>>, b: nat)
    requires b < |qs|
    ensures |qs[b]| <= |Up(qs)| && |qs[b]| <= |Down(qs)|
    decreases |qs|
  {
    if b < |qs| - 1 {
      UpLength(qs[..|qs| - 1], b);
    }
  }

  lemma QueueLength<T>(s: Side, qs: seq<seq<T>>, b: nat)
    requires b < |qs|
    ensures |qs[b]| <= |Flat(s, qs)|
  {
    UpLength(qs, b);
  }
}
