/** The walk `validate_book` makes along one price level, on any memory at all: it may answer, read outside the order
    map, or go round for ever. */
module LevelWalk {
  import opened Types
  import opened Pigeonhole
  import opened Pool
  import opened MatchLaws
  import opened Levels

  /** The arrays every walk reads. */
  datatype View = View(slots: seq<Slot>, live: seq<bool>, orderMap: seq<u32>) {
    ghost predicate Sized() {
      |slots| == |live| <= MAX_POOL_CAPACITY && orderMap != []
    }

    /** `is_allocated`. */
    predicate LiveAt(x: u32) {
      x < |slots| && x < |live| && live[x]
    }
  }

  /** A level, and the side and price its orders should have. */
  datatype Claim = Claim(side: Side, price: int, level: PriceLevel)

  /** What is asked of a slot met on a walk, given the slot met before it. */
  predicate SlotGood(v: View, c: Claim, cur: u32, prv: u32)
    requires v.LiveAt(cur)
  {
    var o := v.slots[cur];
    && o.prev == prv
    && (o.next == INVALID_INDEX || v.LiveAt(o.next))
    && o.id < |v.orderMap| && v.orderMap[o.id] == cur
    && o.price == c.price && o.side == c.side
    && (o.next == INVALID_INDEX ==> c.level.tail == cur)
  }

  // ----- the walk as it is written

  /** The loop's variables; or it is over; or it has read outside the map. */
  datatype Stage =
    | Walking(cur: u32, prv: u32, quantity: nat, count: nat, ok: bool)
    | Stopped(quantity: nat, count: nat, ok: bool)
    | Outside

  /** One turn of the loop. */
  function Step(v: View, c: Claim, w: Stage): Stage {
    match w
    case Walking(cur, prv, quantity, count, ok) =>
      if cur == INVALID_INDEX then Stopped(quantity, count, ok)
      else if !v.LiveAt(cur) then Stopped(quantity, count, false)
      else if v.slots[cur].id >= |v.orderMap| then Outside
      else Walking(v.slots[cur].next, cur, quantity + v.slots[cur].quantity, count + 1, ok && SlotGood(v, c, cur, prv))
    case _ => w
  }

  ghost function After(v: View, c: Claim, n: nat): Stage {
    if n == 0 then Walking(c.level.head, INVALID_INDEX, 0, 0, true) else Step(v, c, After(v, c, n - 1))
  }

  /** The tests after the loop. */
  predicate Tallies(v: View, c: Claim, quantity: nat, count: nat) {
    && (v.LiveAt(c.level.head) ==> v.slots[c.level.head].prev == INVALID_INDEX)
    && c.level.totalQuantity == quantity && c.level.orderCount == count
  }

  datatype Verdict = Answer(ok: bool) | ReadsOutside | NeverReturns

  /** This is what walking the level comes to. */
  ghost predicate Gives(v: View, c: Claim, r: Verdict) {
    match r
    case Answer(ok) =>
      exists n: nat :: var w := After(v, c, n); w.Stopped? && ok == (w.ok && Tallies(v, c, w.quantity, w.count))
    case ReadsOutside => exists n: nat :: After(v, c, n).Outside?
    case NeverReturns => forall n: nat :: After(v, c, n).Walking?
  }

  /** What has stopped stays stopped. */
  lemma {:induction false} Settled(v: View, c: Claim, n: nat, m: nat)
    requires n <= m && !After(v, c, n).Walking?
    ensures After(v, c, m) == After(v, c, n)
    decreases m
  {
    if n < m {
      Settled(v, c, n, m - 1);
    }
  }

  /** A walk comes to one thing only. */
  lemma GivesOne(v: View, c: Claim, r: Verdict, r': Verdict)
    requires Gives(v, c, r) && Gives(v, c, r')
    ensures r == r'
  {
    hide After, Tallies;
    if !r.NeverReturns? && !r'.NeverReturns? {
      var n: nat :| !After(v, c, n).Walking? && (r.Answer? <==> After(v, c, n).Stopped?)
                    && (r.Answer? ==> var w := After(v, c, n); r.ok == (w.ok && Tallies(v, c, w.quantity, w.count)));
      var m: nat :| !After(v, c, m).Walking? && (r'.Answer? <==> After(v, c, m).Stopped?)
                    && (r'.Answer? ==> var w := After(v, c, m); r'.ok == (w.ok && Tallies(v, c, w.quantity, w.count)));
      if n <= m {
        Settled(v, c, n, m);
      } else {
        Settled(v, c, m, n);
      }
    }
  }

  // ----- what it comes to, read off the memory

  /** The live slots met by following `next` from `cur`, at most `n` of them. */
  ghost function WalkOf(v: View, cur: u32, n: nat): (q: seq<u32>)
    ensures |q| <= n && forall k :: 0 <= k < |q| ==> v.LiveAt(q[k])
    decreases n
  {
    if n == 0 || !v.LiveAt(cur) then [] else [cur] + WalkOf(v, v.slots[cur].next, n - 1)
  }

  /** The walk of a level, cut off after as many slots as there are. */
  ghost function Met(v: View, c: Claim): (q: seq<u32>)
    ensures InRange(|v.slots|, q) && |q| <= |v.slots| && forall k :: 0 <= k < |q| ==> v.LiveAt(q[k])
  {
    WalkOf(v, c.level.head, |v.slots|)
  }

  /** Where the walk stands after `n` slots of `q`. */
  ghost function Spot(v: View, head: u32, q: seq<u32>, n: nat): u32
    requires n <= |q| && InRange(|v.slots|, q)
  {
    if n == 0 then head else v.slots[q[n - 1]].next
  }

  ghost predicate IdsFit(v: View, q: seq<u32>)
    requires InRange(|v.slots|, q)
  {
    forall k :: 0 <= k < |q| ==> v.slots[q[k]].id < |v.orderMap|
  }

  ghost predicate SlotCheck(v: View, c: Claim, q: seq<u32>, k: nat)
    requires k < |q| && v.LiveAt(q[k])
  {
    SlotGood(v, c, q[k], PrevIn(q, k))
  }

  /** What is asked of a level: its walk reaches the end, every slot passes, and count and total match. */
  ghost predicate LevelCheck(v: View, c: Claim) {
    var q := Met(v, c);
    && c.level.head == First(q) && Links(v.slots, q, INVALID_INDEX)
    && (forall k :: 0 <= k < |q| ==> SlotCheck(v, c, q, k))
    && c.level.totalQuantity == Total(Orders(v.slots, q)) && c.level.orderCount == |q|
  }

  /** Every id met fits the map, and the walk is off the live slots within as many steps as there are slots. */
  ghost predicate Answers(v: View, c: Claim) {
    var q := Met(v, c);
    IdsFit(v, q) && !v.LiveAt(Spot(v, c.level.head, q, |q|))
  }

  ghost function Fate(v: View, c: Claim): Verdict {
    if !IdsFit(v, Met(v, c)) then ReadsOutside
    else if !Answers(v, c) then NeverReturns
    else Answer(LevelCheck(v, c))
  }

  // ----- the two agree

  /** Each slot of `q` is where the one before it leads. */
  ghost predicate Leads(v: View, head: u32, q: seq<u32>)
    requires InRange(|v.slots|, q)
  {
    forall k {:trigger Spot(v, head, q, k)} :: 0 <= k < |q| ==> q[k] == Spot(v, head, q, k)
  }

  lemma {:induction false} WalkIsChain(v: View, cur: u32, n: nat)
    ensures var q := WalkOf(v, cur, n);
            && Leads(v, cur, q)
            && (|q| < n ==> !v.LiveAt(Spot(v, cur, q, |q|)))
    decreases n
  {
    if n > 0 && v.LiveAt(cur) {
      var t := WalkOf(v, v.slots[cur].next, n - 1);
      WalkIsChain(v, v.slots[cur].next, n - 1);
      var q := [cur] + t;
      assert WalkOf(v, cur, n) == q;
      forall k | 0 <= k < |q| ensures q[k] == Spot(v, cur, q, k) {
        if k > 0 {
          assert t[k - 1] == Spot(v, v.slots[cur].next, t, k - 1);
          assert k > 1 ==> q[k - 1] == t[k - 2];
        }
      }
      assert |t| > 0 ==> q[|q| - 1] == t[|t| - 1];
    }
  }

  lemma TotalStep(slots: seq<Slot>, q: seq<u32>, k: nat)
    requires k < |q| && InRange(|slots|, q)
    ensures Total(Orders(slots, q[..k + 1])) == Total(Orders(slots, q[..k])) + slots[q[k]].quantity
  {
    hide Orders;
    assert q[..k + 1] == q[..k] + [q[k]];
    OrdersConcat(slots, q[..k], [q[k]]);
    assert Orders(slots, [q[k]]) == [OrderOf(slots, q[k])];
    TotalConcat(Orders(slots, q[..k]), [OrderOf(slots, q[k])]);
    SingleTotal(OrderOf(slots, q[k]));
  }

  lemma StartsAt(v: View, c: Claim)
    ensures After(v, c, 0) == Walking(c.level.head, INVALID_INDEX, 0, 0, true)
  {}

  /** A turn at a live slot whose id fits. */
  lemma TurnAt(v: View, c: Claim, n: nat, w: Stage)
    requires v.Sized() && After(v, c, n) == w && w.Walking? && v.LiveAt(w.cur) && v.slots[w.cur].id < |v.orderMap|
    ensures var o := v.slots[w.cur];
            After(v, c, n + 1)
            == Walking(o.next, w.cur, w.quantity + o.quantity, w.count + 1, w.ok && SlotGood(v, c, w.cur, w.prv))
  {
    hide SlotGood;
  }

  /** The loop's variables after `n` slots of `q`. */
  ghost predicate InStep(v: View, c: Claim, q: seq<u32>, n: nat, w: Stage)
    requires n <= |q| && InRange(|v.slots|, q) && forall k :: 0 <= k < |q| ==> v.LiveAt(q[k])
  {
    && w.Walking? && w.cur == Spot(v, c.level.head, q, n) && w.prv == Last(q[..n])
    && w.quantity == Total(Orders(v.slots, q[..n])) && w.count == n
    && (w.ok <==> forall k :: 0 <= k < n ==> SlotCheck(v, c, q, k))
  }

  lemma InStepNext(v: View, c: Claim, q: seq<u32>, n: nat, w: Stage, w': Stage)
    requires n < |q| && InRange(|v.slots|, q) && forall k :: 0 <= k < |q| ==> v.LiveAt(q[k])
    requires InStep(v, c, q, n, w) && q[n] == w.cur
    requires var o := v.slots[w.cur];
             w' == Walking(o.next, w.cur, w.quantity + o.quantity, w.count + 1, w.ok && SlotGood(v, c, w.cur, w.prv))
    ensures InStep(v, c, q, n + 1, w')
  {
    hide Orders, Total, SlotGood;
    TotalStep(v.slots, q, n);
    assert Last(q[..n]) == PrevIn(q, n) && Last(q[..n + 1]) == q[n];
    assert SlotCheck(v, c, q, n) <==> SlotGood(v, c, w.cur, w.prv);
  }

  /** While ids fit, the loop is in step with the walk. */
  lemma {:induction false} AfterIs(v: View, c: Claim, n: nat)
    requires v.Sized() && n <= |Met(v, c)| && IdsFit(v, Met(v, c)[..n])
    ensures InStep(v, c, Met(v, c), n, After(v, c, n))
    decreases n, 0
  {
    var q := Met(v, c);
    if n == 0 {
      assert q[..0] == [];
      NoTotal(v.slots);
    } else {
      AfterNext(v, c, n - 1);
    }
  }

  lemma {:induction false} AfterNext(v: View, c: Claim, n: nat)
    requires v.Sized() && n < |Met(v, c)| && IdsFit(v, Met(v, c)[..n + 1])
    ensures InStep(v, c, Met(v, c), n + 1, After(v, c, n + 1))
    decreases n, 1
  {
    hide WalkOf, Total, Orders, SlotGood, After;
    var q, w := Met(v, c), After(v, c, n);
    assert q[..n + 1][..n] == q[..n] && q[..n + 1][n] == q[n];
    AfterIs(v, c, n);
    WalkIsChain(v, c.level.head, |v.slots|);
    assert q[n] == Spot(v, c.level.head, q, n);
    TurnAt(v, c, n, w);
    InStepNext(v, c, q, n, w, After(v, c, n + 1));
  }

  lemma NoTotal(slots: seq<Slot>)
    ensures Total(Orders(slots, [])) == 0
  {}

  /** A walk that meets as many live slots as there are, and then another, has met that one before. */
  lemma ComesRound(v: View, head: u32, q: seq<u32>)
    requires InRange(|v.slots|, q) && |q| == |v.slots| && Leads(v, head, q)
    requires v.LiveAt(Spot(v, head, q, |q|))
    ensures Spot(v, head, q, |q|) in q
  {
    var end := Spot(v, head, q, |q|);
    if end !in q {
      if Distinct(q) {
        DistinctBound(q + [end], |v.slots|);
        assert false;
      }
      var i, j :| 0 <= i < j < |q| && q[i] == q[j];
      SameOnwards(v, head, q, i, j, |q| - j);
    }
  }

  lemma {:induction false} SameOnwards(v: View, head: u32, q: seq<u32>, i: nat, j: nat, t: nat)
    requires InRange(|v.slots|, q) && Leads(v, head, q)
    requires i < j < |q| && q[i] == q[j] && j + t <= |q|
    ensures q[i + t] == Spot(v, head, q, j + t)
  {
    assert q[j] == Spot(v, head, q, j);
    if t > 0 {
      SameOnwards(v, head, q, i, j, t - 1);
      assert q[j + t - 1] == Spot(v, head, q, j + t - 1);
      assert q[i + t] == Spot(v, head, q, i + t);
    }
  }

  /** Live slots that only lead to one another. */
  ghost predicate Closed(v: View, q: seq<u32>) {
    forall x: u32 :: x in q ==> v.LiveAt(x) && v.slots[x].id < |v.orderMap| && v.slots[x].next in q
  }

  /** Such slots are walked for ever. */
  lemma {:induction false} GoesRound(v: View, c: Claim, q: seq<u32>, n: nat)
    requires v.Sized() && Closed(v, q) && c.level.head in q
    ensures After(v, c, n).Walking? && After(v, c, n).cur in q
  {
    hide SlotGood, After;
    if n == 0 {
      StartsAt(v, c);
    } else {
      GoesRound(v, c, q, n - 1);
      TurnAt(v, c, n - 1, After(v, c, n - 1));
    }
  }

  lemma EndsWell(v: View, c: Claim)
    requires v.Sized() && Answers(v, c)
    ensures var q := Met(v, c);
            After(v, c, |q| + 1) == Stopped(Total(Orders(v.slots, q)), |q|,
              Spot(v, c.level.head, q, |q|) == INVALID_INDEX && forall k :: 0 <= k < |q| ==> SlotCheck(v, c, q, k))
  {
    hide WalkOf, Orders, Total, SlotGood;
    var q := Met(v, c);
    assert q[..|q|] == q;
    AfterIs(v, c, |q|);
  }

  /** Arriving at the end is what makes the walk a proper chain; stopping anywhere else makes it none. */
  lemma ChainEnds(v: View, c: Claim)
    requires v.Sized()
    ensures var q := Met(v, c);
            Spot(v, c.level.head, q, |q|) == INVALID_INDEX <==>
              c.level.head == First(q) && Links(v.slots, q, INVALID_INDEX)
  {
    hide WalkOf;
    WalkIsChain(v, c.level.head, |v.slots|);
    var q := Met(v, c);
    assert q != [] ==> q[0] == Spot(v, c.level.head, q, 0);
    if Spot(v, c.level.head, q, |q|) == INVALID_INDEX {
      forall k | 0 <= k < |q| ensures v.slots[q[k]].next == NextIn(q, k, INVALID_INDEX) {
        if k + 1 < |q| {
          assert q[k + 1] == Spot(v, c.level.head, q, k + 1);
        }
      }
    }
  }

  /** Exactly when the walk answers, when it reads outside the map, and when it never returns. */
  lemma WalkFate(v: View, c: Claim, r: Verdict)
    requires v.Sized()
    ensures Gives(v, c, r) <==> r == Fate(v, c)
  {
    FateIsGiven(v, c);
    if Gives(v, c, r) {
      hide Gives, Fate;
      GivesOne(v, c, r, Fate(v, c));
    }
  }

  lemma FateIsGiven(v: View, c: Claim)
    requires v.Sized()
    ensures Gives(v, c, Fate(v, c))
  {
    hide Met, IdsFit, Answers, LevelCheck, Gives;
    if !IdsFit(v, Met(v, c)) {
      OutsideIsGiven(v, c);
    } else if Answers(v, c) {
      AnswerIsGiven(v, c);
    } else {
      RoundIsGiven(v, c);
    }
  }

  lemma OutsideIsGiven(v: View, c: Claim)
    requires v.Sized() && !IdsFit(v, Met(v, c))
    ensures Gives(v, c, ReadsOutside)
  {
    hide WalkOf, After, Orders, Total, SlotGood;
    var q := Met(v, c);
    var k := FirstUnfit(v, q);
    AfterIs(v, c, k);
    WalkIsChain(v, c.level.head, |v.slots|);
    assert q[k] == Spot(v, c.level.head, q, k);
    OutsideNext(v, c, k);
  }

  lemma AnswerIsGiven(v: View, c: Claim)
    requires v.Sized() && Answers(v, c)
    ensures Gives(v, c, Answer(LevelCheck(v, c)))
  {
    hide WalkOf, After, Orders, Total, SlotGood, Links;
    var q := Met(v, c);
    EndsWell(v, c);
    ChainEnds(v, c);
    if forall k :: 0 <= k < |q| ==> SlotCheck(v, c, q, k) {
      HeadPrev(v, c);
    }
    var w := After(v, c, |q| + 1);
    assert LevelCheck(v, c) == (w.ok && Tallies(v, c, w.quantity, w.count));
  }

  lemma RoundIsGiven(v: View, c: Claim)
    requires v.Sized() && IdsFit(v, Met(v, c)) && !Answers(v, c)
    ensures Gives(v, c, NeverReturns)
  {
    hide WalkOf, After, Leads, Closed, Spot, IdsFit;
    var q, head := Met(v, c), c.level.head;
    WalkIsChain(v, head, |v.slots|);
    ComesRound(v, head, q);
    RoundIsClosed(v, head, q);
    LeadsFrom(v, head, q);
    forall n: nat ensures After(v, c, n).Walking? {
      GoesRound(v, c, q, n);
    }
  }

  lemma LeadsFrom(v: View, head: u32, q: seq<u32>)
    requires InRange(|v.slots|, q) && Leads(v, head, q) && q != []
    ensures q[0] == head
  {
    assert q[0] == Spot(v, head, q, 0);
  }

  lemma RoundIsClosed(v: View, head: u32, q: seq<u32>)
    requires InRange(|v.slots|, q) && IdsFit(v, q) && Leads(v, head, q) && forall k :: 0 <= k < |q| ==> v.LiveAt(q[k])
    requires Spot(v, head, q, |q|) in q
    ensures Closed(v, q)
  {
    forall x: u32 | x in q ensures v.LiveAt(x) && v.slots[x].id < |v.orderMap| && v.slots[x].next in q {
      var k :| 0 <= k < |q| && q[k] == x;
      assert v.slots[x].next == Spot(v, head, q, k + 1);
      assert k + 1 < |q| ==> q[k + 1] == Spot(v, head, q, k + 1);
    }
  }

  lemma OutsideNext(v: View, c: Claim, k: nat)
    requires After(v, c, k).Walking? && v.LiveAt(After(v, c, k).cur) && |v.slots| <= MAX_POOL_CAPACITY
    requires v.slots[After(v, c, k).cur].id >= |v.orderMap|
    ensures After(v, c, k + 1).Outside?
  {}

  /** The test of the head's `prev` after the loop adds nothing to the test inside it. */
  lemma HeadPrev(v: View, c: Claim)
    requires forall k :: 0 <= k < |Met(v, c)| ==> SlotCheck(v, c, Met(v, c), k)
    ensures v.LiveAt(c.level.head) ==> v.slots[c.level.head].prev == INVALID_INDEX
  {
    if v.LiveAt(c.level.head) {
      assert Met(v, c)[0] == c.level.head;
      assert SlotCheck(v, c, Met(v, c), 0);
    }
  }

  lemma {:induction false} FirstUnfit(v: View, q: seq<u32>) returns (k: nat)
    requires InRange(|v.slots|, q) && !IdsFit(v, q)
    ensures k < |q| && v.slots[q[k]].id >= |v.orderMap| && IdsFit(v, q[..k])
    decreases |q|
  {
    var front := q[..|q| - 1];
    if IdsFit(v, front) {
      k := |q| - 1;
    } else {
      k := FirstUnfit(v, front);
      assert front[..k] == q[..k];
    }
  }

  // ----- the loop

  /** The walk of one level, with the way out the original lacks: after as many live slots as there are, one more means
      that it would never return. */
  method WalkLevel(v: View, c: Claim) returns (r: Verdict, count: nat)
    requires v.Sized()
    ensures r == Fate(v, c) && Gives(v, c, r)
    ensures r == Answer(true) ==> count == |Met(v, c)|
  {
    hide Met, Fate, SlotGood;
    WalkFate(v, c, Fate(v, c));
    var cur, prv, ok := c.level.head, INVALID_INDEX, true;
    var quantity: nat := 0;
    count := 0;
    while cur != INVALID_INDEX
      invariant count <= |v.slots| && After(v, c, count) == Walking(cur, prv, quantity, count, ok)
      decreases |v.slots| - count
    {
      if !v.LiveAt(cur) {
        break;
      }
      if count == |v.slots| {
        StillWalking(v, c);
        return NeverReturns, count;
      }
      var o := v.slots[cur];
      if o.id >= |v.orderMap| {
        assert After(v, c, count + 1).Outside?;
        WalkFate(v, c, ReadsOutside);
        return ReadsOutside, count;
      }
      ok := ok && SlotGood(v, c, cur, prv);
      quantity := quantity + o.quantity;
      count := count + 1;
      prv := cur;
      cur := o.next;
      assert After(v, c, count) == Walking(cur, prv, quantity, count, ok);
    }
    ok := ok && cur == INVALID_INDEX;
    assert After(v, c, count + 1) == Stopped(quantity, count, ok);
    r := Answer(ok && Tallies(v, c, quantity, count));
    WalkFate(v, c, r);
    CountIsMet(v, c, count + 1);
  }

  /** The way out is taken exactly when the walk never returns. */
  lemma StillWalking(v: View, c: Claim)
    requires v.Sized() && After(v, c, |v.slots|).Walking? && v.LiveAt(After(v, c, |v.slots|).cur)
    ensures Fate(v, c) == NeverReturns
  {
    hide WalkOf, Orders, Total, SlotGood, LevelCheck, After;
    var q := Met(v, c);
    if !IdsFit(v, q) {
      var k := FirstUnfit(v, q);
      AfterIs(v, c, k);
      WalkIsChain(v, c.level.head, |v.slots|);
      assert q[k] == Spot(v, c.level.head, q, k);
      OutsideNext(v, c, k);
      Settled(v, c, k + 1, |v.slots|);
    } else if Answers(v, c) {
      assert q[..|q|] == q;
      AfterIs(v, c, |q|);
      EndsWell(v, c);
      if |q| < |v.slots| {
        Settled(v, c, |q| + 1, |v.slots|);
      }
    }
  }

  lemma CountIsMet(v: View, c: Claim, n: nat)
    requires v.Sized() && After(v, c, n).Stopped?
    ensures Fate(v, c).Answer? ==> After(v, c, n).count == |Met(v, c)|
  {
    hide WalkOf, Orders, Total, SlotGood, LevelCheck, After;
    if Answers(v, c) {
      EndsWell(v, c);
      var m := |Met(v, c)| + 1;
      if n <= m {
        Settled(v, c, n, m);
      } else {
        Settled(v, c, m, n);
      }
    }
  }
}
