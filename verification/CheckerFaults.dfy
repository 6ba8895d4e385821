/** Four memories on which `validate_book` does less than its text says. */
module CheckerFaults {
  import opened Types
  import opened Pool
  import opened Ladder
  import opened Levels
  import opened Canonical
  import opened LevelWalk
  import opened Validate
  import opened CheckGap
  import Bits

  const EMPTY_SIDE := SideState([EMPTY_LEVEL], [0], [0], 0, 0, false, [])

  /** A book of one price tick, at price 0, with nothing on the ask side. */
  function OneTick(slots: seq<Slot>, live: seq<bool>, orderMap: seq<u32>, level: PriceLevel, count: nat): State {
    State(slots, live, INVALID_INDEX, count, [], orderMap, count,
          SideState([level], [1], [1], 0, 0, false, []), EMPTY_SIDE)
  }

  lemma EmptyLevelChecks(v: View, c: Claim)
    requires v.Sized() && c.level == EMPTY_LEVEL
    ensures Met(v, c) == [] && LevelCheck(v, c)
  {}

  /** One level, one word, one summary word. */
  lemma OneTickChecks(v: View, s: Side, t: Table)
    requires |t.levels| == |t.words| == |t.summary| == 1 && LevelCheck(v, ClaimAt(s, 0, t, 0))
    requires Bits.Bit(t.words[0], 0) <==> !t.levels[0].IsEmpty()
    requires Bits.Bit(t.summary[0], 0) <==> t.words[0] != 0
    ensures SideCheck(v, s, 0, t) && |Up<u32>(Walks(v, t.levels))| == |Met(v, ClaimAt(s, 0, t, 0))|
  {
    hide LevelCheck, WalkOf, Bits.Bit;
    OneQueue(Met(v, ClaimAt(s, 0, t, 0)));
    assert Walks(v, t.levels) == [Met(v, ClaimAt(s, 0, t, 0))];
  }

  lemma LowBits()
    ensures Bits.Bit(1, 0) && !Bits.Bit(0, 0) && 1 as bv64 != 0
  {}

  // ----- a flag that is clear

  /** One bid rests, every structure has it, and the flag says that there is none. */
  const FLAG_CLEAR := OneTick([Slot(INVALID_INDEX, INVALID_INDEX, 1, 0, 5, Buy)], [true], [INVALID_INDEX, 0],
                              PriceLevel(0, 0, 5, 1), 1)

  lemma FlagClearWalk()
    ensures var v, c := ViewOf(FLAG_CLEAR), Claim(Buy, 0, PriceLevel(0, 0, 5, 1));
            Met(v, c) == [0] && LevelCheck(v, c)
  {
    var v, c := ViewOf(FLAG_CLEAR), Claim(Buy, 0, PriceLevel(0, 0, 5, 1));
    assert WalkOf(v, INVALID_INDEX, 0) == [];
    assert WalkOf(v, 0, 1) == [0];
    assert Orders(v.slots, [0]) == [OrderOf(v.slots, 0)];
    SingleTotal(OrderOf(v.slots, 0));
  }

  lemma FlagClearEntries()
    ensures |Entries([INVALID_INDEX, 0], 2)| == 1
  {
    EntriesStep([INVALID_INDEX, 0], 1);
    NoEntries([INVALID_INDEX, 0]);
  }

  /** It passes every check, and its best bid is not the one documented. */
  lemma FlagClearPasses()
    ensures Sized(FLAG_CLEAR) && Checks(0, FLAG_CLEAR)
    ensures !BestDocumented(Buy, 0, TableOf(FLAG_CLEAR.bids))
  {
    hide LevelCheck, SideCheck, Met, Walks, Bits.Bit, Entries, Up;
    var a := FLAG_CLEAR;
    LowBits();
    FlagClearWalk();
    OneTickChecks(ViewOf(a), Buy, TableOf(a.bids));
    EmptyLevelChecks(ViewOf(a), ClaimAt(Sell, 0, TableOf(a.asks), 0));
    OneTickChecks(ViewOf(a), Sell, TableOf(a.asks));
    EachSide(0, a);
    FlagClearEntries();
    assert ReachesEnd(a.slots, a.freeHead, 0);
    assert !TableOf(a.bids).levels[0].IsEmpty();
  }

  // ----- a list that goes round

  /** Two live bids, each next to the other. */
  const GOES_ROUND := OneTick([Slot(1, 1, 1, 0, 5, Buy), Slot(0, 0, 2, 0, 5, Buy)], [true, true], [INVALID_INDEX, 0, 1],
                              PriceLevel(0, 1, 10, 2), 2)

  /** The walk never returns, so neither does the checker. */
  lemma GoesRoundForEver()
    ensures Sized(GOES_ROUND) && BookGives(0, GOES_ROUND, NeverReturns)
    ensures Gives(ViewOf(GOES_ROUND), ClaimAt(Buy, 0, TableOf(GOES_ROUND.bids), 0), NeverReturns)
  {
    hide After, Fate;
    var a := GOES_ROUND;
    var v, c := ViewOf(a), ClaimAt(Buy, 0, TableOf(a.bids), 0);
    var q: seq<u32> := [0, 1];
    assert Closed(v, q);
    forall n: nat ensures After(v, c, n).Walking? {
      GoesRound(v, c, q, n);
    }
    WalkFate(v, c, NeverReturns);
    assert Fates(0, a)[0] == NeverReturns;
  }

  // ----- reads outside the arrays

  /** A live bid whose id is beyond the map. */
  const ID_BEYOND := OneTick([Slot(INVALID_INDEX, INVALID_INDEX, 7, 0, 5, Buy)], [true], [INVALID_INDEX, 0],
                             PriceLevel(0, 0, 5, 1), 1)

  lemma IdBeyondReadsOutside()
    ensures Sized(ID_BEYOND) && BookGives(0, ID_BEYOND, ReadsOutside)
    ensures Gives(ViewOf(ID_BEYOND), ClaimAt(Buy, 0, TableOf(ID_BEYOND.bids), 0), ReadsOutside)
  {
    var a := ID_BEYOND;
    var v, c := ViewOf(a), ClaimAt(Buy, 0, TableOf(a.bids), 0);
    assert After(v, c, 0).cur == 0;
    assert After(v, c, 1).Outside?;
    WalkFate(v, c, ReadsOutside);
    hide Fate;
    assert Fates(0, a)[0] == ReadsOutside;
  }

  /** An empty book whose map sends id 1 beyond its one slot. */
  const ENTRY_BEYOND := OneTick([Slot(INVALID_INDEX, INVALID_INDEX, 0, 0, 0, Buy)], [false], [INVALID_INDEX, 3],
                                EMPTY_LEVEL, 0)

  lemma EntryBeyondReadsOutside()
    ensures Sized(ENTRY_BEYOND) && BookGives(0, ENTRY_BEYOND, ReadsOutside)
    ensures !MapFits(ViewOf(ENTRY_BEYOND))
  {
    hide LevelCheck, Fate;
    var a := ENTRY_BEYOND;
    var v := ViewOf(a);
    EmptyLevelAnswers(v, ClaimAt(Buy, 0, TableOf(a.bids), 0));
    EmptyLevelAnswers(v, ClaimAt(Sell, 0, TableOf(a.asks), 0));
    assert !MapFits(v) by {
      assert v.orderMap[1] == 3;
    }
    var fates := Fates(0, a);
    assert fates[0].Answer? && fates[1].Answer? && fates[2] == ReadsOutside;
  }

  lemma EmptyLevelAnswers(v: View, c: Claim)
    requires v.Sized() && c.level == EMPTY_LEVEL
    ensures Fate(v, c).Answer?
  {
    EmptyLevelChecks(v, c);
    LevelAnswers(v, c);
  }
}
