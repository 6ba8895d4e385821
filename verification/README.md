# A verified model of the limit order book

The engine keeps a limit order book in redundant, fast structures: per-price FIFO queues threaded through a slot pool,
a two-level bitset over price ticks, cached best prices, an id-to-slot map and counters. This project models those
structures and every operation that changes them, and proves that together they always stand for one plain
price-time-priority book.

## How it fits together

| file | part of the system |
|---|---|
| `Types`, `PriceTime` | value types, and the specification: one line of resting orders per side, best first, with `Match`, `Insert`, `Remove`, one function per public call, and runs of calls |
| `MatchLaws`, `BookLaws`, `CallLaws`, `Conservation`, `TimePriority` | what is true of that specification for every input and every run; `CallLaws` says what each call must answer and do without using the specification's own functions |
| `Bits`, `PriceIndex` | 64-bit words, the two-level bitset and its scans |
| `Pool`, `Pigeonhole` | the slot pool and its overlaid free list |
| `Levels`, `Ladder`, `Sides` | one price level; a side read as a ladder of levels; a side's levels, bits and best price |
| `EngineState`, `Engine` | the order book class: matching, resting, cancelling |
| `Canonical` | queues, orders and free list determine every other field; the two undo and path-equivalence results |
| `Reference`, `Differential` | the map-of-queues reference book, and both books fed the same calls |
| `LevelWalk`, `Validate` | the cross-structure checker, on any memory at all |
| `Passing`, `CheckGap`, `CheckerFaults` | which states pass it, how far passing is from consistency, and four memories where it falls short of its text |
| `Journal` | the event ring |

The main results:

* **Engine and reference book agree over every run** (`Differential.RunBoth`): for any sequence of limit, market and
  cancel calls, both return the same codes, fills and ordered trades and end as the same book. Each is shown separately
  to compute the same specification.
* **The full representation invariant holds in every reachable state** (`Engine.OrderBook.AddOrder`, `CancelOrder`), and
  the invariant is tight: `Canonical.RepresentationIsCanonical` shows it leaves no freedom in any level word, link, bit,
  summary bit, best price, sentinel, map entry or counter.
* **What each call means** (`CallLaws.CallIsOutcome`): admission, fills, limits, resting, pool exhaustion and cancelling
  are laid down once more, on the call's arguments and the two lines alone; on every well-formed book exactly one outcome
  obeys these laws, and it is the specification's. `RunFollowsLaws` says it of every call of every run, and
  `Differential.EngineStep` of the engine.
* **What matching means** (`MatchLaws.MatchIsMaximalPrefixFill`): the outcome is the unique one that fills a prefix of
  the opposite line, wholly except perhaps for the last maker, within the limit, until the taker is done or out of reach.
* **Over every run**: never crossed (`RunKeeps`), first come first served at each price (`RunIsFifo`), quantity conserved
  (`RunConserves`), and an exhausted pool always means zero fill (`RunExhaustsUntraded`).
* **Fast forms equal simple ones**: the bulk sweep against maker-by-maker (`PathsAgree`), the inlined best-price advance
  against the out-of-line scan (`AdvancesAgree`), the chain splice against freeing tail to head
  (`SpliceIsFreeingBackwards`), the masked ring against an unbounded log (`Journal`).
* **The checker, exactly**: on any memory `validate_book` answers, reads outside an array or never returns, and
  `WalkFate` and `BookFate` say exactly which; it answers true exactly if `Checks` holds; and `ExactGap` lists what must
  hold besides for the book to be consistent, in both directions.
* **Undo**: resting an order and cancelling it restores every field, including the exact free list (`AddThenCancel`).

## Reading the model

* The engine's bid and ask code is written out twice, mirrored. The model has it once, with the side as a parameter;
  `Beats`, `Crosses` and `BetterTick` say which way is better, and upward and downward scans are both modelled.
* The engine's vectors are `seq` fields which the methods reassign; the journal's fixed ring is an `array`. Ghost fields
  hold the queue at each tick and the free list as sequences of slot indices.
* A slot has one `next` word, used by queues and by the free list alike. The engine reads and writes slots through
  `MemoryPool.Get` and `MemoryPool.Set` only, which demand that the slot is live.
* `u32` and `u64` are ranges of `int`: every value stored in one is proved to fit, so no addition, subtraction or
  narrowing in the modelled code can wrap, and every index is proved to be inside its sequence.
* The trade callback becomes the returned sequence of trades.
* `Engine.OrderBook.CancelOrder` unmaps and frees the slot before it updates bits and best price, where the engine does
  so after; the two touch disjoint fields.
* What the constructor and the pool's fault handler abort on are preconditions.

Where the code and its own text differ, the model follows the code:

* An out-of-range cancel is `OutOfBoundsOrderId` to the engine and `CancelFailed` to the reference book. `RunBoth`
  states exactly this difference and no other.
* The market prices are the ends of the price type; `MarketTakesAll` shows that they put every resting order in reach.
* The reference book reports a fill of zero on `PoolExhausted` and the engine the real fill. They agree because of
  `TradedNeverExhausts`.
* The capacity clamp (at most 0xFFFFFFFE slots) is in the engine's pool only. `ClampInvisible` shows no caller can see it.
* `validate_book` is documented to check best prices whenever a side is non-empty; it checks them when the side's flag is
  set. `FlagClearPasses` is a book that passes with a clear flag, and `FlagGap` says that this is the only way to pass
  without the documented property.
* `validate_book` is meant for damaged books, and on some it gives no answer: a cyclic list is walked for ever
  (`GoesRoundForEver`), a walked id beyond the map is looked up in it (`IdBeyondReadsOutside`), and a map entry beyond the
  pool is read after it was reported (`EntryBeyondReadsOutside`). `BookFate` gives the exact condition under which it
  answers.

## Model

| member | source | states |
|---|---|---|
| `Differential.RunBoth` | tests/test_differential_fuzz.cpp:5-12 | for every configuration and every run, engine and reference give the same reply to a call exactly if it is no out-of-range cancel (which is `OutOfBoundsOrderId` to one and `CancelFailed` to the other), and end as the same book, the one the price-time specification yields |
| `Differential.DiffersWhen` | tests/StdOrderBook.h:171-173 | on any book, the two replies to a call differ exactly if it is an out-of-range cancel, and then in the code alone, `OutOfBoundsOrderId` against `CancelFailed` |
| `Differential.EngineStep` | src/OrderBook.h:800-1026 | any call on a valid engine leaves it valid, with the reply and book of the specification, which obey the laws of `CallLaws` |
| `Differential.ReferenceStep` | tests/StdOrderBook.h:54-200 | any call on the reference book has the specification's book and reply, up to the out-of-range cancel code |
| `Differential.RoomForId` | src/OrderBook.cpp:34-38 | ids are unique and at least 1, so a book without some legal id holds fewer orders than there are ids |
| `Differential.ClampInvisible` | src/MemoryPool.h:202-205 | clamping the capacity changes no reply and no book, for any well-formed book and any call |
| `MatchLaws.MatchMeets` | src/OrderBook.h:393-489 | trades are at the makers' prices, within the limit, with a prefix of the line in order; all but the last maker are filled whole; a remainder means the last maker went too and the next is out of reach |
| `MatchLaws.MatchUnique` | src/OrderBook.h:393-489 | no other outcome has those properties |
| `MatchLaws.MatchIsMaximalPrefixFill` | src/OrderBook.h:553-648 | both directions: being the result of matching and being the maximal prefix fill are the same |
| `MatchLaws.MatchConserves` | src/OrderBook.h:466-468 | traded plus left is the taker's quantity; traded is exactly what the opposite line lost |
| `MatchLaws.MatchThrough` | src/OrderBook.h:396-443 | a taker of at least a front segment's total fills all of it and goes on with the rest of the line |
| `MatchLaws.MatchWithin` | src/OrderBook.h:450-454 | a taker of less than the front segment's total ends at zero inside it, never drains it, and leaves everything behind untouched |
| `BookLaws.InsertSplices` | tests/StdOrderBook.h:120-127 | resting splices the order in behind everything at least as good and before everything strictly worse |
| `BookLaws.RemoveSplices` | tests/StdOrderBook.h:183-195 | cancelling takes out exactly the one order with that id |
| `BookLaws.MatchKeeps` | src/OrderBook.h:371-705 | after matching the book is well-formed and, if the taker has quantity left, out of its reach; a leftover means every traded maker left the book |
| `BookLaws.RestKeeps` | src/OrderBook.h:964-1023 | resting an out-of-reach remainder keeps the book sorted, unique in ids and uncrossed |
| `BookLaws.CancelKeeps` | src/OrderBook.h:810-878 | cancelling keeps the book well-formed |
| `BookLaws.ApplyKeeps` | src/OrderBook.h:880-1026 | every call keeps the book sorted, valid, unique in ids, within capacity and uncrossed |
| `BookLaws.RunKeeps` | src/OrderBook.h:810-1026 | so does every run: no book between calls is crossed |
| `BookLaws.TradedNeverExhausts` | tests/test_orderbook_correctness.cpp:327-347 | `PoolExhausted` implies no trades, zero fill and an unchanged book |
| `BookLaws.RunExhaustsUntraded` | src/OrderBook.h:955-973 | the same of every reply in every run |
| `CallLaws.MatchHoldsLimit` | src/OrderBook.h:393 | no fill is above a buyer's limit or below a seller's; if quantity is left, the next order across is strictly beyond the limit |
| `CallLaws.LimitIsHeld` | src/OrderBook.h:951-962 | the same of a whole limit order call, with the order's own price |
| `CallLaws.RepliesToOrder` | src/OrderBook.h:900-973 | each code an order can be answered with, exactly when, in order of precedence: no quantity, id out of bounds, id carried by a resting order, limit price out of bounds, market order with nobody across, limit order with nothing within its price on a full book; accepted in every other case; an accepted market order trades, and a refused call does nothing |
| `CallLaws.RepliesToCancel` | src/OrderBook.h:810-878 | accepted exactly if a resting order carries the id, out of bounds exactly if none could, failed otherwise; exactly that order leaves, every other stands as before, and afterwards no order carries the id |
| `CallLaws.FilledAsFarAsPossible` | src/OrderBook.h:951-962 | an admitted order is filled by its quantity or by all there is within its price across the book, whichever is less |
| `CallLaws.MarketTakesAll` | src/OrderBook.h:951-952 | for a market order that is the whole opposite side |
| `CallLaws.FillsIffMatch` | src/OrderBook.h:393-489 | there is one way to fill an order from the front of a line, each maker at its own price within the limit, whole but perhaps the last, and matching finds it |
| `CallLaws.JoinedIffInsert` | src/PriceLevel.h:51-68 | there is one place behind all orders at least as well priced and ahead of all worse ones, and resting finds it |
| `CallLaws.RemainderRests` | src/OrderBook.h:964-1023 | an accepted limit order rests exactly what was not filled, with its id, at its price, in its place; in every other case its own side stays as it was |
| `CallLaws.LedgerBooks` | src/OrderBook.h:962-968 | the ledger books an admitted order's quantity, what of it traded and what was dropped, a cancelled order's quantity, and nothing else |
| `CallLaws.CallIsOutcome` | src/OrderBook.h:810-1026 | both directions: obeying these laws and being the outcome of the call are the same, on every well-formed book |
| `CallLaws.RunFollowsLaws` | src/OrderBook.h:810-1026 | in every run from an empty book, every call obeys them |
| `CallLaws.RunLeaves` | src/OrderBook.h:256-266 | in every book a run leaves: bids fall and asks rise in price, every bid is below every ask, no id occurs twice, ids, prices and quantities are in bounds, and there are no more orders than slots |
| `TimePriority.FifoInsert` | src/PriceLevel.h:51-68 | a newcomer stands behind everyone at its price who arrived earlier |
| `TimePriority.RunIsFifo` | src/PriceLevel.h:51-68 | in every book a run can reach, orders at one price stand in the order in which the run accepted them |
| `Conservation.ApplyConserves` | src/OrderBook.h:962-1023 | one call: submitted plus resting before equals twice traded plus resting after plus cancelled plus dropped; the reported fill is the sum of the trades and the drop on the opposite side |
| `Conservation.RunConserves` | src/OrderBook.h:810-1026 | the same balance over every run |
| `Bits.CountrZero` | src/OrderBook.h:716-720 | the position is a set bit with no set bit below it |
| `Bits.CountlZero` | src/OrderBook.h:761-763 | 63 minus the result is a set bit with no set bit above it |
| `Bits.FromBits` | src/OrderBook.h:710-714 | the upward mask keeps exactly the bits at or above a position |
| `Bits.BelowBits` | src/OrderBook.h:755-759 | the downward mask keeps exactly the bits below a position |
| `Bits.AboveBits` | src/OrderBook.h:723-727 | the summary mask keeps exactly the bits above a position, position 63 included |
| `PriceIndex.ScanUp` | src/OrderBook.h:707-750 | for every consistent index of any size, returns the least occupied tick from the start tick on, or reports none exactly when there is none |
| `PriceIndex.ScanDown` | src/OrderBook.h:752-798 | likewise the greatest occupied tick below the start tick |
| `PriceIndex.MarkInv` | src/OrderBook.h:991-996 | setting a tick's bit and its word's summary bit keeps bits equal to occupied ticks and summary bits equal to non-zero words |
| `PriceIndex.UnmarkInv` | src/OrderBook.h:843-849 | so does clearing the bit, and the summary bit when the word became zero |
| `PriceIndex.IndexDetermined` | src/OrderBook.h:310-313 | the occupied ticks determine every word and summary word, padding bits included |
| `PriceIndex.CountOccupied` | src/OrderBook.h:232-239 | the population count is the number of occupied ticks |
| `Pool.MemoryPool.constructor` | src/MemoryPool.h:202-220 | the new free list is 0, 1, 2, … up to the clamped capacity, and nothing is live |
| `Pool.MemoryPool.Allocate` | src/MemoryPool.h:267-290 | fails exactly on an empty free list and then changes nothing; otherwise takes the head and keeps every other slot |
| `Pool.MemoryPool.Deallocate` | src/MemoryPool.h:302-340 | pushes the slot on the free list; every other slot is untouched; free list and live slots still partition the pool |
| `Pool.MemoryPool.SpliceChain` | src/MemoryPool.h:407-413 | the unchecked form: one link write and the new head make the chain followed by the old free list one chain, and that chain the free list |
| `Pool.MemoryPool.ReleaseWalk` | src/MemoryPool.h:372-396 | the checked walk from head to tail ends, marks exactly the chain free and counts it off |
| `Pool.MemoryPool.DeallocateChain` | src/MemoryPool.h:354-403 | the free list becomes the chain followed by the old free list; only the chain's slots change state |
| `Pool.SpliceIsFreeingBackwards` | src/MemoryPool.h:343-413 | the splice leaves slots and head exactly as freeing the chain from tail to head one by one would |
| `Pool.MemoryPool.DeallocateBackwards` | src/MemoryPool.h:302-340 | freeing a chain slot by slot from its tail gives the head and links of `FreeBackwards`, and so those of the splice, and the same free list |
| `Pool.FreeListDepth` | src/MemoryPool.h:449-467 | on any links, corrupt ones included: d exactly when the links from the head reach the end after d in-range slots, and the cycle marker exactly when they never do |
| `Pool.ReachesWithinCapacity` | src/MemoryPool.h:449-460 | links that reach the end do so within capacity steps, by pigeonhole |
| `Levels.AppendLevel` | src/PriceLevel.h:54-68 | the append's writes make the level describe the queue with the slot at its end |
| `Levels.RemoveLevel` | src/PriceLevel.h:73-91 | the removal's writes make the level describe the queue without the slot, wherever it stood |
| `Levels.TotalFits` | src/PriceLevel.h:42-67 | for any population of a level the total and one more quantity stay below 2^64 |
| `Sides.BookSide.constructor` | src/OrderBook.cpp:93-115 | a new side is empty, with in-range index sentinel and zero bits |
| `Sides.BookSide.AppendOrder` | src/PriceLevel.h:54-68 | the queue gains the slot at its end; links, head, tail, total and count follow; no slot but the new one and the old tail is written |
| `Sides.BookSide.RemoveOrder` | src/PriceLevel.h:73-91 | the queue loses exactly that slot; both neighbours are relinked; no other slot is written |
| `Sides.BookSide.MarkTick` | src/OrderBook.h:986-996 | the index gains exactly the tick |
| `Sides.BookSide.ClearTick` | src/OrderBook.h:843-849 | the index loses exactly the tick |
| `Sides.BookSide.ScanToNext` | src/OrderBook.h:506-542 | after the best level emptied, price, index and flag name the true next best, or are the sentinels |
| `Sides.BookSide.UpdateBestAfterRemove` | src/OrderBook.h:707-798 | the same from the removed price, on either side |
| `Sides.BookSide.AdvanceBest` | src/OrderBook.h:491-545 | the advance in the match loops, adjacent-level shortcut included, ends in the true next best |
| `Sides.AdvancesAgree` | src/OrderBook.h:650-702 | on two copies of a side whose best level just emptied, the inlined advance and clear-then-scan end in the same price, index, flag, words and summary |
| `Sides.BestDetermined` | src/OrderBook.h:322-332 | the occupied ticks determine best price, index and flag |
| `Sides.BookSide.IndexRested` | src/OrderBook.h:985-1019 | bits and best price are right again after an order rested |
| `Sides.BookSide.IndexRemoved` | src/OrderBook.h:842-869 | and after an order left |
| `Engine.OrderBook.constructor` | src/OrderBook.cpp:41-115 | a new book satisfies the full invariant and stands for the empty book |
| `Engine.OrderBook.WalkMakers` | src/OrderBook.h:423-438 | the walk along a level ends, trades every maker whole in queue order and unmaps exactly those |
| `Engine.OrderBook.TakeOnlyMaker` | src/OrderBook.h:408-419 | the one-order path: its trade, its map entry and its slot, nothing else |
| `Engine.OrderBook.TakeMakers` | src/OrderBook.h:408-441 | either path: the queue becomes the front of the free list, in queue order |
| `Engine.OrderBook.ConsumeLevel` | src/OrderBook.h:396-449 | the bulk path empties the best level, keeps pool, map and counters consistent and leaves the rest of both lines as they were |
| `Engine.OrderBook.ConsumeOneByOne` | src/OrderBook.h:396-489 | consuming the same level maker by maker gives the same trades and queues and the reversed free-list prefix |
| `Canonical.PathsAgree` | src/OrderBook.h:396-449 | two books in one state, one sweeping its best level in bulk and one maker by maker: same trades, and the same levels, links of live slots, bits, best prices, map and counters; only the order of the free list differs |
| `Engine.OrderBook.ShrinkFront` | src/OrderBook.h:466-468 | a partial fill lowers the front order and its level's total by the same amount |
| `Engine.OrderBook.PopFront` | src/OrderBook.h:476-486 | a filled front maker leaves queue, map and counters; its successor becomes the head |
| `Engine.OrderBook.TradeFront` | src/OrderBook.h:457-487 | one turn of the partial loop is one step of price-time matching |
| `Engine.OrderBook.FillWithin` | src/OrderBook.h:450-489 | the partial path always ends with the taker at zero and the level non-empty, with the trades price-time matching makes |
| `Engine.OrderBook.BestIsFront` | src/OrderBook.h:393-394 | the best level of an occupied side is the front of its priority line |
| `Engine.OrderBook.SweepLevel` | src/OrderBook.h:396-545 | bulk path and advance: the side is its old line without the best level, and the index is right again |
| `Engine.OrderBook.MatchBest` | src/OrderBook.h:393-546 | one turn of the match loop trades, lowers the taker's quantity and is a prefix of price-time matching |
| `Engine.OrderBook.MatchOrder` | src/OrderBook.h:371-705 | the loop ends, with exactly the trades, opposite line and remainder of price-time matching, and the taker's own side untouched |
| `Engine.OrderBook.BestIsHead` | src/OrderBook.h:322-332 | the flag says whether the line is non-empty, and the best price is the price of its first order |
| `Engine.OrderBook.Enlist` | src/OrderBook.h:969-990 | one slot off the free list, filled, mapped and last in its queue; pool, map and level stay consistent; fails exactly on an empty free list |
| `Engine.OrderBook.Link` | src/OrderBook.h:969-990 | fails exactly when the pool is full, changing nothing; otherwise the order stands at its place in price-time order |
| `Engine.OrderBook.RestOrder` | src/OrderBook.h:968-1022 | the same with bits and best price, at capacity exactly when as many orders rest as there are slots |
| `Engine.OrderBook.Extract` | src/OrderBook.h:840-874 | one slot out of its queue and map and on top of the free list; its neighbours are relinked; pool, map and level stay consistent |
| `Engine.OrderBook.Detach` | src/OrderBook.h:828-874 | the order leaves queue, map, pool and counter, and the line is the old one without it |
| `Engine.OrderBook.CancelOrder` | src/OrderBook.h:810-878 | code and resulting book of the specification, full consistency, and exactly one slot returned to the free list |
| `Engine.OrderBook.MapAgrees` | src/OrderBook.h:914-920 | an id is unmapped exactly when no resting order carries it |
| `Engine.OrderBook.CheckOrder` | src/OrderBook.h:900-947 | the rejection tests on flags and map give the code the abstract book calls for, in the same order of precedence |
| `Engine.OrderBook.Execute` | src/OrderBook.h:951-1025 | an accepted order's code, fill, trades and book are the specification's |
| `Engine.OrderBook.AddOrder` | src/OrderBook.h:880-1026 | every `add_order` call keeps the full invariant and returns the specification's code, fill, trades and book |
| `Engine.OrderBook.PriceLevelCount` | src/OrderBook.h:232-239 | the number of distinct prices among a side's resting orders |
| `Canonical.ConsistentIffOk` | src/OrderBook.h:256-266 | the class invariant and the condition on the bare state are the same |
| `Canonical.SameUpToFreeOrder` | src/OrderBook.h:310-336 | two consistent states with the same queues, orders and free set differ at most in free-list order |
| `Canonical.RepresentationIsCanonical` | src/OrderBook.h:256-266 | two consistent states with the same queues, orders and free list are the same in every field and link |
| `Canonical.CancelUndoesRest` | src/OrderBook.h:810-878 | on the abstract book, cancelling an order that rested untraded restores the book |
| `Canonical.AddThenCancel` | src/OrderBook.h:810-878 | from any valid state, resting without trading and cancelling restores every field, live-slot link and the exact free list |
| `Reference.StdOrderBook.constructor` | tests/StdOrderBook.h:43-48 | a new reference book stands for the empty book |
| `Reference.StdOrderBook.TradeHead` | tests/StdOrderBook.h:95-114 | one trade with the head of a queue: the smaller quantity, and the maker erased from queue and both maps exactly when filled |
| `Reference.StdOrderBook.SweepQueue` | tests/StdOrderBook.h:92-115 | the inner loop is a prefix of price-time matching |
| `Reference.StdOrderBook.SweepLevel` | tests/StdOrderBook.h:88-119 | so is one turn of the outer loop, which leaves no empty queue behind |
| `Reference.StdOrderBook.MatchOrder` | tests/StdOrderBook.h:86-157 | the outer loop computes price-time matching |
| `Reference.PushIsInsert` | tests/StdOrderBook.h:123-125 | pushing at the back of the queue at a price is inserting into the priority line |
| `Reference.EraseIsRemove` | tests/StdOrderBook.h:183-195 | erasing from the queue at a price is removing from the priority line |
| `Reference.IdInSide` | tests/StdOrderBook.h:213-215 | an id is on a side's line exactly when both maps say so |
| `Reference.StdOrderBook.Rest` | tests/StdOrderBook.h:120-127 | resting inserts into the line and keeps maps and count in step |
| `Reference.StdOrderBook.Erase` | tests/StdOrderBook.h:183-198 | erasing removes from the line and keeps maps and count in step |
| `Reference.StdOrderBook.CancelOrder` | tests/StdOrderBook.h:171-200 | the specification's book; its code, with every refusal reported as `CancelFailed` |
| `Reference.StdOrderBook.Execute` | tests/StdOrderBook.h:81-168 | an accepted order's code, fill, trades and book are the specification's, although the fill is never computed on `PoolExhausted` |
| `Reference.StdOrderBook.AddOrder` | tests/StdOrderBook.h:54-169 | every call has the specification's book, fill, trades and code |
| `LevelWalk.GivesOne` | src/OrderBook.cpp:215-258 | the walk of a level, as written, comes to one thing only: an answer, a read outside the map, or no return |
| `LevelWalk.WalkFate` | src/OrderBook.cpp:215-258 | exactly when it comes to which: outside if some slot of the walk, cut off at capacity, has an id beyond the map; no return if all fit and the slot after the cut is live; otherwise the answer that every link, liveness, back-reference, price, side, tail, total and count test holds |
| `LevelWalk.ComesRound` | src/OrderBook.cpp:219-248 | a walk that meets as many live slots as there are, and then another, has met that one before, by pigeonhole |
| `LevelWalk.WalkLevel` | src/OrderBook.cpp:215-258 | the loop in step with the walk as written; its extra way out is taken exactly when the original never returns |
| `Validate.ValidateSide` | src/OrderBook.cpp:206-274 | stops at the first level whose walk gives no answer; otherwise true exactly when every level, bit and summary bit passes, and then counts the walked orders |
| `Validate.ValidateMap` | src/OrderBook.cpp:279-291 | reads outside the pool exactly if some entry is beyond it; otherwise true exactly when every entry names a live slot with that id; counts the entries |
| `Validate.ValidateBest` | src/OrderBook.cpp:294-327 | true exactly when a set flag comes with the true extremum and a cleared one with an in-range index |
| `Validate.ValidateBook` | src/OrderBook.cpp:186-346 | on any contents of the arrays: answers exactly if no walk goes round, every walked id fits the map and every entry is inside the pool; answers true exactly if every test it makes holds |
| `Validate.BookFate` | src/OrderBook.cpp:186-346 | the same of the checker as a run of steps, of which the first without an answer is the last; and its outcome is unique |
| `Validate.ChecksAnswer` | src/OrderBook.cpp:186-346 | a book on which every test holds is one the checker answers on |
| `Passing.ConsistentPasses` | src/OrderBook.cpp:186-346 | every consistent state passes all checks |
| `Passing.ValidateReachable` | src/OrderBook.cpp:186-346 | so the checker answers true on every state the engine can reach |
| `Passing.WalksMeetAll` | src/OrderBook.cpp:277-278 | if all checks pass and the pool's live counter is right, the walks meet every live slot |
| `Passing.ChecksAreSound` | src/OrderBook.cpp:277-291 | hence every map entry's slot is queued at the level of its own price and side, which no single check looks at |
| `Passing.EntriesAreWalked` | src/OrderBook.cpp:277-334 | the map's count alone says as much if entry 0 is unused, whatever the live counter: every entry's slot was walked, at the level of its own price and side |
| `CheckGap.FlagGap` | src/OrderBook.cpp:293-327 | on a book that passes, the documented check of best prices holds on a side exactly if the side is empty or its flag is set; the best index is in range whatever the flag |
| `CheckGap.ExactGap` | src/OrderBook.h:256-266 | a state with a book's dimensions, its queues and free list read off the links, is consistent exactly if it passes and: flags are set on non-empty sides and sentinels on empty ones, tails of empty levels are invalid, quantities positive, padding bits clear, map entry 0 unused, the live counter right and the free list of dead slots only |
| `CheckGap.ConsistentReadsOff` | src/OrderBook.h:256-266 | in a consistent state, the queues and free list are the ones the links give |
| `CheckerFaults.FlagClearPasses` | src/OrderBook.cpp:293-310 | a book with one resting bid and a clear flag passes every check, against the documented check of best prices |
| `CheckerFaults.GoesRoundForEver` | src/OrderBook.cpp:219-248 | on two live slots that lead to each other the checker never returns |
| `CheckerFaults.IdBeyondReadsOutside` | src/OrderBook.cpp:232-234 | on a live slot whose id is beyond the map it reads outside the map |
| `CheckerFaults.EntryBeyondReadsOutside` | src/OrderBook.cpp:284-288 | on a map entry beyond the pool it reads outside the pool |
| `Journal.MaskWraps` | src/Journal.h:95-107 | masking with a power of two minus one is wrapping around the ring, for every position |
| `Journal.WrapTakesLaps` | src/Journal.h:95-107 | wrapping takes off whole laps and nothing else |
| `Journal.BitFloor` | src/Journal.h:98-102 | the largest power of two not above the requested capacity |
| `Journal.RecordKeeps` | src/Journal.h:105-117 | overwriting the wrapped position keeps the ring equal to the last entries of the log |
| `Journal.Journal.constructor` | src/Journal.h:94-103 | for any requested capacity, zero included, an empty ring of the capacity rounded down to a power of two |
| `Journal.Journal.Record` | src/Journal.h:105-117 | the log gains the entry, and the ring still holds its last entries |
| `Journal.Journal.Size` | src/Journal.h:119-120 | the smaller of capacity and total |
| `Journal.Journal.At` | src/Journal.h:126-130 | entry i of the last min(total, capacity) events of the unbounded log |
| `Journal.Journal.Clear` | src/Journal.h:132 | the log starts afresh |

## Left out

- LevelWalk.WalkLevel: the level canary is not modelled, and the walk's counters do not wrap; they could only in a walk that never returns.
- Validate.ValidateBook: the dimensions of the arrays are taken as built, with as many bid levels as ask levels; nothing is said of what happens after a read outside an array.
- Journal.Journal.Record: stated for fewer than 2^64 records since the last clear, where the position counter does not wrap.
- Engine.OrderBook.ConsumeOneByOne: no such loop exists for whole levels in the engine; it is the yardstick the bulk path is compared with, and takes its last maker by the engine's own one-order path.
- Prefetching, branch hints, inlining and alignment: no effect on meaning.
- Operating-system calls that lock or pre-touch memory.
- Constructor aborts and fault handlers, which become preconditions; the partly released state after a skipped chain fault.
- Poison bytes, generation stamps, allocation totals and high-water mark; the content of a freed or fresh slot other than its link.
- Thread-identity and re-entrancy latches, and with them the `ReentrancyBlocked` code.
- Journalling calls inside the engine, timestamps, the text dump and event names.
- Moving and copying a book.
- The accessors for one level's count and quantity, for one id and for the best prices: they return fields the invariant already pins down.
- The reference book's timestamps and order-type field; its list iterators are modelled as a price and a search for the id in that queue.
- Benchmarks, simulations, the example program and the build scripts.
