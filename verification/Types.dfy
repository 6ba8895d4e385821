/** The value types of the engine: machine-width integers, sides, order kinds, result codes and fills. */
module Types {

  // Machine integers are ranges of `int`: every value stored in one is proved to fit,
  // so nothing the engine stores can have wrapped.
  type u32 = x: int | 0 <= x <= 0xFFFF_FFFF
  type u64 = x: int | 0 <= x <= 0xFFFF_FFFF_FFFF_FFFF

  /** "No such index", in the order map, the price levels and the free list. */
  const INVALID_INDEX: u32 := 0xFFFF_FFFF
  const MARKET_BUY_PRICE: u32 := 0xFFFF_FFFF
  const MARKET_SELL_PRICE: u32 := 0
  /** The largest pool: `INVALID_INDEX` must not name a slot. */
  const MAX_POOL_CAPACITY: nat := 0xFFFF_FFFE
  const MAX_ORDER_IDS: nat := 0xFFFF_FFFE
  const MAX_PRICE_RANGE_TICKS: nat := 0x400_0000

  datatype Side = Buy | Sell {
    function Opposite(): Side {
      if Buy? then Sell else Buy
    }
  }

  datatype OrderType = Limit | Market | Cancel

  datatype RejectReason =
    | Accepted
    | InvalidQuantity
    | DuplicateOrderId
    | OutOfBoundsOrderId
    | OutOfBoundsPrice
    | CancelFailed
    | PoolExhausted
    | MarketOnEmptyBook

  /** One fill, at the maker's price. */
  datatype Trade = Trade(makerId: u32, takerId: u32, price: u32, quantity: u32)

  /** The limits a book is built with. */
  datatype Config = Config(maxOrderId: nat, capacity: nat, minPrice: u32, maxPrice: u32) {
    /** What the constructor demands; anything else aborts. */
    ghost predicate Valid() {
      && minPrice <= maxPrice < 0xFFFF_FFFF
      && maxOrderId <= MAX_ORDER_IDS
      && capacity <= MAX_POOL_CAPACITY
      && Ticks() <= MAX_PRICE_RANGE_TICKS
    }

    /** Number of price ticks. */
    function Ticks(): nat {
      if minPrice <= maxPrice then maxPrice - minPrice + 1 else 0
    }
  }

  /** What a call reports: the code, the filled quantity and the fills in order. */
  datatype Reply = Reply(code: RejectReason, filled: u32, trades: seq<Trade>)

  /** One call on a book. */
  datatype Op =
    | Add(id: u32, kind: OrderType, price: u32, quantity: u32, side: Side)
    | CancelOrder(cancelId: u32)
}
