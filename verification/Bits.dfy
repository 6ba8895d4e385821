/** Bit-level facts about the 64-bit words of the two-level price index.

Positions inside a word are natural numbers below 64. The machine operations
take them as a `bv6`, which holds exactly those values. Facts about masks are
settled on bit-vectors alone (the lemmas ending in `Bv`) and then read back on
natural-number positions.
*/
module Bits {

  const WORD_BITS: nat := 64

  /** Position `k` as a shift amount. */
  function Pos(k: nat): bv6
    requires k < WORD_BITS
  {
    k as bv6
  }

  /** `(w >> p) & 1ULL` */
  predicate Sel(w: bv64, p: bv6) {
    (w >> p) & 1 == 1
  }

  /** `1ULL << p` */
  function OneAt(p: bv6): bv64 {
    1 << p
  }

  /** `(1ULL << p) - 1` */
  function BelowAt(p: bv6): bv64 {
    (1 << p) - 1
  }

  /** `~((((1ULL << p) - 1) << 1) | 1)`, which never shifts by 64. */
  function AboveAt(p: bv6): bv64 {
    !((((1 << p) - 1) << 1) | 1)
  }

  /** Bit `k` of `w`. */
  predicate Bit(w: bv64, k: nat)
    requires k < WORD_BITS
  {
    Sel(w, Pos(k))
  }

  /** `1ULL << k` */
  function One(k: nat): bv64
    requires k < WORD_BITS
  {
    OneAt(Pos(k))
  }

  /** `~(1ULL << k)`: every position but `k`. */
  function ExceptMask(k: nat): bv64
    requires k < WORD_BITS
  {
    !OneAt(Pos(k))
  }

  /** `(1ULL << k) - 1`: the positions below `k`. */
  function BelowMask(k: nat): bv64
    requires k < WORD_BITS
  {
    BelowAt(Pos(k))
  }

  /** `~((1ULL << k) - 1)`: position `k` and everything above it. */
  function FromMask(k: nat): bv64
    requires k < WORD_BITS
  {
    !BelowAt(Pos(k))
  }

  /** `~((((1ULL << k) - 1) << 1) | 1)`: the positions strictly above `k`, with nothing left when `k` is 63. */
  function AboveMask(k: nat): bv64
    requires k < WORD_BITS
  {
    AboveAt(Pos(k))
  }

  /** `w | (1ULL << k)` */
  function WithBit(w: bv64, k: nat): bv64
    requires k < WORD_BITS
  {
    w | One(k)
  }

  /** `w & ~(1ULL << k)` */
  function WithoutBit(w: bv64, k: nat): bv64
    requires k < WORD_BITS
  {
    w & ExceptMask(k)
  }

  /** `w & m` */
  function Keep(w: bv64, m: bv64): bv64 {
    w & m
  }

  function KeepBelow(w: bv64, k: nat): bv64
    requires k < WORD_BITS
  {
    Keep(w, BelowMask(k))
  }

  function KeepFrom(w: bv64, k: nat): bv64
    requires k < WORD_BITS
  {
    Keep(w, FromMask(k))
  }

  function KeepAbove(w: bv64, k: nat): bv64
    requires k < WORD_BITS
  {
    Keep(w, AboveMask(k))
  }

  // ----- positions as bit-vectors

  lemma PosInverse(k: nat)
    requires k < WORD_BITS
    ensures Pos(k) as nat == k
  {}

  lemma PosOrder(j: nat, k: nat)
    requires j < WORD_BITS && k < WORD_BITS
    ensures j == k <==> Pos(j) == Pos(k)
    ensures j < k <==> Pos(j) < Pos(k)
  {
    PosInverse(j);
    PosInverse(k);
    hide Pos;
  }

  lemma PosStep(k: nat)
    requires k < WORD_BITS - 1
    ensures Pos(k) < 63 && Pos(k + 1) == Pos(k) + 1
  {
    PosInverse(k);
    PosInverse(k + 1);
  }

  lemma PosEnds()
    ensures Pos(0) == 0 && Pos(63) == 63
  {}

  // ----- facts about words, decided on bit-vectors

  lemma AndTrueBv(a: bv64, b: bv64, p: bv6)
    requires Sel(a, p)
    ensures Sel(a & b, p) <==> Sel(b, p)
  {}

  lemma AndFalseBv(a: bv64, b: bv64, p: bv6)
    requires !Sel(a, p)
    ensures !Sel(a & b, p)
  {}

  lemma OrBv(a: bv64, b: bv64, p: bv6)
    ensures Sel(a | b, p) <==> Sel(a, p) || Sel(b, p)
  {}

  lemma OneBv(k: bv6, j: bv6)
    ensures Sel(OneAt(k), j) <==> j == k
  {}

  lemma NotOneBv(k: bv6, j: bv6)
    ensures Sel(!OneAt(k), j) <==> j != k
  {}

  lemma BelowBv(k: bv6, j: bv6)
    ensures Sel(BelowAt(k), j) <==> j < k
  {}

  lemma FromBv(k: bv6, j: bv6)
    ensures Sel(!BelowAt(k), j) <==> k <= j
  {}

  lemma AboveBv(k: bv6, j: bv6)
    ensures Sel(AboveAt(k), j) <==> k < j
  {}

  lemma LowClearBv(w: bv64, p: bv6)
    requires w != 0 && Keep(w, BelowAt(p)) == 0 && !Sel(w, p)
    ensures p < 63 && Keep(w, BelowAt(p + 1)) == 0
  {}

  lemma HighClearBv(w: bv64, p: bv6)
    requires w != 0 && Keep(w, AboveAt(p)) == 0 && !Sel(w, p)
    ensures p > 0 && Keep(w, AboveAt(p - 1)) == 0
  {}

  lemma EndMasksBv()
    ensures BelowAt(0) == 0 && AboveAt(63) == 0
  {}

  lemma ZeroBv(p: bv6)
    ensures !Sel(0, p)
  {}

  // ----- the same facts on positions

  lemma OneAtPos(k: nat, j: nat)
    requires k < WORD_BITS && j < WORD_BITS
    ensures Bit(One(k), j) <==> j == k
  {
    hide Pos, Sel, OneAt;
    PosOrder(j, k);
    OneBv(Pos(k), Pos(j));
  }

  lemma OrAt(w: bv64, m: bv64, j: nat)
    requires j < WORD_BITS
    ensures Bit(w | m, j) <==> Bit(w, j) || Bit(m, j)
  {
    hide Pos, Sel;
    OrBv(w, m, Pos(j));
  }

  lemma AndAt(w: bv64, m: bv64, j: nat)
    requires j < WORD_BITS
    ensures Bit(w & m, j) <==> Bit(w, j) && Bit(m, j)
  {
    hide Pos, Sel;
    if Sel(w, Pos(j)) {
      AndTrueBv(w, m, Pos(j));
    } else {
      AndFalseBv(w, m, Pos(j));
    }
  }

  lemma MaskAt(k: nat, j: nat)
    requires k < WORD_BITS && j < WORD_BITS
    ensures Bit(ExceptMask(k), j) <==> j != k
    ensures Bit(BelowMask(k), j) <==> j < k
    ensures Bit(FromMask(k), j) <==> k <= j
    ensures Bit(AboveMask(k), j) <==> k < j
  {
    hide Pos, Sel, OneAt, BelowAt, AboveAt;
    PosOrder(j, k);
    PosOrder(k, j);
    NotOneBv(Pos(k), Pos(j));
    BelowBv(Pos(k), Pos(j));
    FromBv(Pos(k), Pos(j));
    AboveBv(Pos(k), Pos(j));
  }

  lemma SetBitAt(w: bv64, k: nat, j: nat)
    requires k < WORD_BITS && j < WORD_BITS
    ensures Bit(WithBit(w, k), j) <==> Bit(w, j) || j == k
  {
    hide Bit, One, ExceptMask, BelowMask, FromMask, AboveMask;
    OrAt(w, One(k), j);
    OneAtPos(k, j);
  }

  lemma SetBit(w: bv64, k: nat)
    requires k < WORD_BITS
    ensures forall j: nat :: j < WORD_BITS ==> (Bit(WithBit(w, k), j) <==> Bit(w, j) || j == k)
  {
    hide *;
    forall j: nat | j < WORD_BITS ensures Bit(WithBit(w, k), j) <==> Bit(w, j) || j == k {
      SetBitAt(w, k, j);
    }
  }

  lemma ClearBitAt(w: bv64, k: nat, j: nat)
    requires k < WORD_BITS && j < WORD_BITS
    ensures Bit(WithoutBit(w, k), j) <==> Bit(w, j) && j != k
  {
    hide Bit, One, ExceptMask, BelowMask, FromMask, AboveMask;
    AndAt(w, ExceptMask(k), j);
    MaskAt(k, j);
  }

  lemma ClearBit(w: bv64, k: nat)
    requires k < WORD_BITS
    ensures forall j: nat :: j < WORD_BITS ==> (Bit(WithoutBit(w, k), j) <==> Bit(w, j) && j != k)
  {
    hide *;
    forall j: nat | j < WORD_BITS ensures Bit(WithoutBit(w, k), j) <==> Bit(w, j) && j != k {
      ClearBitAt(w, k, j);
    }
  }

  // Masking keeps exactly the set positions below, from or above `k`; `k == 63` is no exception.

  lemma BelowBitsAt(w: bv64, k: nat, j: nat)
    requires k < WORD_BITS && j < WORD_BITS
    ensures Bit(KeepBelow(w, k), j) <==> Bit(w, j) && j < k
  {
    hide Bit, One, ExceptMask, BelowMask, FromMask, AboveMask;
    AndAt(w, BelowMask(k), j);
    MaskAt(k, j);
  }

  lemma BelowBits(w: bv64, k: nat)
    requires k < WORD_BITS
    ensures forall j: nat :: j < WORD_BITS ==> (Bit(KeepBelow(w, k), j) <==> Bit(w, j) && j < k)
  {
    hide *;
    forall j: nat | j < WORD_BITS ensures Bit(KeepBelow(w, k), j) <==> Bit(w, j) && j < k {
      BelowBitsAt(w, k, j);
    }
  }

  lemma FromBitsAt(w: bv64, k: nat, j: nat)
    requires k < WORD_BITS && j < WORD_BITS
    ensures Bit(KeepFrom(w, k), j) <==> Bit(w, j) && k <= j
  {
    hide Bit, One, ExceptMask, BelowMask, FromMask, AboveMask;
    AndAt(w, FromMask(k), j);
    MaskAt(k, j);
  }

  lemma FromBits(w: bv64, k: nat)
    requires k < WORD_BITS
    ensures forall j: nat :: j < WORD_BITS ==> (Bit(KeepFrom(w, k), j) <==> Bit(w, j) && k <= j)
  {
    hide *;
    forall j: nat | j < WORD_BITS ensures Bit(KeepFrom(w, k), j) <==> Bit(w, j) && k <= j {
      FromBitsAt(w, k, j);
    }
  }

  lemma AboveBitsAt(w: bv64, k: nat, j: nat)
    requires k < WORD_BITS && j < WORD_BITS
    ensures Bit(KeepAbove(w, k), j) <==> Bit(w, j) && k < j
  {
    hide Bit, One, ExceptMask, BelowMask, FromMask, AboveMask;
    AndAt(w, AboveMask(k), j);
    MaskAt(k, j);
  }

  lemma AboveBits(w: bv64, k: nat)
    requires k < WORD_BITS
    ensures forall j: nat :: j < WORD_BITS ==> (Bit(KeepAbove(w, k), j) <==> Bit(w, j) && k < j)
  {
    hide *;
    forall j: nat | j < WORD_BITS ensures Bit(KeepAbove(w, k), j) <==> Bit(w, j) && k < j {
      AboveBitsAt(w, k, j);
    }
  }

  /** The neighbours of a position. */
  lemma PosNext(k: nat)
    requires k < WORD_BITS
    ensures (k == 63 <==> Pos(k) == 63) && (k < 63 ==> Pos(k + 1) == Pos(k) + 1)
    ensures (k == 0 <==> Pos(k) == 0) && (k > 0 ==> Pos(k - 1) == Pos(k) - 1)
  {
    hide Pos;
    PosEnds();
    PosOrder(k, 63);
    PosOrder(k, 0);
    if k < 63 {
      PosStep(k);
    }
    if k > 0 {
      PosStep(k - 1);
    }
  }

  lemma LowestStep(w: bv64, k: nat)
    requires k < WORD_BITS && w != 0 && KeepBelow(w, k) == 0 && !Bit(w, k)
    ensures k < 63 && KeepBelow(w, k + 1) == 0
  {
    hide Pos, Sel, BelowAt, Keep;
    LowClearBv(w, Pos(k));
    PosNext(k);
  }

  /** The lowest set position at or above `k`, given that everything below `k` is clear. */
  function LowestFrom(w: bv64, k: nat): (r: nat)
    requires k < WORD_BITS && w != 0 && KeepBelow(w, k) == 0
    ensures k <= r < WORD_BITS && Bit(w, r)
    ensures forall j: nat :: k <= j < r ==> !Bit(w, j)
    decreases WORD_BITS - k
  {
    hide Bit, KeepBelow;
    if Bit(w, k) then k
    else
      LowestStep(w, k);
      LowestFrom(w, k + 1)
  }

  /** `std::countr_zero` of a non-zero word: the index of its lowest set bit. */
  function CountrZero(w: bv64): (r: nat)
    requires w != 0
    ensures r < WORD_BITS && Bit(w, r)
    ensures forall j: nat :: j < r ==> !Bit(w, j)
  {
    PosEnds();
    EndMasksBv();
    LowestFrom(w, 0)
  }

  lemma HighestStep(w: bv64, k: nat)
    requires k < WORD_BITS && w != 0 && KeepAbove(w, k) == 0 && !Bit(w, k)
    ensures k > 0 && KeepAbove(w, k - 1) == 0
  {
    hide Pos, Sel, AboveAt, Keep;
    HighClearBv(w, Pos(k));
    PosNext(k);
  }

  /** The highest set position at or below `k`, given that everything above `k` is clear. */
  function HighestFrom(w: bv64, k: nat): (r: nat)
    requires k < WORD_BITS && w != 0 && KeepAbove(w, k) == 0
    ensures r <= k && Bit(w, r)
    ensures forall j: nat :: r < j <= k ==> !Bit(w, j)
    decreases k
  {
    hide Bit, KeepAbove;
    if Bit(w, k) then k
    else
      HighestStep(w, k);
      HighestFrom(w, k - 1)
  }

  /** `std::countl_zero` of a non-zero word: the number of clear bits above its highest set bit. */
  function CountlZero(w: bv64): (r: nat)
    requires w != 0
    ensures r < WORD_BITS && Bit(w, WORD_BITS - 1 - r)
    ensures forall j: nat :: WORD_BITS - 1 - r < j < WORD_BITS ==> !Bit(w, j)
  {
    PosEnds();
    EndMasksBv();
    WORD_BITS - 1 - HighestFrom(w, WORD_BITS - 1)
  }

  /** A word is zero exactly when none of its 64 bits is set. */
  lemma ZeroIffNoBits(w: bv64)
    ensures w == 0 <==> forall j: nat :: j < WORD_BITS ==> !Bit(w, j)
  {
    if w == 0 {
      forall j: nat | j < WORD_BITS ensures !Bit(w, j) {
        hide Pos, Sel;
        ZeroBv(Pos(j));
      }
    } else {
      hide *;
      assert Bit(w, CountrZero(w));
    }
  }

  lemma SelXorBv(a: bv64, b: bv64, p: bv6)
    ensures Sel(a ^ b, p) <==> (Sel(a, p) != Sel(b, p))
  {}

  lemma XorZeroBv(a: bv64, b: bv64)
    ensures a ^ b == 0 <==> a == b
  {}

  /** Words with the same 64 bits are equal. */
  lemma SameBits(a: bv64, b: bv64)
    requires forall j: nat :: j < WORD_BITS ==> (Bit(a, j) <==> Bit(b, j))
    ensures a == b
  {
    hide Pos, Sel;
    var x := a ^ b;
    forall j: nat | j < WORD_BITS ensures !Bit(x, j) {
      assert Bit(a, j) <==> Bit(b, j);
      SelXorBv(a, b, Pos(j));
    }
    ZeroIffNoBits(x);
    XorZeroBv(a, b);
  }
}
