/** The two-level bitset over price ticks: one bit per tick, one summary bit per 64-tick word.

Both levels are bit arrays, so both are read through the same view: `Describes(words, S)`
says that the set bits of `words` are exactly the members of `S`, which leaves no stray
bit in the padding past the last tick.
*/
module PriceIndex {
  import opened Bits

  /** The bit array `words` holds exactly the positions in `S`. */
  ghost predicate Describes(words: seq<bv64>, S: set<nat>) {
    && (forall i: nat :: i in S ==> i < 64 * |words|)
    && (forall w: nat, k: nat :: w < |words| && k < 64 ==> (Bit(words[w], k) <==> 64 * w + k in S))
  }

  /** The words that hold at least one bit. */
  ghost function NonZeroWords(words: seq<bv64>): set<nat> {
    set w: nat | w < |words| && words[w] != 0
  }

  /** Level-0 bits are the occupied ticks; summary bits are the non-zero words. */
  ghost predicate IndexInv(words: seq<bv64>, summary: seq<bv64>, occupied: set<nat>) {
    && Describes(words, occupied)
    && Describes(summary, NonZeroWords(words))
    && |words| <= 64 * |summary|
  }

  ghost predicate IsLeastFrom(S: set<nat>, lo: nat, r: nat) {
    r in S && lo <= r && forall i: nat :: i in S && lo <= i ==> r <= i
  }

  ghost predicate IsGreatestBelow(S: set<nat>, hi: nat, r: nat) {
    r in S && r < hi && forall i: nat :: i in S && i < hi ==> i <= r
  }

  ghost predicate NoneIn(S: set<nat>, lo: nat, hi: nat) {
    forall i: nat :: i in S ==> !(lo <= i < hi)
  }

  // ----- one word of a bit array

  lemma Split(i: nat)
    ensures i == 64 * (i / 64) + i % 64 && i % 64 < 64
  {}

  /** A word searched upward from position `k`. */
  lemma UpInWord(words: seq<bv64>, S: set<nat>, w: nat, k: nat)
    requires Describes(words, S) && w < |words| && k < 64
    ensures var m := KeepFrom(words[w], k);
            if m == 0 then NoneIn(S, 64 * w + k, 64 * (w + 1)) else IsLeastFrom(S, 64 * w + k, 64 * w + CountrZero(m))
  {
    hide Bit, KeepFrom, CountrZero;
    var m := KeepFrom(words[w], k);
    FromBits(words[w], k);
    ZeroIffNoBits(m);
    forall i: nat | i in S && 64 * w + k <= i < 64 * (w + 1)
      ensures m != 0 && CountrZero(m) <= i - 64 * w
    {
      assert Bit(words[w], i - 64 * w);
      assert Bit(m, i - 64 * w);
    }
  }

  /** A word searched strictly above position `k`. */
  lemma AboveInWord(words: seq<bv64>, S: set<nat>, w: nat, k: nat)
    requires Describes(words, S) && w < |words| && k < 64
    ensures var m := KeepAbove(words[w], k);
            if m == 0 then NoneIn(S, 64 * w + k + 1, 64 * (w + 1))
              else IsLeastFrom(S, 64 * w + k + 1, 64 * w + CountrZero(m))
  {
    hide Bit, KeepAbove, CountrZero;
    var m := KeepAbove(words[w], k);
    AboveBits(words[w], k);
    ZeroIffNoBits(m);
    forall i: nat | i in S && 64 * w + k + 1 <= i < 64 * (w + 1)
      ensures m != 0 && CountrZero(m) <= i - 64 * w
    {
      assert Bit(words[w], i - 64 * w);
      assert Bit(m, i - 64 * w);
    }
  }

  /** A word searched downward from just below position `k`. */
  lemma DownInWord(words: seq<bv64>, S: set<nat>, w: nat, k: nat)
    requires Describes(words, S) && w < |words| && k < 64
    ensures var m := KeepBelow(words[w], k);
            if m == 0 then NoneIn(S, 64 * w, 64 * w + k) else IsGreatestBelow(S, 64 * w + k,
              64 * w + 63 - CountlZero(m))
  {
    hide Bit, KeepBelow, CountlZero;
    var m := KeepBelow(words[w], k);
    BelowBits(words[w], k);
    ZeroIffNoBits(m);
    forall i: nat | i in S && 64 * w <= i < 64 * w + k
      ensures m != 0 && i - 64 * w <= 63 - CountlZero(m)
    {
      assert Bit(words[w], i - 64 * w);
      assert Bit(m, i - 64 * w);
    }
  }

  /** The extreme members of a whole word. */
  lemma WholeWord(words: seq<bv64>, S: set<nat>, w: nat)
    requires Describes(words, S) && w < |words|
    ensures if words[w] == 0 then NoneIn(S, 64 * w, 64 * (w + 1))
            else IsLeastFrom(S, 64 * w, 64 * w + CountrZero(words[w]))
                 && IsGreatestBelow(S, 64 * (w + 1), 64 * w + 63 - CountlZero(words[w]))
  {
    hide Bit, CountrZero, CountlZero;
    ZeroIffNoBits(words[w]);
    forall i: nat | i in S && 64 * w <= i < 64 * (w + 1)
      ensures words[w] != 0 && CountrZero(words[w]) <= i - 64 * w <= 63 - CountlZero(words[w])
    {
      assert Bit(words[w], i - 64 * w);
    }
  }

  // ----- from words to ticks

  lemma WordOfTick(words: seq<bv64>, S: set<nat>, i: nat)
    requires Describes(words, S) && i in S
    ensures i / 64 in NonZeroWords(words)
  {
    WholeWord(words, S, i / 64);
  }

  lemma EmptyWords(words: seq<bv64>, S: set<nat>, a: nat, b: nat)
    requires Describes(words, S) && NoneIn(NonZeroWords(words), a, b)
    ensures NoneIn(S, 64 * a, 64 * b)
  {
    forall i: nat | i in S ensures !(64 * a <= i < 64 * b) {
      WordOfTick(words, S, i);
    }
  }

  lemma LeastViaWord(words: seq<bv64>, S: set<nat>, a: nat, w: nat)
    requires Describes(words, S) && IsLeastFrom(NonZeroWords(words), a, w)
    ensures w < |words| && words[w] != 0 && IsLeastFrom(S, 64 * a, 64 * w + CountrZero(words[w]))
  {
    hide CountrZero, CountlZero;
    WholeWord(words, S, w);
    forall i: nat | i in S && 64 * a <= i ensures 64 * w <= i {
      WordOfTick(words, S, i);
    }
  }

  lemma GreatestViaWord(words: seq<bv64>, S: set<nat>, b: nat, w: nat)
    requires Describes(words, S) && IsGreatestBelow(NonZeroWords(words), b, w)
    ensures w < |words| && words[w] != 0 && IsGreatestBelow(S, 64 * b, 64 * w + 63 - CountlZero(words[w]))
  {
    hide CountrZero, CountlZero;
    WholeWord(words, S, w);
    forall i: nat | i in S && i < 64 * b ensures i < 64 * (w + 1) {
      WordOfTick(words, S, i);
    }
  }

  lemma LeastAfterGap(S: set<nat>, lo: nat, mid: nat, r: nat)
    requires lo <= mid && NoneIn(S, lo, mid) && IsLeastFrom(S, mid, r)
    ensures IsLeastFrom(S, lo, r)
  {}

  lemma GreatestBeforeGap(S: set<nat>, mid: nat, hi: nat, r: nat)
    requires mid <= hi && NoneIn(S, mid, hi) && IsGreatestBelow(S, mid, r)
    ensures IsGreatestBelow(S, hi, r)
  {}

  lemma NoneJoin(S: set<nat>, a: nat, b: nat, c: nat)
    requires NoneIn(S, a, b) && NoneIn(S, b, c)
    ensures NoneIn(S, a, c)
  {}

  lemma NothingAbove(words: seq<bv64>, S: set<nat>, lo: nat, w: nat, summaryWords: nat)
    requires Describes(words, S) && |words| <= 64 * summaryWords
    requires NoneIn(S, lo, 64 * w) && NoneIn(NonZeroWords(words), w, 64 * summaryWords)
    ensures forall i: nat :: i in S ==> i < lo
  {
    EmptyWords(words, S, w, 64 * summaryWords);
  }

  lemma NothingBelow(words: seq<bv64>, S: set<nat>, w: nat, hi: nat)
    requires Describes(words, S)
    requires NoneIn(NonZeroWords(words), 0, w) && NoneIn(S, 64 * w, hi)
    ensures forall i: nat :: i in S ==> hi <= i
  {
    EmptyWords(words, S, 0, w);
  }

  // ----- the scans

  /** Upward scan: the rest of the start word, the rest of its summary word, then whole summary words. */
  method ScanUp(words: seq<bv64>, summary: seq<bv64>, bitIdx: nat, ghost occupied: set<nat>)
    returns (found: bool, idx: nat)
    requires IndexInv(words, summary, occupied) && bitIdx < 64 * |words|
    ensures found ==> IsLeastFrom(occupied, bitIdx, idx)
    ensures !found ==> forall i: nat :: i in occupied ==> i < bitIdx
  {
    hide CountrZero, CountlZero, KeepFrom, KeepAbove, Bit, Describes, NoneIn, IsLeastFrom, IsGreatestBelow,
      NonZeroWords;
    ghost var nonZero := NonZeroWords(words);
    var wordIdx := bitIdx / 64;
    Split(bitIdx);
    Split(wordIdx);
    UpInWord(words, occupied, wordIdx, bitIdx % 64);
    var word := KeepFrom(words[wordIdx], bitIdx % 64);
    if word != 0 {
      return true, wordIdx * 64 + CountrZero(word);
    }
    var summaryIdx := wordIdx / 64;
    AboveInWord(summary, nonZero, summaryIdx, wordIdx % 64);
    var summaryWord := KeepAbove(summary[summaryIdx], wordIdx % 64);
    if summaryWord != 0 {
      var nextWordIdx := summaryIdx * 64 + CountrZero(summaryWord);
      LeastViaWord(words, occupied, wordIdx + 1, nextWordIdx);
      idx := nextWordIdx * 64 + CountrZero(words[nextWordIdx]);
      LeastAfterGap(occupied, bitIdx, 64 * (wordIdx + 1), idx);
      return true, idx;
    }
    var i := summaryIdx + 1;
    assert wordIdx + 1 <= 64 * i;
    while i < |summary|
      invariant summaryIdx < i <= |summary|
      invariant NoneIn(nonZero, wordIdx + 1, 64 * i)
    {
      WholeWord(summary, nonZero, i);
      if summary[i] != 0 {
        var nextWordIdx := i * 64 + CountrZero(summary[i]);
        LeastAfterGap(nonZero, wordIdx + 1, 64 * i, nextWordIdx);
        LeastViaWord(words, occupied, wordIdx + 1, nextWordIdx);
        idx := nextWordIdx * 64 + CountrZero(words[nextWordIdx]);
        LeastAfterGap(occupied, bitIdx, 64 * (wordIdx + 1), idx);
        return true, idx;
      }
      NoneJoin(nonZero, wordIdx + 1, 64 * i, 64 * (i + 1));
      i := i + 1;
    }
    NothingAbove(words, occupied, bitIdx, wordIdx + 1, |summary|);
    return false, 0;
  }

  /** Downward scan, the mirror image: the start word below `bitIdx`, its summary word, then whole summary words. */
  method ScanDown(words: seq<bv64>, summary: seq<bv64>, bitIdx: nat, ghost occupied: set<nat>)
    returns (found: bool, idx: nat)
    requires IndexInv(words, summary, occupied) && bitIdx < 64 * |words|
    ensures found ==> IsGreatestBelow(occupied, bitIdx, idx)
    ensures !found ==> forall i: nat :: i in occupied ==> bitIdx <= i
  {
    hide CountrZero, CountlZero, KeepBelow, Bit, Describes, NoneIn, IsLeastFrom, IsGreatestBelow, NonZeroWords;
    ghost var nonZero := NonZeroWords(words);
    var wordIdx := bitIdx / 64;
    Split(bitIdx);
    Split(wordIdx);
    DownInWord(words, occupied, wordIdx, bitIdx % 64);
    var word := KeepBelow(words[wordIdx], bitIdx % 64);
    if word != 0 {
      return true, wordIdx * 64 + 63 - CountlZero(word);
    }
    var summaryIdx := wordIdx / 64;
    DownInWord(summary, nonZero, summaryIdx, wordIdx % 64);
    var summaryWord := KeepBelow(summary[summaryIdx], wordIdx % 64);
    if summaryWord != 0 {
      var nextWordIdx := summaryIdx * 64 + 63 - CountlZero(summaryWord);
      GreatestViaWord(words, occupied, wordIdx, nextWordIdx);
      idx := nextWordIdx * 64 + 63 - CountlZero(words[nextWordIdx]);
      GreatestBeforeGap(occupied, 64 * wordIdx, bitIdx, idx);
      return true, idx;
    }
    var i := summaryIdx - 1;
    while i >= 0
      invariant -1 <= i < summaryIdx
      invariant NoneIn(nonZero, 64 * (i + 1), wordIdx)
    {
      WholeWord(summary, nonZero, i);
      if summary[i] != 0 {
        var nextWordIdx := i * 64 + 63 - CountlZero(summary[i]);
        GreatestBeforeGap(nonZero, 64 * (i + 1), wordIdx, nextWordIdx);
        GreatestViaWord(words, occupied, wordIdx, nextWordIdx);
        idx := nextWordIdx * 64 + 63 - CountlZero(words[nextWordIdx]);
        GreatestBeforeGap(occupied, 64 * wordIdx, bitIdx, idx);
        return true, idx;
      }
      NoneJoin(nonZero, 64 * i, 64 * (i + 1), wordIdx);
      i := i - 1;
    }
    NothingBelow(words, occupied, wordIdx, bitIdx);
    return false, 0;
  }

  // ----- setting and clearing one tick

  function Mark(words: seq<bv64>, i: nat): (r: seq<bv64>)
    requires i < 64 * |words|
    ensures |r| == |words|
  {
    words[i / 64 := WithBit(words[i / 64], i % 64)]
  }

  function Unmark(words: seq<bv64>, i: nat): (r: seq<bv64>)
    requires i < 64 * |words|
    ensures |r| == |words|
  {
    words[i / 64 := WithoutBit(words[i / 64], i % 64)]
  }

  lemma MarkDescribes(words: seq<bv64>, S: set<nat>, i: nat)
    requires Describes(words, S) && i < 64 * |words|
    ensures Describes(Mark(words, i), S + {i})
  {
    hide Bit, WithBit;
    Split(i);
    SetBit(words[i / 64], i % 64);
  }

  lemma UnmarkDescribes(words: seq<bv64>, S: set<nat>, i: nat)
    requires Describes(words, S) && i < 64 * |words|
    ensures Describes(Unmark(words, i), S - {i})
  {
    hide Bit, WithoutBit;
    Split(i);
    ClearBit(words[i / 64], i % 64);
  }

  /** Setting a tick's bit and its word's summary bit adds exactly that tick to the index. */
  lemma MarkInv(words: seq<bv64>, summary: seq<bv64>, S: set<nat>, i: nat)
    requires IndexInv(words, summary, S) && i < 64 * |words|
    ensures IndexInv(Mark(words, i), Mark(summary, i / 64), S + {i})
  {
    hide Bit, WithBit;
    Split(i);
    MarkDescribes(words, S, i);
    MarkDescribes(summary, NonZeroWords(words), i / 64);
    WordOfTick(Mark(words, i), S + {i}, i);
    assert NonZeroWords(Mark(words, i)) == NonZeroWords(words) + {i / 64};
  }

  /** Clearing a tick's bit, and the summary bit only when the word became zero, removes exactly that tick. */
  lemma UnmarkInv(words: seq<bv64>, summary: seq<bv64>, S: set<nat>, i: nat)
    requires IndexInv(words, summary, S) && i < 64 * |words|
    ensures var words' := Unmark(words, i);
            IndexInv(words', if words'[i / 64] == 0 then Unmark(summary, i / 64) else summary, S - {i})
  {
    hide Bit, WithoutBit;
    Split(i);
    var words' := Unmark(words, i);
    UnmarkDescribes(words, S, i);
    if words'[i / 64] == 0 {
      UnmarkDescribes(summary, NonZeroWords(words), i / 64);
      assert NonZeroWords(words') == NonZeroWords(words) - {i / 64};
    } else {
      WholeWord(words', S - {i}, i / 64);
      WordOfTick(words, S, 64 * (i / 64) + CountrZero(words'[i / 64]));
      assert NonZeroWords(words') == NonZeroWords(words);
    }
  }

  /** The set of occupied ticks determines every word and every summary word. */
  lemma IndexDetermined(words: seq<bv64>, summary: seq<bv64>, words': seq<bv64>, summary': seq<bv64>, S: set<nat>)
    requires IndexInv(words, summary, S) && IndexInv(words', summary', S)
    requires |words| == |words'| && |summary| == |summary'|
    ensures words == words' && summary == summary'
  {
    BitsDetermined(words, words', S);
    BitsDetermined(summary, summary', NonZeroWords(words));
  }

  lemma BitsDetermined(a: seq<bv64>, b: seq<bv64>, S: set<nat>)
    requires Describes(a, S) && Describes(b, S) && |a| == |b|
    ensures a == b
  {
    hide Bit;
    forall w: nat | w < |a| ensures a[w] == b[w] {
      SameBits(a[w], b[w]);
    }
  }

  // ----- counting

  /** Set bits of `w` at positions `k` and up; `std::popcount` from position 0. */
  function PopFrom(w: bv64, k: nat): nat
    requires k <= 64
    decreases 64 - k
  {
    if k == 64 then 0 else (if Bit(w, k) then 1 else 0) + PopFrom(w, k + 1)
  }

  ghost function Part(S: set<nat>, hi: nat): set<nat> {
    set i | i in S && i < hi
  }

  lemma PartStep(S: set<nat>, hi: nat)
    ensures |Part(S, hi + 1)| == |Part(S, hi)| + if hi in S then 1 else 0
  {
    if hi in S {
      assert Part(S, hi + 1) == Part(S, hi) + {hi};
    } else {
      assert Part(S, hi + 1) == Part(S, hi);
    }
  }

  lemma {:induction false} PopCounts(words: seq<bv64>, S: set<nat>, w: nat, k: nat)
    requires Describes(words, S) && w < |words| && k <= 64
    ensures |Part(S, 64 * w + 64)| == |Part(S, 64 * w + k)| + PopFrom(words[w], k)
    decreases 64 - k
  {
    hide Bit, Part;
    if k < 64 {
      PartStep(S, 64 * w + k);
      assert Bit(words[w], k) <==> 64 * w + k in S;
      PopCounts(words, S, w, k + 1);
    }
  }

  /** `price_level_count`: the popcounts of the words add up to the number of occupied ticks. */
  method CountOccupied(words: seq<bv64>, ghost S: set<nat>) returns (count: nat)
    requires Describes(words, S)
    ensures count == |S|
  {
    hide Bit, PopFrom;
    count := 0;
    assert Part(S, 0) == {};
    var w := 0;
    while w < |words|
      invariant w <= |words| && count == |Part(S, 64 * w)|
    {
      PopCounts(words, S, w, 0);
      count := count + PopFrom(words[w], 0);
      w := w + 1;
    }
    assert Part(S, 64 * |words|) == S;
  }
}
