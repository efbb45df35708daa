/** Bitmaps stored in 64-bit words, as sets of bit positions: the word-at-a-time range writers,
    the bit-at-a-time ones they must agree with, and the search for the next set bit. */
module Bitmap {
  import opened BitWord
  import opened Ints

  type Words = seq<bv64>

  function Size(words: Words): nat { 64 * |words| }

  /** Position p is bit p % 64 of word p / 64. */
  predicate BitAt(words: Words, p: nat)
    requires p < Size(words)
  {
    Bit(words[p / 64], p % 64)
  }

  lemma WordsExtensionality(a: Words, b: Words)
    requires |a| == |b|
    requires forall p | 0 <= p < Size(a) :: BitAt(a, p) <==> BitAt(b, p)
    ensures a == b
  {
    hide Bit;
    forall i | 0 <= i < |a|
      ensures a[i] == b[i]
    {
      forall k | 0 <= k < 64
        ensures Bit(a[i], k) <==> Bit(b[i], k)
      {
        assert BitAt(a, 64 * i + k) <==> BitAt(b, 64 * i + k);
      }
      WordExtensionality(a[i], b[i]);
    }
  }

  // ---------- Writing bits ----------

  /** The word with the masked bits set, or cleared. */
  function Masked(w: bv64, mask: bv64, value: bool): bv64 {
    if value then w | mask else w & !mask
  }

  lemma MaskedBit(w: bv64, mask: bv64, value: bool, k: nat)
    requires k < 64
    ensures Bit(Masked(w, mask, value), k) <==> if Bit(mask, k) then value else Bit(w, k)
  {
    hide Bit;
    if value {
      BitOr(w, mask, k);
    } else {
      BitAndNot(w, mask, k);
    }
  }

  function MaskWord(words: Words, i: nat, mask: bv64, value: bool): (after: Words)
    requires i < |words|
    ensures |after| == |words|
  {
    words[i := Masked(words[i], mask, value)]
  }

  function PutBit(words: Words, p: nat, value: bool): (after: Words)
    requires p < Size(words)
    ensures |after| == |words|
  {
    MaskWord(words, p / 64, One(p % 64), value)
  }

  /** Bit by bit from start, len times; nothing for a negative len. */
  function PutRange(words: Words, start: nat, len: int, value: bool): (after: Words)
    requires len > 0 ==> start + len <= Size(words)
    ensures |after| == |words|
    decreases len
  {
    if len <= 0 then words else PutRange(PutBit(words, start, value), start + 1, len - 1, value)
  }

  /** after is before with exactly the positions in [lo, hi) written. */
  ghost predicate Written(before: Words, after: Words, lo: int, hi: int, value: bool) {
    |after| == |before| &&
    forall p | 0 <= p < Size(before) :: BitAt(after, p) <==> if lo <= p < hi then value else BitAt(before, p)
  }

  lemma UpdateBit(words: Words, i: nat, w: bv64, p: nat)
    requires i < |words| && p < Size(words)
    ensures BitAt(words[i := w], p) <==> if p / 64 == i then Bit(w, p % 64) else BitAt(words, p)
  {
    hide Bit;
  }

  lemma MaskWordBit(words: Words, i: nat, mask: bv64, value: bool, p: nat)
    requires i < |words| && p < Size(words)
    ensures BitAt(MaskWord(words, i, mask, value), p) <==>
            if p / 64 == i && Bit(mask, p % 64) then value else BitAt(words, p)
  {
    hide Bit, Masked;
    MaskedBit(words[i], mask, value, p % 64);
  }

  /** The mask covers the stretch [cur, hi) of cur's word. */
  ghost predicate Covers(mask: bv64, cur: nat, hi: nat) {
    forall k | 0 <= k < 64 :: Bit(mask, k) <==> cur <= 64 * (cur / 64) + k < hi
  }

  lemma StretchBit(mask: bv64, cur: nat, hi: nat, p: nat)
    requires Covers(mask, cur, hi) && hi <= 64 * (cur / 64 + 1)
    ensures p / 64 == cur / 64 && Bit(mask, p % 64) <==> cur <= p < hi
  {
    assert p == 64 * (p / 64) + p % 64;
  }

  /** Writing the next stretch of bits, all in one word. */
  lemma WriteStretch(before: Words, mid: Words, mask: bv64, lo: nat, cur: nat, hi: nat, value: bool)
    requires Written(before, mid, lo, cur, value)
    requires lo <= cur <= hi && cur < Size(mid) && hi <= 64 * (cur / 64 + 1)
    requires Covers(mask, cur, hi)
    ensures Written(before, MaskWord(mid, cur / 64, mask, value), lo, hi, value)
  {
    var after := MaskWord(mid, cur / 64, mask, value);
    hide BitAt, Bit, MaskWord;
    forall p | 0 <= p < Size(before)
      ensures BitAt(after, p) <==> if lo <= p < hi then value else BitAt(before, p)
    {
      MaskWordBit(mid, cur / 64, mask, value, p);
      StretchBit(mask, cur, hi, p);
    }
  }

  lemma WrittenThen(before: Words, mid: Words, after: Words, lo: int, cur: int, hi: int, value: bool)
    requires lo <= cur <= hi && Written(before, mid, lo, cur, value) && Written(mid, after, cur, hi, value)
    ensures Written(before, after, lo, hi, value)
  {
  }

  lemma PutBitWritten(words: Words, p: nat, value: bool)
    requires p < Size(words)
    ensures Written(words, PutBit(words, p, value), p, p + 1, value)
  {
    forall k | 0 <= k < 64
      ensures Bit(One(p % 64), k) <==> p <= 64 * (p / 64) + k < p + 1
    {
      BitOne(p % 64, k);
    }
    WriteStretch(words, words, One(p % 64), p, p, p + 1, value);
  }

  /** The bit-at-a-time writer changes the range and nothing outside it. */
  lemma {:induction false} PutRangeWritten(words: Words, start: nat, len: nat, value: bool)
    requires start + len <= Size(words)
    ensures Written(words, PutRange(words, start, len, value), start, start + len, value)
    decreases len
  {
    hide PutBit, BitAt;
    if len == 0 {
      WrittenNothing(words, start, value);
    } else {
      var mid := PutBit(words, start, value);
      PutBitWritten(words, start, value);
      PutRangeWritten(mid, start + 1, len - 1, value);
      PutBitThen(words, start, mid, PutRange(mid, start + 1, len - 1, value), start + len, value);
    }
  }

  lemma PutBitThen(words: Words, start: nat, mid: Words, after: Words, hi: nat, value: bool)
    requires start < hi <= Size(words)
    requires Written(words, mid, start, start + 1, value) && Written(mid, after, start + 1, hi, value)
    ensures Written(words, after, start, hi, value)
  {
    WrittenThen(words, mid, after, start, start + 1, hi, value);
  }

  lemma WrittenNothing(words: Words, start: nat, value: bool)
    ensures Written(words, words, start, start, value)
  {
  }

  lemma WrittenUnique(before: Words, a: Words, b: Words, lo: int, hi: int, value: bool)
    requires Written(before, a, lo, hi, value) && Written(before, b, lo, hi, value)
    ensures a == b
  {
    WordsExtensionality(a, b);
  }

  lemma WrittenIsPutRange(before: Words, after: Words, start: nat, len: nat, value: bool)
    requires start + len <= Size(before) && Written(before, after, start, start + len, value)
    ensures after == PutRange(before, start, len, value)
  {
    PutRangeWritten(before, start, len, value);
    WrittenUnique(before, after, PutRange(before, start, len, value), start, start + len, value);
  }

  // ---------- The bit-at-a-time writer ----------

  /** The positions a writer may touch are in the map; the bit-at-a-time writer's 32-bit position
      starts over at 0 when it passes 2^32. */
  predicate InMap(words: Words, start: U32, len: int) {
    len > 0 ==> if start + len <= UINT then start + len <= Size(words) else UINT <= Size(words)
  }

  /** Bit by bit, with the position kept in 32 bits. */
  function PutRangeByBits(words: Words, start: U32, len: int, value: bool): (after: Words)
    requires len < UINT && InMap(words, start, len)
    ensures |after| == |words|
    decreases len
  {
    if len <= 0 then words else PutRangeByBits(PutBit(words, start, value), (start + 1) % UINT, len - 1, value)
  }

  /** A range that ends within 2^32 is written as such. */
  lemma {:induction false} ByBitsInRange(words: Words, start: U32, len: int, value: bool)
    requires start + len <= UINT && len < UINT && InMap(words, start, len)
    ensures PutRangeByBits(words, start, len, value) == PutRange(words, start, len, value)
    decreases len
  {
    hide PutBit;
    if len == 1 {
    } else if len > 1 {
      ByBitsInRange(PutBit(words, start, value), start + 1, len - 1, value);
    }
  }

  /** A range that passes 2^32 is written in two parts, the second from bit 0. */
  lemma {:induction false} ByBitsWrapped(words: Words, start: U32, len: int, value: bool)
    requires UINT < start + len && len < UINT && UINT <= Size(words)
    ensures PutRangeByBits(words, start, len, value) ==
            PutRange(PutRange(words, start, UINT - start, value), 0, start + len - UINT, value)
    decreases len
  {
    hide PutBit;
    var next := PutBit(words, start, value);
    if start + 1 == UINT {
      assert PutRange(words, start, 1, value) == next;
      ByBitsInRange(next, 0, len - 1, value);
    } else {
      ByBitsWrapped(next, start + 1, len - 1, value);
    }
  }

  lemma ByBitsStep(words: Words, start: U32, len: int, value: bool)
    requires 0 < len < UINT && InMap(words, start, len)
    ensures InMap(words, (start + 1) % UINT, len - 1)
    ensures PutRangeByBits(words, start, len, value) ==
            PutRangeByBits(PutBit(words, start, value), (start + 1) % UINT, len - 1, value)
  {
  }

  /** One masked store. */
  method WriteWord(words: array<bv64>, p: nat, mask: bv64, value: bool)
    requires p < words.Length
    modifies words
    ensures words[..] == MaskWord(old(words[..]), p, mask, value)
  {
    if value {
      words[p] := words[p] | mask;
    } else {
      words[p] := words[p] & !mask;
    }
  }

  method WriteBit(words: array<bv64>, p: nat, value: bool)
    requires p < 64 * words.Length
    modifies words
    ensures words[..] == PutBit(old(words[..]), p, value)
  {
    WriteWord(words, p / 64, One(p % 64), value);
  }

  /** The bit-at-a-time loop, on a 32-bit position and length; the length is decremented once more
      than there are bits, so it may not be the least int. */
  method PutRangeByBit(words: array<bv64>, start0: U32, len0: I32, value: bool)
    requires len0 > -INT_LIMIT && InMap(words[..], start0, len0)
    modifies words
    ensures words[..] == PutRangeByBits(old(words[..]), start0, len0, value)
  {
    hide PutBit;
    ghost var goal := PutRangeByBits(words[..], start0, len0, value);
    var start: U32, len: I32 := start0, len0;
    while len > 0
      invariant InMap(words[..], start, len)
      invariant PutRangeByBits(words[..], start, len, value) == goal
    {
      ByBitsStep(words[..], start, len, value);
      len := len - 1;
      WriteBit(words, start, value);
      start := (start + 1) % UINT;
    }
  }

  // ---------- The word-at-a-time writer ----------

  /** The unsigned end of a range. */
  function End(start: U32, len: I32): U32 { (start + len) % UINT }

  /** The mask the word-at-a-time writer uses in the word where a range ends. */
  function EndMask(start: nat, size: int): bv64 {
    FirstWordMask(start) & LastWordMask(size)
  }

  predicate UnderEndMask(start: int, size: int, k: int) {
    start % 64 <= k && (size % 64 == 0 || k < size % 64)
  }

  /** The bits the two edge masks leave together. */
  lemma EndMaskBit(start: nat, size: int, k: nat)
    requires k < 64
    ensures Bit(EndMask(start, size), k) <==> UnderEndMask(start, size, k)
  {
    hide Bit, FirstWordMask, LastWordMask;
    BitFirst(start, k);
    BitLast(size, k);
    BitAnd(FirstWordMask(start), LastWordMask(size), k);
  }

  /** The last-word mask sees an end only modulo the word length, so wrapping it is harmless. */
  lemma EndMaskWraps(start: nat, first: U32, len: I32, hi: int)
    requires hi == first + len
    ensures EndMask(start, End(first, len)) == EndMask(start, hi)
  {
    hide FirstWordMask, BelowMask;
    assert End(first, len) % 64 == hi % 64;
  }

  /** What a negative length does to the word at start. */
  function PutNegative(words: Words, start: U32, len: I32, value: bool): (after: Words)
    requires len < 0 && start < Size(words)
    ensures |after| == |words|
  {
    MaskWord(words, start / 64, EndMask(start, End(start, len)), value)
  }

  /** It writes, in the word of start, from start's bit up to the bit of the end before it. */
  lemma PutNegativeBit(words: Words, start: U32, len: I32, value: bool, p: nat)
    requires len < 0 && start < Size(words) && p < Size(words)
    ensures BitAt(PutNegative(words, start, len, value), p) <==>
            if p / 64 == start / 64 && start % 64 <= p % 64 && ((start + len) % 64 == 0 || p % 64 < (start + len) % 64)
            then value else BitAt(words, p)
  {
    hide Bit, BitAt, EndMask, MaskWord;
    EndMaskBit(start, End(start, len), p % 64);
    assert End(start, len) % 64 == (start + len) % 64;
    MaskWordBit(words, start / 64, EndMask(start, End(start, len)), value, p);
  }

  /** Whole words are full stretches. */
  lemma FullStretch(cur: nat)
    ensures Covers(FirstWordMask(cur), cur, 64 * (cur / 64 + 1))
  {
    hide Bit, FirstWordMask;
    forall k | 0 <= k < 64
      ensures Bit(FirstWordMask(cur), k) <==> cur <= 64 * (cur / 64) + k < 64 * (cur / 64 + 1)
    {
      BitFirst(cur, k);
    }
  }

  lemma EndStretch(cur: nat, hi: nat)
    requires cur < hi < 64 * (cur / 64 + 1)
    ensures Covers(EndMask(cur, hi), cur, hi)
  {
    hide Bit, EndMask;
    assert hi % 64 == hi - 64 * (cur / 64);
    forall k | 0 <= k < 64
      ensures Bit(EndMask(cur, hi), k) <==> cur <= 64 * (cur / 64) + k < hi
    {
      EndMaskBit(cur, hi, k);
    }
  }

  lemma WholeStretch(before: Words, mid: Words, start: nat, cur: nat, value: bool)
    requires Written(before, mid, start, cur, value) && start <= cur && 64 * (cur / 64 + 1) <= Size(mid)
    ensures Written(before, MaskWord(mid, cur / 64, FirstWordMask(cur), value), start, 64 * (cur / 64 + 1), value)
  {
    FullStretch(cur);
    WriteStretch(before, mid, FirstWordMask(cur), start, cur, 64 * (cur / 64 + 1), value);
  }

  lemma FinalStretch(before: Words, mid: Words, start: nat, cur: nat, hi: nat, value: bool)
    requires Written(before, mid, start, cur, value) && start <= cur < hi < 64 * (cur / 64 + 1) && hi <= Size(mid)
    ensures Written(before, MaskWord(mid, cur / 64, EndMask(cur, hi), value), start, hi, value)
  {
    EndStretch(cur, hi);
    WriteStretch(before, mid, EndMask(cur, hi), start, cur, hi, value);
  }

  /** What the word-at-a-time writer needs: a range inside the map, or for a negative length a start
      inside it and a first subtraction that stays an int. */
  predicate WriterFits(words: Words, start: U32, len: I32) {
    if len >= 0 then start + len <= Size(words)
    else start < Size(words) && -INT_LIMIT <= len - (64 - start % 64)
  }

  /** The loop of the word-at-a-time writer: whole words while they fit. */
  method PutWholeWords(words: array<bv64>, start: U32, len0: I32, value: bool)
    returns (p: nat, len: I32, mask: bv64, ghost cur: nat)
    requires WriterFits(words[..], start, len0)
    modifies words
    ensures len0 < 0 ==> len == len0 && words[..] == old(words[..]) && cur == start
    ensures len0 >= 0 ==> len >= 0 && Written(old(words[..]), words[..], start, cur, value)
    ensures start <= cur && cur + len == start + len0 && cur + len < 64 * (cur / 64 + 1)
    ensures p == cur / 64 && mask == FirstWordMask(cur)
  {
    hide FirstWordMask, MaskWord, BitAt;
    ghost var before := words[..];
    cur := start;
    len := len0;
    p := start / 64;
    var bits: I32 := 64 - start % 64;
    mask := FirstWordMask(start);
    WrittenNothing(before, start, value);
    while len - bits >= 0
      invariant len0 < 0 ==> len == len0 && words[..] == before && cur == start
      invariant len0 >= 0 ==> len >= 0 && Written(before, words[..], start, cur, value)
      invariant start <= cur && cur + len == start + len0
      invariant p == cur / 64 && bits == 64 - cur % 64 && mask == FirstWordMask(cur)
      decreases len
    {
      WholeStretch(before, words[..], start, cur, value);
      WriteWord(words, p, mask, value);
      len := len - bits;
      cur := 64 * (cur / 64 + 1);
      bits := 64;
      mask := ONES;
      AlignedMask(cur);
      p := p + 1;
    }
  }

  /** The word-at-a-time writer: whole words, then the masked end. */
  method PutRangeByWord(words: array<bv64>, start: U32, len0: I32, value: bool)
    requires WriterFits(words[..], start, len0)
    modifies words
    ensures len0 >= 0 ==> words[..] == PutRange(old(words[..]), start, len0, value)
    ensures len0 < 0 ==> words[..] == PutNegative(old(words[..]), start, len0, value)
  {
    hide FirstWordMask, MaskWord, EndMask, Written, PutRange;
    ghost var before := words[..];
    var size := End(start, len0);
    var p, len, mask, cur := PutWholeWords(words, start, len0, value);
    if len != 0 {
      ghost var mid := words[..];
      PutEnd(words, p, mask, size, value, cur);
      EndMaskWraps(cur, start, len0, start + len0);
      if len0 >= 0 {
        FinalStretch(before, mid, start, cur, start + len0, value);
      }
    }
    if len0 >= 0 {
      WrittenIsPutRange(before, words[..], start, len0, value);
    }
  }

  /** The masked end of a range. */
  method PutEnd(words: array<bv64>, p: nat, mask0: bv64, size: int, value: bool, ghost cur: nat)
    requires p < words.Length && p == cur / 64 && mask0 == FirstWordMask(cur)
    modifies words
    ensures words[..] == MaskWord(old(words[..]), cur / 64, EndMask(cur, size), value)
  {
    hide FirstWordMask, LastWordMask, Masked;
    var mask := mask0 & LastWordMask(size);
    WriteWord(words, p, mask, value);
  }

  lemma AlignedMask(cur: nat)
    requires cur % 64 == 0
    ensures FirstWordMask(cur) == ONES
  {
  }

  // ---------- When the two writers agree ----------

  ghost predicate AllAre(words: Words, lo: nat, hi: nat, value: bool)
    requires hi <= Size(words)
  {
    forall p | lo <= p < hi :: BitAt(words, p) == value
  }

  /** For every length that is not negative the writers leave the same map exactly when the range
      ends within 2^32, or the stretches that only one of them writes have the value already. */
  lemma WritersAgree(words: Words, start: U32, len: I32, value: bool)
    requires len >= 0 && start + len <= Size(words)
    ensures PutRange(words, start, len, value) == PutRangeByBits(words, start, len, value) <==>
            start + len <= UINT ||
            (AllAre(words, 0, start + len - UINT, value) && AllAre(words, UINT, start + len, value))
  {
    if start + len <= UINT {
      ByBitsInRange(words, start, len, value);
    } else {
      WrappedAgree(words, start, len, value);
    }
  }

  lemma WrappedAgree(words: Words, start: U32, len: I32, value: bool)
    requires UINT < start + len <= Size(words)
    ensures PutRange(words, start, len, value) == PutRangeByBits(words, start, len, value) <==>
            AllAre(words, 0, start + len - UINT, value) && AllAre(words, UINT, start + len, value)
  {
    hide BitAt, PutRange, PutRangeByBits;
    var over := start + len - UINT;
    var whole := PutRange(words, start, len, value);
    var first := PutRange(words, start, UINT - start, value);
    var both := PutRange(first, 0, over, value);
    ByBitsWrapped(words, start, len, value);
    PutRangeWritten(words, start, len, value);
    PutRangeWritten(words, start, UINT - start, value);
    PutRangeWritten(first, 0, over, value);
    if AllAre(words, 0, over, value) && AllAre(words, UINT, start + len, value) {
      WordsExtensionality(whole, both);
    }
  }

  /** Setting two bits from the last 32-bit position of an empty map: one writer sets bit 0, the
      other bit 2^32. */
  lemma WrapDiffers(words: Words)
    requires Size(words) > UINT && !BitAt(words, 0)
    ensures PutRange(words, UINT - 1, 2, true) != PutRangeByBits(words, UINT - 1, 2, true)
  {
    hide PutRange, PutRangeByBits, BitAt;
    WrappedAgree(words, UINT - 1, 2, true);
  }

  /** The two writers agree on a negative length exactly when the bits under the end mask
      already have the value written. */
  lemma NegativeAgrees(words: Words, start: U32, len: I32, value: bool)
    requires len < 0 && WriterFits(words, start, len)
    ensures PutNegative(words, start, len, value) == PutRangeByBits(words, start, len, value) <==>
            forall k | 0 <= k < 64 && UnderEndMask(start, End(start, len), k) :: Bit(words[start / 64], k) == value
  {
    hide Bit, EndMask, MaskWord;
    var mask := EndMask(start, End(start, len));
    forall k | 0 <= k < 64
      ensures Bit(mask, k) <==> UnderEndMask(start, End(start, len), k)
    {
      EndMaskBit(start, End(start, len), k);
    }
    MaskWordSame(words, start / 64, mask, value);
  }

  lemma MaskWordSame(words: Words, i: nat, mask: bv64, value: bool)
    requires i < |words|
    ensures MaskWord(words, i, mask, value) == words <==>
            forall k | 0 <= k < 64 && Bit(mask, k) :: Bit(words[i], k) == value
  {
    hide Bit, Masked;
    MaskedSame(words[i], mask, value);
    assert MaskWord(words, i, mask, value)[i] == Masked(words[i], mask, value);
  }

  lemma MaskedSame(w: bv64, mask: bv64, value: bool)
    ensures Masked(w, mask, value) == w <==> forall k | 0 <= k < 64 && Bit(mask, k) :: Bit(w, k) == value
  {
    hide Bit, Masked;
    var after := Masked(w, mask, value);
    forall k | 0 <= k < 64
      ensures Bit(after, k) <==> if Bit(mask, k) then value else Bit(w, k)
    {
      MaskedBit(w, mask, value, k);
    }
    if forall k | 0 <= k < 64 && Bit(mask, k) :: Bit(w, k) == value {
      WordExtensionality(after, w);
    }
  }

  /** They need not agree: length -1 at bit 0 of an empty word sets 63 bits. */
  lemma NegativeDiffers()
    ensures PutNegative([0], 0, -1, true) != PutRangeByBits([0], 0, -1, true)
  {
    hide Bit, PutNegative;
    NegativeAgrees([0], 0, -1, true);
    BitZero(0);
    assert !Bit([0][0], 0);
  }

  // ---------- The next set bit ----------

  method ProbeAt(addr: array<bv64>, p: nat) returns (hit: bool)
    requires p < 64 * addr.Length
    ensures hit <==> BitAt(addr[..], p)
  {
    hide Bit, One, Meets;
    BitProbe(addr[p / 64], p % 64);
    hit := Meets(addr[p / 64], One(p % 64));
  }

  method FindNextBit(addr: array<bv64>, nbits: nat, start0: nat) returns (r: nat)
    requires nbits <= 64 * addr.Length
    ensures start0 >= nbits ==> r == nbits
    ensures start0 < nbits ==> start0 <= r <= nbits
    ensures forall p | start0 <= p < r && p < nbits :: !BitAt(addr[..], p)
    ensures r < nbits ==> BitAt(addr[..], r)
  {
    hide BitAt;
    var start := start0;
    while start < nbits
      invariant start0 <= start && (start <= nbits || start == start0)
      invariant forall p | start0 <= p < start && p < nbits :: !BitAt(addr[..], p)
    {
      var hit := ProbeAt(addr, start);
      if hit {
        return start;
      }
      start := start + 1;
    }
    r := nbits;
  }
}
