/** How many bits of a bitmap are set: the shim's weight family, which writes its results in
    place, and the two stub versions of the plain weight. */
module BitmapWeight {
  import opened BitWord
  import opened Bitmap
  import opened Ints

  /** The set bits of a word below bit n. */
  function PopBelow(w: bv64, n: nat): nat
    requires n <= 64
  {
    if n == 0 then 0 else PopBelow(w, n - 1) + if Bit(w, n - 1) then 1 else 0
  }

  /** The population count of a word. */
  function Hweight(w: bv64): nat { PopBelow(w, 64) }

  /** The set positions below n. */
  function Count(words: Words, n: nat): (c: nat)
    requires n <= Size(words)
    ensures c <= n
  {
    if n == 0 then 0 else Count(words, n - 1) + if BitAt(words, n - 1) then 1 else 0
  }

  ghost function Positions(words: Words, n: nat): set<nat>
    requires n <= Size(words)
  {
    set p: nat | p < n && BitAt(words, p)
  }

  /** The count is the size of the set of set positions. */
  lemma {:induction false} CountIsCardinality(words: Words, n: nat)
    requires n <= Size(words)
    ensures Count(words, n) == |Positions(words, n)|
  {
    hide BitAt;
    if n > 0 {
      CountIsCardinality(words, n - 1);
      var rest := Positions(words, n - 1);
      if BitAt(words, n - 1) {
        assert Positions(words, n) == rest + {n - 1};
      } else {
        assert Positions(words, n) == rest;
      }
    } else {
      assert Positions(words, 0) == {};
    }
  }

  // ---------- Counting word by word ----------

  lemma BitInWord(words: Words, i: nat, k: nat)
    requires i < |words| && k < 64
    ensures BitAt(words, 64 * i + k) <==> Bit(words[i], k)
  {
    hide Bit;
  }

  lemma {:induction false} CountInWord(words: Words, i: nat, m: nat)
    requires i < |words| && m <= 64
    ensures Count(words, 64 * i + m) == Count(words, 64 * i) + PopBelow(words[i], m)
    decreases m
  {
    hide BitAt, Bit;
    if m > 0 {
      CountInWord(words, i, m - 1);
      BitInWord(words, i, m - 1);
    }
  }

  lemma CountWord(words: Words, i: nat)
    requires i < |words|
    ensures Count(words, 64 * (i + 1)) == Count(words, 64 * i) + Hweight(words[i])
  {
    hide PopBelow, BitAt;
    CountInWord(words, i, 64);
  }

  /** The last word of a map with the bits past its end cleared. */
  function Trimmed(w: bv64, bits: int): bv64 { w & LastWordMask(bits) }

  lemma TrimmedBit(w: bv64, bits: int, k: nat)
    requires k < 64
    ensures Bit(Trimmed(w, bits), k) <==> Bit(w, k) && (bits % 64 == 0 || k < bits % 64)
  {
    hide Bit, LastWordMask;
    BitAnd(w, LastWordMask(bits), k);
    BitLast(bits, k);
  }

  lemma {:induction false} PopTrimmed(w: bv64, bits: int, n: nat)
    requires n <= 64 && bits % 64 != 0
    ensures PopBelow(Trimmed(w, bits), n) == PopBelow(w, if n < bits % 64 then n else bits % 64)
    decreases n
  {
    hide Bit, Trimmed;
    if n > 0 {
      TrimmedBit(w, bits, n - 1);
      PopTrimmed(w, bits, n - 1);
    }
  }

  lemma CountLastWord(words: Words, bits: nat)
    requires bits <= Size(words) && bits % 64 != 0
    ensures Count(words, bits) == Count(words, 64 * (bits / 64)) + Hweight(Trimmed(words[bits / 64], bits))
  {
    hide BitAt, Trimmed, PopBelow;
    PopTrimmed(words[bits / 64], bits, 64);
    CountInWord(words, bits / 64, bits % 64);
  }

  // ---------- Word by word combination of two bitmaps ----------

  datatype Op = Intersection | Difference | Union | SymmetricDifference

  function Combine(op: Op, x: bool, y: bool): bool {
    match op
    case Intersection => x && y
    case Difference => x && !y
    case Union => x || y
    case SymmetricDifference => x != y
  }

  function WordOp(op: Op, x: bv64, y: bv64): bv64 {
    match op
    case Intersection => x & y
    case Difference => x & !y
    case Union => x | y
    case SymmetricDifference => x ^ y
  }

  lemma WordAnd(x: bv64, y: bv64, k: nat)
    requires k < 64
    ensures Bit(WordOp(Intersection, x, y), k) <==> Bit(x, k) && Bit(y, k)
  {
    hide Bit;
    BitAnd(x, y, k);
  }

  lemma WordAndNot(x: bv64, y: bv64, k: nat)
    requires k < 64
    ensures Bit(WordOp(Difference, x, y), k) <==> Bit(x, k) && !Bit(y, k)
  {
    hide Bit;
    BitAndNot(x, y, k);
  }

  lemma WordOr(x: bv64, y: bv64, k: nat)
    requires k < 64
    ensures Bit(WordOp(Union, x, y), k) <==> Bit(x, k) || Bit(y, k)
  {
    hide Bit;
    BitOr(x, y, k);
  }

  lemma WordXor(x: bv64, y: bv64, k: nat)
    requires k < 64
    ensures Bit(WordOp(SymmetricDifference, x, y), k) <==> Bit(x, k) != Bit(y, k)
  {
    hide Bit;
    BitXor(x, y, k);
  }

  lemma WordOpBit(op: Op, x: bv64, y: bv64, k: nat)
    requires k < 64
    ensures Bit(WordOp(op, x, y), k) <==> Combine(op, Bit(x, k), Bit(y, k))
  {
    hide Bit, WordOp;
    match op
    case Intersection => WordAnd(x, y, k);
    case Difference => WordAndNot(x, y, k);
    case Union => WordOr(x, y, k);
    case SymmetricDifference => WordXor(x, y, k);
  }

  /** The words a bitmap of this many bits occupies. */
  function Longs(bits: nat): nat { (bits + 63) / 64 }

  function Zip(op: Op, a: Words, b: Words, n: nat): (c: Words)
    requires n <= |a| && n <= |b|
    ensures |c| == n
  {
    seq(n, i requires 0 <= i < n => WordOp(op, a[i], b[i]))
  }

  lemma ZipWord(op: Op, a: Words, b: Words, n: nat, k: nat)
    requires k < n <= |a| && n <= |b|
    ensures Zip(op, a, b, n)[k] == WordOp(op, a[k], b[k])
  {
    hide WordOp;
  }

  lemma ZipBit(op: Op, a: Words, b: Words, n: nat, p: nat)
    requires n <= |a| && n <= |b| && p < 64 * n
    ensures BitAt(Zip(op, a, b, n), p) <==> Combine(op, BitAt(a, p), BitAt(b, p))
  {
    hide Bit, WordOp, Combine;
    WordOpBit(op, a[p / 64], b[p / 64], p % 64);
  }

  /** The set positions below `bits` of the combination of two bitmaps. */
  function CountOp(op: Op, a: Words, b: Words, bits: nat): nat
    requires bits <= Size(a) && bits <= Size(b)
  {
    Count(Zip(op, a, b, Longs(bits)), bits)
  }

  // ---------- Counting identities ----------

  lemma {:induction false} CountCombined(a: Words, b: Words, n: nat, k: nat)
    requires n <= |a| && n <= |b| && k <= 64 * n
    ensures var both := Count(Zip(Intersection, a, b, n), k);
            both + Count(Zip(Difference, a, b, n), k) == Count(a, k) &&
            both + Count(Zip(Union, a, b, n), k) == Count(a, k) + Count(b, k) &&
            2 * both + Count(Zip(SymmetricDifference, a, b, n), k) == Count(a, k) + Count(b, k)
    decreases k
  {
    hide BitAt, Zip;
    if k > 0 {
      CountCombined(a, b, n, k - 1);
      ZipBit(Intersection, a, b, n, k - 1);
      ZipBit(Difference, a, b, n, k - 1);
      ZipBit(Union, a, b, n, k - 1);
      ZipBit(SymmetricDifference, a, b, n, k - 1);
    }
  }

  /** The weight family obeys inclusion and exclusion, for all bitmaps and lengths. */
  lemma WeightIdentities(a: Words, b: Words, bits: nat)
    requires bits <= Size(a) && bits <= Size(b)
    ensures CountOp(Intersection, a, b, bits) + CountOp(Difference, a, b, bits) == Count(a, bits)
    ensures CountOp(Union, a, b, bits) + CountOp(Intersection, a, b, bits) == Count(a, bits) + Count(b, bits)
    ensures CountOp(SymmetricDifference, a, b, bits) + 2 * CountOp(Intersection, a, b, bits) ==
            Count(a, bits) + Count(b, bits)
  {
    CountCombined(a, b, Longs(bits), bits);
  }

  // ---------- The loops ----------

  method Weight(bitmap: array<bv64>, bits: U32) returns (w: U32)
    requires bits <= 64 * bitmap.Length
    ensures w == Count(bitmap[..], bits)
  {
    hide BitAt, Hweight, Trimmed;
    var k, lim := 0, bits / 64;
    w := 0;
    while k < lim
      invariant 0 <= k <= lim
      invariant w == Count(bitmap[..], 64 * k)
    {
      CountWord(bitmap[..], k);
      w := w + Hweight(bitmap[k]);
      k := k + 1;
    }
    if bits % 64 != 0 {
      CountLastWord(bitmap[..], bits);
      w := w + Hweight(Trimmed(bitmap[k], bits));
    }
  }

  /** The and / and-not weights: nothing is stored. */
  method WeightOf(op: Op, a: array<bv64>, b: array<bv64>, bits: U32) returns (w: U32)
    requires bits <= 64 * a.Length && bits <= 64 * b.Length
    ensures w == CountOp(op, a[..], b[..], bits)
  {
    hide BitAt, Hweight, Trimmed, Zip, WordOp;
    ghost var c := Zip(op, a[..], b[..], Longs(bits));
    var k, lim := 0, bits / 64;
    w := 0;
    while k < lim
      invariant 0 <= k <= lim
      invariant w == Count(c, 64 * k)
    {
      ZipWord(op, a[..], b[..], Longs(bits), k);
      CountWord(c, k);
      w := w + Hweight(WordOp(op, a[k], b[k]));
      k := k + 1;
    }
    if bits % 64 != 0 {
      ZipWord(op, a[..], b[..], Longs(bits), k);
      CountLastWord(c, bits);
      w := w + Hweight(Trimmed(WordOp(op, a[k], b[k]), bits));
    }
  }

  /** The first k words of dst hold the combination of the inputs before the call; the words from k
      on, of dst and of the inputs, are as they were. */
  ghost predicate Stored(op: Op, dst: array<bv64>, a: array<bv64>, b: array<bv64>, d0: Words, a0: Words, b0: Words, k: nat)
    reads dst, a, b
  {
    |d0| == dst.Length && |a0| == a.Length && |b0| == b.Length && k <= |d0| && k <= |a0| && k <= |b0| &&
    (forall j | 0 <= j < k :: dst[j] == WordOp(op, a0[j], b0[j])) &&
    (forall j | k <= j < dst.Length :: dst[j] == d0[j]) &&
    (forall j | k <= j < a.Length :: a[j] == a0[j]) &&
    (forall j | k <= j < b.Length :: b[j] == b0[j])
  }

  method StoreWord(op: Op, dst: array<bv64>, a: array<bv64>, b: array<bv64>, k: nat,
                   ghost d0: Words, ghost a0: Words, ghost b0: Words)
    requires k < dst.Length && k < a.Length && k < b.Length && Stored(op, dst, a, b, d0, a0, b0, k)
    modifies dst
    ensures Stored(op, dst, a, b, d0, a0, b0, k + 1)
    ensures dst[k] == WordOp(op, a0[k], b0[k])
  {
    hide WordOp;
    dst[k] := WordOp(op, a[k], b[k]);
  }

  lemma StoredZip(op: Op, dst: array<bv64>, a: array<bv64>, b: array<bv64>, d0: Words, a0: Words, b0: Words, k: nat)
    requires Stored(op, dst, a, b, d0, a0, b0, k)
    ensures dst[..k] == Zip(op, a0, b0, k) && dst[k..] == d0[k..]
  {
    hide WordOp;
  }

  /** The or / xor weights: the combination is stored, unmasked, in dst, which may be either of
      the inputs. */
  method WeightedStore(op: Op, dst: array<bv64>, a: array<bv64>, b: array<bv64>, bits: U32) returns (w: U32)
    requires bits <= 64 * dst.Length && bits <= 64 * a.Length && bits <= 64 * b.Length
    modifies dst
    ensures w == CountOp(op, old(a[..]), old(b[..]), bits)
    ensures dst[..Longs(bits)] == Zip(op, old(a[..]), old(b[..]), Longs(bits))
    ensures dst[Longs(bits)..] == old(dst[Longs(bits)..])
  {
    hide BitAt, Hweight, Trimmed, Zip, WordOp, Stored;
    ghost var d0, a0, b0 := dst[..], a[..], b[..];
    ghost var c := Zip(op, a0, b0, Longs(bits));
    var k, lim := 0, bits / 64;
    w := 0;
    StoredNone(op, dst, a, b);
    while k < lim
      invariant 0 <= k <= lim
      invariant w == Count(c, 64 * k)
      invariant Stored(op, dst, a, b, d0, a0, b0, k)
    {
      StoreWord(op, dst, a, b, k, d0, a0, b0);
      ZipWord(op, a0, b0, Longs(bits), k);
      CountWord(c, k);
      w := w + Hweight(dst[k]);
      k := k + 1;
    }
    if bits % 64 != 0 {
      StoreWord(op, dst, a, b, k, d0, a0, b0);
      ZipWord(op, a0, b0, Longs(bits), k);
      CountLastWord(c, bits);
      w := w + Hweight(Trimmed(dst[k], bits));
      k := k + 1;
    }
    StoredZip(op, dst, a, b, d0, a0, b0, k);
  }

  lemma StoredNone(op: Op, dst: array<bv64>, a: array<bv64>, b: array<bv64>)
    ensures Stored(op, dst, a, b, dst[..], a[..], b[..], 0)
  {
  }

  // ---------- The stubs ----------

  /** The stub's last-word mask: all ones shifted right by 64 - bits % 64. */
  function StubMask(m: Index): bv64
    requires m != 0
  {
    ONES >> (64 - m)
  }

  lemma StubMaskSame(m: Index)
    requires m != 0
    ensures StubMask(m) == BelowMask(m)
  {
    assert 64 - m == (0 - m) & 63;
  }

  lemma IndexNotZero(m: nat)
    requires 0 < m < 64
    ensures At(m) != 0
  {
    IndexCompare(m, 0);
  }

  function TrimmedByStub(w: bv64, m: Index): bv64
    requires m != 0
  {
    w & StubMask(m)
  }

  lemma StubTrims(w: bv64, bits: nat)
    requires At(bits % 64) != 0
    ensures TrimmedByStub(w, At(bits % 64)) == Trimmed(w, bits)
  {
    hide StubMask, BelowMask;
    StubMaskSame(At(bits % 64));
  }

  /** The masked stub counts the same positions as the shim. */
  method WeightMaskedStub(bitmap: array<bv64>, bits: U32) returns (w: U32)
    requires bits <= 64 * bitmap.Length
    ensures w == Count(bitmap[..], bits)
  {
    hide BitAt, Hweight, Trimmed, TrimmedByStub;
    var idx := 0;
    w := 0;
    while idx < bits / 64
      invariant 0 <= idx <= bits / 64
      invariant w == Count(bitmap[..], 64 * idx)
    {
      CountWord(bitmap[..], idx);
      w := w + Hweight(bitmap[idx]);
      idx := idx + 1;
    }
    if bits % 64 != 0 {
      CountLastWord(bitmap[..], bits);
      IndexNotZero(bits % 64);
      StubTrims(bitmap[idx], bits);
      w := w + Hweight(TrimmedByStub(bitmap[idx], At(bits % 64)));
    }
  }

  /** The words the unmasked stub reads: its rounding up wraps at 2^32. */
  function StubLongs(nbits: U32): nat { (nbits + 63) % UINT / 64 }

  lemma StubLongsRead(nbits: U32)
    ensures nbits <= UINT - 64 ==> StubLongs(nbits) == Longs(nbits) && nbits <= 64 * Longs(nbits) <= UINT - 64
    ensures nbits > UINT - 64 ==> StubLongs(nbits) == 0
  {
  }

  /** The unmasked stub counts whole words, past the end of the map, or none at all. */
  method WeightUnmaskedStub(src: array<bv64>, nbits: U32) returns (w: U32)
    requires nbits <= 64 * src.Length
    ensures 64 * StubLongs(nbits) <= 64 * src.Length
    ensures w == Count(src[..], 64 * StubLongs(nbits))
  {
    hide BitAt, Hweight;
    StubLongsRead(nbits);
    var len := (nbits + 63) % UINT / 64;
    var i := 0;
    w := 0;
    while i < len
      invariant 0 <= i <= len
      invariant w == Count(src[..], 64 * i)
    {
      CountWord(src[..], i);
      w := w + Hweight(src[i]);
      i := i + 1;
    }
  }

  lemma {:induction false} CountGrows(words: Words, n: nat, m: nat)
    requires n <= m <= Size(words)
    ensures Count(words, m) >= Count(words, n)
    ensures Count(words, m) == Count(words, n) <==> TailClear(words, n, m)
    ensures Positions(words, n) <= Positions(words, m)
    decreases m - n
  {
    hide BitAt;
    if n < m {
      CountGrows(words, n, m - 1);
      if BitAt(words, m - 1) {
        assert Count(words, m) > Count(words, n) && !TailClear(words, n, m);
      } else {
        assert Count(words, m) == Count(words, m - 1);
        assert TailClear(words, n, m) <==> TailClear(words, n, m - 1);
      }
    }
  }

  ghost predicate TailClear(words: Words, n: nat, m: nat)
    requires m <= Size(words)
  {
    forall p | n <= p < m :: !BitAt(words, p)
  }

  /** While its rounding up does not wrap, the unmasked stub exceeds the shim by the set positions
      past nbits in the last word. */
  lemma UnmaskedExcess(words: Words, nbits: U32)
    requires nbits <= Size(words) && nbits <= UINT - 64
    ensures var whole := 64 * StubLongs(nbits);
            nbits <= whole <= Size(words) &&
            Count(words, whole) == Count(words, nbits) + |Positions(words, whole) - Positions(words, nbits)|
  {
    hide BitAt, StubLongs;
    StubLongsRead(nbits);
    var whole := 64 * Longs(nbits);
    CountGrows(words, nbits, whole);
    CountIsCardinality(words, nbits);
    CountIsCardinality(words, whole);
    var small, large := Positions(words, nbits), Positions(words, whole);
    assert large == small + (large - small);
  }

  /** The unmasked stub agrees with the shim exactly when the tail of the last word is clear, or,
      for a length whose rounding up wraps, when the whole map is. */
  lemma UnmaskedAgrees(words: Words, nbits: U32)
    requires nbits <= Size(words)
    ensures 64 * StubLongs(nbits) <= Size(words)
    ensures Count(words, 64 * StubLongs(nbits)) == Count(words, nbits) <==>
            if nbits <= UINT - 64 then TailClear(words, nbits, 64 * Longs(nbits)) else TailClear(words, 0, nbits)
  {
    hide BitAt, StubLongs;
    StubLongsRead(nbits);
    if nbits <= UINT - 64 {
      CountGrows(words, nbits, 64 * Longs(nbits));
    } else {
      CountGrows(words, 0, nbits);
    }
  }

  /** The longest length there is: the stub reads nothing, however many positions are set. */
  lemma UnmaskedWraps(words: Words)
    requires UINT - 1 <= Size(words) && BitAt(words, 0)
    ensures Count(words, 64 * StubLongs(UINT - 1)) == 0 < Count(words, UINT - 1)
  {
    hide BitAt, StubLongs;
    StubLongsRead(UINT - 1);
    CountGrows(words, 0, UINT - 1);
  }
}
