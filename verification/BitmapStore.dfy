/** Set tests on two bitmaps, and the masked in-place intersection and difference, against the
    weights of the same combinations. */
module BitmapStore {
  import opened BitWord
  import opened Bitmap
  import opened BitmapWeight
  import opened Ints

  // ---------- A word is zero when it has no bits ----------

  lemma {:induction false} PopZero(w: bv64, n: nat)
    requires n <= 64
    ensures PopBelow(w, n) == 0 <==> forall k | 0 <= k < n :: !Bit(w, k)
    decreases n
  {
    hide Bit;
    if n > 0 {
      PopZero(w, n - 1);
    }
  }

  lemma HweightZero(w: bv64)
    ensures Hweight(w) == 0 <==> w == 0
  {
    hide Bit;
    PopZero(w, 64);
    if Hweight(w) == 0 {
      forall k | 0 <= k < 64
        ensures Bit(w, k) <==> Bit(0, k)
      {
        BitZero(k);
      }
      WordExtensionality(w, 0);
    } else {
      var k :| 0 <= k < 64 && Bit(w, k);
      BitZero(k);
    }
  }

  /** A prefix has no more set positions than the whole. */
  lemma CountPrefix(words: Words, n: nat, m: nat)
    requires n <= m <= Size(words)
    ensures Count(words, n) <= Count(words, m)
  {
    CountGrows(words, n, m);
  }

  /** The common shape of the intersection, subset and equality tests: look for a set bit of the
      combination, whole words first, then the masked last word. */
  method AnySet(op: Op, a: array<bv64>, b: array<bv64>, bits: U32) returns (any: bool)
    requires bits <= 64 * a.Length && bits <= 64 * b.Length
    ensures any <==> CountOp(op, a[..], b[..], bits) > 0
  {
    hide BitAt, Hweight, Trimmed, WordOp;
    ghost var c := Zip(op, a[..], b[..], Longs(bits));
    var k, lim := 0, bits / 64;
    while k < lim
      invariant 0 <= k <= lim
      invariant Count(c, 64 * k) == 0
    {
      CountWord(c, k);
      HweightZero(c[k]);
      if WordOp(op, a[k], b[k]) != 0 {
        CountPrefix(c, 64 * (k + 1), bits);
        return true;
      }
      k := k + 1;
    }
    if bits % 64 != 0 {
      CountLastWord(c, bits);
      HweightZero(Trimmed(c[k], bits));
      return Trimmed(WordOp(op, a[k], b[k]), bits) != 0;
    }
    return false;
  }

  method Intersects(a: array<bv64>, b: array<bv64>, bits: U32) returns (r: bool)
    requires bits <= 64 * a.Length && bits <= 64 * b.Length
    ensures !r <==> forall p | 0 <= p < bits :: !(BitAt(a[..], p) && BitAt(b[..], p))
  {
    r := AnySet(Intersection, a, b, bits);
    CountOpZero(Intersection, a[..], b[..], bits);
  }

  method Subset(a: array<bv64>, b: array<bv64>, bits: U32) returns (r: bool)
    requires bits <= 64 * a.Length && bits <= 64 * b.Length
    ensures r <==> forall p | 0 <= p < bits && BitAt(a[..], p) :: BitAt(b[..], p)
  {
    var any := AnySet(Difference, a, b, bits);
    CountOpZero(Difference, a[..], b[..], bits);
    r := !any;
  }

  method Equal(a: array<bv64>, b: array<bv64>, bits: U32) returns (r: bool)
    requires bits <= 64 * a.Length && bits <= 64 * b.Length
    ensures r <==> forall p | 0 <= p < bits :: BitAt(a[..], p) <==> BitAt(b[..], p)
  {
    var any := AnySet(SymmetricDifference, a, b, bits);
    CountOpZero(SymmetricDifference, a[..], b[..], bits);
    r := !any;
  }

  /** A combination has no weight exactly when no position below `bits` satisfies it. */
  lemma CountOpZero(op: Op, a: Words, b: Words, bits: nat)
    requires bits <= Size(a) && bits <= Size(b)
    ensures CountOp(op, a, b, bits) == 0 <==> forall p | 0 <= p < bits :: !Combine(op, BitAt(a, p), BitAt(b, p))
  {
    hide Bit, Combine, Zip;
    var c := Zip(op, a, b, Longs(bits));
    CountGrows(c, 0, bits);
    if TailClear(c, 0, bits) {
      forall p | 0 <= p < bits
        ensures !Combine(op, BitAt(a, p), BitAt(b, p))
      {
        assert !BitAt(c, p);
        ZipBit(op, a, b, Longs(bits), p);
      }
    } else {
      var p :| 0 <= p < bits && BitAt(c, p);
      ZipBit(op, a, b, Longs(bits), p);
    }
  }

  // ---------- The masked stores ----------

  /** The combination with the bits past the end cleared. */
  function MaskedZip(op: Op, a: Words, b: Words, bits: nat): (c: Words)
    requires bits <= Size(a) && bits <= Size(b)
    ensures |c| == Longs(bits)
  {
    var c := Zip(op, a, b, Longs(bits));
    if bits % 64 == 0 then c else c[bits / 64 := Trimmed(c[bits / 64], bits)]
  }

  /** The stored map has exactly the combination's positions below `bits`, and nothing above. */
  lemma MaskedZipBit(op: Op, a: Words, b: Words, bits: nat, p: nat)
    requires bits <= Size(a) && bits <= Size(b) && p < 64 * Longs(bits)
    ensures BitAt(MaskedZip(op, a, b, bits), p) <==>
            p < bits && Combine(op, BitAt(a, p), BitAt(b, p))
  {
    hide Combine, Zip, Trimmed, Bit;
    var c := Zip(op, a, b, Longs(bits));
    ZipBit(op, a, b, Longs(bits), p);
    if bits % 64 != 0 {
      UpdateBit(c, bits / 64, Trimmed(c[bits / 64], bits), p);
      TrimmedBit(c[bits / 64], bits, p % 64);
    }
  }

  lemma {:induction false} SameCount(x: Words, y: Words, n: nat)
    requires n <= Size(x) && n <= Size(y) && forall p | 0 <= p < n :: BitAt(x, p) <==> BitAt(y, p)
    ensures Count(x, n) == Count(y, n)
    decreases n
  {
    hide BitAt;
    if n > 0 {
      SameCount(x, y, n - 1);
    }
  }

  /** The whole stored map weighs what the weight function of the same combination returns. */
  lemma MaskedZipWeight(op: Op, a: Words, b: Words, bits: nat)
    requires bits <= Size(a) && bits <= Size(b)
    ensures Count(MaskedZip(op, a, b, bits), 64 * Longs(bits)) == CountOp(op, a, b, bits)
  {
    hide BitAt, Combine, Zip, MaskedZip;
    var c, whole := MaskedZip(op, a, b, bits), 64 * Longs(bits);
    forall p | 0 <= p < whole
      ensures BitAt(c, p) <==> p < bits && BitAt(Zip(op, a, b, Longs(bits)), p)
    {
      MaskedZipBit(op, a, b, bits, p);
      ZipBit(op, a, b, Longs(bits), p);
    }
    CountGrows(c, bits, whole);
    SameCount(c, Zip(op, a, b, Longs(bits)), bits);
  }

  /** The and / and-not stores: dst, which may be either input, receives the masked combination;
      the result says whether it has any bit. */
  method StoreMasked(op: Op, dst: array<bv64>, a: array<bv64>, b: array<bv64>, bits: U32) returns (any: bool)
    requires bits <= 64 * dst.Length && bits <= 64 * a.Length && bits <= 64 * b.Length
    modifies dst
    ensures dst[..Longs(bits)] == MaskedZip(op, old(a[..]), old(b[..]), bits)
    ensures dst[Longs(bits)..] == old(dst[Longs(bits)..])
    ensures any <==> CountOp(op, old(a[..]), old(b[..]), bits) > 0
  {
    hide BitAt, Hweight, Trimmed, Zip, WordOp, Stored, MaskedZip;
    ghost var d0, a0, b0 := dst[..], a[..], b[..];
    ghost var c := Zip(op, a0, b0, Longs(bits));
    var k, lim := 0, bits / 64;
    var result: bv64 := 0;
    StoredNone(op, dst, a, b);
    while k < lim
      invariant 0 <= k <= lim
      invariant result == 0 <==> Count(c, 64 * k) == 0
      invariant Stored(op, dst, a, b, d0, a0, b0, k)
    {
      StoreWord(op, dst, a, b, k, d0, a0, b0);
      ZipWord(op, a0, b0, Longs(bits), k);
      CountWord(c, k);
      HweightZero(c[k]);
      result := OrInto(result, dst[k]);
      k := k + 1;
    }
    if bits % 64 != 0 {
      var last := StoreLast(op, dst, a, b, bits, d0, a0, b0);
      ZipWord(op, a0, b0, Longs(bits), k);
      CountLastWord(c, bits);
      HweightZero(last);
      result := OrInto(result, last);
    } else {
      StoredZip(op, dst, a, b, d0, a0, b0, k);
      MaskedZipWhole(op, a0, b0, bits);
    }
    any := result != 0;
  }

  lemma MaskedZipWhole(op: Op, a: Words, b: Words, bits: nat)
    requires bits <= Size(a) && bits <= Size(b) && bits % 64 == 0
    ensures MaskedZip(op, a, b, bits) == Zip(op, a, b, bits / 64)
  {
    hide Zip;
  }

  /** Stores the last word of the combination with the bits past the end cleared. */
  method StoreLast(op: Op, dst: array<bv64>, a: array<bv64>, b: array<bv64>, bits: U32,
                   ghost d0: Words, ghost a0: Words, ghost b0: Words) returns (last: bv64)
    requires bits % 64 != 0 && bits <= 64 * dst.Length && bits <= 64 * a.Length && bits <= 64 * b.Length
    requires Stored(op, dst, a, b, d0, a0, b0, bits / 64)
    modifies dst
    ensures last == Trimmed(WordOp(op, a0[bits / 64], b0[bits / 64]), bits)
    ensures dst[..Longs(bits)] == MaskedZip(op, a0, b0, bits) && dst[Longs(bits)..] == d0[Longs(bits)..]
  {
    hide Trimmed, WordOp;
    var k := bits / 64;
    StoredZip(op, dst, a, b, d0, a0, b0, k);
    last := Trimmed(WordOp(op, a[k], b[k]), bits);
    dst[k] := last;
  }

  function OrInto(x: bv64, y: bv64): (r: bv64)
    ensures r == 0 <==> x == 0 && y == 0
  {
    x | y
  }
}
