/** The generator's words as values of the stateful stream, what the corner values are, and the
    first value of SplitMix64 from state zero. */
module GeneratorStream {
  import opened Ints
  import opened Words64
  import opened Generator

  // ---------- Drawn words are the stream's values ----------

  /** The n-th value, from 0, that successive steps of the stream yield. */
  function StreamValue(state: U64, n: nat): U64
    decreases n
  {
    var next := Wrap(state + GOLDEN);
    if n == 0 then Mix(next) else StreamValue(next, n - 1)
  }

  lemma {:induction false} StreamIsDraw(state: U64, n: nat)
    ensures StreamValue(state, n) == Draw(state, n + 1)
    decreases n
  {
    hide Mix;
    StateStep(state, 0);
    StateStart(state);
    if n > 0 {
      var next := Wrap(state + GOLDEN);
      StreamIsDraw(next, n - 1);
      StateValue(next, n);
      StateValue(state, n + 1);
      WrapAdd(GOLDEN * n, state + GOLDEN);
      assert GOLDEN * n + (state + GOLDEN) == state + GOLDEN * (n + 1);
    }
  }

  lemma DrawWraps(base: U64, n: int)
    ensures Draw(base, Wrap(n) + 1) == Draw(base, n + 1)
  {
    hide Mix, Wrap;
    WrapAdd(1, n);
    assert 1 + Wrap(n) == Wrap(n) + 1 && 1 + n == n + 1;
  }

  /** A word that is no corner is the stream's value with index 4 * iter + k; for a negative
      iteration the index counts modulo 2^64. */
  lemma DrawnWord(base: U64, iter: int, k: nat)
    requires k < 4 && (iter >= 256 || k >= 2)
    ensures Inputs(base, iter)[k] == StreamValue(base, Wrap(4 * iter + k))
    ensures 0 <= 4 * iter + k < 0x1_0000_0000_0000_0000 ==> Inputs(base, iter)[k] == StreamValue(base, 4 * iter + k)
  {
    hide Draw, StreamValue;
    var n := 4 * iter + k;
    assert Inputs(base, iter)[k] == Draw(base, n + 1);
    DrawWraps(base, n);
    StreamIsDraw(base, Wrap(n));
    if 0 <= n < 0x1_0000_0000_0000_0000 {
      WrapSmall(n);
    }
  }

  /** From iteration 256 on, all four words are consecutive values of the stream. */
  lemma DrawnIteration(base: U64, iter: nat)
    requires 256 <= iter && InRange(iter)
    ensures forall k | 0 <= k < 4 :: Inputs(base, iter)[k] == StreamValue(base, 4 * iter + k)
  {
    hide Input, StreamValue;
    forall k | 0 <= k < 4
      ensures Inputs(base, iter)[k] == StreamValue(base, 4 * iter + k)
    {
      DrawnWord(base, iter, k);
    }
  }

  /** The first words of an iteration below 256 are corners. */
  lemma SweptWords(base: U64, iter: int)
    requires iter < 256
    ensures Inputs(base, iter)[0] == Corner(iter % 16) && Inputs(base, iter)[1] == Corner((iter / 16) % 16)
  {
    hide Corner, Draw;
  }

  /** The n draws of a fresh fuzzing input: two corners in the first 256 iterations, and then the
      stream from the seed. */
  method DrawAll(input: FuzzInput, n: nat) returns (zs: seq<U64>)
    requires input.draw == 0 && n < LONG_LIMIT
    modifies input
    ensures |zs| == n
    ensures input.iter >= 256 ==> forall i | 0 <= i < n :: zs[i] == StreamValue(old(input.state), i)
    ensures input.iter < 256 ==>
              (forall i | 2 <= i < n :: zs[i] == StreamValue(old(input.state), i - 2)) &&
              (n > 0 ==> zs[0] == Corner(input.iter % 16)) && (n > 1 ==> zs[1] == Corner((input.iter / 16) % 16))
  {
    hide Mix, StreamValue, Corner;
    ghost var seed := input.state;
    ghost var skip := if input.iter < 256 then 2 else 0;
    zs := [];
    StateStart(seed);
    while |zs| < n
      invariant |zs| == input.draw <= n
      invariant input.state == StateAfter(seed, if |zs| < skip then 0 else |zs| - skip)
      invariant forall i | skip <= i < |zs| :: zs[i] == StreamValue(seed, i - skip)
      invariant skip == 2 && |zs| > 0 ==> zs[0] == Corner(input.iter % 16)
      invariant skip == 2 && |zs| > 1 ==> zs[1] == Corner((input.iter / 16) % 16)
    {
      if |zs| >= skip {
        StateStep(seed, |zs| - skip);
        StreamIsDraw(seed, |zs| - skip);
      }
      var z := input.DrawU64();
      zs := zs + [z];
    }
  }

  // ---------- The corner values ----------

  /** Zero to three, minus one and minus two in 64 bits, and the powers of two at the ends of the
      8-, 16-, 31-, 32- and 63-bit ranges, each with the number before it. */
  lemma CornerValues(i: nat)
    requires i < 16
    ensures i < 4 ==> Corner(i) == i
    ensures Corner(4) == Wrap(-1) && Corner(5) == Wrap(-2)
    ensures Corner(6) == Pow2(63) && Corner(7) == Pow2(63) - 1
    ensures Corner(8) == Pow2(32) - 1 && Corner(9) == Pow2(32)
    ensures Corner(10) == Pow2(31) && Corner(11) == Pow2(31) - 1
    ensures Corner(12) == Pow2(8) - 1 && Corner(13) == Pow2(8)
    ensures Corner(14) == Pow2(16) - 1 && Corner(15) == Pow2(16)
  {
    hide Pow2;
    Powers();
  }

  lemma Powers()
    ensures Pow2(8) == 0x100 && Pow2(16) == 0x1_0000
    ensures Pow2(31) == 0x8000_0000 == INT_LIMIT && Pow2(32) == 0x1_0000_0000 == UINT
    ensures Pow2(63) == 0x8000_0000_0000_0000 == LONG_LIMIT
  {
    hide Pow2;
    PowerOfByte();
    PowerAdds(8, 8);
    PowerAdds(16, 16);
    PowerAdds(32, 32);
    PowerStep(31);
    PowerStep(63);
  }

  lemma PowerStep(k: nat)
    ensures Pow2(k + 1) == 2 * Pow2(k)
  {
  }

  // ---------- SplitMix64 ----------

  lemma XorBit(x: nat, y: nat, a: nat, b: nat)
    requires a < 2 && b < 2
    ensures Xor(2 * x + a, 2 * y + b) == 2 * Xor(x, y) + (a + b) % 2
  {
    hide Xor;
    var u, v := 2 * x + a, 2 * y + b;
    XorStep(u, v);
    assert u / 2 == x && v / 2 == y && (u + v) % 2 == (a + b) % 2;
  }

  lemma LowBit(a: bv8)
    ensures a as nat == 2 * ((a >> 1) as nat) + (a & 1) as nat && (a & 1) as nat < 2
  {
  }

  lemma XorLowBit(a: bv8, b: bv8)
    ensures (a ^ b) >> 1 == (a >> 1) ^ (b >> 1)
    ensures ((a ^ b) & 1) as nat == ((a & 1) as nat + (b & 1) as nat) % 2
  {
  }

  /** The low bits of two bytes and of their exclusive or, as numbers. */
  lemma LowBits(a: bv8, b: bv8) returns (a1: nat, a0: nat, b1: nat, b0: nat)
    ensures a1 == (a >> 1) as nat && b1 == (b >> 1) as nat
    ensures a0 < 2 && b0 < 2 && a as nat == 2 * a1 + a0 && b as nat == 2 * b1 + b0
    ensures (a ^ b) as nat == 2 * (((a >> 1) ^ (b >> 1)) as nat) + (a0 + b0) % 2
  {
    LowBit(a);
    LowBit(b);
    LowBit(a ^ b);
    XorLowBit(a, b);
    a1, a0, b1, b0 := (a >> 1) as nat, (a & 1) as nat, (b >> 1) as nat, (b & 1) as nat;
  }

  /** Room for k bits behind x. */
  function Scaled(x: nat, k: nat): nat {
    if k == 0 then x else 2 * Scaled(x, k - 1)
  }

  /** Leaving out the lowest bits. */
  lemma XorPeel(x: nat, y: nat, z: nat, a: bv8, b: bv8) returns (a1: bv8, b1: bv8)
    ensures 2 * (a1 as nat) <= a as nat && 2 * (b1 as nat) <= b as nat
    ensures Xor(x + a1 as nat, y + b1 as nat) == z + (a1 ^ b1) as nat ==>
              Xor(2 * x + a as nat, 2 * y + b as nat) == 2 * z + (a ^ b) as nat
  {
    hide Xor;
    a1, b1 := a >> 1, b >> 1;
    var m1, m0, n1, n0 := LowBits(a, b);
    XorBit(x + m1, y + n1, m0, n0);
  }

  /** The exclusive or of the low k bits is that of bit vectors. */
  lemma {:induction false} XorLow(x: nat, y: nat, a: bv8, b: bv8, k: nat)
    requires a as nat < Pow2(k) && b as nat < Pow2(k)
    ensures Xor(Scaled(x, k) + a as nat, Scaled(y, k) + b as nat) == Scaled(Xor(x, y), k) + (a ^ b) as nat
    decreases k
  {
    hide Xor;
    if k == 0 {
      ZeroBits(a, b);
    } else {
      var a1, b1 := XorPeel(Scaled(x, k - 1), Scaled(y, k - 1), Scaled(Xor(x, y), k - 1), a, b);
      XorLow(x, y, a1, b1, k - 1);
    }
  }

  lemma ZeroBits(a: bv8, b: bv8)
    requires a as nat < 1 && b as nat < 1
    ensures (a ^ b) as nat == a as nat == b as nat == 0
  {
  }

  lemma ScaledByte(x: nat)
    ensures Scaled(x, 8) == 256 * x
  {
    assert Scaled(x, 1) == 2 * x;
    assert Scaled(x, 2) == 4 * x;
    assert Scaled(x, 4) == 16 * x;
    assert Scaled(x, 6) == 64 * x;
  }

  lemma XorByte(x: nat, y: nat, a: bv8, b: bv8)
    ensures Xor(256 * x + a as nat, 256 * y + b as nat) == 256 * Xor(x, y) + (a ^ b) as nat
  {
    hide Xor, Pow2, Scaled;
    PowerOfByte();
    ScaledByte(x);
    ScaledByte(y);
    ScaledByte(Xor(x, y));
    XorLow(x, y, a, b, 8);
  }

  /** Dropping the low s bits. */
  lemma {:induction false} ShrScaled(q: nat, r: nat, s: nat)
    requires r < Pow2(s)
    ensures Shr(Scaled(q, s) + r, s) == q
    decreases s
  {
    if s > 0 {
      HalfOf(Scaled(q, s - 1), r);
      ShrScaled(q, r / 2, s - 1);
    }
  }

  lemma {:induction false} ScaledPower(q: nat, s: nat)
    ensures Scaled(q, s) == Pow2(s) * q
  {
    if s > 0 {
      ScaledPower(q, s - 1);
      Twice(Pow2(s - 1), q);
    }
  }

  lemma Twice(p: nat, q: nat)
    ensures (2 * p) * q == 2 * (p * q)
  {
  }

  lemma ShrDrops(q: nat, r: nat, s: nat)
    requires r < Pow2(s)
    ensures Shr(Pow2(s) * q + r, s) == q
  {
    hide Shr, Scaled, Pow2;
    ShrScaled(q, r, s);
    ScaledPower(q, s);
  }

  lemma HalfOf(m: nat, r: nat)
    ensures (2 * m + r) / 2 == m + r / 2
  {
  }

  lemma MediumPowers()
    ensures Pow2(27) == 0x800_0000 && Pow2(30) == 0x4000_0000 && Pow2(31) == 0x8000_0000
  {
    hide Pow2;
    PowerOfByte();
    PowerAdds(8, 8);
    PowerAdds(16, 8);
    PowerStep(24);
    PowerStep(25);
    PowerStep(26);
    PowerStep(27);
    PowerStep(28);
    PowerStep(29);
    PowerStep(30);
  }

  lemma FirstShift()
    ensures Shr(0x9e3779b97f4a7c15, 30) == 0x278dde6e5
  {
    hide Shr, Pow2;
    MediumPowers();
    ShrDrops(0x278dde6e5, 0x3f4a7c15, 30);
  }

  lemma FirstXor()
    ensures XorShift(0x9e3779b97f4a7c15, 30) == 0x9e3779bb07979af0
  {
    hide Xor, Shr;
    FirstShift();
    XorZero(0x9e3779);
    XorByte(0x9e3779, 0x0, 0xb9, 0x2);
    XorByte(0x9e3779b9, 0x2, 0x7f, 0x78);
    XorByte(0x9e3779b97f, 0x278, 0x4a, 0xdd);
    XorByte(0x9e3779b97f4a, 0x278dd, 0x7c, 0xe6);
    XorByte(0x9e3779b97f4a7c, 0x278dde6, 0x15, 0xe5);
  }

  lemma SecondShift()
    ensures Shr(0x6f68261b57e7a770, 27) == 0xded04c36a
  {
    hide Shr, Pow2;
    MediumPowers();
    ShrDrops(0xded04c36a, 0x7e7a770, 27);
  }

  lemma SecondXor()
    ensures XorShift(0x6f68261b57e7a770, 27) == 0x6f682616bae3641a
  {
    hide Xor, Shr;
    SecondShift();
    XorZero(0x6f6826);
    XorByte(0x6f6826, 0x0, 0x1b, 0xd);
    XorByte(0x6f68261b, 0xd, 0x57, 0xed);
    XorByte(0x6f68261b57, 0xded, 0xe7, 0x4);
    XorByte(0x6f68261b57e7, 0xded04, 0xa7, 0xc3);
    XorByte(0x6f68261b57e7a7, 0xded04c3, 0x70, 0x6a);
  }

  lemma ThirdShift()
    ensures Shr(0xe220a838bf5c9dde, 31) == 0x1c4415071
  {
    hide Shr, Pow2;
    MediumPowers();
    ShrDrops(0x1c4415071, 0x3f5c9dde, 31);
  }

  lemma ThirdXor()
    ensures XorShift(0xe220a838bf5c9dde, 31) == 0xe220a8397b1dcdaf
  {
    hide Xor, Shr;
    ThirdShift();
    XorZero(0xe220a8);
    XorByte(0xe220a8, 0x0, 0x38, 0x1);
    XorByte(0xe220a838, 0x1, 0xbf, 0xc4);
    XorByte(0xe220a838bf, 0x1c4, 0x5c, 0x41);
    XorByte(0xe220a838bf5c, 0x1c441, 0x9d, 0x50);
    XorByte(0xe220a838bf5c9d, 0x1c44150, 0xde, 0x71);
  }

  /** From state zero the stream starts with the first value of SplitMix64. */
  lemma FirstValue()
    ensures StreamValue(0, 0) == 0xe220a8397b1dcdaf
  {
    hide XorShift;
    FirstXor();
    SecondXor();
    ThirdXor();
  }
}
