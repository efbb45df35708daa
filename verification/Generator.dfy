/** The deterministic input generator of the differential leg, its Python mirror, and the
    stateful form used by the fuzzing leg. */
module Generator {
  import opened Ints
  import opened Words64

  const GOLDEN: U64 := 0x9e37_79b9_7f4a_7c15
  const MIX1: U64 := 0xbf58_476d_1ce4_e5b9
  const MIX2: U64 := 0x94d0_49bb_1331_11eb

  /** The inverses of the three odd constants modulo 2^64. */
  const GOLDEN_INVERSE: U64 := 0xf1de_83e1_9937_733d
  const MIX1_INVERSE: U64 := 0x96de_1b17_3f11_9089
  const MIX2_INVERSE: U64 := 0x3196_42b2_d24d_8ec3

  const NINPUTS: nat := 4
  const NCORNERS: nat := 16

  /** The boundary values swept before random ones. */
  function Corner(i: nat): U64
    requires i < NCORNERS
  {
    [0, 1, 2, 3, 0xffff_ffff_ffff_ffff, 0xffff_ffff_ffff_fffe,
     0x8000_0000_0000_0000, 0x7fff_ffff_ffff_ffff,
     0xffff_ffff, 0x1_0000_0000, 0x8000_0000, 0x7fff_ffff,
     0xff, 0x100, 0xffff, 0x1_0000][i]
  }

  /** The Python mirror's table of the same values. */
  function PyCorner(i: nat): int
    requires i < NCORNERS
  {
    [0, 1, 2, 3, Pow2(64) - 1, Pow2(64) - 2,
     0x8000_0000_0000_0000, 0x7fff_ffff_ffff_ffff,
     0xffff_ffff, 0x1_0000_0000, 0x8000_0000, 0x7fff_ffff,
     0xff, 0x100, 0xffff, 0x1_0000][i]
  }

  /** The fuzzing leg's table. */
  function FuzzCorner(i: nat): U64
    requires i < NCORNERS
  {
    [0, 1, 2, 3, 0xffff_ffff_ffff_ffff, 0xffff_ffff_ffff_fffe,
     0x8000_0000_0000_0000, 0x7fff_ffff_ffff_ffff,
     0xffff_ffff, 0x1_0000_0000, 0x8000_0000, 0x7fff_ffff,
     0xff, 0x100, 0xffff, 0x1_0000][i]
  }

  /** The three tables agree, and no value is listed twice. */
  lemma CornersInSync(i: nat, j: nat)
    requires i < NCORNERS && j < NCORNERS
    ensures PyCorner(i) == Corner(i) == FuzzCorner(i)
    ensures i != j ==> Corner(i) != Corner(j)
  {
    hide Pow2;
    WordPower();
  }

  // ---------- Mixing ----------

  /** One round: x ^ (x >> s), times an odd constant, in 64 bits. */
  function Round(x: U64, s: nat, c: U64): U64 { Wrap(XorShift(x, s) * c) }

  /** The final round has no multiplication. */
  function Mix(z: U64): U64 {
    var last := Round(Round(z, 30, MIX1), 27, MIX2);
    Wrap(XorShift(last, 31))
  }

  function UnRound(y: U64, s: nat, inverse: U64): U64 { Wrap(UnXorShift(Wrap(y * inverse), s)) }

  function Unmix(y: U64): U64 {
    UnRound(UnRound(Wrap(UnXorShift(y, 31)), 27, MIX2_INVERSE), 30, MIX1_INVERSE)
  }

  lemma RoundUndone(x: U64, s: nat, c: U64, inverse: U64, q: int)
    requires 3 * s >= 64 && c * inverse == 1 + q * WORD
    ensures UnRound(Round(x, s, c), s, inverse) == x
  {
    hide XorShift, UnXorShift;
    XorShiftBelow(x, s);
    MulInverse(XorShift(x, s), c, inverse, q);
    UnXorShiftLeft(x, s);
  }

  /** Mixing loses nothing: Unmix gives the input back. */
  lemma MixUndone(z: U64)
    ensures Unmix(Mix(z)) == z
  {
    hide XorShift, UnXorShift, Round, UnRound;
    var one := Round(z, 30, MIX1);
    var two := Round(one, 27, MIX2);
    XorShiftBelow(two, 31);
    UnXorShiftLeft(two, 31);
    RoundUndone(one, 27, MIX2, MIX2_INVERSE, 2077064247507883091);
    RoundUndone(z, 30, MIX1, MIX1_INVERSE, 8125545580553827436);
  }

  lemma UnXorShiftBelow(y: U64, s: nat)
    ensures 0 <= UnXorShift(y, s) < WORD
  {
    hide XorShift, Xor, Shr;
    WordPower();
    XorShiftBelow(y, s);
    ShrBelow(y, 2 * s);
    XorBelow(XorShift(y, s), Shr(y, 2 * s), 64);
  }

  lemma RoundReached(y: U64, s: nat, c: U64, inverse: U64, q: int)
    requires 3 * s >= 64 && inverse * c == 1 + q * WORD
    ensures Round(UnRound(y, s, inverse), s, c) == y
  {
    hide XorShift, UnXorShift;
    var scaled := Wrap(y * inverse);
    UnXorShiftBelow(scaled, s);
    UnXorShiftRight(scaled, s);
    MulInverse(y, inverse, c, q);
  }

  /** Mixing reaches every word: together with MixUndone, a bijection. */
  lemma MixReached(y: U64)
    ensures Mix(Unmix(y)) == y
  {
    hide XorShift, UnXorShift, Round, UnRound;
    UnXorShiftBelow(y, 31);
    var two := Wrap(UnXorShift(y, 31));
    var one := UnRound(two, 27, MIX2_INVERSE);
    UnXorShiftRight(y, 31);
    RoundReached(two, 27, MIX2, MIX2_INVERSE, 2077064247507883091);
    RoundReached(one, 30, MIX1, MIX1_INVERSE, 8125545580553827436);
  }

  // ---------- Draws ----------

  /** The n-th mixed value of the stream that starts at base. */
  function Draw(base: U64, n: int): U64 {
    Mix(Wrap(base + Wrap(GOLDEN * Wrap(n))))
  }

  lemma WeylStep(n: int)
    ensures Wrap(Wrap(GOLDEN * Wrap(n)) * GOLDEN_INVERSE) == Wrap(n)
  {
    MulInverse(Wrap(n), GOLDEN, GOLDEN_INVERSE, 10771413168148108919);
    assert Wrap(n) * GOLDEN == GOLDEN * Wrap(n);
  }

  lemma AddCancels(base: U64, x: U64, y: U64)
    requires Wrap(base + x) == Wrap(base + y)
    ensures x == y
  {
  }

  /** Draws with different positions in the stream are different. */
  lemma DrawsDistinct(base: U64, n: int, m: int)
    requires Wrap(n) != Wrap(m)
    ensures Draw(base, n) != Draw(base, m)
  {
    hide Mix, Unmix;
    var x, y := Wrap(GOLDEN * Wrap(n)), Wrap(GOLDEN * Wrap(m));
    WeylStep(n);
    WeylStep(m);
    if Draw(base, n) == Draw(base, m) {
      MixUndone(Wrap(base + x));
      MixUndone(Wrap(base + y));
      AddCancels(base, x, y);
    }
  }

  lemma WrapKeepsLongs(n: I64, m: I64)
    requires n != m
    ensures Wrap(n) != Wrap(m)
  {
  }

  /** The stream position of input k of an iteration. */
  function Position(iter: int, k: nat): int { iter * NINPUTS + k + 1 }

  /** Whether input k of an iteration is swept rather than drawn. */
  predicate Swept(iter: int, k: int) { iter < NCORNERS * NCORNERS && 0 <= k < 2 }

  function Input(base: U64, iter: int, k: nat): U64
    requires k < NINPUTS
  {
    if Swept(iter, k) then Corner(if k == 0 then iter % NCORNERS else (iter / NCORNERS) % NCORNERS)
    else Draw(base, Position(iter, k))
  }

  function Inputs(base: U64, iter: int): seq<U64> {
    [Input(base, iter, 0), Input(base, iter, 1), Input(base, iter, 2), Input(base, iter, 3)]
  }

  /** The iterations whose stream positions fit a signed 64-bit long. */
  predicate InRange(iter: int) { -LONG_LIMIT <= iter * NINPUTS && iter * NINPUTS + NINPUTS < LONG_LIMIT }

  /** All drawn inputs of all iterations are pairwise different. */
  lemma InputsDistinct(base: U64, iter1: int, k1: nat, iter2: int, k2: nat)
    requires InRange(iter1) && InRange(iter2) && k1 < NINPUTS && k2 < NINPUTS
    requires !Swept(iter1, k1) && !Swept(iter2, k2) && (iter1, k1) != (iter2, k2)
    ensures Input(base, iter1, k1) != Input(base, iter2, k2)
  {
    hide Draw;
    WrapKeepsLongs(Position(iter1, k1), Position(iter2, k2));
    DrawsDistinct(base, Position(iter1, k1), Position(iter2, k2));
  }

  /** The first 256 iterations reach every pair of corner values. */
  lemma CornersSwept(base: U64, i: nat, j: nat)
    requires i < NCORNERS && j < NCORNERS
    ensures var iter := j * NCORNERS + i;
            iter < NCORNERS * NCORNERS && Inputs(base, iter)[0] == Corner(i) && Inputs(base, iter)[1] == Corner(j)
  {
    hide Draw, Corner;
    var iter := j * NCORNERS + i;
    assert iter % NCORNERS == i && iter / NCORNERS == j;
  }

  // ---------- The C generator ----------

  method MixC(z0: U64) returns (z: U64)
    ensures z == Mix(z0)
  {
    hide XorShift;
    XorShiftBelow(z0, 30);
    z := Wrap(XorShift(z0, 30) * MIX1);
    XorShiftBelow(z, 27);
    z := Wrap(XorShift(z, 27) * MIX2);
    XorShiftBelow(z, 31);
    z := XorShift(z, 31);
  }

  /** The corner indices are computed on the iteration as an unsigned word. */
  lemma CornerIndex(iter: int)
    ensures Wrap(iter) % NCORNERS == iter % NCORNERS
    ensures (Wrap(iter) / NCORNERS) % NCORNERS == (iter / NCORNERS) % NCORNERS
  {
    hide Wrap;
    var q := 0x100_0000_0000_0000 * (iter / WORD);
    Quotient(iter);
    DropMultiple(Wrap(iter), NCORNERS * q);
    DropMultiple(Wrap(iter) / NCORNERS, q);
  }

  lemma DropMultiple(x: int, m: int)
    ensures (x + NCORNERS * m) % NCORNERS == x % NCORNERS && (x + NCORNERS * m) / NCORNERS == x / NCORNERS + m
  {
  }

  method DiffGenInputs(base: U64, iter: I64, out: array<U64>)
    requires out.Length == NINPUTS && InRange(iter)
    modifies out
    ensures out[..] == Inputs(base, iter)
  {
    hide Mix, Corner, Wrap;
    CornerIndex(iter);
    if iter < NCORNERS * NCORNERS {
      out[0] := Corner(Wrap(iter) % NCORNERS);
      out[1] := Corner((Wrap(iter) / NCORNERS) % NCORNERS);
      var k := 2;
      while k < NINPUTS
        invariant 2 <= k <= NINPUTS
        invariant forall j | 0 <= j < k :: out[j] == Input(base, iter, j)
      {
        var position: I64 := iter * NINPUTS + k + 1;
        out[k] := MixC(Wrap(base + Wrap(GOLDEN * Wrap(position))));
        k := k + 1;
      }
      return;
    }
    var k := 0;
    while k < NINPUTS
      invariant 0 <= k <= NINPUTS
      invariant forall j | 0 <= j < k :: out[j] == Input(base, iter, j)
    {
      var position: I64 := iter * NINPUTS + k + 1;
      out[k] := MixC(Wrap(base + Wrap(GOLDEN * Wrap(position))));
      k := k + 1;
    }
  }

  // ---------- The Python mirror, on unbounded integers ----------

  /** z & MASK. */
  function Mask(z: int): U64 { z % WORD }

  method PyMix(z0: int) returns (z: U64)
    ensures z == Mix(Mask(z0))
  {
    hide XorShift;
    z := Mask(z0);
    z := Mask(XorShift(z, 30) * MIX1);
    z := Mask(XorShift(z, 27) * MIX2);
    z := Mask(XorShift(z, 31));
  }

  lemma MirrorArgument(base: int, n: int)
    ensures Mask(Mask(base + GOLDEN * n)) == Wrap(Mask(base) + Wrap(GOLDEN * Wrap(n)))
  {
    WrapAdd(base, GOLDEN * n);
    assert GOLDEN * n == GOLDEN * Wrap(n) + WORD * (GOLDEN * (n / WORD)) by {
      assert n == WORD * (n / WORD) + Wrap(n);
      assert GOLDEN * (WORD * (n / WORD)) == WORD * (GOLDEN * (n / WORD));
    }
    WrapMultiple(GOLDEN * Wrap(n), GOLDEN * (n / WORD));
  }

  method PyDraw(base: int, n: int) returns (z: U64)
    ensures z == Draw(Mask(base), n)
  {
    hide Mix;
    MirrorArgument(base, n);
    z := PyMix(Mask(base + GOLDEN * n));
  }

  /** The mirror gives the same four words as the C generator, for every base and iteration. */
  method PyGenInputs(base: int, it: int) returns (out: seq<U64>)
    ensures out == Inputs(Mask(base), it)
  {
    hide Draw, Corner, PyCorner, FuzzCorner;
    out := [0, 0, 0, 0];
    if it < NCORNERS * NCORNERS {
      CornersInSync(it % NCORNERS, (it / NCORNERS) % NCORNERS);
      CornersInSync((it / NCORNERS) % NCORNERS, 0);
      out := out[0 := PyCorner(it % NCORNERS)];
      out := out[1 := PyCorner((it / NCORNERS) % NCORNERS)];
      for k := 2 to NINPUTS
        invariant |out| == NINPUTS
        invariant forall j | 0 <= j < k :: out[j] == Input(Mask(base), it, j)
      {
        var z := PyDraw(base, it * NINPUTS + k + 1);
        out := out[k := z];
      }
    } else {
      for k := 0 to NINPUTS
        invariant |out| == NINPUTS
        invariant forall j | 0 <= j < k :: out[j] == Input(Mask(base), it, j)
      {
        var z := PyDraw(base, it * NINPUTS + k + 1);
        out := out[k := z];
      }
    }
  }

  // ---------- The stateful generator ----------

  /** The driver's seed for an iteration. */
  method SeedFor(base: U64, iter: I64) returns (z: U64)
    requires iter + 1 < LONG_LIMIT
    ensures z == Draw(base, iter + 1)
  {
    hide Mix;
    z := MixC(Wrap(base + Wrap(GOLDEN * Wrap(iter + 1))));
  }

  /** No two iterations start from the same state. */
  lemma SeedsDistinct(base: U64, iter1: I64, iter2: I64)
    requires iter1 + 1 < LONG_LIMIT && iter2 + 1 < LONG_LIMIT && iter1 != iter2
    ensures Draw(base, iter1 + 1) != Draw(base, iter2 + 1)
  {
    hide Draw;
    WrapKeepsLongs(iter1 + 1, iter2 + 1);
    DrawsDistinct(base, iter1 + 1, iter2 + 1);
  }

  class FuzzInput {
    var state: U64
    var draw: I64
    const iter: I64

    constructor (seed: U64, iter: I64)
      ensures state == seed && draw == 0 && this.iter == iter
    {
      state := seed;
      draw := 0;
      this.iter := iter;
    }

    method Next() returns (z: U64)
      modifies this`state
      ensures state == Wrap(old(state) + GOLDEN)
      ensures z == Mix(state)
    {
      state := Wrap(state + GOLDEN);
      z := MixC(state);
    }

    /** Draws that advance the stream: all but the swept ones. */
    method DrawU64() returns (z: U64)
      requires draw + 1 < LONG_LIMIT
      modifies this
      ensures draw == old(draw) + 1
      ensures Swept(iter, old(draw)) ==>
                state == old(state) &&
                z == Corner(if old(draw) == 0 then iter % NCORNERS else (iter / NCORNERS) % NCORNERS)
      ensures !Swept(iter, old(draw)) ==> state == Wrap(old(state) + GOLDEN) && z == Mix(state)
      ensures iter >= 256 ==> state == Wrap(old(state) + GOLDEN) && z == Mix(state)
    {
      hide Corner, PyCorner, FuzzCorner, Mix, Wrap;
      CornerIndex(iter);
      var d := draw;
      draw := draw + 1;
      if iter < NCORNERS * NCORNERS {
        if d == 0 {
          CornersInSync(iter % NCORNERS, 0);
          return FuzzCorner(Wrap(iter) % NCORNERS);
        }
        if d == 1 {
          CornersInSync((iter / NCORNERS) % NCORNERS, 0);
          return FuzzCorner((Wrap(iter) / NCORNERS) % NCORNERS);
        }
      }
      z := Next();
    }

    /** A stream of n draws: its i-th value is the i-th draw from the starting state. */
    method Stream(n: nat) returns (zs: seq<U64>)
      modifies this`state
      ensures |zs| == n && forall i | 0 <= i < n :: zs[i] == Draw(old(state), i + 1)
    {
      hide Mix;
      ghost var seed := state;
      zs := [];
      StateStart(seed);
      while |zs| < n
        invariant |zs| <= n && state == StateAfter(seed, |zs|)
        invariant forall i | 0 <= i < |zs| :: zs[i] == Draw(seed, i + 1)
      {
        StateStep(seed, |zs|);
        var z := Next();
        zs := zs + [z];
      }
    }
  }

  function StateAfter(seed: U64, n: nat): U64 { Wrap(seed + Wrap(GOLDEN * Wrap(n))) }

  lemma StateStart(seed: U64)
    ensures StateAfter(seed, 0) == seed
  {
  }

  lemma StateValue(seed: U64, n: nat)
    ensures StateAfter(seed, n) == Wrap(seed + GOLDEN * n)
  {
    MirrorArgument(seed, n);
  }

  /** Adding the constant once more is the next multiple. */
  lemma StateStep(seed: U64, n: nat)
    ensures Wrap(StateAfter(seed, n) + GOLDEN) == StateAfter(seed, n + 1)
  {
    hide StateAfter, Wrap;
    StateValue(seed, n);
    StateValue(seed, n + 1);
    WrapAdd(GOLDEN, seed + GOLDEN * n);
    assert GOLDEN + (seed + GOLDEN * n) == seed + GOLDEN * (n + 1);
    assert Wrap(seed + GOLDEN * n) + GOLDEN == GOLDEN + Wrap(seed + GOLDEN * n);
  }
}
