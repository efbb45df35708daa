/** 64-bit unsigned words as integers: shifting, exclusive or, and wrapping arithmetic. */
module Words64 {
  import opened Ints

  function Wrap(x: int): U64 { x % WORD }

  // ---------- Shifts and exclusive or ----------

  function Pow2(k: nat): (p: nat)
    ensures p > 0
  {
    if k == 0 then 1 else 2 * Pow2(k - 1)
  }

  /** x >> s. */
  function Shr(x: nat, s: nat): nat
    decreases s
  {
    if s == 0 then x else Shr(x / 2, s - 1)
  }

  /** x ^ y. */
  function Xor(x: nat, y: nat): nat
    decreases x + y
  {
    if x == 0 then y
    else if y == 0 then x
    else 2 * Xor(x / 2, y / 2) + (x + y) % 2
  }

  /** The recursive equation holds at zero as well. */
  lemma XorStep(x: nat, y: nat)
    ensures Xor(x, y) / 2 == Xor(x / 2, y / 2)
    ensures Xor(x, y) % 2 == (x + y) % 2
  {
  }

  lemma XorZero(a: nat)
    ensures Xor(a, 0) == a == Xor(0, a)
  {
  }

  lemma HalvesEqual(a: nat, b: nat)
    requires a / 2 == b / 2 && a % 2 == b % 2
    ensures a == b
  {
  }

  lemma {:induction false} XorAssociates(x: nat, y: nat, z: nat)
    ensures Xor(Xor(x, y), z) == Xor(x, Xor(y, z))
    decreases x + y + z
  {
    hide Xor;
    XorZero(x);
    XorZero(y);
    XorZero(z);
    XorZero(Xor(x, y));
    XorZero(Xor(y, z));
    if x > 0 && y > 0 && z > 0 {
      XorAssociates(x / 2, y / 2, z / 2);
      XorStep(x, y);
      XorStep(y, z);
      XorStep(Xor(x, y), z);
      XorStep(x, Xor(y, z));
      ParityAssociates(Xor(x, y), Xor(y, z), x, y, z);
      HalvesEqual(Xor(Xor(x, y), z), Xor(x, Xor(y, z)));
    }
  }

  lemma ParityAssociates(xy: nat, yz: nat, x: nat, y: nat, z: nat)
    requires xy % 2 == (x + y) % 2 && yz % 2 == (y + z) % 2
    ensures (xy + z) % 2 == (x + yz) % 2
  {
  }

  lemma {:induction false} XorSelf(x: nat)
    ensures Xor(x, x) == 0
  {
    if x > 0 {
      XorSelf(x / 2);
    }
  }

  lemma {:induction false} XorBelow(x: nat, y: nat, k: nat)
    requires x < Pow2(k) && y < Pow2(k)
    ensures Xor(x, y) < Pow2(k)
    decreases k
  {
    if k > 0 {
      XorBelow(x / 2, y / 2, k - 1);
      XorStep(x, y);
    }
  }

  lemma {:induction false} ShrXor(x: nat, y: nat, s: nat)
    ensures Shr(Xor(x, y), s) == Xor(Shr(x, s), Shr(y, s))
    decreases s
  {
    if s > 0 {
      XorStep(x, y);
      ShrXor(x / 2, y / 2, s - 1);
    }
  }

  lemma {:induction false} ShrShr(x: nat, s: nat, t: nat)
    ensures Shr(Shr(x, s), t) == Shr(x, s + t)
    decreases s
  {
    if s > 0 {
      ShrShr(x / 2, s - 1, t);
    }
  }

  lemma {:induction false} ShrSmall(x: nat, s: nat, k: nat)
    requires x < Pow2(k) && k <= s
    ensures Shr(x, s) == 0
    decreases s
  {
    if s > 0 {
      ShrSmall(x / 2, s - 1, if k == 0 then 0 else k - 1);
    }
  }

  lemma {:induction false} ShrBelow(x: nat, s: nat)
    ensures Shr(x, s) <= x
    decreases s
  {
    if s > 0 {
      ShrBelow(x / 2, s - 1);
    }
  }

  lemma PowerAdds(a: nat, b: nat)
    ensures Pow2(a + b) == Pow2(a) * Pow2(b)
    decreases a
  {
    if a > 0 {
      PowerAdds(a - 1, b);
    }
  }

  lemma WordPower()
    ensures Pow2(64) == WORD
  {
    hide Pow2;
    PowerOfByte();
    PowerAdds(8, 8);
    PowerAdds(16, 16);
    PowerAdds(32, 32);
  }

  lemma PowerOfByte()
    ensures Pow2(8) == 256
  {
  }

  // ---------- x ^ (x >> s) is invertible ----------

  function XorShift(x: nat, s: nat): nat { Xor(x, Shr(x, s)) }

  /** Undoes XorShift for shifts whose triple reaches past the word. */
  function UnXorShift(y: nat, s: nat): nat { Xor(XorShift(y, s), Shr(y, 2 * s)) }

  lemma XorShiftBelow(x: U64, s: nat)
    ensures 0 <= XorShift(x, s) < WORD
  {
    WordPower();
    ShrBelow(x, s);
    XorBelow(x, Shr(x, s), 64);
  }

  lemma XorCancels(a: nat, b: nat)
    ensures Xor(Xor(a, b), b) == a
  {
    XorAssociates(a, b, b);
    XorSelf(b);
  }

  /** Shifting the xor-shift of x telescopes. */
  lemma UnXorShiftLeft(x: U64, s: nat)
    requires 3 * s >= 64
    ensures UnXorShift(XorShift(x, s), s) == x
  {
    hide Xor, Shr;
    var a, b, c := Shr(x, s), Shr(x, 2 * s), Shr(x, 3 * s);
    var y := Xor(x, a);
    WordPower();
    ShrSmall(x, 3 * s, 64);
    ShrShr(x, s, s);
    ShrShr(x, s, 2 * s);
    ShrXor(x, a, s);
    ShrXor(x, a, 2 * s);
    assert Shr(y, s) == Xor(a, b) && Shr(y, 2 * s) == Xor(b, c);
    Telescope(x, a, b);
    XorZero(b);
  }

  lemma Telescope(x: nat, a: nat, b: nat)
    ensures Xor(Xor(Xor(x, a), Xor(a, b)), b) == x
  {
    hide Xor;
    XorAssociates(Xor(x, a), a, b);
    XorCancels(x, a);
    XorCancels(x, b);
  }

  lemma UnXorShiftRight(y: U64, s: nat)
    requires 3 * s >= 64
    ensures XorShift(UnXorShift(y, s), s) == y
  {
    hide Xor, Shr;
    var a, b, c := Shr(y, s), Shr(y, 2 * s), Shr(y, 3 * s);
    WordPower();
    ShrSmall(y, 3 * s, 64);
    ShrXor(Xor(y, a), b, s);
    ShrXor(y, a, s);
    ShrShr(y, s, s);
    ShrShr(y, 2 * s, s);
    XorZero(Xor(a, b));
    var x := Xor(Xor(y, a), b);
    assert Shr(x, s) == Xor(a, b);
    XorAssociates(y, a, b);
    XorCancels(y, Xor(a, b));
  }

  // ---------- Wrapping arithmetic ----------

  /** Wrapping early or late gives the same sum. */
  lemma WrapAdd(a: int, b: int)
    ensures Wrap(Wrap(a) + Wrap(b)) == Wrap(a + b)
    ensures Wrap(a + Wrap(b)) == Wrap(a + b)
  {
    Quotient(a);
    Quotient(b);
    WrapShift(Wrap(a) + Wrap(b), a + b, -(a / WORD) - b / WORD);
    WrapShift(a + Wrap(b), a + b, -(b / WORD));
  }

  lemma Quotient(a: int)
    ensures Wrap(a) == a - WORD * (a / WORD)
  {
  }

  lemma WrapShift(x: int, y: int, m: int)
    requires x == y + WORD * m
    ensures Wrap(x) == Wrap(y)
  {
    WrapMultiple(y, m);
  }

  lemma Regroup(x: int, c: int, inverse: int, word: int, m: int, r: int)
    requires x * c == word * m + r
    ensures r * inverse == x * (c * inverse) - word * (m * inverse)
  {
    assert r == x * c - word * m;
    assert r * inverse == (x * c) * inverse - (word * m) * inverse;
    assert (x * c) * inverse == x * (c * inverse);
    assert (word * m) * inverse == word * (m * inverse);
  }

  lemma Spread(x: int, q: int, word: int, n: int)
    ensures x * (1 + q * word) - word * n == x + word * (x * q - n)
  {
    assert x * (1 + q * word) == x + x * (q * word);
    assert x * (q * word) == word * (x * q);
    assert word * (x * q) - word * n == word * (x * q - n);
  }

  lemma Unscaled(x: int, c: int, inverse: int, word: int, m: int, r: int, q: int)
    requires x * c == word * m + r && c * inverse == 1 + q * word
    ensures r * inverse == x + word * (x * q - m * inverse)
  {
    Regroup(x, c, inverse, word, m, r);
    Spread(x, q, word, m * inverse);
  }

  /** Multiplying by an odd constant is undone by its inverse modulo 2^64. */
  lemma MulInverse(x: U64, c: int, inverse: int, q: int)
    requires c * inverse == 1 + q * WORD
    ensures Wrap(Wrap(x * c) * inverse) == x
  {
    hide Wrap;
    var m, r := (x * c) / WORD, Wrap(x * c);
    Quotient(x * c);
    Unscaled(x, c, inverse, WORD, m, r, q);
    WrapShift(r * inverse, x, x * q - m * inverse);
    WrapSmall(x);
  }

  lemma WrapSmall(x: U64)
    ensures Wrap(x) == x
  {
  }
}
