/** The 64-bit multiplication overflow test computed from 32-bit limbs. */
module MulOverflow {
  import opened Ints
  import opened Words64

  const LIMB: int := UINT

  /** One unsigned 64-bit operation: its wrapped result, and whether it wrapped. */
  datatype Checked = Checked(value: U64, wrapped: bool)

  function MulWord(x: U64, y: U64): Checked { Checked(Wrap(x * y), x * y >= WORD) }

  function AddWord(x: U64, y: U64): Checked { Checked(Wrap(x + y), x + y >= WORD) }

  /** The carries of the four limb products, and the high word they give. */
  datatype Carries = Carries(t1: Checked, t: Checked, h1: Checked, h2: Checked, hi: Checked)

  function Carried(loLo: U64, mid1: U64, mid2: U64, hiHi: U64): Carries {
    var t1 := AddWord(loLo / LIMB, mid1 % LIMB);
    var t := AddWord(t1.value, mid2 % LIMB);
    var h1 := AddWord(hiHi, mid1 / LIMB);
    var h2 := AddWord(h1.value, mid2 / LIMB);
    Carries(t1, t, h1, h2, AddWord(h2.value, t.value / LIMB))
  }

  /** Every intermediate of the computation. */
  datatype Steps = Steps(loLo: Checked, mid1: Checked, mid2: Checked, hiHi: Checked, sums: Carries, product: U64)

  function Compute(a: U64, b: U64): Steps {
    var aLo, aHi := a % LIMB, a / LIMB;
    var bLo, bHi := b % LIMB, b / LIMB;
    var loLo := MulWord(aLo, bLo);
    var mid1 := MulWord(aLo, bHi);
    var mid2 := MulWord(aHi, bLo);
    var hiHi := MulWord(aHi, bHi);
    Steps(loLo, mid1, mid2, hiHi, Carried(loLo.value, mid1.value, mid2.value, hiHi.value), Wrap(a * b))
  }

  /** The function: the stored word, and whether it returns nonzero. */
  function CheckMulOverflow(a: U64, b: U64): (U64, bool) {
    var steps := Compute(a, b);
    (steps.product, steps.sums.hi.value != 0)
  }

  predicate SumWraps(c: Carries) {
    c.t1.wrapped || c.t.wrapped || c.h1.wrapped || c.h2.wrapped || c.hi.wrapped
  }

  predicate SomeWrap(s: Steps) {
    s.loLo.wrapped || s.mid1.wrapped || s.mid2.wrapped || s.hiHi.wrapped || SumWraps(s.sums)
  }

  lemma LimbProduct(x: nat, y: nat)
    requires x < LIMB && y < LIMB
    ensures 0 <= x * y <= (LIMB - 1) * (LIMB - 1)
  {
    assert x * y <= x * (LIMB - 1) by { MulMonotone(x, y, LIMB - 1); }
    assert x * (LIMB - 1) <= (LIMB - 1) * (LIMB - 1) by { MulMonotone(LIMB - 1, x, LIMB - 1); }
  }

  lemma MulMonotone(k: nat, x: nat, y: nat)
    requires x <= y
    ensures k * x <= k * y && 0 <= k * x
  {
    assert k * y - k * x == k * (y - x);
  }

  /** The schoolbook expansion of the product. */
  lemma Expand(aLo: nat, aHi: nat, bLo: nat, bHi: nat)
    ensures (aHi * LIMB + aLo) * (bHi * LIMB + bLo) ==
            (aHi * bHi) * WORD + (aLo * bHi + aHi * bLo) * LIMB + aLo * bLo
  {
    assert (aHi * LIMB + aLo) * (bHi * LIMB + bLo) ==
           (aHi * LIMB) * (bHi * LIMB) + (aHi * LIMB) * bLo + aLo * (bHi * LIMB) + aLo * bLo;
    assert (aHi * LIMB) * (bHi * LIMB) == (aHi * bHi) * WORD;
    assert (aHi * LIMB) * bLo == (aHi * bLo) * LIMB;
    assert aLo * (bHi * LIMB) == (aLo * bHi) * LIMB;
  }

  /** Carrying the limbs of the four products. */
  lemma Carry(loLo: nat, mid1: nat, mid2: nat, hiHi: nat)
    requires loLo < WORD && mid1 < WORD && mid2 < WORD
    ensures var t := loLo / LIMB + mid1 % LIMB + mid2 % LIMB;
            hiHi + mid1 / LIMB + mid2 / LIMB + t / LIMB == (hiHi * WORD + (mid1 + mid2) * LIMB + loLo) / WORD
  {
    var t := loLo / LIMB + mid1 % LIMB + mid2 % LIMB;
    var hi := hiHi + mid1 / LIMB + mid2 / LIMB + t / LIMB;
    var rest := (t % LIMB) * LIMB + loLo % LIMB;
    assert hiHi * WORD + (mid1 + mid2) * LIMB + loLo == hi * WORD + rest;
    assert rest < WORD;
  }

  lemma HighWord(p: nat, hi: nat)
    requires p < WORD * WORD && hi == p / WORD
    ensures hi < WORD && (hi != 0 <==> p >= WORD)
  {
  }

  lemma ProductBound(a: U64, b: U64)
    ensures 0 <= a * b < WORD * WORD
  {
    MulMonotone(a, b, WORD);
    MulMonotone(WORD, a, WORD - 1);
    assert a * WORD == WORD * a;
  }

  /** The partial sums stay inside a word because the whole high word does. */
  lemma SumsFit(loLo: U64, mid1: U64, mid2: U64, hiHi: U64, hi: U64)
    requires hi == hiHi + mid1 / LIMB + mid2 / LIMB + (loLo / LIMB + mid1 % LIMB + mid2 % LIMB) / LIMB
    ensures !SumWraps(Carried(loLo, mid1, mid2, hiHi)) && Carried(loLo, mid1, mid2, hiHi).hi.value == hi
  {
    hide AddWord;
    Halves(loLo);
    Halves(mid1);
    Halves(mid2);
    AddFits(loLo / LIMB, mid1 % LIMB);
    AddFits(loLo / LIMB + mid1 % LIMB, mid2 % LIMB);
    AddFits(hiHi, mid1 / LIMB);
    AddFits(hiHi + mid1 / LIMB, mid2 / LIMB);
    AddFits(hiHi + mid1 / LIMB + mid2 / LIMB, (loLo / LIMB + mid1 % LIMB + mid2 % LIMB) / LIMB);
  }

  lemma Halves(x: U64)
    ensures 0 <= x / LIMB < LIMB && 0 <= x % LIMB < LIMB
  {
  }

  lemma AddFits(x: nat, y: nat)
    requires x + y < WORD
    ensures AddWord(x, y) == Checked(x + y, false)
  {
  }

  lemma ProductsFit(a: U64, b: U64)
    ensures var aLo, aHi, bLo, bHi := a % LIMB, a / LIMB, b % LIMB, b / LIMB;
            0 <= aLo * bLo < WORD && 0 <= aLo * bHi < WORD && 0 <= aHi * bLo < WORD && 0 <= aHi * bHi < WORD
  {
    LimbProduct(a % LIMB, b % LIMB);
    LimbProduct(a % LIMB, b / LIMB);
    LimbProduct(a / LIMB, b % LIMB);
    LimbProduct(a / LIMB, b / LIMB);
  }

  lemma HighWordOfProducts(a: U64, b: U64, loLo: U64, mid1: U64, mid2: U64, hiHi: U64)
    requires loLo == (a % LIMB) * (b % LIMB) && mid1 == (a % LIMB) * (b / LIMB)
    requires mid2 == (a / LIMB) * (b % LIMB) && hiHi == (a / LIMB) * (b / LIMB)
    ensures hiHi + mid1 / LIMB + mid2 / LIMB + (loLo / LIMB + mid1 % LIMB + mid2 % LIMB) / LIMB == (a * b) / WORD
  {
    Expand(a % LIMB, a / LIMB, b % LIMB, b / LIMB);
    Carry(loLo, mid1, mid2, hiHi);
  }

  /** No step of the computation wraps, the high word is exact, and the answer is nonzero exactly
      when the true product does not fit. */
  lemma OverflowExact(a: U64, b: U64)
    ensures !SomeWrap(Compute(a, b))
    ensures Compute(a, b).sums.hi.value == (a * b) / WORD
    ensures CheckMulOverflow(a, b) == ((a * b) % WORD, a * b >= WORD)
  {
    hide Carried, SumWraps;
    ProductsFit(a, b);
    var steps := Compute(a, b);
    ProductBound(a, b);
    HighWord(a * b, (a * b) / WORD);
    HighWordOfProducts(a, b, steps.loLo.value, steps.mid1.value, steps.mid2.value, steps.hiHi.value);
    SumsFit(steps.loLo.value, steps.mid1.value, steps.mid2.value, steps.hiHi.value, (a * b) / WORD);
  }
}
