/** Single bits of 64-bit words: what the bitwise operators and the two edge masks do to each. */
module BitWord {

  const ONES: bv64 := 0xffff_ffff_ffff_ffff

  /** A bit number in the form the shifts take. */
  type Index = k: bv7 | k < 64

  predicate Test(w: bv64, k: Index) { (w >> k) & 1 == 1 }

  function At(k: nat): Index
    requires k < 64
  {
    k as bv7
  }

  predicate Bit(w: bv64, k: nat)
    requires k < 64
  {
    Test(w, At(k))
  }

  function One(k: nat): bv64
    requires k < 64
  {
    1 << At(k)
  }

  /** All bits from start's position in its word upward. */
  function FirstWordMask(start: int): bv64 { ONES << At(start % 64) }

  /** All bits below the end of an nbits-bit map in its last word; the whole word when the map
      ends on a word boundary. */
  function LastWordMask(nbits: int): bv64 { BelowMask(At(nbits % 64)) }

  function BelowMask(m: Index): bv64 { ONES >> ((0 - m) & 63) }

  // ---------- Bit numbers as bit vectors ----------

  lemma IndexOrder(a: bv7, b: bv7)
    ensures a <= b <==> a as nat <= b as nat
  {
  }

  lemma IndexValue(k: nat)
    requires k < 64
    ensures At(k) as nat == k
  {
  }

  lemma IndexCompare(a: nat, b: nat)
    requires a < 64 && b < 64
    ensures At(a) <= At(b) <==> a <= b
    ensures At(a) == At(b) <==> a == b
  {
    hide At;
    IndexValue(a);
    IndexValue(b);
    IndexOrder(At(a), At(b));
  }

  /** Every bit vector below 64 is some bit number. */
  lemma IndexNumber(k: Index) returns (n: nat)
    ensures n < 64 && At(n) == k
  {
    n := k as nat;
  }

  // ---------- The operators, bit by bit ----------

  lemma TestAnd(a: bv64, b: bv64, k: Index)
    ensures Test(a & b, k) <==> Test(a, k) && Test(b, k)
  {
  }

  lemma TestOr(a: bv64, b: bv64, k: Index)
    ensures Test(a | b, k) <==> Test(a, k) || Test(b, k)
  {
  }

  lemma TestXor(a: bv64, b: bv64, k: Index)
    ensures Test(a ^ b, k) <==> Test(a, k) != Test(b, k)
  {
  }

  lemma TestAndNot(a: bv64, b: bv64, k: Index)
    ensures Test(a & !b, k) <==> Test(a, k) && !Test(b, k)
  {
  }

  lemma BitAnd(a: bv64, b: bv64, k: nat)
    requires k < 64
    ensures Bit(a & b, k) <==> Bit(a, k) && Bit(b, k)
  {
    hide At, Test;
    TestAnd(a, b, At(k));
  }

  lemma BitOr(a: bv64, b: bv64, k: nat)
    requires k < 64
    ensures Bit(a | b, k) <==> Bit(a, k) || Bit(b, k)
  {
    hide At, Test;
    TestOr(a, b, At(k));
  }

  lemma BitXor(a: bv64, b: bv64, k: nat)
    requires k < 64
    ensures Bit(a ^ b, k) <==> Bit(a, k) != Bit(b, k)
  {
    hide At, Test;
    TestXor(a, b, At(k));
  }

  lemma BitAndNot(a: bv64, b: bv64, k: nat)
    requires k < 64
    ensures Bit(a & !b, k) <==> Bit(a, k) && !Bit(b, k)
  {
    hide At, Test;
    TestAndNot(a, b, At(k));
  }

  // ---------- The masks, bit by bit ----------

  lemma TestFirst(s: Index, k: Index)
    ensures Test(ONES << s, k) <==> s <= k
  {
  }

  lemma TestShiftRight(s: Index, k: Index)
    ensures Test(ONES >> s, k) <==> k < 64 - s
  {
  }

  lemma TestLast(s: Index, k: Index)
    ensures Test(BelowMask(s), k) <==> s == 0 || k < s
  {
    TestShiftRight((0 - s) & 63, k);
    assert s != 0 ==> 64 - ((0 - s) & 63) == s;
  }

  lemma TestOne(s: Index, k: Index)
    ensures Test(1 << s, k) <==> k == s
  {
  }

  lemma BitFirst(s: int, k: nat)
    requires k < 64
    ensures Bit(FirstWordMask(s), k) <==> s % 64 <= k
  {
    hide At, Test;
    TestFirst(At(s % 64), At(k));
    IndexCompare(s % 64, k);
  }

  lemma BitBelow(m: nat, k: nat)
    requires m < 64 && k < 64
    ensures Bit(BelowMask(At(m)), k) <==> m == 0 || k < m
  {
    hide At, Test, BelowMask;
    TestLast(At(m), At(k));
    IndexBelow(m, k);
  }

  lemma IndexBelow(m: nat, k: nat)
    requires m < 64 && k < 64
    ensures At(m) == 0 || At(k) < At(m) <==> m == 0 || k < m
  {
    IndexCompare(m, k);
    IndexCompare(m, 0);
  }

  lemma BitLast(s: int, k: nat)
    requires k < 64
    ensures Bit(LastWordMask(s), k) <==> s % 64 == 0 || k < s % 64
  {
    hide Bit, BelowMask;
    BitBelow(s % 64, k);
  }

  lemma BitOne(s: nat, k: nat)
    requires s < 64 && k < 64
    ensures Bit(One(s), k) <==> k == s
  {
    hide At, Test, One;
    OneShifted(s);
    TestOne(At(s), At(k));
    IndexCompare(s, k);
  }

  lemma BitZero(k: nat)
    requires k < 64
    ensures !Bit(0, k)
  {
  }

  /** The C idiom for testing bits. */
  predicate Meets(w: bv64, mask: bv64) { w & mask != 0 }

  lemma TestMeets(w: bv64, k: Index, one: bv64)
    requires one == 1 << k
    ensures Meets(w, one) <==> Test(w, k)
  {
  }

  lemma OneShifted(k: nat)
    requires k < 64
    ensures One(k) == 1 << At(k)
  {
    hide At;
  }

  lemma BitProbe(w: bv64, k: nat)
    requires k < 64
    ensures Meets(w, One(k)) <==> Bit(w, k)
  {
    hide At, Test, One, Meets;
    OneShifted(k);
    TestMeets(w, At(k), One(k));
  }

  // ---------- A word is its bits ----------

  lemma SomeBit(w: bv64) returns (k: Index)
    requires w != 0
    ensures Test(w, k)
  {
    var rest := w;
    k := 0;
    if rest >> 32 != 0 { k := 32; rest := rest >> 32; }
    if rest >> 16 != 0 { k := k + 16; rest := rest >> 16; }
    if rest >> 8 != 0 { k := k + 8; rest := rest >> 8; }
    if rest >> 4 != 0 { k := k + 4; rest := rest >> 4; }
    if rest >> 2 != 0 { k := k + 2; rest := rest >> 2; }
    if rest >> 1 != 0 { k := k + 1; }
  }

  lemma XorZero(a: bv64, b: bv64)
    requires a ^ b == 0
    ensures a == b
  {
  }

  lemma WordExtensionality(a: bv64, b: bv64)
    requires forall k | 0 <= k < 64 :: Bit(a, k) <==> Bit(b, k)
    ensures a == b
  {
    if a ^ b == 0 {
      XorZero(a, b);
    } else {
      var k := SomeBit(a ^ b);
      var n := IndexNumber(k);
      BitXor(a, b, n);
    }
  }
}
