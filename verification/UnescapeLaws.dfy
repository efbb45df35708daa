/** What each escape means, in characters and numbers; text that is left alone; escaping and
    unescaping again, for three ways of writing bytes; and when nothing is cut. */
module UnescapeLaws {
  import opened Hex
  import opened Wrappers
  import opened Unescape

  // ---------- Which escapes there are ----------

  predicate AmongChars(c: Byte, chars: string) {
    exists k | 0 <= k < |chars| :: c as nat == chars[k] as nat
  }

  /** The letters t, n, v, f, r stand for the control characters 9 to 13, and no other is a space escape. */
  lemma SpaceLetters(c: Byte, b: Byte)
    ensures Space(c) == Some(b) <==> 9 <= b <= 13 && c as nat == "tnvfr"[b as nat - 9] as nat
  {
  }

  /** The special escapes: quote and backslash stand for themselves, a for 7, e for 27. */
  lemma SpecialChars(c: Byte, b: Byte)
    ensures Special(c) == Some(b) <==>
            (c as nat == '\"' as nat == b as nat) || (c as nat == '\\' as nat == b as nat) ||
            (c as nat == 'a' as nat && b == 7) || (c as nat == 'e' as nat && b == 27)
  {
  }

  lemma OctalDigits(c: Byte)
    ensures IsOctal(c) <==> '0' as nat <= c as nat <= '7' as nat
    ensures IsOctal(c) ==> OctalDigit(c) == c as nat - '0' as nat
  {
  }

  /** The classes begin with different characters, so each is governed by its own flag alone. */
  lemma EscapeByClass(s: Text, i: nat, flags: Flags)
    ensures var c := Peek(s, i);
            Escape(s, i, flags) ==
            if AmongChars(c, "tnvfr") then if flags.space then One(Space(c)) else None
            else if AmongChars(c, "01234567") then if flags.octal then Octal(s, i) else None
            else if AmongChars(c, "x") then if flags.hex then HexEscape(s, i) else None
            else if AmongChars(c, "\"\\ae") then if flags.special then One(Special(c)) else None
            else None
  {
    hide Octal, HexEscape;
    var c := Peek(s, i);
    AmongSpace(c);
    AmongOctal(c);
    AmongX(c);
    AmongSpecial(c);
    OctalOnDigits(s, i);
    HexAfterX(s, i);
  }

  lemma AmongSpace(c: Byte)
    ensures AmongChars(c, "tnvfr") <==> Space(c).Some?
    ensures Space(c).Some? ==> c > 0x39 && c != 0x78 && Special(c) == None
  {
    var t := "tnvfr";
    assert t[0] == 't' && t[1] == 'n' && t[2] == 'v' && t[3] == 'f' && t[4] == 'r';
  }

  lemma AmongOctal(c: Byte)
    ensures AmongChars(c, "01234567") <==> IsOctal(c)
    ensures IsOctal(c) ==> c <= 0x39 && Special(c) == None
  {
    var t := "01234567";
    assert t[0] == '0' && t[1] == '1' && t[2] == '2' && t[3] == '3';
    assert t[4] == '4' && t[5] == '5' && t[6] == '6' && t[7] == '7';
  }

  lemma AmongX(c: Byte)
    ensures AmongChars(c, "x") <==> c == 0x78
    ensures c == 0x78 ==> Special(c) == None
  {
    assert "x"[0] == 'x';
  }

  lemma AmongSpecial(c: Byte)
    ensures AmongChars(c, "\"\\ae") <==> Special(c).Some?
  {
    var t := "\"\\ae";
    assert t[0] == '\"' && t[1] == '\\' && t[2] == 'a' && t[3] == 'e';
  }

  lemma OctalOnDigits(s: Text, i: nat)
    ensures Octal(s, i).Some? <==> IsOctal(Peek(s, i))
  {
  }

  lemma HexAfterX(s: Text, i: nat)
    ensures HexEscape(s, i).Some? ==> Peek(s, i) == 0x78
  {
  }

  // ---------- What the numeric escapes stand for ----------

  /** The value of k octal digits from i on. */
  function OctalValue(s: Text, i: nat, k: nat): int {
    if k == 0 then 0 else 8 * OctalValue(s, i, k - 1) + (Peek(s, i + k - 1) as nat - '0' as nat)
  }

  ghost predicate OctalChars(s: Text, i: nat, k: nat) {
    forall j | i <= j < i + k :: '0' as nat <= Peek(s, j) as nat <= '7' as nat
  }

  lemma OctalFromStep(s: Text, q: nat, value: nat, taken: nat)
    requires taken <= 3 && value < 256
    ensures var c := Peek(s, q);
            OctalFrom(s, q, value, taken) ==
            if value < 32 && IsOctal(c) && taken < 3 then
              OctalBound(c); OctalFrom(s, q + 1, value * 8 + OctalDigit(c), taken + 1)
            else (value, taken)
  {
    hide IsOctal, OctalDigit;
  }

  lemma OneMore(s: Text, i: nat, k: nat)
    ensures OctalChars(s, i, k + 1) <==> OctalChars(s, i, k) && IsOctal(Peek(s, i + k))
    ensures IsOctal(Peek(s, i + k)) ==> OctalValue(s, i, k + 1) == 8 * OctalValue(s, i, k) + OctalDigit(Peek(s, i + k))
  {
    hide IsOctal, OctalDigit, Peek;
    OctalDigits(Peek(s, i + k));
  }

  /** What reading may end with, having read n digits. */
  ghost predicate OctalEnd(s: Text, i: nat, n: nat) {
    n <= 3 && OctalChars(s, i, n) && (n > 1 ==> OctalValue(s, i, n - 1) < 32) &&
    (n == 3 || OctalValue(s, i, n) >= 32 || !OctalChars(s, i, n + 1))
  }

  /** Reading goes on while there are digits, at most three, and the value is below 32. */
  lemma {:induction false} OctalReads(s: Text, i: nat, k: nat)
    requires 1 <= k <= 3 && 0 <= OctalValue(s, i, k) < 256 && OctalChars(s, i, k)
    requires k > 1 ==> OctalValue(s, i, k - 1) < 32
    ensures var (v, n) := OctalFrom(s, i + k, OctalValue(s, i, k), k);
            k <= n && v == OctalValue(s, i, n) && OctalEnd(s, i, n)
    decreases 3 - k
  {
    hide OctalDigit, IsOctal, OctalFrom, OctalValue, OctalChars;
    var c := Peek(s, i + k);
    OctalFromStep(s, i + k, OctalValue(s, i, k), k);
    OneMore(s, i, k);
    OctalBound(c);
    if OctalValue(s, i, k) < 32 && IsOctal(c) && k < 3 {
      OctalReads(s, i, k + 1);
    }
  }

  /** An octal escape is one to three digits and stands for their value: it takes a digit more
      exactly as long as there is one, the value so far is below 32 and there are fewer than three. */
  lemma OctalMeaning(s: Text, i: nat)
    requires OctalChars(s, i, 1)
    ensures Octal(s, i).Some?
    ensures var (v, n) := (Octal(s, i).value.byte as nat, Octal(s, i).value.taken);
            1 <= n && v == OctalValue(s, i, n) && OctalEnd(s, i, n)
  {
    hide OctalDigit, IsOctal, OctalFrom, OctalValue, OctalEnd;
    OctalDigits(Peek(s, i));
    OctalBound(Peek(s, i));
    OneOctal(s, i);
    OctalReads(s, i, 1);
    NatByte(OctalFrom(s, i + 1, OctalValue(s, i, 1), 1).0);
  }

  lemma OneOctal(s: Text, i: nat)
    ensures OctalValue(s, i, 1) == Peek(s, i) as nat - '0' as nat
  {
    assert OctalValue(s, i, 0) == 0;
  }

  lemma ByteNat(b: Byte)
    ensures b as nat < 256 && b as nat as bv8 == b
  {
  }

  lemma NextByte(b: Byte)
    requires b < 255
    ensures (b + 1) as nat == b as nat + 1
  {
  }

  lemma BelowLast(b: Byte)
    requires b as nat < 255
    ensures b < 255
  {
  }

  lemma NatByte(v: nat)
    requires v < 256
    ensures v as bv8 as nat == v
  {
    var b: Byte, n := 0, 0;
    while n < v
      invariant n <= v && b as nat == n
    {
      BelowLast(b);
      NextByte(b);
      b, n := b + 1, n + 1;
    }
    ByteNat(b);
  }

  lemma PackValue(hi: Byte, lo: Byte)
    requires hi < 16 && lo < 16
    ensures Pack(hi, lo) as nat == 16 * (hi as nat) + lo as nat
  {
    hide Pack;
    PackedNibbles(hi, lo);
    HighNibble(Pack(hi, lo));
    LowNibble(Pack(hi, lo));
  }

  /** A hexadecimal escape is an x and one or two digits, and stands for their value. */
  lemma HexMeaning(s: Text, i: nat)
    requires Peek(s, i) as nat == 'x' as nat && Digit(Peek(s, i + 1)).Some?
    ensures HexEscape(s, i).Some?
    ensures var (v, n) := (HexEscape(s, i).value.byte as nat, HexEscape(s, i).value.taken);
            var hi, lo := Digit(Peek(s, i + 1)), Digit(Peek(s, i + 2));
            if lo.Some? then n == 3 && v == 16 * (hi.value as nat) + lo.value as nat
            else n == 2 && v == hi.value as nat
  {
    hide Digit, Pack;
    HexToBinExact(Peek(s, i + 1));
    HexToBinExact(Peek(s, i + 2));
    if Digit(Peek(s, i + 2)).Some? {
      PackValue(Digit(Peek(s, i + 1)).value, Digit(Peek(s, i + 2)).value);
    }
  }

  // ---------- Text that is left alone ----------

  /** A backslash before any other character stays, with that character, whatever the flags. */
  lemma KeptAsIs(s: Text, i: nat, size: nat, flags: Flags)
    requires i + 1 < |s| && s[i] as nat == '\\' as nat && size > 2
    requires !AmongChars(s[i + 1], "tnvfr") && !AmongChars(s[i + 1], "01234567")
    requires !AmongChars(s[i + 1], "x") && !AmongChars(s[i + 1], "\"\\ae")
    ensures Output(s, i, size, flags) == [s[i], s[i + 1]] + Output(s, i + 2, size - 2, flags)
  {
    hide Escape;
    EscapeByClass(s, i + 1, flags);
  }

  /** So does a backslash before 8 or 9. */
  lemma EightAndNineKept(s: Text, i: nat, size: nat, flags: Flags)
    requires i + 1 < |s| && s[i] as nat == '\\' as nat && size > 2
    requires s[i + 1] as nat in {'8' as nat, '9' as nat}
    ensures Output(s, i, size, flags) == [s[i], s[i + 1]] + Output(s, i + 2, size - 2, flags)
  {
    hide Output;
    AmongSpace(s[i + 1]);
    AmongOctal(s[i + 1]);
    AmongX(s[i + 1]);
    AmongSpecial(s[i + 1]);
    KeptAsIs(s, i, size, flags);
  }

  // ---------- Size zero cuts nothing ----------

  lemma {:induction false} EnoughRoom(s: Text, i: nat, a: nat, b: nat, flags: Flags)
    requires i <= |s| && |s| - i < a && |s| - i < b
    ensures Output(s, i, a, flags) == Output(s, i, b, flags)
    decreases |s| - i
  {
    hide Escape;
    if i < |s| {
      if s[i] == BACKSLASH && i + 1 < |s| {
        if Escape(s, i + 1, flags).Some? {
          EscapeTakes(s, i + 1, flags);
          EnoughRoom(s, i + 1 + Escape(s, i + 1, flags).value.taken, a - 2, b - 2, flags);
        } else {
          EnoughRoom(s, i + 2, a - 2, b - 2, flags);
        }
      } else {
        EnoughRoom(s, i + 1, a - 1, b - 1, flags);
      }
    }
  }

  /** With size zero a text shorter than 2^64 - 1 is unescaped as with any size that holds it. */
  lemma SizeZeroCutsNothing(s: Text, size: nat, flags: Flags)
    requires |s| < 0xffff_ffff_ffff_ffff && |s| < size
    ensures Output(s, 0, Limit(0), flags) == Output(s, 0, size, flags)
  {
    hide Output;
    EnoughRoom(s, 0, Limit(0), size, flags);
  }
}
