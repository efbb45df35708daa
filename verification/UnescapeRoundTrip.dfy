/** Writing bytes with escapes and unescaping them again, for three ways of writing. */
module UnescapeRoundTrip {
  import opened Hex
  import opened Wrappers
  import opened Unescape
  import opened UnescapeLaws

  /** Every byte as x and two hexadecimal digits, every byte as three octal digits, or only those
      bytes that a space or special escape stands for. */
  datatype Writing = AsHex | AsOctal | AsLetters

  predicate Enabled(w: Writing, flags: Flags) {
    match w
    case AsHex => flags.hex
    case AsOctal => flags.octal
    case AsLetters => flags.space && flags.special
  }

  /** The letter of a byte that a space or special escape stands for. */
  function Letter(b: Byte): Option<Byte> {
    if 9 <= b <= 13 then Some([0x74, 0x6e, 0x76, 0x66, 0x72][b as nat - 9])
    else if b == 0x22 || b == 0x5c then Some(b)
    else if b == 7 then Some(0x61)
    else if b == 27 then Some(0x65)
    else None
  }

  function Written(w: Writing, b: Byte): (text: Text)
    ensures text != []
  {
    match w
    case AsHex => [0x5c, 0x78, Hi(b), Lo(b)]
    case AsOctal => [0x5c, 0x30 + (b >> 6), 0x30 + ((b >> 3) & 7), 0x30 + (b & 7)]
    case AsLetters => if Letter(b).Some? then [0x5c, Letter(b).value] else [b]
  }

  function WriteAll(w: Writing, bytes: seq<Byte>): Text {
    if bytes == [] then [] else Written(w, bytes[0]) + WriteAll(w, bytes[1..])
  }

  /** The size that unescaping takes: two for an escape, one for a plain byte. */
  function Cost(w: Writing, bytes: seq<Byte>): nat {
    if bytes == [] then 0 else (if |Written(w, bytes[0])| == 1 then 1 else 2) + Cost(w, bytes[1..])
  }

  lemma {:induction false} CostOfEscapes(w: Writing, bytes: seq<Byte>)
    requires !w.AsLetters?
    ensures Cost(w, bytes) == 2 * |bytes| && |WriteAll(w, bytes)| == 4 * |bytes|
  {
    if bytes != [] {
      CostOfEscapes(w, bytes[1..]);
    }
  }

  // ---------- One byte ----------

  /** The text s continues at i with what writes b. */
  ghost predicate At(s: Text, i: nat, w: Writing, b: Byte) {
    i + |Written(w, b)| <= |s| && s[i..i + |Written(w, b)|] == Written(w, b)
  }

  lemma HexReads(s: Text, i: nat, flags: Flags, b: Byte)
    requires flags.hex && i + 3 <= |s| && s[i] == 0x78 && s[i + 1] == Hi(b) && s[i + 2] == Lo(b)
    ensures Escape(s, i, flags) == Some(Token(b, 3))
  {
    hide Hi, Lo, Pack, Digit;
    ByteRoundTrip(b);
  }

  lemma OctalParts(b: Byte)
    ensures b >> 6 < 4 && (b >> 3) & 7 < 8 && b & 7 < 8 && (b >> 6) as nat < 4
    ensures b as nat == 64 * ((b >> 6) as nat) + 8 * (((b >> 3) & 7) as nat) + (b & 7) as nat
  {
  }

  lemma OctalDigitOf(d: Byte)
    requires d < 8
    ensures IsOctal(0x30 + d) && OctalDigit(0x30 + d) == d as nat < 8 && Space(0x30 + d) == None
  {
  }

  lemma OctalReads(s: Text, i: nat, flags: Flags, d2: Byte, d1: Byte, d0: Byte)
    requires flags.octal && i + 3 <= |s| && d2 < 4 && d2 as nat < 4 && d1 < 8 && d0 < 8
    requires s[i] == 0x30 + d2 && s[i + 1] == 0x30 + d1 && s[i + 2] == 0x30 + d0
    ensures var v := 64 * (d2 as nat) + 8 * (d1 as nat) + d0 as nat;
            v < 256 && Escape(s, i, flags) == Some(Token(v as bv8, 3))
  {
    hide IsOctal, OctalDigit, OctalFrom, Space;
    OctalDigitOf(d2);
    OctalDigitOf(d1);
    OctalDigitOf(d0);
    var m, n := d2 as nat, 8 * (d2 as nat) + d1 as nat;
    OctalFromStep(s, i + 1, m, 1);
    OctalFromStep(s, i + 2, n, 2);
    OctalFromStep(s, i + 3, 8 * n + d0 as nat, 3);
  }

  lemma OctalReadsByte(s: Text, i: nat, flags: Flags, b: Byte)
    requires flags.octal && i + 3 <= |s|
    requires s[i] == 0x30 + (b >> 6) && s[i + 1] == 0x30 + ((b >> 3) & 7) && s[i + 2] == 0x30 + (b & 7)
    ensures Escape(s, i, flags) == Some(Token(b, 3))
  {
    hide Escape;
    OctalParts(b);
    ByteNat(b);
    OctalReads(s, i, flags, b >> 6, (b >> 3) & 7, b & 7);
  }

  lemma LetterReads(s: Text, i: nat, flags: Flags, b: Byte)
    requires flags.space && flags.special && i < |s| && Letter(b) == Some(s[i])
    ensures Escape(s, i, flags) == Some(Token(b, 1))
  {
  }

  lemma SliceAt(s: Text, i: nat, text: Text, j: nat)
    requires i + |text| <= |s| && s[i..i + |text|] == text && j < |text|
    ensures s[i + j] == text[j]
  {
    assert s[i + j] == s[i..i + |text|][j];
  }

  /** An escaped byte is read back, whatever follows it. */
  lemma WrittenReads(w: Writing, s: Text, i: nat, flags: Flags, b: Byte)
    requires Enabled(w, flags) && At(s, i, w, b) && |Written(w, b)| > 1
    ensures s[i] == BACKSLASH && Escape(s, i + 1, flags) == Some(Token(b, |Written(w, b)| - 1))
  {
    hide Escape, Hi, Lo, Letter;
    var text := Written(w, b);
    SliceAt(s, i, text, 0);
    SliceAt(s, i, text, 1);
    if w.AsLetters? {
      LetterReads(s, i + 1, flags, b);
    } else {
      SliceAt(s, i, text, 2);
      SliceAt(s, i, text, 3);
      if w.AsHex? {
        HexReads(s, i + 1, flags, b);
      } else {
        OctalReadsByte(s, i + 1, flags, b);
      }
    }
  }

  /** A byte that is written as itself is no backslash. */
  lemma PlainByte(w: Writing, b: Byte)
    requires |Written(w, b)| == 1
    ensures Written(w, b) == [b] && b != BACKSLASH
  {
  }

  // ---------- All bytes ----------

  /** There is room for everything, or just the last byte's backslash fits and is itself the byte. */
  predicate Restored(w: Writing, bytes: seq<Byte>, size: nat) {
    size > Cost(w, bytes) || (bytes != [] && size == Cost(w, bytes) && bytes[|bytes| - 1] == BACKSLASH)
  }

  lemma HeadSame(bytes: seq<Byte>, rest: seq<Byte>)
    requires bytes != []
    ensures [bytes[0]] + rest == bytes <==> rest == bytes[1..]
  {
    assert bytes == [bytes[0]] + bytes[1..];
    assert ([bytes[0]] + rest)[1..] == rest;
  }

  lemma {:induction false} CostPositive(w: Writing, bytes: seq<Byte>)
    ensures Cost(w, bytes) >= |bytes|
  {
    hide Written;
    if bytes != [] {
      CostPositive(w, bytes[1..]);
    }
  }

  lemma RestoredStep(w: Writing, bytes: seq<Byte>, size: nat)
    requires bytes != []
    ensures var n := if |Written(w, bytes[0])| == 1 then 1 else 2;
            size > n ==> (Restored(w, bytes, size) <==> bytes[1..] == [] || Restored(w, bytes[1..], size - n))
    ensures |Written(w, bytes[0])| == 1 && size <= 1 ==> !Restored(w, bytes, size)
    ensures |Written(w, bytes[0])| > 1 && size <= 2 ==> (Restored(w, bytes, size) <==> size == 2 && bytes == [BACKSLASH])
  {
    hide Letter, Hi, Lo;
    CostPositive(w, bytes[1..]);
    if |Written(w, bytes[0])| == 1 {
      PlainByte(w, bytes[0]);
    }
  }

  lemma OutputEscape(s: Text, i: nat, size: nat, flags: Flags, token: Token)
    requires i < |s| && s[i] == BACKSLASH && i + 1 < |s| && Escape(s, i + 1, flags) == Some(token)
    ensures token.taken >= 1 && i + 1 + token.taken <= |s|
    ensures size > 2 ==> Output(s, i, size, flags) == [token.byte] + Output(s, i + 1 + token.taken, size - 2, flags)
    ensures size == 2 ==> Output(s, i, size, flags) == [BACKSLASH]
    ensures size <= 1 ==> Output(s, i, size, flags) == []
  {
    hide Escape;
    EscapeTakes(s, i + 1, flags);
    if size == 2 {
      assert Output(s, i + 1, 1, flags) == [];
    }
  }

  lemma OutputPlain(s: Text, i: nat, size: nat, flags: Flags)
    requires i < |s| && s[i] != BACKSLASH
    ensures Output(s, i, size, flags) == if size <= 1 then [] else [s[i]] + Output(s, i + 1, size - 1, flags)
  {
    hide Escape;
  }

  /** From the end of a prefix on. */
  lemma {:induction false} WrittenOutput(w: Writing, prefix: Text, bytes: seq<Byte>, size: nat, flags: Flags)
    requires Enabled(w, flags)
    ensures Output(prefix + WriteAll(w, bytes), |prefix|, size, flags) == bytes <==>
            bytes == [] || Restored(w, bytes, size)
    decreases |bytes|
  {
    hide Escape, Output, Enabled, Written, Restored;
    var s, i := prefix + WriteAll(w, bytes), |prefix|;
    if bytes == [] {
      NothingWritten(w, prefix, size, flags);
    } else {
      var text, rest := Written(w, bytes[0]), WriteAll(w, bytes[1..]);
      assert s == (prefix + text) + rest;
      assert s[i..i + |text|] == text;
      RestoredStep(w, bytes, size);
      if |text| == 1 {
        PlainByte(w, bytes[0]);
        assert s[i] == bytes[0];
        OutputPlain(s, i, size, flags);
        if size > 1 {
          WrittenOutput(w, prefix + text, bytes[1..], size - 1, flags);
          HeadSame(bytes, Output(s, i + 1, size - 1, flags));
        }
      } else {
        WrittenReads(w, s, i, flags, bytes[0]);
        OutputEscape(s, i, size, flags, Token(bytes[0], |text| - 1));
        if size > 2 {
          WrittenOutput(w, prefix + text, bytes[1..], size - 2, flags);
          HeadSame(bytes, Output(s, i + |text|, size - 2, flags));
        }
      }
    }
  }

  lemma NothingWritten(w: Writing, prefix: Text, size: nat, flags: Flags)
    ensures Output(prefix + WriteAll(w, []), |prefix|, size, flags) == []
  {
  }

  /** Unescaping restores what was written exactly when the destination has room for two
      characters an escaped byte, one a plain byte, and the terminator, or is one short of that
      and the last byte is a backslash. */
  lemma RoundTrip(w: Writing, bytes: seq<Byte>, size: nat, flags: Flags)
    requires Enabled(w, flags) && (w.AsLetters? ==> NoNul(bytes))
    ensures Output(WriteAll(w, bytes), 0, Limit(size), flags) == bytes <==>
            Limit(size) > Cost(w, bytes) ||
            (bytes != [] && Limit(size) == Cost(w, bytes) && bytes[|bytes| - 1] == BACKSLASH)
    ensures !w.AsLetters? ==> Cost(w, bytes) == 2 * |bytes|
    ensures NoNul(WriteAll(w, bytes))
  {
    hide Output, Enabled, Written;
    WrittenOutput(w, [], bytes, Limit(size), flags);
    assert [] + WriteAll(w, bytes) == WriteAll(w, bytes);
    if bytes == [] {
      assert Cost(w, bytes) == 0;
    }
    if !w.AsLetters? {
      CostOfEscapes(w, bytes);
    }
    WrittenNoNul(w, bytes);
  }

  lemma ByteNoNul(w: Writing, b: Byte)
    requires w.AsLetters? ==> b != 0
    ensures NoNul(Written(w, b))
  {
  }

  /** What is written is a string. */
  lemma {:induction false} WrittenNoNul(w: Writing, bytes: seq<Byte>)
    requires w.AsLetters? ==> NoNul(bytes)
    ensures NoNul(WriteAll(w, bytes))
  {
    hide Written;
    if bytes != [] {
      ByteNoNul(w, bytes[0]);
      WrittenNoNul(w, bytes[1..]);
    }
  }
}
