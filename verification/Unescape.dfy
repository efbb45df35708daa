/** The backslash unescaper, which may run in place. */
module Unescape {
  import opened Hex
  import opened Wrappers

  const SIZE_MAX: nat := 0xffff_ffff_ffff_ffff

  const BACKSLASH: Byte := 0x5c

  datatype Flags = Flags(space: bool, octal: bool, hex: bool, special: bool)

  /** A string without its terminator; reading at or past the end gives the terminator. */
  type Text = seq<Byte>

  function Peek(s: Text, i: nat): Byte { if i < |s| then s[i] else 0 }

  ghost predicate NoNul(s: Text) {
    forall i | 0 <= i < |s| :: s[i] != 0
  }

  // ---------- What an escape stands for ----------

  /** One unescaped byte, and how many characters after the backslash it took. */
  datatype Token = Token(byte: Byte, taken: nat)

  function Space(c: Byte): Option<Byte> {
    if c == 0x6e then Some(0x0a)
    else if c == 0x72 then Some(0x0d)
    else if c == 0x74 then Some(0x09)
    else if c == 0x76 then Some(0x0b)
    else if c == 0x66 then Some(0x0c)
    else None
  }

  function Special(c: Byte): Option<Byte> {
    if c == 0x22 then Some(0x22)
    else if c == 0x5c then Some(0x5c)
    else if c == 0x61 then Some(0x07)
    else if c == 0x65 then Some(0x1b)
    else None
  }

  predicate IsOctal(c: Byte) { 0x30 <= c <= 0x37 }

  function OctalDigit(c: Byte): nat { (c & 7) as nat }

  /** Up to three octal digits, stopping before a value could pass 255: the value and their
      number, given those already read. */
  function OctalFrom(s: Text, i: nat, value: nat, taken: nat): (r: (nat, nat))
    requires taken <= 3 && value < 256
    ensures r.0 < 256 && taken <= r.1 <= 3
    ensures i <= |s| ==> i + (r.1 - taken) <= |s|
    decreases 3 - taken
  {
    if value < 32 && IsOctal(Peek(s, i)) && taken < 3 then
      OctalBound(Peek(s, i));
      OctalFrom(s, i + 1, value * 8 + OctalDigit(Peek(s, i)), taken + 1)
    else (value, taken)
  }

  lemma OctalBound(c: Byte)
    ensures OctalDigit(c) < 8
  {
  }

  function Octal(s: Text, i: nat): Option<Token> {
    if !IsOctal(Peek(s, i)) then None
    else
      OctalBound(Peek(s, i));
      var (value, taken) := OctalFrom(s, i + 1, OctalDigit(Peek(s, i)), 1);
      Some(Token(value as bv8, taken))
  }

  function HexEscape(s: Text, i: nat): Option<Token> {
    if Peek(s, i) != 0x78 then None
    else
      match Digit(Peek(s, i + 1))
      case None => None
      case Some(hi) =>
        match Digit(Peek(s, i + 2))
        case None => Some(Token(hi, 2))
        case Some(lo) => Some(Token(Pack(hi, lo), 3))
  }

  function One(byte: Option<Byte>): Option<Token> {
    if byte.Some? then Some(Token(byte.value, 1)) else None
  }

  /** The enabled classes, tried in a fixed order. */
  function Escape(s: Text, i: nat, flags: Flags): Option<Token> {
    if flags.space && Space(Peek(s, i)).Some? then One(Space(Peek(s, i)))
    else if flags.octal && Octal(s, i).Some? then Octal(s, i)
    else if flags.hex && HexEscape(s, i).Some? then HexEscape(s, i)
    else if flags.special then One(Special(Peek(s, i)))
    else None
  }

  lemma EscapeTakes(s: Text, i: nat, flags: Flags)
    requires Escape(s, i, flags).Some?
    ensures var taken := Escape(s, i, flags).value.taken; 1 <= taken && i + taken <= |s|
  {
    DigitOfNul();
  }

  lemma DigitOfNul()
    ensures Digit(0) == None && !IsOctal(0)
  {
  }

  // ---------- The whole string ----------

  /** The output for the rest of the string, in a destination with `size` bytes left, the
      terminator included. */
  function Output(s: Text, i: nat, size: nat, flags: Flags): seq<Byte>
    requires i <= |s|
    decreases |s| - i
  {
    if i == |s| || size <= 1 then []
    else if s[i] == BACKSLASH && i + 1 < |s| && size > 2 then
      match Escape(s, i + 1, flags)
      case Some(token) =>
        EscapeTakes(s, i + 1, flags);
        [token.byte] + Output(s, i + 1 + token.taken, size - 2, flags)
      case None =>
        [BACKSLASH, s[i + 1]] + Output(s, i + 2, size - 2, flags)
    else [s[i]] + Output(s, i + 1, size - 1, flags)
  }

  /** The output is never longer than the input it comes from, and leaves room for the terminator. */
  lemma {:induction false} OutputBounded(s: Text, i: nat, size: nat, flags: Flags)
    requires i <= |s| && size > 0
    ensures |Output(s, i, size, flags)| <= |s| - i
    ensures |Output(s, i, size, flags)| < size
    decreases |s| - i
  {
    hide Escape;
    if i < |s| && size > 1 {
      if s[i] == BACKSLASH && i + 1 < |s| && size > 2 {
        if Escape(s, i + 1, flags).Some? {
          EscapeTakes(s, i + 1, flags);
          OutputBounded(s, i + 1 + Escape(s, i + 1, flags).value.taken, size - 2, flags);
        } else {
          OutputBounded(s, i + 2, size - 2, flags);
        }
      } else {
        OutputBounded(s, i + 1, size - 1, flags);
      }
    }
  }

  function Limit(size: nat): nat { if size == 0 then SIZE_MAX else size }

  function Min(a: int, b: int): int { if a < b then a else b }

  lemma NoFlagsNoEscape(s: Text, i: nat)
    ensures Escape(s, i, Flags(false, false, false, false)) == None
  {
  }

  lemma SplitOne(s: Text, i: nat, end: nat)
    requires i < end <= |s|
    ensures s[i..end] == [s[i]] + s[i + 1..end]
  {
  }

  /** With no class enabled the string is copied, cut to the room there is. */
  lemma {:induction false} NoFlagsCopies(s: Text, i: nat, size: nat)
    requires i <= |s| && size > 0
    ensures Output(s, i, size, Flags(false, false, false, false)) == s[i..Min(|s|, i + size - 1)]
    decreases |s| - i
  {
    hide Escape;
    var end := Min(|s|, i + size - 1);
    if i < |s| && size > 1 {
      SplitOne(s, i, end);
      if s[i] == BACKSLASH && i + 1 < |s| && size > 2 {
        SplitOne(s, i + 1, end);
        NoFlagsNoEscape(s, i + 1);
        NoFlagsCopies(s, i + 2, size - 2);
      } else {
        NoFlagsCopies(s, i + 1, size - 1);
      }
    }
  }
}
