/** The unescaper's loop over byte arrays. The destination may be the source itself: the output
    index never passes the input index, so nothing unread is overwritten. */
module UnescapeInPlace {
  import opened Hex
  import opened Wrappers
  import opened Unescape

  /** The text of an array up to its first NUL. */
  function CText(a: seq<Byte>): (text: Text)
    ensures |text| <= |a| && text == a[..|text|] && NoNul(text)
    ensures |text| < |a| ==> a[|text|] == 0
  {
    if a == [] || a[0] == 0 then [] else [a[0]] + CText(a[1..])
  }

  /** From index i on, the array still holds the text and its terminator. */
  ghost predicate Holds(src: seq<Byte>, text: Text, i: nat) {
    |text| < |src| && forall j | i <= j <= |text| :: src[j] == Peek(text, j)
  }

  /** What an escape helper did: stored the token's byte and moved past it, or nothing. */
  ghost predicate Wrote(before: seq<Byte>, after: seq<Byte>, i: nat, o: nat, token: Option<Token>,
                        ok: bool, nextI: nat, nextO: nat)
  {
    if token.Some? then
      ok && o < |before| && after == before[o := token.value.byte] &&
      nextI == i + token.value.taken && nextO == o + 1
    else
      !ok && after == before && nextI == i && nextO == o
  }

  method UnescapeSpace(src: array<Byte>, dst: array<Byte>, i: nat, o: nat, ghost text: Text)
    returns (ok: bool, nextI: nat, nextO: nat)
    requires Holds(src[..], text, i) && i <= |text| && o < dst.Length
    modifies dst
    ensures Wrote(old(dst[..]), dst[..], i, o, One(Space(Peek(text, i))), ok, nextI, nextO)
  {
    var c := src[i];
    if c == 0x6e { dst[o] := 0x0a; }
    else if c == 0x72 { dst[o] := 0x0d; }
    else if c == 0x74 { dst[o] := 0x09; }
    else if c == 0x76 { dst[o] := 0x0b; }
    else if c == 0x66 { dst[o] := 0x0c; }
    else { return false, i, o; }
    return true, i + 1, o + 1;
  }

  method UnescapeSpecial(src: array<Byte>, dst: array<Byte>, i: nat, o: nat, ghost text: Text)
    returns (ok: bool, nextI: nat, nextO: nat)
    requires Holds(src[..], text, i) && i <= |text| && o < dst.Length
    modifies dst
    ensures Wrote(old(dst[..]), dst[..], i, o, One(Special(Peek(text, i))), ok, nextI, nextO)
  {
    var c := src[i];
    if c == 0x22 { dst[o] := 0x22; }
    else if c == 0x5c { dst[o] := 0x5c; }
    else if c == 0x61 { dst[o] := 0x07; }
    else if c == 0x65 { dst[o] := 0x1b; }
    else { return false, i, o; }
    return true, i + 1, o + 1;
  }

  /** In a byte, shifting by three and adding a digit does not wrap while the value is below 32. */
  lemma OctalFits(num: Byte, c: Byte)
    requires num < 32
    ensures (num << 3) as nat == num as nat * 8 && ((num << 3) + (c & 7)) as nat == num as nat * 8 + OctalDigit(c)
  {
    OctalShift(num);
    OctalAdd(num << 3, c & 7);
  }

  lemma OctalShift(num: Byte)
    requires num < 32
    ensures num << 3 == 8 * num && (8 * num) as nat == 8 * (num as nat)
    ensures num << 3 <= 248
  {
  }

  lemma OctalAdd(x: Byte, d: Byte)
    requires x <= 248 && d < 8
    ensures (x + d) as nat == x as nat + d as nat
  {
  }

  /** Reads the octal digits at i: at most three, while the value stays below 32. */
  method ScanOctal(src: array<Byte>, i: nat, ghost text: Text) returns (num: Byte, q: nat)
    requires Holds(src[..], text, i) && NoNul(text) && i <= |text| && IsOctal(src[i])
    ensures i < q <= |text| && Octal(text, i) == Some(Token(num, q - i))
  {
    hide OctalFrom, IsOctal, Octal;
    num := src[i] & 7;
    q := i + 1;
    FirstOctal(text, i, num);
    ghost var goal := OctalFrom(text, q, num as nat, 1);
    while num < 32 && IsOctal(src[q]) && q - i < 3
      invariant i < q <= i + 3 && q <= |text|
      invariant OctalFrom(text, q, num as nat, q - i) == goal
      decreases i + 3 - q
    {
      OctalNext(text, q, num, q - i);
      num := num << 3;
      num := num + (src[q] & 7);
      q := q + 1;
    }
    OctalEnd(text, q, num, q - i);
    NumberRoundTrip(num);
  }

  lemma FirstOctal(text: Text, i: nat, num: Byte)
    requires NoNul(text) && i <= |text| && IsOctal(Peek(text, i)) && num == Peek(text, i) & 7
    ensures i < |text|
    ensures var (value, taken) := OctalFrom(text, i + 1, num as nat, 1);
            Octal(text, i) == Some(Token(value as bv8, taken))
  {
    hide OctalFrom;
    DigitOfNul();
  }

  lemma OctalNext(text: Text, q: nat, num: Byte, taken: nat)
    requires q <= |text| && taken < 3 && num < 32 && IsOctal(Peek(text, q))
    ensures q < |text|
    ensures OctalFrom(text, q, num as nat, taken) ==
            OctalFrom(text, q + 1, ((num << 3) + (Peek(text, q) & 7)) as nat, taken + 1)
  {
    hide OctalFrom, IsOctal;
    OctalFits(num, Peek(text, q));
    OctalStep(text, q, num, taken);
  }

  lemma OctalStep(text: Text, q: nat, num: Byte, taken: nat)
    requires taken < 3 && num < 32 && IsOctal(Peek(text, q)) && q <= |text|
    ensures q < |text| && num as nat < 32 && num as nat * 8 + OctalDigit(Peek(text, q)) < 256
    ensures OctalFrom(text, q, num as nat, taken) ==
            OctalFrom(text, q + 1, num as nat * 8 + OctalDigit(Peek(text, q)), taken + 1)
  {
    DigitOfNul();
    NumberRoundTrip(num);
    OctalBound(Peek(text, q));
  }

  lemma OctalEnd(text: Text, q: nat, num: Byte, taken: nat)
    requires taken <= 3 && !(num < 32 && IsOctal(Peek(text, q)) && taken < 3)
    ensures OctalFrom(text, q, num as nat, taken) == (num as nat, taken)
  {
    NumberRoundTrip(num);
  }

  method UnescapeOctal(src: array<Byte>, dst: array<Byte>, i: nat, o: nat, ghost text: Text)
    returns (ok: bool, nextI: nat, nextO: nat)
    requires Holds(src[..], text, i) && NoNul(text) && i <= |text| && o < dst.Length
    modifies dst
    ensures Wrote(old(dst[..]), dst[..], i, o, Octal(text, i), ok, nextI, nextO)
  {
    hide IsOctal, OctalFrom;
    if !IsOctal(src[i]) {
      return false, i, o;
    }
    var num, q := ScanOctal(src, i, text);
    dst[o] := num;
    return true, q, o + 1;
  }

  lemma NumberRoundTrip(num: Byte)
    ensures (num as nat) as bv8 == num && num < 32 <==> num as nat < 32
  {
  }

  method UnescapeHex(src: array<Byte>, dst: array<Byte>, i: nat, o: nat, ghost text: Text)
    returns (ok: bool, nextI: nat, nextO: nat)
    requires Holds(src[..], text, i) && NoNul(text) && i <= |text| && o < dst.Length
    modifies dst
    ensures Wrote(old(dst[..]), dst[..], i, o, HexEscape(text, i), ok, nextI, nextO)
  {
    hide Digit, HexToBin, Pack;
    DigitOfNul();
    if src[i] != 0x78 {
      return false, i, o;
    }
    var digit := HexToBin(src[i + 1]);
    HexToBinExact(src[i + 1]);
    if Negative(digit) {
      return false, i, o;
    }
    var q := i + 2;
    var num := (digit & 0xff) as bv8;
    FirstDigit(Digit(src[i + 1]).value);
    digit := HexToBin(src[q]);
    HexToBinExact(src[q]);
    if !Negative(digit) {
      SecondDigit(num, Digit(src[q]).value);
      q := q + 1;
      num := PackInts(num as bv32, digit);
    }
    dst[o] := num;
    return true, q, o + 1;
  }

  lemma FirstDigit(d: Byte)
    requires d < 16
    ensures ((d as bv32) & 0xff) as bv8 == d
  {
  }

  lemma SecondDigit(num: Byte, d: Byte)
    requires num < 16 && d < 16
    ensures PackInts(num as bv32, d as bv32) == Pack(num, d)
  {
    PackIntsExact(num, d);
  }

  /** The four helpers in turn. */
  method UnescapeOne(src: array<Byte>, dst: array<Byte>, i: nat, o: nat, flags: Flags, ghost text: Text)
    returns (ok: bool, nextI: nat, nextO: nat)
    requires Holds(src[..], text, i) && NoNul(text) && i <= |text| && o < dst.Length
    modifies dst
    ensures Wrote(old(dst[..]), dst[..], i, o, Escape(text, i, flags), ok, nextI, nextO)
  {
    hide Space, Octal, HexEscape, Special, Peek;
    ok, nextI, nextO := false, i, o;
    ghost var before, unread := dst[..], src[..];
    if flags.space {
      ok, nextI, nextO := UnescapeSpace(src, dst, i, o, text);
      if ok { return; }
    }
    assert dst[..] == before && src[..] == unread;
    if flags.octal {
      ok, nextI, nextO := UnescapeOctal(src, dst, i, o, text);
      if ok { return; }
    }
    assert dst[..] == before && src[..] == unread;
    if flags.hex {
      ok, nextI, nextO := UnescapeHex(src, dst, i, o, text);
      if ok { return; }
    }
    assert dst[..] == before && src[..] == unread;
    if flags.special {
      ok, nextI, nextO := UnescapeSpecial(src, dst, i, o, text);
    }
  }

  // ---------- The loop ----------

  /** Room for the output in C terms: as many bytes as the caller says, or as the string takes. */
  predicate Room(capacity: nat, text: Text, size: nat) {
    |text| < capacity || 0 < size <= capacity
  }

  lemma RoomIsEnough(capacity: nat, text: Text, size: nat, flags: Flags)
    requires Room(capacity, text, size)
    ensures |Output(text, 0, Limit(size), flags)| < capacity
  {
    OutputBounded(text, 0, Limit(size), flags);
  }

  /** Between iterations: the output so far and the output still to come make the goal, what is
      unread is untouched, and the output index has not passed the input index. */
  ghost predicate Between(src: seq<Byte>, dst: seq<Byte>, was: seq<Byte>, text: Text, goal: seq<Byte>, flags: Flags,
                          i: nat, o: nat, size: nat)
  {
    o <= i <= |text| && size >= 1 && |was| == |dst| && o <= |goal| < |dst| &&
    Holds(src, text, i) && NoNul(text) &&
    dst[..o] + Output(text, i, size, flags) == goal && dst[o..] == was[o..]
  }

  lemma StoreOne(dst: seq<Byte>, was: seq<Byte>, goal: seq<Byte>, o: nat, b: Byte, rest: seq<Byte>)
    requires |was| == |dst| && |goal| < |dst| && o <= |dst|
    requires dst[..o] + ([b] + rest) == goal && dst[o..] == was[o..]
    ensures o < |goal| && dst[o := b][..o + 1] + rest == goal && dst[o := b][o + 1..] == was[o + 1..]
  {
    assert |goal| == o + 1 + |rest|;
    assert dst[o := b][..o + 1] == dst[..o] + [b];
    assert dst[o + 1..] == dst[o..][1..] && was[o + 1..] == was[o..][1..];
  }

  lemma HoldsAfterStore(src: seq<Byte>, text: Text, i: nat, o: nat, b: Byte)
    requires Holds(src, text, i) && o < i && o < |src|
    ensures Holds(src[o := b], text, i)
  {
  }

  /** A store behind the input index leaves the unread text alone, even when it is the source that
      is written. */
  method Store(src: array<Byte>, dst: array<Byte>, o: nat, b: Byte, ghost text: Text, ghost i: nat)
    requires o < dst.Length && o < i && Holds(src[..], text, i)
    modifies dst
    ensures dst[..] == old(dst[..])[o := b] && Holds(src[..], text, i)
  {
    ghost var unread := src[..];
    dst[o] := b;
    if src == dst {
      HoldsAfterStore(unread, text, i, o, b);
      assert src[..] == unread[o := b];
    } else {
      assert src[..] == unread;
    }
  }

  /** The plain character. */
  method CopyOne(src: array<Byte>, dst: array<Byte>, i: nat, o: nat, ghost text: Text, ghost rest: seq<Byte>,
                 ghost was: seq<Byte>, ghost goal: seq<Byte>)
    requires Holds(src[..], text, i) && o <= i < |text| && |was| == dst.Length && |goal| < dst.Length && o <= dst.Length
    requires dst[..o] + ([text[i]] + rest) == goal && dst[o..] == was[o..]
    modifies dst
    ensures Holds(src[..], text, i + 1) && o < |goal|
    ensures dst[..o + 1] + rest == goal && dst[o + 1..] == was[o + 1..]
  {
    StoreOne(dst[..], was, goal, o, text[i], rest);
    assert src[i] == text[i] && Holds(src[..], text, i + 1);
    Store(src, dst, o, src[i], text, i + 1);
  }

  /** Whether the loop looks for an escape at i. */
  predicate AtEscape(text: Text, i: nat, size: nat)
    requires i < |text|
  {
    text[i] == BACKSLASH && i + 1 < |text| && size > 2
  }

  lemma PlainOutput(text: Text, i: nat, size: nat, flags: Flags)
    requires i < |text| && size > 1 && !AtEscape(text, i, size)
    ensures Output(text, i, size, flags) == [text[i]] + Output(text, i + 1, size - 1, flags)
  {
  }

  lemma TokenOutput(text: Text, i: nat, size: nat, flags: Flags, token: Token)
    requires i < |text| && AtEscape(text, i, size) && Escape(text, i + 1, flags) == Some(token)
    ensures token.taken >= 1 && i + 1 + token.taken <= |text|
    ensures Output(text, i, size, flags) == [token.byte] + Output(text, i + 1 + token.taken, size - 2, flags)
  {
    hide Escape;
    EscapeTakes(text, i + 1, flags);
  }

  lemma LiteralOutput(text: Text, i: nat, size: nat, flags: Flags)
    requires i < |text| && AtEscape(text, i, size) && Escape(text, i + 1, flags) == None
    ensures Output(text, i, size, flags) == [BACKSLASH] + ([text[i + 1]] + Output(text, i + 2, size - 2, flags))
  {
    hide Escape;
    var rest := Output(text, i + 2, size - 2, flags);
    assert [BACKSLASH, text[i + 1]] + rest == [BACKSLASH] + ([text[i + 1]] + rest);
  }

  /** After an escape's byte has been stored. */
  lemma BetweenAfterToken(src0: seq<Byte>, dst0: seq<Byte>, src: seq<Byte>, alias: bool, was: seq<Byte>, text: Text,
                          goal: seq<Byte>, flags: Flags, i: nat, o: nat, size: nat, token: Token)
    requires Between(src0, dst0, was, text, goal, flags, i, o, size)
    requires i < |text| && AtEscape(text, i, size) && Escape(text, i + 1, flags) == Some(token)
    requires alias ==> src0 == dst0
    requires src == if alias then dst0[o := token.byte] else src0
    ensures Between(src, dst0[o := token.byte], was, text, goal, flags, i + 1 + token.taken, o + 1, size - 2)
  {
    hide Escape, Output, Holds;
    TokenOutput(text, i, size, flags, token);
    StoreOne(dst0, was, goal, o, token.byte, Output(text, i + 1 + token.taken, size - 2, flags));
    BetweenBounds(src0, dst0, was, text, goal, flags, i, o, size);
    HoldsAfterToken(src, src0, text, i + 1, i + 1 + token.taken, o, token.byte, alias);
  }

  /** The backslash and the next character as they are. */
  method LiteralStep(src: array<Byte>, dst: array<Byte>, i: nat, o: nat, size: nat, flags: Flags,
                     ghost text: Text, ghost goal: seq<Byte>, ghost was: seq<Byte>)
    requires Between(src[..], dst[..], was, text, goal, flags, i, o, size)
    requires i < |text| && AtEscape(text, i, size) && Escape(text, i + 1, flags) == None
    modifies dst
    ensures Between(src[..], dst[..], was, text, goal, flags, i + 2, o + 2, size - 2)
  {
    hide Escape, Output, Peek;
    LiteralOutput(text, i, size, flags);
    StoreOne(dst[..], was, goal, o, BACKSLASH, [text[i + 1]] + Output(text, i + 2, size - 2, flags));
    Store(src, dst, o, BACKSLASH, text, i + 1);
    CopyOne(src, dst, i + 1, o + 1, text, Output(text, i + 2, size - 2, flags), was, goal);
  }

  /** An iteration that meets a backslash with room for an escape. */
  method EscapeStep(src: array<Byte>, dst: array<Byte>, i0: nat, o0: nat, size0: nat, flags: Flags,
                    ghost text: Text, ghost goal: seq<Byte>, ghost was: seq<Byte>)
    returns (i: nat, o: nat, size: nat)
    requires Between(src[..], dst[..], was, text, goal, flags, i0, o0, size0)
    requires i0 < |text| && AtEscape(text, i0, size0)
    modifies dst
    ensures Between(src[..], dst[..], was, text, goal, flags, i, o, size) && i > i0
  {
    hide Escape, Output, Holds, Between;
    ghost var src0, dst0, token := src[..], dst[..], Escape(text, i0 + 1, flags);
    BetweenBounds(src0, dst0, was, text, goal, flags, i0, o0, size0);
    var ok;
    ok, i, o := UnescapeOne(src, dst, i0 + 1, o0, flags, text);
    size := size0 - 2;
    if ok {
      assert src[..] == if src == dst then dst0[o0 := token.value.byte] else src0;
      BetweenAfterToken(src0, dst0, src[..], src == dst, was, text, goal, flags, i0, o0, size0, token.value);
      return;
    }
    assert src[..] == src0;
    LiteralStep(src, dst, i0, o0, size0, flags, text, goal, was);
    return i + 1, o + 2, size;
  }

  lemma BetweenBounds(src: seq<Byte>, dst: seq<Byte>, was: seq<Byte>, text: Text, goal: seq<Byte>, flags: Flags,
                      i: nat, o: nat, size: nat)
    requires Between(src, dst, was, text, goal, flags, i, o, size) && i < |text|
    ensures o < |dst| && NoNul(text) && Holds(src, text, i + 1)
  {
    hide Output;
  }

  /** One iteration of the loop. */
  method UnescapeStep(src: array<Byte>, dst: array<Byte>, i0: nat, o0: nat, size0: nat, flags: Flags,
                      ghost text: Text, ghost goal: seq<Byte>, ghost was: seq<Byte>)
    returns (i: nat, o: nat, size: nat)
    requires Between(src[..], dst[..], was, text, goal, flags, i0, o0, size0) && i0 < |text| && size0 > 1
    modifies dst
    ensures Between(src[..], dst[..], was, text, goal, flags, i, o, size) && i > i0
  {
    hide Output, Peek;
    PeekInside(text, i0);
    PeekInside(text, i0 + 1);
    if src[i0] == BACKSLASH && src[i0 + 1] != 0 && size0 - 1 > 1 {
      i, o, size := EscapeStep(src, dst, i0, o0, size0, flags, text, goal, was);
    } else {
      i, o, size := i0, o0, size0 - 1;
      PlainOutput(text, i, size0, flags);
      CopyOne(src, dst, i, o, text, Output(text, i + 1, size, flags), was, goal);
      o := o + 1;
      i := i + 1;
    }
  }

  lemma PeekInside(text: Text, i: nat)
    requires NoNul(text)
    ensures Peek(text, i) != 0 <==> i < |text|
    ensures i < |text| ==> Peek(text, i) == text[i]
  {
  }

  lemma HoldsAfterToken(src: seq<Byte>, unread: seq<Byte>, text: Text, i: nat, next: nat, o: nat, b: Byte, alias: bool)
    requires Holds(unread, text, i) && i <= next && o < i && (alias ==> o < |unread|)
    requires src == if alias then unread[o := b] else unread
    ensures Holds(src, text, next)
  {
  }

  /** Unescapes src into dst, which may be the same array, and terminates it: the same bytes in
      either case, nothing past the terminator touched. */
  method StringUnescape(src: array<Byte>, dst: array<Byte>, size0: nat, flags: Flags) returns (n: nat)
    requires |CText(src[..])| < src.Length && Room(dst.Length, CText(src[..]), size0)
    modifies dst
    ensures var text := old(CText(src[..])); n == |Output(text, 0, Limit(size0), flags)|
    ensures n < dst.Length && dst[..n] == Output(old(CText(src[..])), 0, Limit(size0), flags) && dst[n] == 0
    ensures dst[n + 1..] == old(dst[n + 1..])
    ensures src != dst ==> src[..] == old(src[..])
    ensures size0 > 0 ==> n < size0
  {
    ghost var text, was := CText(src[..]), dst[..];
    ghost var goal := Output(text, 0, Limit(size0), flags);
    RoomIsEnough(dst.Length, text, size0, flags);
    OutputBounded(text, 0, Limit(size0), flags);
    var size: nat := if size0 == 0 then SIZE_MAX else size0;
    var i: nat, o: nat := 0, 0;
    while src[i] != 0 && size - 1 != 0
      invariant Between(src[..], dst[..], was, text, goal, flags, i, o, size)
      decreases |text| - i
    {
      i, o, size := UnescapeStep(src, dst, i, o, size, flags, text, goal, was);
    }
    dst[o] := 0;
    n := o;
  }
}
