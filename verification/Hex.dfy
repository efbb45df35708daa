/** The hexadecimal codec: the branch-free digit decoder, the encoder and the decoder. */
module Hex {
  import opened Wrappers

  type Byte = bv8

  const EINVAL: int := 22

  // ---------- One digit ----------

  /** The branch-free digit value in 32-bit two's complement; all ones (-1) for no digit. */
  function HexToBin(ch: Byte): bv32 {
    var c := ch as bv32;
    var cu := (ch & 0xdf) as bv32;
    0xffff_ffff
    + ((c - 0x30 + 1) & (((c - 0x39 - 1) & (0x30 - 1 - c)) >> 8))
    + ((cu - 0x41 + 11) & (((cu - 0x46 - 1) & (0x41 - 1 - cu)) >> 8))
  }

  /** The branching digit value of the list parser's stub. */
  function HexToBinStub(ch: Byte): bv32 {
    if 0x30 <= ch <= 0x39 then (ch - 0x30) as bv32
    else
      var lower := ch | 0x20;
      if 0x61 <= lower <= 0x66 then (lower - 0x61 + 10) as bv32 else 0xffff_ffff
  }

  /** What a character stands for. */
  function Digit(ch: Byte): Option<Byte> {
    if 0x30 <= ch <= 0x39 then Some(ch - 0x30)
    else if 0x41 <= ch <= 0x46 then Some(ch - 0x41 + 10)
    else if 0x61 <= ch <= 0x66 then Some(ch - 0x61 + 10)
    else None
  }

  function Negative(r: bv32): bool { r >= 0x8000_0000 }

  lemma BranchFreeIsStub(ch: Byte)
    ensures HexToBin(ch) == HexToBinStub(ch)
  {
  }

  /** Both decoders return the digit's value, and -1 for every other character. */
  lemma HexToBinExact(ch: Byte)
    ensures Negative(HexToBin(ch)) <==> Digit(ch) == None
    ensures Digit(ch) == None ==> HexToBin(ch) == 0xffff_ffff
    ensures Digit(ch).Some? ==> HexToBin(ch) == Digit(ch).value as bv32 && Digit(ch).value < 16
  {
    BranchFreeIsStub(ch);
    StubExact(ch);
  }

  lemma StubExact(ch: Byte)
    ensures Negative(HexToBinStub(ch)) <==> Digit(ch) == None
    ensures Digit(ch) == None ==> HexToBinStub(ch) == 0xffff_ffff
    ensures Digit(ch).Some? ==> HexToBinStub(ch) == Digit(ch).value as bv32 && Digit(ch).value < 16
  {
  }

  /** The lower-case digit of a nibble. */
  function HexAsc(n: Byte): Byte
    requires n < 16
  {
    if n < 10 then 0x30 + n else 0x61 + (n - 10)
  }

  function Hi(b: Byte): Byte { HexAsc((b >> 4) & 0xf) }

  function Lo(b: Byte): Byte { HexAsc(b & 0xf) }

  function Pack(hi: Byte, lo: Byte): Byte { (hi << 4) | lo }

  const LOWER_DIGITS: string := "0123456789abcdef"
  const UPPER_DIGITS: string := "0123456789ABCDEF"

  /** The digit of a nibble is the character at that place among the lower-case digits. */
  lemma AscIsDigit(n: Byte)
    requires n < 16
    ensures HexAsc(n) as nat == LOWER_DIGITS[n as nat] as nat
  {
  }

  /** A character stands for its place among the digits, of either case. */
  lemma DigitIsPlace(ch: Byte, n: Byte)
    ensures Digit(ch) == Some(n) <==>
            n < 16 && ch as nat in {LOWER_DIGITS[n as nat] as nat, UPPER_DIGITS[n as nat] as nat}
  {
  }

  lemma HighNibble(b: Byte)
    ensures (b >> 4) & 0xf < 16 && ((b >> 4) & 0xf) as nat == b as nat / 16
  {
  }

  lemma LowNibble(b: Byte)
    ensures b & 0xf < 16 && (b & 0xf) as nat == b as nat % 16
  {
  }

  /** The two characters of a byte are its digits in base sixteen, the high one first. */
  lemma ByteText(b: Byte)
    ensures Hi(b) as nat == LOWER_DIGITS[b as nat / 16] as nat
    ensures Lo(b) as nat == LOWER_DIGITS[b as nat % 16] as nat
  {
    hide HexAsc;
    HighNibble(b);
    LowNibble(b);
    AscIsDigit((b >> 4) & 0xf);
    AscIsDigit(b & 0xf);
  }

  lemma AscDigit(n: Byte)
    requires n < 16
    ensures Digit(HexAsc(n)) == Some(n)
  {
  }

  lemma PackNibbles(b: Byte)
    ensures Pack((b >> 4) & 0xf, b & 0xf) == b
  {
  }

  lemma PackedNibbles(hi: Byte, lo: Byte)
    requires hi < 16 && lo < 16
    ensures (Pack(hi, lo) >> 4) & 0xf == hi && Pack(hi, lo) & 0xf == lo
  {
  }

  /** A byte's two characters decode to the byte. */
  lemma ByteRoundTrip(b: Byte)
    ensures Digit(Hi(b)).Some? && Digit(Lo(b)).Some?
    ensures Pack(Digit(Hi(b)).value, Digit(Lo(b)).value) == b
  {
    AscDigit((b >> 4) & 0xf);
    AscDigit(b & 0xf);
    PackNibbles(b);
  }

  function Lower(ch: Byte): Byte {
    if 0x41 <= ch <= 0x46 then ch + 0x20 else ch
  }

  lemma DigitCase(ch: Byte)
    requires Digit(ch).Some?
    ensures Digit(ch).value < 16 && HexAsc(Digit(ch).value) == Lower(ch)
  {
  }

  /** Decoding two characters and encoding the byte gives them back in lower case. */
  lemma PairRoundTrip(a: Byte, b: Byte)
    requires Digit(a).Some? && Digit(b).Some?
    ensures Hi(Pack(Digit(a).value, Digit(b).value)) == Lower(a)
    ensures Lo(Pack(Digit(a).value, Digit(b).value)) == Lower(b)
  {
    hide Digit, HexAsc, Lower, Pack;
    DigitCase(a);
    DigitCase(b);
    PackedNibbles(Digit(a).value, Digit(b).value);
  }

  // ---------- Whole sequences ----------

  function Encode(bytes: seq<Byte>): (text: seq<Byte>)
    ensures |text| == 2 * |bytes|
  {
    if bytes == [] then [] else [Hi(bytes[0]), Lo(bytes[0])] + Encode(bytes[1..])
  }

  /** The bytes of the leading pairs of digits. */
  function Decode(text: seq<Byte>): (bytes: seq<Byte>)
    ensures 2 * |bytes| <= |text|
  {
    if |text| < 2 || Digit(text[0]) == None || Digit(text[1]) == None then []
    else [Pack(Digit(text[0]).value, Digit(text[1]).value)] + Decode(text[2..])
  }

  predicate AllDigits(text: seq<Byte>) {
    forall i | 0 <= i < |text| :: Digit(text[i]).Some?
  }

  function LowerAll(text: seq<Byte>): (lower: seq<Byte>)
    ensures |lower| == |text| && forall i | 0 <= i < |text| :: lower[i] == Lower(text[i])
  {
    seq(|text|, i requires 0 <= i < |text| => Lower(text[i]))
  }

  /** Decoding inverts encoding, and leaves what follows. */
  lemma {:induction false} DecodeEncode(bytes: seq<Byte>)
    ensures Decode(Encode(bytes)) == bytes && AllDigits(Encode(bytes))
  {
    hide Digit, Hi, Lo, Pack;
    if bytes != [] {
      ByteRoundTrip(bytes[0]);
      DecodeEncode(bytes[1..]);
      var text := Encode(bytes);
      assert text[2..] == Encode(bytes[1..]);
      assert text[0] == Hi(bytes[0]) && text[1] == Lo(bytes[0]);
      assert bytes == [bytes[0]] + bytes[1..];
      forall i | 0 <= i < |text| ensures Digit(text[i]).Some? {
        if i >= 2 { assert text[i] == text[2..][i - 2]; }
      }
    }
  }

  /** Every pair decodes exactly when every character is a digit, and re-encoding then gives the
      text in lower case. */
  lemma {:induction false} DecodeComplete(text: seq<Byte>)
    requires |text| % 2 == 0
    ensures 2 * |Decode(text)| == |text| <==> AllDigits(text)
    ensures AllDigits(text) ==> Encode(Decode(text)) == LowerAll(text)
  {
    hide Digit, Hi, Lo, Pack, Lower;
    if text != [] {
      var rest := text[2..];
      DecodeComplete(rest);
      assert forall i | 2 <= i < |text| :: text[i] == rest[i - 2];
      if Digit(text[0]).Some? && Digit(text[1]).Some? {
        PairRoundTrip(text[0], text[1]);
        assert AllDigits(text) <==> AllDigits(rest);
        assert Decode(text)[1..] == Decode(rest);
        assert LowerAll(text) == [Lower(text[0]), Lower(text[1])] + LowerAll(rest);
      }
    }
  }

  lemma {:induction false} EncodeAppend(bytes: seq<Byte>, b: Byte)
    ensures Encode(bytes + [b]) == Encode(bytes) + [Hi(b), Lo(b)]
  {
    hide Hi, Lo;
    if bytes != [] {
      EncodeAppend(bytes[1..], b);
      assert (bytes + [b])[1..] == bytes[1..] + [b];
    }
  }

  lemma DecodePair(text: seq<Byte>)
    requires |text| >= 2
    ensures var a, b := Digit(text[0]), Digit(text[1]);
            Decode(text) == if a.Some? && b.Some? then [Pack(a.value, b.value)] + Decode(text[2..]) else []
  {
    hide Digit, Pack;
  }

  lemma DecodeShort(text: seq<Byte>)
    requires |text| < 2
    ensures Decode(text) == []
  {
  }

  lemma AppendSplit(text: seq<Byte>, more: seq<Byte>)
    requires |text| >= 2
    ensures (text + more)[0] == text[0] && (text + more)[1] == text[1] && (text + more)[2..] == text[2..] + more
  {
  }

  /** More text after text that decodes completely. */
  lemma {:induction false} DecodeAppend(text: seq<Byte>, more: seq<Byte>)
    requires 2 * |Decode(text)| == |text|
    ensures Decode(text + more) == Decode(text) + Decode(more)
    decreases |text|
  {
    hide Digit, Pack, Decode;
    if text == [] {
      assert text + more == more;
    } else {
      DecodePair(text);
      DecodeAppend(text[2..], more);
      AppendSplit(text, more);
      DecodePair(text + more);
    }
  }

  // ---------- The loops ----------

  /** Writes two characters per byte, and returns where the text ends. */
  method Bin2Hex(dst: array<Byte>, src: array<Byte>, count: nat) returns (end: nat)
    requires dst != src && count <= src.Length && 2 * count <= dst.Length
    modifies dst
    ensures end == 2 * count
    ensures dst[..end] == Encode(src[..count])
    ensures dst[end..] == old(dst[2 * count..])
  {
    hide Hi, Lo, Encode;
    var n := 0;
    end := 0;
    EmptyEncode();
    while n < count
      invariant 0 <= n <= count && end == 2 * n
      invariant dst[..end] == Encode(src[..n])
      invariant dst[2 * count..] == old(dst[2 * count..])
    {
      EncodeAppend(src[..n], src[n]);
      assert src[..n + 1] == src[..n] + [src[n]];
      end := PackByte(dst, end, src[n]);
      n := n + 1;
    }
  }

  /** Writes the two characters of a byte, and returns where they end. */
  method PackByte(buf: array<Byte>, at: nat, b: Byte) returns (end: nat)
    requires at + 2 <= buf.Length
    modifies buf
    ensures end == at + 2 && buf[..end] == old(buf[..at]) + [Hi(b), Lo(b)]
    ensures buf[end..] == old(buf[at + 2..])
  {
    hide Hi, Lo;
    end := at;
    buf[end] := Hi(b);
    end := end + 1;
    buf[end] := Lo(b);
    end := end + 1;
  }

  /** Reads two digits per byte; stops with an error at the first other character, keeping what
      it has written. The destination may be the source. */
  method Hex2Bin(dst: array<Byte>, src: array<Byte>, count: nat) returns (rc: int)
    requires 2 * count <= src.Length && count <= dst.Length
    modifies dst
    ensures rc == 0 || rc == -22
    ensures rc == 0 <==> AllDigits(old(src[..2 * count]))
    ensures var bytes := Decode(old(src[..2 * count]));
            |bytes| <= count && dst[..|bytes|] == bytes && dst[|bytes|..] == old(dst[..])[|bytes|..]
  {
    hide Digit, Pack, PackInts, HexToBin, Decode, AllDigits;
    ghost var text := src[..2 * count];
    DecodeComplete(text);
    var n := 0;
    EmptyDecode();
    while n < count
      invariant 0 <= n <= count
      invariant Decode(text[..2 * n]) == dst[..n]
      invariant forall j | n <= j < dst.Length :: dst[j] == old(dst[j])
      invariant forall i | 2 * n <= i < 2 * count :: src[i] == text[i]
    {
      var hi := HexToBin(src[2 * n]);
      var lo := HexToBin(src[2 * n + 1]);
      HexToBinExact(text[2 * n]);
      HexToBinExact(text[2 * n + 1]);
      DecodeStep(text, n);
      if Negative(hi) {
        return -EINVAL;
      }
      if Negative(lo) {
        return -EINVAL;
      }
      PackIntsExact(Digit(text[2 * n]).value, Digit(text[2 * n + 1]).value);
      Store(dst, n, PackInts(hi, lo));
      n := n + 1;
    }
    assert text[..2 * n] == text;
    return 0;
  }

  method Store(dst: array<Byte>, n: nat, b: Byte)
    requires n < dst.Length
    modifies dst
    ensures dst[..n + 1] == old(dst[..n]) + [b]
    ensures forall j | n < j < dst.Length :: dst[j] == old(dst[j])
  {
    dst[n] := b;
  }

  lemma EmptyEncode()
    ensures Encode([]) == []
  {
  }

  lemma EmptyDecode()
    ensures Decode([]) == []
  {
  }

  /** (hi << 4) | lo computed on ints and stored in a byte. */
  function PackInts(hi: bv32, lo: bv32): Byte {
    (((hi << 4) | lo) & 0xff) as bv8
  }

  lemma PackIntsExact(hi: Byte, lo: Byte)
    requires hi < 16 && lo < 16
    ensures PackInts(hi as bv32, lo as bv32) == Pack(hi, lo)
  {
  }

  /** How decoding goes on, or stops, at pair n. */
  lemma DecodeStep(text: seq<Byte>, n: nat)
    requires 2 * n + 2 <= |text| && |Decode(text[..2 * n])| == n
    ensures var a, b := Digit(text[2 * n]), Digit(text[2 * n + 1]);
            if a.Some? && b.Some?
            then Decode(text[..2 * (n + 1)]) == Decode(text[..2 * n]) + [Pack(a.value, b.value)]
            else Decode(text) == Decode(text[..2 * n])
  {
    hide Digit, Pack, Decode;
    var head, pair, rest := text[..2 * n], text[2 * n..2 * n + 2], text[2 * n..];
    DecodeAppend(head, pair);
    DecodeAppend(head, rest);
    assert text[..2 * (n + 1)] == head + pair && text == head + rest;
    DecodePair(pair);
    DecodePair(rest);
    DecodeShort(pair[2..]);
  }
}
