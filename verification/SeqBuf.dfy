/** The bounded append buffer. Overflow is a length one past the size; it is final, and what was
    accepted before it stays in the buffer. */
module SeqBuf {
  import opened Hex
  import opened Wrappers

  const MAX_MEMHEX_BYTES: nat := 8
  const SPACE: Byte := 0x20

  // ---------- The buffer as text ----------

  /** What a buffer of a given size holds: the text it has accepted, and whether it has refused
      something since. */
  datatype Buf = Buf(size: nat, text: seq<Byte>, overflowed: bool)

  /** Text to append, and the room it needs beyond its own length. */
  datatype Piece = Piece(text: seq<Byte>, slack: nat)

  predicate Accepts(b: Buf, p: Piece) {
    !b.overflowed && |b.text| + |p.text| + p.slack <= b.size
  }

  function Put(b: Buf, p: Piece): Buf {
    if Accepts(b, p) then b.(text := b.text + p.text) else b.(overflowed := true)
  }

  function PutAll(b: Buf, pieces: seq<Piece>): Buf
    decreases |pieces|
  {
    if pieces == [] then b else PutAll(Put(b, pieces[0]), pieces[1..])
  }

  function Texts(pieces: seq<Piece>): seq<Byte> {
    if pieces == [] then [] else pieces[0].text + Texts(pieces[1..])
  }

  /** Piece k does not fit behind everything before it. */
  predicate TooLong(b: Buf, pieces: seq<Piece>, k: nat)
    requires k < |pieces|
  {
    |b.text| + |Texts(pieces[..k])| + |pieces[k].text| + pieces[k].slack > b.size
  }

  /** The first k pieces fit and the next, if there is one, does not. */
  ghost predicate FitUpTo(b: Buf, pieces: seq<Piece>, k: nat) {
    k <= |pieces| && (forall i | 0 <= i < k :: !TooLong(b, pieces, i)) && (k < |pieces| ==> TooLong(b, pieces, k))
  }

  // ---------- Whole runs ----------

  lemma {:induction false} OverflowSticks(b: Buf, pieces: seq<Piece>)
    requires b.overflowed
    ensures PutAll(b, pieces) == b
    decreases |pieces|
  {
    if pieces != [] {
      OverflowSticks(b, pieces[1..]);
    }
  }

  lemma TooLongShift(b: Buf, pieces: seq<Piece>, k: nat)
    requires 0 < k < |pieces| && Accepts(b, pieces[0])
    ensures TooLong(b, pieces, k) <==> TooLong(Put(b, pieces[0]), pieces[1..], k - 1)
  {
    assert pieces[..k] == [pieces[0]] + pieces[1..][..k - 1];
    assert Texts(pieces[..k]) == pieces[0].text + Texts(pieces[1..][..k - 1]);
  }

  lemma FitShift(b: Buf, pieces: seq<Piece>, k: nat)
    requires pieces != [] && Accepts(b, pieces[0]) && FitUpTo(b, pieces, k)
    ensures k > 0 && FitUpTo(Put(b, pieces[0]), pieces[1..], k - 1)
  {
    hide TooLong, Put;
    FirstPiece(b, pieces);
    forall j | 0 <= j < |pieces| - 1
      ensures TooLong(Put(b, pieces[0]), pieces[1..], j) <==> TooLong(b, pieces, j + 1)
    {
      TooLongShift(b, pieces, j + 1);
    }
  }

  lemma FirstPiece(b: Buf, pieces: seq<Piece>)
    requires pieces != [] && !b.overflowed
    ensures TooLong(b, pieces, 0) <==> !Accepts(b, pieces[0])
  {
    assert pieces[..0] == [];
  }

  /** The text after a run of appends is that of the pieces before the first that does not fit. */
  lemma {:induction false} RunContent(b: Buf, pieces: seq<Piece>, k: nat)
    requires !b.overflowed && |b.text| <= b.size && k <= |pieces| && FitUpTo(b, pieces, k)
    ensures PutAll(b, pieces) == Buf(b.size, b.text + Texts(pieces[..k]), k < |pieces|)
    ensures |b.text + Texts(pieces[..k])| <= b.size
    decreases |pieces|
  {
    hide FitUpTo, TooLong;
    if pieces == [] {
      NoneFit(b, pieces, k);
    } else if Accepts(b, pieces[0]) {
      var next := Put(b, pieces[0]);
      FitShift(b, pieces, k);
      RunContent(next, pieces[1..], k - 1);
      assert pieces[..k] == [pieces[0]] + pieces[1..][..k - 1];
      assert b.text + Texts(pieces[..k]) == next.text + Texts(pieces[1..][..k - 1]);
    } else {
      NoneFit(b, pieces, k);
      OverflowSticks(Put(b, pieces[0]), pieces[1..]);
    }
  }

  lemma NoneFit(b: Buf, pieces: seq<Piece>, k: nat)
    requires !b.overflowed && FitUpTo(b, pieces, k) && (pieces != [] ==> !Accepts(b, pieces[0]))
    ensures k == 0 && b.text + Texts(pieces[..k]) == b.text
  {
    if pieces != [] {
      FirstPiece(b, pieces);
    }
  }

  lemma HowManyFit(b: Buf, pieces: seq<Piece>) returns (k: nat)
    ensures k <= |pieces| && FitUpTo(b, pieces, k)
  {
    hide TooLong;
    k := 0;
    while k < |pieces| && !TooLong(b, pieces, k)
      invariant k <= |pieces| && forall i | 0 <= i < k :: !TooLong(b, pieces, i)
    {
      k := k + 1;
    }
  }

  lemma {:induction false} PutAllAppend(b: Buf, a: seq<Piece>, c: seq<Piece>)
    ensures PutAll(b, a + c) == PutAll(PutAll(b, a), c)
    decreases |a|
  {
    if a == [] {
      assert a + c == c;
    } else {
      PutAllAppend(Put(b, a[0]), a[1..], c);
      assert (a + c)[1..] == a[1..] + c;
    }
  }

  // ---------- Hexadecimal text ----------

  function Reverse(s: seq<Byte>): (r: seq<Byte>)
    ensures |r| == |s|
  {
    if s == [] then [] else Reverse(s[1..]) + [s[0]]
  }

  /** The text of one chunk: its bytes last to first, then a space. */
  function ChunkText(chunk: seq<Byte>): seq<Byte> {
    Encode(Reverse(chunk)) + [SPACE]
  }

  function ChunkSize(n: nat): nat { if n < MAX_MEMHEX_BYTES then n else MAX_MEMHEX_BYTES }

  function Chunks(data: seq<Byte>): seq<Piece>
    decreases |data|
  {
    if data == [] then []
    else
      var n := ChunkSize(|data|);
      [Piece(ChunkText(data[..n]), 0)] + Chunks(data[n..])
  }

  /** The position of the first space, or the length. */
  function FirstSpace(text: seq<Byte>): (i: nat)
    ensures i <= |text| && (i < |text| ==> text[i] == SPACE)
  {
    if text == [] || text[0] == SPACE then 0 else 1 + FirstSpace(text[1..])
  }

  /** Reads the text back: splits at spaces, decodes each part, puts its bytes in order. */
  function ReadBack(text: seq<Byte>): seq<Byte>
    decreases |text|
  {
    var i := FirstSpace(text);
    if i == |text| then [] else Reverse(Decode(text[..i])) + ReadBack(text[i + 1..])
  }

  lemma SpaceIsNoDigit()
    ensures Digit(SPACE) == None
  {
  }

  lemma {:induction false} FirstSpaceAfter(digits: seq<Byte>, rest: seq<Byte>)
    requires AllDigits(digits)
    ensures FirstSpace(digits + [SPACE] + rest) == |digits|
  {
    hide Digit;
    SpaceIsNoDigit();
    if digits == [] {
      assert (digits + [SPACE] + rest)[0] == SPACE;
    } else {
      FirstSpaceAfter(digits[1..], rest);
      assert (digits + [SPACE] + rest)[1..] == digits[1..] + [SPACE] + rest;
    }
  }

  lemma {:induction false} ReverseAppend(s: seq<Byte>, b: Byte)
    ensures Reverse(s + [b]) == [b] + Reverse(s)
  {
    if s != [] {
      ReverseAppend(s[1..], b);
      assert (s + [b])[1..] == s[1..] + [b];
    }
  }

  lemma {:induction false} ReverseReverse(s: seq<Byte>)
    ensures Reverse(Reverse(s)) == s
  {
    if s != [] {
      ReverseReverse(s[1..]);
      ReverseAppend(Reverse(s[1..]), s[0]);
    }
  }

  lemma ReadBackStep(chunk: seq<Byte>, rest: seq<Byte>)
    ensures ReadBack(ChunkText(chunk) + rest) == chunk + ReadBack(rest)
  {
    hide Digit, Encode, Decode, Reverse, FirstSpace, AllDigits;
    var digits := Encode(Reverse(chunk));
    var text := ChunkText(chunk) + rest;
    assert text == digits + [SPACE] + rest;
    DecodeEncode(Reverse(chunk));
    FirstSpaceAfter(digits, rest);
    assert text[..|digits|] == digits && text[|digits| + 1..] == rest;
    ReverseReverse(chunk);
  }

  /** Reading the hexadecimal text back gives the bytes. */
  lemma {:induction false} ReadBackChunks(data: seq<Byte>)
    ensures ReadBack(Texts(Chunks(data))) == data
    decreases |data|
  {
    hide ChunkText, ReadBack;
    if data == [] {
      ReadBackNothing();
    } else {
      var n := ChunkSize(|data|);
      assert Texts(Chunks(data)) == ChunkText(data[..n]) + Texts(Chunks(data[n..])) by {
        assert Chunks(data)[1..] == Chunks(data[n..]);
      }
      ReadBackStep(data[..n], Texts(Chunks(data[n..])));
      ReadBackChunks(data[n..]);
      assert data == data[..n] + data[n..];
    }
  }

  lemma ReadBackNothing()
    ensures ReadBack([]) == []
  {
  }

  /** Two characters per byte and one space per chunk of eight. */
  lemma {:induction false} HexLength(data: seq<Byte>)
    ensures |Texts(Chunks(data))| == 2 * |data| + (|data| + 7) / 8
    decreases |data|
  {
    if data != [] {
      HexLength(data[ChunkSize(|data|)..]);
    }
  }

  // ---------- Runs of operations ----------

  datatype Op = Puts(str: seq<Byte>) | Putc(c: Byte) | Putmem(mem: seq<Byte>) | PutmemHex(data: seq<Byte>)

  /** A string has no NUL inside. */
  ghost predicate Legal(op: Op) {
    op.Puts? ==> forall i | 0 <= i < |op.str| :: op.str[i] != 0
  }

  /** A string needs room for its terminator, and hexadecimal text goes in chunk by chunk. */
  function Pieces(op: Op): seq<Piece> {
    match op
    case Puts(str) => [Piece(str, 1)]
    case Putc(c) => [Piece([c], 0)]
    case Putmem(mem) => [Piece(mem, 0)]
    case PutmemHex(data) => Chunks(data)
  }

  function Run(b: Buf, ops: seq<Op>): Buf
    decreases |ops|
  {
    if ops == [] then b else Run(PutAll(b, Pieces(ops[0])), ops[1..])
  }

  function AllPieces(ops: seq<Op>): seq<Piece> {
    if ops == [] then [] else Pieces(ops[0]) + AllPieces(ops[1..])
  }

  lemma {:induction false} RunIsPutAll(b: Buf, ops: seq<Op>)
    ensures Run(b, ops) == PutAll(b, AllPieces(ops))
    decreases |ops|
  {
    hide Pieces;
    if ops != [] {
      RunIsPutAll(PutAll(b, Pieces(ops[0])), ops[1..]);
      PutAllAppend(b, Pieces(ops[0]), AllPieces(ops[1..]));
    }
  }

  /** Every run overflows exactly when some piece is too long for the room left by all earlier
      ones, and ends with the text of all pieces before the first such. */
  lemma RunsHoldAllPieces(b: Buf, ops: seq<Op>) returns (k: nat)
    requires !b.overflowed && |b.text| <= b.size
    ensures FitUpTo(b, AllPieces(ops), k)
    ensures Run(b, ops) == Buf(b.size, b.text + Texts(AllPieces(ops)[..k]), k < |AllPieces(ops)|)
    ensures Run(b, ops).overflowed <==> exists i :: 0 <= i < |AllPieces(ops)| && TooLong(b, AllPieces(ops), i)
  {
    hide TooLong, Pieces;
    k := HowManyFit(b, AllPieces(ops));
    RunIsPutAll(b, ops);
    RunContent(b, AllPieces(ops), k);
  }

  /** A successful hexadecimal append grows the text by two characters a byte and one space a
      chunk, and what it added reads back as the bytes. */
  lemma HexAppend(b: Buf, data: seq<Byte>)
    requires !b.overflowed && |b.text| <= b.size && !PutAll(b, Chunks(data)).overflowed
    ensures var end := PutAll(b, Chunks(data));
            |end.text| == |b.text| + 2 * |data| + (|data| + 7) / 8 &&
            end.text[..|b.text|] == b.text && ReadBack(end.text[|b.text|..]) == data
  {
    hide Chunks, ReadBack, FitUpTo;
    var k := HowManyFit(b, Chunks(data));
    RunContent(b, Chunks(data), k);
    AllFit(b, Chunks(data), k);
    HexLength(data);
    ReadBackChunks(data);
  }

  lemma AllFit(b: Buf, pieces: seq<Piece>, k: nat)
    requires FitUpTo(b, pieces, k) && k >= |pieces|
    ensures pieces[..k] == pieces
  {
  }

  // ---------- The operations ----------

  /** The text of a NUL-terminated string. */
  function CString(s: seq<Byte>): (text: seq<Byte>)
    ensures |text| <= |s| && text == s[..|text|] && (|text| < |s| ==> s[|text|] == 0)
    ensures forall i | 0 <= i < |text| :: s[i] != 0
  {
    if s == [] || s[0] == 0 then [] else [s[0]] + CString(s[1..])
  }

  class SeqBuffer {
    const buffer: array<Byte>
    var len: nat
    ghost var text: seq<Byte>

    /** The accepted text is at the start of the buffer, and len is its length or one past the size. */
    ghost predicate Valid()
      reads this, buffer
    {
      |text| <= buffer.Length && text == buffer[..|text|] && (len == |text| || len == buffer.Length + 1)
    }

    ghost function View(): Buf
      reads this
    {
      Buf(buffer.Length, text, len > buffer.Length)
    }

    constructor (size: nat)
      ensures Valid() && fresh(buffer) && View() == Buf(size, [], false)
    {
      buffer := new Byte[size];
      len := 0;
      text := [];
    }

    method SetOverflow()
      requires Valid()
      modifies this`len
      ensures Valid() && View() == old(View()).(overflowed := true)
    {
      len := buffer.Length + 1;
    }

    method CanFit(n: nat) returns (fits: bool)
      requires Valid()
      ensures fits <==> !View().overflowed && |text| + n <= buffer.Length
    {
      fits := len + n <= buffer.Length;
    }

    /** Copies n bytes to the end of the text. */
    method Copy(src: array<Byte>, n: nat)
      requires src != buffer && n <= src.Length && len + n <= buffer.Length
      modifies buffer
      ensures buffer[..len] == old(buffer[..len])
      ensures buffer[len..len + n] == src[..n]
      ensures buffer[len + n..] == old(buffer[len + n..])
    {
      var i := 0;
      while i < n
        invariant 0 <= i <= n
        invariant buffer[..len] == old(buffer[..len])
        invariant buffer[len..len + i] == src[..i]
        invariant buffer[len + n..] == old(buffer[len + n..])
      {
        buffer[len + i] := src[i];
        assert buffer[len..len + i + 1] == buffer[len..len + i] + [src[i]];
        i := i + 1;
      }
    }

    method Puts(str: array<Byte>) returns (rc: int)
      requires Valid() && str != buffer && |CString(str[..])| < str.Length
      modifies this, buffer
      ensures Valid() && View() == Put(old(View()), Piece(CString(str[..]), 1))
      ensures rc == if View().overflowed then -1 else 0
      ensures if View().overflowed then buffer[..] == old(buffer[..])
              else buffer[|text|] == 0 && buffer[|text| + 1..] == old(buffer[..])[|text| + 1..]
    {
      ghost var more := CString(str[..]);
      var n := Strlen(str);
      var fits := CanFit(n + 1);
      if fits {
        Copy(str, n + 1);
        assert buffer[len..len + n] == buffer[len..len + n + 1][..n] == more;
        assert buffer[len + n] == buffer[len..len + n + 1][n] == 0;
        assert buffer[..len + n] == buffer[..len] + buffer[len..len + n];
        len := len + n;
        text := text + more;
        return 0;
      }
      SetOverflow();
      return -1;
    }

    static method Strlen(str: array<Byte>) returns (n: nat)
      requires |CString(str[..])| < str.Length
      ensures n == |CString(str[..])|
      ensures n < str.Length && str[n] == 0 && forall i | 0 <= i < n :: str[i] != 0
    {
      n := 0;
      CStringFrom(str[..], 0);
      while str[n] != 0
        invariant n <= |CString(str[..])|
        invariant |CString(str[..])| == n + |CString(str[n..])|
        decreases str.Length - n
      {
        CStringFrom(str[n..], 0);
        assert str[n..][1..] == str[n + 1..];
        n := n + 1;
      }
      assert str[n..][0] == 0;
    }

    method Putc(c: Byte) returns (rc: int)
      requires Valid()
      modifies this, buffer
      ensures Valid() && View() == Put(old(View()), Piece([c], 0))
      ensures rc == if View().overflowed then -1 else 0
      ensures View().overflowed ==> buffer[..] == old(buffer[..])
      ensures buffer[|text|..] == old(buffer[..])[|text|..]
    {
      var fits := CanFit(1);
      if fits {
        buffer[len] := c;
        len := len + 1;
        text := text + [c];
        return 0;
      }
      SetOverflow();
      return -1;
    }

    method Putmem(mem: array<Byte>, n: nat) returns (rc: int)
      requires Valid() && mem != buffer && n <= mem.Length
      modifies this, buffer
      ensures Valid() && View() == Put(old(View()), Piece(mem[..n], 0))
      ensures rc == if View().overflowed then -1 else 0
      ensures View().overflowed ==> buffer[..] == old(buffer[..])
      ensures buffer[|text|..] == old(buffer[..])[|text|..]
    {
      var fits := CanFit(n);
      if fits {
        Copy(mem, n);
        assert buffer[..len + n] == buffer[..len] + buffer[len..len + n];
        len := len + n;
        text := text + mem[..n];
        return 0;
      }
      SetOverflow();
      return -1;
    }

    /** The scratch text of n bytes at off: high nibble first, last byte first, then a space. */
    static method FillHex(hex: array<Byte>, data: array<Byte>, off: nat, n: nat) returns (j: nat)
      requires hex != data && hex.Length == 2 * MAX_MEMHEX_BYTES + 1
      requires n <= MAX_MEMHEX_BYTES && off + n <= data.Length
      modifies hex
      ensures j == 2 * n + 1 && hex[..j] == ChunkText(data[off..off + n])
    {
      hide Hi, Lo, Encode, Reverse;
      var i := n - 1;
      j := 0;
      NoText(data[off + n..off + n]);
      while i >= 0
        invariant -1 <= i < n && j == 2 * (n - 1 - i)
        invariant hex[..j] == Encode(Reverse(data[off + i + 1..off + n]))
      {
        ghost var done := data[off + i + 1..off + n];
        assert data[off + i..off + n] == [data[off + i]] + done;
        EncodeMore(data[off + i], done);
        j := PackByte(hex, j, data[off + i]);
        i := i - 1;
      }
      hex[j] := SPACE;
      j := j + 1;
      assert hex[..j] == hex[..j - 1] + [SPACE];
    }

    /** Appends one chunk through the scratch text. */
    method PutChunk(hex: array<Byte>, data: array<Byte>, off: nat, n: nat)
      requires Valid() && hex != data && hex != buffer && data != buffer && hex.Length == 2 * MAX_MEMHEX_BYTES + 1
      requires n <= MAX_MEMHEX_BYTES && off + n <= data.Length
      modifies this, buffer, hex
      ensures Valid() && View() == Put(old(View()), Piece(ChunkText(data[off..off + n]), 0))
      ensures View().overflowed ==> buffer[..] == old(buffer[..])
      ensures buffer[|text|..] == old(buffer[..])[|text|..]
    {
      hide ChunkText, Put;
      var j := FillHex(hex, data, off, n);
      var _ := Putmem(hex, j);
    }

    method PutmemHex(data: array<Byte>, len0: nat) returns (rc: int)
      requires Valid() && data != buffer && len0 <= data.Length
      modifies this, buffer
      ensures Valid() && View() == PutAll(old(View()), Chunks(data[..len0]))
      ensures rc == if len0 > 0 && View().overflowed then -1 else 0
      ensures old(View()).overflowed ==> buffer[..] == old(buffer[..])
      ensures buffer[|text|..] == old(buffer[..])[|text|..]
    {
      hide ChunkText, Chunks, PutAll;
      var hex := new Byte[2 * MAX_MEMHEX_BYTES + 1];
      if len0 <= MAX_MEMHEX_BYTES {
        if len0 == 0 {
          NoChunk(View(), data[..len0]);
          return 0;
        }
        OneChunk(View(), data[..len0]);
        PutChunk(hex, data, 0, len0);
        assert data[0..len0] == data[..len0];
        return if len > buffer.Length then -1 else 0;
      }
      ghost var start := View();
      var off: nat, left: nat := 0, len0;
      while left > 0
        invariant off + left == len0 && Valid() && (left == len0 || len <= buffer.Length)
        invariant PutAll(View(), Chunks(data[off..len0])) == PutAll(start, Chunks(data[..len0]))
        invariant start.overflowed ==> buffer[..] == old(buffer[..])
        invariant buffer[|text|..] == old(buffer[..])[|text|..]
        invariant fresh(hex) && start.overflowed == (left == len0 && len > buffer.Length)
      {
        var n := if left < MAX_MEMHEX_BYTES then left else MAX_MEMHEX_BYTES;
        ghost var rest := data[off..len0];
        NextChunk(View(), rest);
        assert rest[..n] == data[off..off + n] && rest[n..] == data[off + n..len0];
        PutChunk(hex, data, off, n);
        if len > buffer.Length {
          OverflowSticks(View(), Chunks(rest[n..]));
          return -1;
        }
        left := left - n;
        off := off + n;
      }
      NoChunk(View(), data[off..len0]);
      return 0;
    }

    /** One append, from memory of its own. */
    method Perform(op: Op)
      requires Valid() && Legal(op)
      modifies this, buffer
      ensures Valid() && View() == PutAll(old(View()), Pieces(op))
      ensures old(View()).overflowed ==> buffer[..] == old(buffer[..])
    {
      hide Chunks;
      match op
      case Puts(str) =>
        var a := FromBytes(str + [0]);
        StringBytes(str);
        var _ := Puts(a);
      case Putc(c) =>
        var _ := Putc(c);
      case Putmem(mem) =>
        var a := FromBytes(mem);
        var _ := Putmem(a, a.Length);
      case PutmemHex(data) =>
        var a := FromBytes(data);
        var _ := PutmemHex(a, a.Length);
    }

    static method FromBytes(bytes: seq<Byte>) returns (a: array<Byte>)
      ensures fresh(a) && a[..] == bytes && a[..a.Length] == bytes
    {
      a := new Byte[|bytes|](i requires 0 <= i < |bytes| => bytes[i]);
    }

    /** A run of appends: what the buffer has accepted is the text of the value model, and nothing
        is written once it has overflowed. */
    method Replay(ops: seq<Op>)
      requires Valid() && forall i | 0 <= i < |ops| :: Legal(ops[i])
      modifies this, buffer
      ensures Valid() && View() == Run(old(View()), ops)
      ensures old(View()).overflowed ==> buffer[..] == old(buffer[..])
    {
      hide Run, Legal, PutAll, Pieces;
      ghost var start := View();
      var i := 0;
      assert ops[0..] == ops;
      while i < |ops|
        invariant i <= |ops| && Valid() && Run(View(), ops[i..]) == Run(start, ops)
        invariant start.overflowed ==> View().overflowed && buffer[..] == old(buffer[..])
      {
        RunStep(View(), ops[i..]);
        if start.overflowed {
          OverflowSticks(View(), Pieces(ops[i]));
        }
        Perform(ops[i]);
        assert ops[i..][1..] == ops[i + 1..];
        i := i + 1;
      }
      RunDone(View(), ops[i..]);
    }
  }

  /** Memory that ends in a NUL holds the string before it. */
  lemma {:induction false} StringBytes(str: seq<Byte>)
    requires forall i | 0 <= i < |str| :: str[i] != 0
    ensures CString(str + [0]) == str
  {
    if str != [] {
      StringBytes(str[1..]);
      assert (str + [0])[1..] == str[1..] + [0];
    }
  }

  lemma RunStep(b: Buf, ops: seq<Op>)
    requires ops != []
    ensures Run(b, ops) == Run(PutAll(b, Pieces(ops[0])), ops[1..])
  {
  }

  lemma RunDone(b: Buf, ops: seq<Op>)
    requires ops == []
    ensures Run(b, ops) == b
  {
  }

  lemma NoText(none: seq<Byte>)
    requires none == []
    ensures Encode(Reverse(none)) == []
  {
  }

  lemma EncodeMore(b: Byte, done: seq<Byte>)
    ensures Encode(Reverse([b] + done)) == Encode(Reverse(done)) + [Hi(b), Lo(b)]
  {
    hide Hi, Lo, Encode;
    assert ([b] + done)[1..] == done;
    EncodeAppend(Reverse(done), b);
  }

  lemma CStringFrom(s: seq<Byte>, k: nat)
    ensures s != [] && s[0] != 0 ==> |CString(s)| == 1 + |CString(s[1..])|
    ensures s[0..] == s
  {
  }

  lemma NoChunk(b: Buf, data: seq<Byte>)
    requires data == []
    ensures PutAll(b, Chunks(data)) == b
  {
  }

  lemma OneChunk(b: Buf, data: seq<Byte>)
    requires 0 < |data| <= MAX_MEMHEX_BYTES
    ensures PutAll(b, Chunks(data)) == Put(b, Piece(ChunkText(data), 0))
  {
    hide ChunkText, Put;
    assert data[..|data|] == data && data[|data|..] == [];
    NextChunk(b, data);
    NoChunk(Put(b, Piece(ChunkText(data), 0)), data[|data|..]);
  }

  lemma NextChunk(b: Buf, data: seq<Byte>)
    requires data != []
    ensures var n := ChunkSize(|data|);
            PutAll(b, Chunks(data)) == PutAll(Put(b, Piece(ChunkText(data[..n]), 0)), Chunks(data[n..]))
  {
    hide ChunkText, Put;
    assert Chunks(data)[1..] == Chunks(data[ChunkSize(|data|)..]);
  }
}
