/** Where a hexadecimal append puts each digit and each space, and where an overflow cuts it. */
module SeqBufLayout {
  import opened Hex
  import opened SeqBuf

  /** The bytes of chunk c: eight, or what is left for the last. */
  function ChunkBytes(len: nat, c: nat): (n: nat)
    requires 8 * c < len
    ensures 1 <= n <= 8
  {
    if len - 8 * c < 8 then len - 8 * c else 8
  }

  /** The character at place r of chunk c: the last byte comes first, its high digit before its low
      one, and a space ends the chunk. */
  function ChunkChar(data: seq<Byte>, c: nat, r: nat): Byte
    requires 8 * c < |data| && r <= 2 * ChunkBytes(|data|, c)
  {
    var n := ChunkBytes(|data|, c);
    if r == 2 * n then 0x20
    else
      var b := data[8 * c + (n - 1 - r / 2)];
      if r % 2 == 0 then Hi(b) else Lo(b)
  }

  function HexSize(len: nat): nat { 2 * len + (len + 7) / 8 }

  /** A full chunk takes seventeen places. */
  lemma PlaceInChunk(len: nat, p: nat)
    requires p < HexSize(len)
    ensures 8 * (p / 17) < len && p % 17 <= 2 * ChunkBytes(len, p / 17)
  {
  }

  function HexChar(data: seq<Byte>, p: nat): Byte
    requires p < HexSize(|data|)
  {
    PlaceInChunk(|data|, p);
    ChunkChar(data, p / 17, p % 17)
  }

  /** The whole text, place by place. */
  function HexText(data: seq<Byte>): (text: seq<Byte>)
    ensures |text| == HexSize(|data|)
  {
    seq(HexSize(|data|), p requires 0 <= p < HexSize(|data|) => HexChar(data, p))
  }

  // ---------- The chunks give that text ----------

  lemma {:induction false} EncodeAt(bytes: seq<Byte>, j: nat)
    requires j < |bytes|
    ensures Encode(bytes)[2 * j] == Hi(bytes[j]) && Encode(bytes)[2 * j + 1] == Lo(bytes[j])
  {
    hide Hi, Lo;
    if j > 0 {
      EncodeAt(bytes[1..], j - 1);
      assert Encode(bytes)[2..] == Encode(bytes[1..]);
    }
  }

  lemma {:induction false} ReverseAt(s: seq<Byte>, j: nat)
    requires j < |s|
    ensures Reverse(s)[j] == s[|s| - 1 - j]
  {
    if j < |s| - 1 {
      ReverseAt(s[1..], j);
    }
  }

  lemma ChunkTextAt(chunk: seq<Byte>, r: nat)
    requires 1 <= |chunk| <= 8 && r <= 2 * |chunk|
    ensures |ChunkText(chunk)| == 2 * |chunk| + 1
    ensures ChunkText(chunk)[r] == ChunkChar(chunk, 0, r)
  {
    hide Hi, Lo, Encode, Reverse;
    if r < 2 * |chunk| {
      var j := r / 2;
      EncodeAt(Reverse(chunk), j);
      ReverseAt(chunk, j);
      assert r == 2 * j || r == 2 * j + 1;
    }
  }

  lemma FirstChunk(data: seq<Byte>, n: nat, r: nat)
    requires data != [] && n == ChunkSize(|data|) && r <= 2 * n
    ensures ChunkChar(data, 0, r) == ChunkChar(data[..n], 0, r)
  {
    hide Hi, Lo;
  }

  lemma LaterChunk(data: seq<Byte>, c: nat, r: nat)
    requires 8 < |data| && 0 < c && 8 * c < |data| && r <= 2 * ChunkBytes(|data|, c)
    ensures ChunkBytes(|data| - 8, c - 1) == ChunkBytes(|data|, c)
    ensures ChunkChar(data, c, r) == ChunkChar(data[8..], c - 1, r)
  {
    hide Hi, Lo;
  }

  lemma PlaceLater(p: nat)
    requires p >= 17
    ensures (p - 17) / 17 == p / 17 - 1 && (p - 17) % 17 == p % 17 && p / 17 > 0
  {
  }

  /** The text of the chunks behind the first is that of the remaining bytes. */
  lemma HexCharLater(data: seq<Byte>, p: nat)
    requires |data| > 8 && 17 <= p < HexSize(|data|)
    ensures p - 17 < HexSize(|data| - 8) && HexChar(data[8..], p - 17) == HexChar(data, p)
  {
    hide ChunkChar, ChunkBytes;
    PlaceInChunk(|data|, p);
    PlaceLater(p);
    LaterChunk(data, p / 17, p % 17);
  }

  lemma HexTextSplit(data: seq<Byte>)
    requires data != []
    ensures var n := ChunkSize(|data|); HexText(data) == ChunkText(data[..n]) + HexText(data[n..])
  {
    hide ChunkText, ChunkChar, HexChar;
    var n := ChunkSize(|data|);
    var text := ChunkText(data[..n]) + HexText(data[n..]);
    ChunkTextAt(data[..n], 0);
    forall p | 0 <= p < HexSize(|data|)
      ensures HexText(data)[p] == text[p]
    {
      if p <= 2 * n {
        HexCharFirst(data, n, p);
      } else {
        HexCharLater(data, p);
      }
    }
  }

  lemma HexCharFirst(data: seq<Byte>, n: nat, p: nat)
    requires data != [] && n == ChunkSize(|data|) && p <= 2 * n && p < HexSize(|data|)
    ensures |ChunkText(data[..n])| == 2 * n + 1 && HexChar(data, p) == ChunkText(data[..n])[p]
  {
    hide ChunkChar, ChunkText;
    ChunkTextAt(data[..n], p);
    FirstChunk(data, n, p);
  }

  /** Appending chunk by chunk gives the text laid out by place. */
  lemma {:induction false} ChunksLaidOut(data: seq<Byte>)
    ensures Texts(Chunks(data)) == HexText(data)
    decreases |data|
  {
    hide ChunkText, HexText;
    if data == [] {
      HexTextOfNone();
    } else {
      var n := ChunkSize(|data|);
      HexTextSplit(data);
      ChunksLaidOut(data[n..]);
      assert Chunks(data)[1..] == Chunks(data[n..]);
    }
  }

  lemma HexTextOfNone()
    ensures HexText([]) == []
  {
  }

  /** Byte i has its two digits, and its chunk the closing space, at these places. */
  lemma HexPlaces(data: seq<Byte>, i: nat)
    requires i < |data|
    ensures var c := i / 8;
            var n := if |data| - 8 * c < 8 then |data| - 8 * c else 8;
            var at := 17 * c + 2 * (n - 1 - i % 8);
            0 <= at && at + 1 < 17 * c + 2 * n < |Texts(Chunks(data))| &&
            Texts(Chunks(data))[at] == Hi(data[i]) && Texts(Chunks(data))[at + 1] == Lo(data[i]) &&
            Texts(Chunks(data))[17 * c + 2 * n] == 0x20
  {
    hide Hi, Lo, Texts, Chunks, ChunkChar;
    ChunksLaidOut(data);
    var c := i / 8;
    var n := ChunkBytes(|data|, c);
    ChunkEnd(|data|, c);
    HexCharAt(data, c, 2 * (n - 1 - i % 8));
    HexCharAt(data, c, 2 * (n - 1 - i % 8) + 1);
    HexCharAt(data, c, 2 * n);
    ChunkPlaces(data, c, n - 1 - i % 8);
  }

  lemma ChunkEnd(len: nat, c: nat)
    requires 8 * c < len
    ensures 17 * c + 2 * ChunkBytes(len, c) < HexSize(len)
  {
  }

  lemma ChunkPlaces(data: seq<Byte>, c: nat, j: nat)
    requires 8 * c < |data| && j < ChunkBytes(|data|, c)
    ensures ChunkChar(data, c, 2 * j) == Hi(data[8 * c + (ChunkBytes(|data|, c) - 1 - j)])
    ensures ChunkChar(data, c, 2 * j + 1) == Lo(data[8 * c + (ChunkBytes(|data|, c) - 1 - j)])
    ensures ChunkChar(data, c, 2 * ChunkBytes(|data|, c)) == 0x20
  {
    hide Hi, Lo, ChunkBytes;
  }

  lemma HexCharAt(data: seq<Byte>, c: nat, r: nat)
    requires 8 * c < |data| && r <= 2 * ChunkBytes(|data|, c) && 17 * c + r < HexSize(|data|)
    ensures HexText(data)[17 * c + r] == ChunkChar(data, c, r)
  {
    hide ChunkChar;
    assert (17 * c + r) / 17 == c && (17 * c + r) % 17 == r;
  }

  // ---------- What an append adds ----------

  /** Everything if it fits, else as many whole chunks as there is room for. */
  function AppendHex(b: Buf, data: seq<Byte>): Buf
    requires !b.overflowed && |b.text| <= b.size
  {
    var room, text := b.size - |b.text|, HexText(data);
    if |text| <= room then Buf(b.size, b.text + text, false)
    else Buf(b.size, b.text + text[..17 * (room / 17)], true)
  }

  lemma {:induction false} HexExact(b: Buf, data: seq<Byte>)
    requires !b.overflowed && |b.text| <= b.size
    ensures PutAll(b, Chunks(data)) == AppendHex(b, data)
    decreases |data|
  {
    hide ChunkText, HexText, Chunks;
    if data == [] {
      NoChunk(b, data);
      HexTextOfNone();
      assert b.text + [] == b.text;
    } else {
      var n := ChunkSize(|data|);
      var piece := Piece(ChunkText(data[..n]), 0);
      NextChunk(b, data);
      HexTextSplit(data);
      ChunkTextAt(data[..n], 0);
      if Accepts(b, piece) {
        HexExact(Put(b, piece), data[n..]);
        AppendSplit(b, data, n);
      } else {
        OverflowSticks(Put(b, piece), Chunks(data[n..]));
        assert b.text + HexText(data)[..0] == b.text;
      }
    }
  }

  lemma AppendSplit(b: Buf, data: seq<Byte>, n: nat)
    requires data != [] && n == ChunkSize(|data|) && !b.overflowed && |ChunkText(data[..n])| == 2 * n + 1
    requires |b.text| + (2 * n + 1) <= b.size && HexText(data) == ChunkText(data[..n]) + HexText(data[n..])
    ensures AppendHex(Buf(b.size, b.text + ChunkText(data[..n]), false), data[n..]) == AppendHex(b, data)
  {
    hide ChunkText, HexText;
    var room, first, rest := b.size - |b.text|, ChunkText(data[..n]), HexText(data[n..]);
    assert b.text + (first + rest) == (b.text + first) + rest;
    if |first + rest| > room {
      assert n == 8 && room / 17 == (room - 17) / 17 + 1;
      assert (first + rest)[..17 * (room / 17)] == first + rest[..17 * ((room - 17) / 17)];
    }
  }
}
