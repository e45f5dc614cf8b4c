/** The bytes of a page: which byte holds what, for every column type and block size. */
module PageFormat {
  import opened Common
  import opened Sequences
  import opened ByteOrder
  import opened Columns
  import opened MiniBlock

  /** What four bytes hold, lowest first. */
  function Value32(s: Bytes): nat
    requires |s| == 4
  {
    (s[0] as int) + 0x100 * (s[1] as int) + 0x1_0000 * (s[2] as int) + 0x100_0000 * (s[3] as int)
  }

  predicate IsWord32(s: Bytes, w: int) {
    |s| == 4 && w == Value32(s)
  }

  predicate IsWord64(s: Bytes, w: int) {
    |s| == 8 && w == Value32(s[..4]) + 0x1_0000_0000 * Value32(s[4..])
  }

  lemma LittleEndianStep(v: nat, width: nat)
    requires width > 0 && v < Power256(width)
    ensures v / 256 < Power256(width - 1)
    ensures LittleEndian(v, width) == [v % 256] + LittleEndian(v / 256, width - 1)
  {
  }

  lemma FourBytes(v: nat)
    requires v < Power256(4)
    ensures IsWord32(LittleEndian(v, 4), v)
  {
    hide LittleEndian, Power256;
    LittleEndianStep(v, 4);
    LittleEndianStep(v / 256, 3);
    LittleEndianStep(v / 256 / 256, 2);
    LittleEndianStep(v / 256 / 256 / 256, 1);
    assert v / 256 / 256 / 256 < 256 by {
      OneByte(v / 256 / 256 / 256);
    }
  }

  lemma OneByte(v: nat)
    ensures v < Power256(1) <==> v < 256
  {
    assert Power256(1) == 256 * Power256(0);
  }

  /** The low bytes come first. */
  lemma {:induction false} LowFirst(low: nat, high: nat, a: nat, b: nat, v: nat)
    requires low < Power256(a) && high < Power256(b) && v == low + Power256(a) * high && v < Power256(a + b)
    ensures LittleEndian(v, a + b) == LittleEndian(low, a) + LittleEndian(high, b)
  {
    hide LittleEndian;
    if a == 0 {
      NoBytes();
      assert [] + LittleEndian(high, b) == LittleEndian(high, b);
    } else {
      LittleEndianStep(v, a + b);
      LittleEndianStep(low, a);
      LowDigit(low, high, Power256(a - 1), v);
      LowFirst(low / 256, high, a - 1, b, v / 256);
    }
  }

  lemma LowDigit(low: nat, high: nat, p: nat, v: nat)
    requires v == low + (256 * p) * high
    ensures v % 256 == low % 256 && v / 256 == low / 256 + p * high
  {
    var m := p * high;
    assert (256 * p) * high == 256 * m;
  }

  lemma NoBytes()
    ensures LittleEndian(0, 0) == []
  {
  }

  lemma EightBytes(v: nat)
    requires v < Power256(8)
    ensures IsWord64(LittleEndian(v, 8), v)
  {
    hide LittleEndian, Power256;
    WordSizes();
    var low, high := v % TWO_32, v / TWO_32;
    LowFirst(low, high, 4, 4, v);
    FourBytes(low);
    FourBytes(high);
    assert LittleEndian(v, 8)[..4] == LittleEndian(low, 4) && LittleEndian(v, 8)[4..] == LittleEndian(high, 4);
  }

  /** A count or length is written as the low 32 bits, lowest byte first. */
  lemma CountFormat(n: int)
    ensures IsWord32(Encode32(n), n % TWO_32)
  {
    hide LittleEndian;
    WordSizes();
    FourBytes(Unsigned(n, TWO_32));
  }

  // ---------- Columns ----------

  /** Value i of a column of numbers lies at a multiple of its width: integers in two's complement,
      floats as their bit patterns, lowest byte first. */
  lemma NumberFormat(c: Column, t: DataType, i: nat)
    requires Serialize(c, t).Success? && i < Length(c)
    ensures var data := Serialize(c, t).value;
      match c
      case Int32s(v) => |data| == 4 * |v| && IsWord32(data[4 * i..4 * i + 4], v[i] % TWO_32)
      case Float32s(v) => |data| == 4 * |v| && IsWord32(data[4 * i..4 * i + 4], v[i])
      case Int64s(v) => |data| == 8 * |v| && IsWord64(data[8 * i..8 * i + 8], v[i] % TWO_64)
      case Float64s(v) => |data| == 8 * |v| && IsWord64(data[8 * i..8 * i + 8], v[i])
      case _ => true
  {
    hide SerializeWords, LittleEndian, Power256, SerializeStrings;
    WordSizes();
    match c {
      case Int32s(v) => Word32At(UnsignedAll(v, TWO_32), i);
      case Float32s(v) => Word32At(v, i);
      case Int64s(v) => Word64At(UnsignedAll(v, TWO_64), i);
      case Float64s(v) => Word64At(v, i);
      case _ =>
    }
  }

  lemma Word32At(words: seq<nat>, i: nat)
    requires WordsFit(words, 4) && i < |words|
    ensures |SerializeWords(words, 4)| == 4 * |words|
    ensures IsWord32(SerializeWords(words, 4)[4 * i..4 * i + 4], words[i])
  {
    hide SerializeWords, LittleEndian, Power256;
    SerializedWords(words, 4);
    SerializedWordAt(words, 4, i);
    FourBytes(words[i]);
  }

  lemma Word64At(words: seq<nat>, i: nat)
    requires WordsFit(words, 8) && i < |words|
    ensures |SerializeWords(words, 8)| == 8 * |words|
    ensures IsWord64(SerializeWords(words, 8)[8 * i..8 * i + 8], words[i])
  {
    hide SerializeWords, LittleEndian, Power256;
    SerializedWords(words, 8);
    SerializedWordAt(words, 8, i);
    EightBytes(words[i]);
  }

  /** Where string i, or frame i of a page, starts: after the strings before it and four bytes for
      the length of each. */
  function StartOf(strings: seq<Bytes>, i: nat): nat
    requires i <= |strings|
  {
    if i == 0 then 0 else StartOf(strings, i - 1) + 4 + |strings[i - 1]|
  }

  /** String i has its length in the four bytes before it. */
  lemma StringFormat(strings: seq<Bytes>, i: nat)
    requires i < |strings|
    ensures var data, at := SerializeStrings(strings), StartOf(strings, i);
      && |data| == StartOf(strings, |strings|) >= at + 4 + |strings[i]|
      && IsWord32(data[at..at + 4], |strings[i]| % TWO_32)
      && data[at + 4..at + 4 + |strings[i]|] == strings[i]
  {
    hide Encode32, SerializeStrings, StartOf, Frame;
    SerializedPrefix(strings, i);
    SerializedPrefix(strings, |strings|);
    assert strings[..|strings|] == strings;
    var front, s, back := SerializeStrings(strings[..i]), strings[i], SerializeStrings(strings[i + 1..]);
    SerializedAround(strings, i);
    FrameFormat(front, s, back);
  }

  lemma SerializedAround(strings: seq<Bytes>, i: nat)
    requires i < |strings|
    ensures SerializeStrings(strings) ==
            SerializeStrings(strings[..i]) + (Frame(strings[i]) + SerializeStrings(strings[i + 1..]))
  {
    hide SerializeStrings;
    assert strings == strings[..i] + strings[i..];
    SerializeJoins(strings[..i], strings[i..]);
    SerializeStringsFront(strings[i..]);
    assert strings[i..][1..] == strings[i + 1..];
  }

  lemma FrameFormat(front: Bytes, s: Bytes, back: Bytes)
    ensures var data, at := front + (Frame(s) + back), |front|;
      && |data| >= at + 4 + |s|
      && IsWord32(data[at..at + 4], |s| % TWO_32) && data[at + 4..at + 4 + |s|] == s
  {
    hide Encode32;
    var data, at := front + (Frame(s) + back), |front|;
    CountFormat(|s|);
    assert data[at..at + 4] == Encode32(|s|);
  }

  lemma SerializeJoins(a: seq<Bytes>, b: seq<Bytes>)
    ensures SerializeStrings(a + b) == SerializeStrings(a) + SerializeStrings(b)
  {
    assert Map(Frame, a + b) == Map(Frame, a) + Map(Frame, b);
    FlattenConcat(Map(Frame, a), Map(Frame, b));
  }

  lemma {:induction false} SerializedPrefix(strings: seq<Bytes>, i: nat)
    requires i <= |strings|
    ensures |SerializeStrings(strings[..i])| == StartOf(strings, i)
  {
    if i > 0 {
      SerializedPrefix(strings, i - 1);
      assert strings[..i] == strings[..i - 1] + [strings[i - 1]];
      SerializeJoins(strings[..i - 1], [strings[i - 1]]);
      SerializeStringsFront([strings[i - 1]]);
    }
  }

  /** A column is stored exactly if the codec knows its type and it is a slice of it. */
  lemma StoredExactly(c: Column, t: DataType)
    ensures Serialize(c, t).Success? <==> HasType(c, t) && Encodable(t)
    ensures Serialize(c, t).Success? && c.Strings? ==> Serialize(c, t).value == SerializeStrings(c.strings)
    ensures Serialize(c, t).Success? && c.Binaries? ==> Serialize(c, t).value == SerializeStrings(c.binaries)
  {
  }

  // ---------- Pages ----------

  /** Block i is the i-th stretch of size bytes, the last one whatever is left. */
  lemma {:induction false} BlockAt(data: Bytes, size: nat, i: nat)
    requires size > 0 && i < |SplitBlocks(data, size)|
    ensures i * size < |data| && SplitBlocks(data, size)[i] == data[i * size..Min((i + 1) * size, |data|)]
    decreases i
  {
    if i > 0 {
      BlockAt(data[size..], size, i - 1);
      assert i * size == size + (i - 1) * size && (i + 1) * size == size + i * size;
    }
  }

  lemma {:induction false} BlockCount(data: Bytes, size: nat)
    requires size > 0
    ensures |SplitBlocks(data, size)| * size >= |data|
    ensures data != [] ==> SplitBlocks(data, size) != [] && (|SplitBlocks(data, size)| - 1) * size < |data|
    decreases |data|
  {
    if |data| > size {
      BlockCount(data[size..], size);
      var n := |SplitBlocks(data[size..], size)|;
      assert (n + 1) * size == n * size + size && n * size == (n - 1) * size + size;
    }
  }

  /** A page starts with the encoding, the number of blocks and the block size that was asked for,
      and goes on with its blocks, compressed, each behind its length. Blocks have that size, or
      4096 bytes if it is not positive. */
  lemma Layout(e: Encoder, c: Column, t: DataType) returns (frames: seq<Bytes>)
    requires Encode(e, c, t).Success?
    ensures Serialize(c, t).Success?
    ensures var page, size := Encode(e, c, t).value, if e.blockSize <= 0 then 4096 else e.blockSize;
      var blocks := SplitBlocks(Serialize(c, t).value, size);
      && |page| >= 12
      && IsWord32(page[..4], 1) && IsWord32(page[4..8], |blocks| % TWO_32)
      && IsWord32(page[8..12], e.blockSize % TWO_32)
      && CompressedForms(e.compressor, blocks, frames)
      && page[12..] == SerializeStrings(frames)
  {
    hide SerializeStrings, Compress, Serialize, SplitBlocks, Encode32;
    frames := FramesOf(e, c, t);
    var page := Encode(e, c, t).value;
    CountFormat(ENCODING_MINI_BLOCK);
    CountFormat(|frames|);
    CountFormat(e.blockSize);
    assert page[..4] == Encode32(ENCODING_MINI_BLOCK) && page[4..8] == Encode32(|frames|);
    assert page[8..12] == Encode32(e.blockSize);
  }

  /** No bytes at all are a page of no rows, for exactly the types that can be stored. */
  lemma EmptyPage(e: Encoder, t: DataType)
    ensures Decode(e, [], t).Value? <==> Encodable(t)
    ensures Encodable(t) ==> HasType(Decode(e, [], t).value, t) && Length(Decode(e, [], t).value) == 0
  {
  }
}
