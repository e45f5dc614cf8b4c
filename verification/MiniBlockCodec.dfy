/** The codec as it runs: loops over byte buffers, against the functions of MiniBlock. */
module MiniBlockCodec {
  import opened Common
  import opened Sequences
  import opened ByteOrder
  import opened Columns
  import M = MiniBlock

  type Bytes = M.Bytes

  /** Fills a buffer word by word (serializeInt64 and its siblings). */
  method PutWords(words: seq<nat>, width: nat) returns (data: Bytes)
    requires M.WordsFit(words, width)
    ensures data == M.SerializeWords(words, width)
  {
    hide LittleEndian;
    M.SerializedWords(words, width);
    var buffer := new Byte[|words| * width](_ => 0);
    for i := 0 to |words|
      invariant 0 <= i * width <= buffer.Length
      invariant buffer[..i * width] == M.SerializeWords(words[..i], width)
    {
      M.ProductStep(i, width);
      M.ProductOrder(i + 1, |words|, width);
      PutWord(buffer, i * width, words[i], width);
      var at := i * width;
      assert buffer[..at + width] == buffer[..at] + buffer[at..at + width];
      assert words[..i + 1][..i] == words[..i];
    }
    assert words[..|words|] == words;
    data := buffer[..];
    assert data == buffer[..|words| * width];
  }

  /** Reads a buffer word by word (deserializeInt64 and its siblings). */
  method GetWords(data: Bytes, width: nat) returns (words: seq<nat>)
    requires width > 0
    ensures words == M.DeserializeWords(data, width)
  {
    var n := |data| / width;
    var result := new nat[n](_ => 0);
    for i := 0 to n
      invariant forall j :: 0 <= j < i ==> result[j] == M.DeserializeWords(data, width)[j]
    {
      M.WordInside(i, |data|, width);
      result[i] := FromLittleEndian(data[i * width..i * width + width]);
    }
    words := result[..];
  }

  /** Appends a length and a string, for every string. */
  method PutStrings(strings: seq<Bytes>) returns (data: Bytes)
    ensures data == M.SerializeStrings(strings)
  {
    data := [];
    for i := 0 to |strings|
      invariant data == Flatten(Map(M.Frame, strings)[..i])
    {
      data := data + Encode32(|strings[i]|);
      data := data + strings[i];
      var framed := Map(M.Frame, strings);
      assert framed[..i + 1][..i] == framed[..i];
    }
    assert Map(M.Frame, strings)[..|strings|] == Map(M.Frame, strings);
  }

  /** Puts values that were read earlier in front of what is still read. */
  function After<A>(front: seq<A>, rest: M.Outcome<seq<A>>): M.Outcome<seq<A>> {
    match rest
    case Value(v) => M.Value(front + v)
    case other => other
  }

  lemma AfterNothing<A>(rest: M.Outcome<seq<A>>)
    ensures After([], rest) == rest
  {
    if rest.Value? {
      assert [] + rest.value == rest.value;
    }
  }

  lemma AfterMore<A>(front: seq<A>, more: seq<A>, rest: M.Outcome<seq<A>>)
    ensures After(front, After(more, rest)) == After(front + more, rest)
  {
    if rest.Value? {
      assert front + (more + rest.value) == front + more + rest.value;
    }
  }

  /** A reader that stops at the first incomplete string. */
  method GetStrings(data: Bytes) returns (r: M.Outcome<seq<Bytes>>)
    ensures r == M.DeserializeStrings(data)
  {
    hide Decode32;
    var result: seq<Bytes> := [];
    var pos := 0;
    assert data[0..] == data;
    AfterNothing(M.DeserializeStrings(data));
    while pos < |data|
      invariant 0 <= pos <= |data|
      invariant M.DeserializeStrings(data) == After(result, M.DeserializeStrings(data[pos..]))
    {
      ghost var rest := data[pos..];
      if |data| - pos < 4 {
        assert result + [] == result;
        return M.Value(result);
      }
      var length := Decode32(data[pos..pos + 4]);
      assert rest[..4] == data[pos..pos + 4];
      if length < 0 {
        return M.Panic;
      }
      if |data| - pos - 4 < length {
        assert result + [] == result;
        return M.Value(result);
      }
      var s := data[pos + 4..pos + 4 + length];
      assert rest[4..4 + length] == s;
      assert rest[4 + length..] == data[pos + 4 + length..];
      AfterMore(result, [s], M.DeserializeStrings(rest[4 + length..]));
      result := result + [s];
      pos := pos + 4 + length;
    }
    assert result + [] == result;
    return M.Value(result);
  }

  /** Cuts the bytes every size bytes. */
  method CutBlocks(data: Bytes, blockSize: Int32) returns (blocks: seq<Bytes>)
    ensures blocks == M.SplitBlocks(data, M.EffectiveBlockSize(blockSize))
  {
    if |data| == 0 {
      return [];
    }
    var size: int := blockSize;
    if size <= 0 {
      size := M.DEFAULT_BLOCK_SIZE;
    }
    hide M.SplitBlocks, BlocksFrom;
    blocks := [];
    var i := 0;
    AllBlocks(data, size);
    while i < |data|
      invariant 0 <= i
      invariant M.SplitBlocks(data, size) == blocks + BlocksFrom(data, i, size)
    {
      var end := i + size;
      if end > |data| {
        end := |data|;
      }
      NextBlock(data, i, size);
      blocks := blocks + [data[i..end]];
      i := i + size;
    }
    NoBlocks(data, i, size);
  }

  /** The blocks of the data from i on. */
  ghost function BlocksFrom(data: Bytes, i: nat, size: nat): seq<Bytes>
    requires size > 0
  {
    if i < |data| then M.SplitBlocks(data[i..], size) else []
  }

  lemma AllBlocks(data: Bytes, size: nat)
    requires size > 0 && data != []
    ensures M.SplitBlocks(data, size) == [] + BlocksFrom(data, 0, size)
  {
    assert data[0..] == data;
  }

  lemma NoBlocks(data: Bytes, i: nat, size: nat)
    requires size > 0 && i >= |data|
    ensures BlocksFrom(data, i, size) == []
  {
  }

  lemma NextBlock(data: Bytes, i: nat, size: nat)
    requires i < |data| && size > 0
    ensures BlocksFrom(data, i, size) == [data[i..Min(i + size, |data|)]] + BlocksFrom(data, i + size, size)
  {
    var rest := data[i..];
    if |rest| > size {
      assert rest[..size] == data[i..i + size] && rest[size..] == data[i + size..];
    } else {
      assert rest == data[i..Min(i + size, |data|)];
    }
  }

  method SerializeColumn(c: Column, t: DataType) returns (r: Result<Bytes>)
    ensures r == M.Serialize(c, t)
  {
    hide M.SerializeWords, M.SerializeStrings;
    WordSizes();
    if !Encodable(t) {
      return Failure("unsupported data type");
    }
    if !HasType(c, t) {
      return Failure("unexpected Go type");
    }
    var data: Bytes;
    match c {
      case Int32s(v) => data := PutWords(M.UnsignedAll(v, TWO_32), 4);
      case Int64s(v) => data := PutWords(M.UnsignedAll(v, TWO_64), 8);
      case Float32s(v) => data := PutWords(v, 4);
      case Float64s(v) => data := PutWords(v, 8);
      case Strings(v) => data := PutStrings(v);
      case Binaries(v) => data := PutStrings(v);
      case Int8s(_) => return Failure("unexpected Go type");
      case Int16s(_) => return Failure("unexpected Go type");
    }
    return Success(data);
  }

  method DeserializeColumn(data: Bytes, t: DataType) returns (r: M.Outcome<Column>)
    ensures r == M.Deserialize(data, t)
  {
    hide M.DeserializeWords, M.DeserializeStrings;
    match t {
      case TypeInt32 =>
        var words := GetWords(data, 4);
        r := M.Value(Int32s(M.SignedAll32(M.Words32(words))));
      case TypeInt64 =>
        var words := GetWords(data, 8);
        r := M.Value(Int64s(M.SignedAll64(M.Words64(words))));
      case TypeFloat32 =>
        var words := GetWords(data, 4);
        r := M.Value(Float32s(M.Words32(words)));
      case TypeFixedSizeList =>
        var words := GetWords(data, 4);
        r := M.Value(Float32s(M.Words32(words)));
      case TypeFloat64 =>
        var words := GetWords(data, 8);
        r := M.Value(Float64s(M.Words64(words)));
      case TypeString =>
        var strings := GetStrings(data);
        r := match strings case Value(v) => M.Value(Strings(v)) case Error => M.Error case Panic => M.Panic;
      case TypeBinary =>
        var strings := GetStrings(data);
        r := match strings case Value(v) => M.Value(Binaries(v)) case Error => M.Error case Panic => M.Panic;
      case _ => r := M.Error;
    }
  }

  lemma CompressPrefix(c: M.Compressor, blocks: seq<Bytes>, i: nat)
    requires i < |blocks|
    ensures M.CompressAll(c, blocks[..i]).None? || M.Compress(c, blocks[i]).None? ==>
            M.CompressAll(c, blocks[..i + 1]).None?
    ensures M.CompressAll(c, blocks[..i]).Some? && M.Compress(c, blocks[i]).Some? ==>
            M.CompressAll(c, blocks[..i + 1]) ==
            Some(M.CompressAll(c, blocks[..i]).value + [M.Compress(c, blocks[i]).value])
  {
    assert blocks[..i + 1][..i] == blocks[..i];
  }

  lemma {:induction false} CompressFails(c: M.Compressor, blocks: seq<Bytes>, i: nat)
    requires i <= |blocks| && M.CompressAll(c, blocks[..i]).None?
    ensures M.CompressAll(c, blocks).None?
    decreases |blocks| - i
  {
    if i < |blocks| {
      CompressPrefix(c, blocks, i);
      CompressFails(c, blocks, i + 1);
    } else {
      assert blocks[..i] == blocks;
    }
  }

  /** Header, then every block compressed behind its length. */
  method EncodePage(e: M.Encoder, c: Column, t: DataType) returns (r: Result<Bytes>)
    ensures r == M.Encode(e, c, t)
  {
    hide M.Serialize, M.SplitBlocks, M.Compress, Encode32;
    var data := SerializeColumn(c, t);
    if data.Failure? {
      return Failure(data.error);
    }
    var blocks := CutBlocks(data.value, e.blockSize);
    var page := Encode32(M.ENCODING_MINI_BLOCK);
    page := page + Encode32(|blocks|);
    page := page + Encode32(e.blockSize);
    ghost var frames: seq<Bytes> := [];
    for i := 0 to |blocks|
      invariant M.CompressAll(e.compressor, blocks[..i]) == Some(frames)
      invariant page == M.Header(|blocks|, e.blockSize) + M.SerializeStrings(frames)
    {
      CompressPrefix(e.compressor, blocks, i);
      var compressed := M.Compress(e.compressor, blocks[i]);
      if compressed.None? {
        CompressFails(e.compressor, blocks, i + 1);
        return Failure("compression failed");
      }
      page := page + Encode32(|compressed.value|);
      page := page + compressed.value;
      AppendFrame(frames, compressed.value);
      frames := frames + [compressed.value];
    }
    assert blocks[..|blocks|] == blocks;
    return Success(page);
  }

  lemma AppendFrame(frames: seq<Bytes>, s: Bytes)
    ensures M.SerializeStrings(frames + [s]) == M.SerializeStrings(frames) + Encode32(|s|) + s
  {
    var framed := Map(M.Frame, frames);
    assert Map(M.Frame, frames + [s]) == framed + [M.Frame(s)];
    assert (framed + [M.Frame(s)])[..|framed|] == framed;
  }

  /** Reads the header, then block after block. */
  method DecodePage(e: M.Encoder, page: Bytes, t: DataType) returns (r: M.Outcome<Column>)
    ensures r == M.Decode(e, page, t)
  {
    hide M.Deserialize, M.Decompress, Decode32;
    if |page| == 0 {
      return M.EmptyColumn(t);
    }
    if |page| < 12 {
      return M.Error;
    }
    var numBlocks := Decode32(page[4..8]);
    var dataBuf: Bytes := [];
    var pos, i := 12, 0;
    AfterNothing(M.ReadBlocks(e.compressor, page[12..], numBlocks));
    while i < numBlocks
      invariant 12 <= pos <= |page| && 0 <= i && (i <= numBlocks || i == 0)
      invariant M.ReadBlocks(e.compressor, page[12..], numBlocks) ==
                After(dataBuf, M.ReadBlocks(e.compressor, page[pos..], numBlocks - i))
    {
      ghost var rest := page[pos..];
      if |page| - pos < 4 {
        return M.Error;
      }
      var blockLen := Decode32(page[pos..pos + 4]);
      assert rest[..4] == page[pos..pos + 4];
      if blockLen < 0 {
        return M.Panic;
      }
      if |page| - pos - 4 < blockLen {
        return M.Error;
      }
      var compressed := page[pos + 4..pos + 4 + blockLen];
      assert rest[4..4 + blockLen] == compressed && rest[4 + blockLen..] == page[pos + 4 + blockLen..];
      var block := M.Decompress(e.compressor, compressed);
      if block.None? {
        return M.Error;
      }
      AfterMore(dataBuf, block.value, M.ReadBlocks(e.compressor, page[pos + 4 + blockLen..], numBlocks - i - 1));
      dataBuf := dataBuf + block.value;
      pos, i := pos + 4 + blockLen, i + 1;
    }
    assert dataBuf + [] == dataBuf;
    r := DeserializeColumn(dataBuf, t);
  }
}
