/** The mini-block page codec: values to bytes, bytes to blocks cut regardless of element
    boundaries, blocks to framed and compressed pages, and back. */
module MiniBlock {
  import opened Common
  import opened Sequences
  import opened ByteOrder
  import opened Columns

  const DEFAULT_BLOCK_SIZE := 4096
  const ENCODING_MINI_BLOCK := 1

  type Bytes = seq<Byte>

  /** Reading either yields a value, reports an error, or panics on a negative length. */
  datatype Outcome<+T> = Value(value: T) | Error | Panic

  /** Compression is foreign code: a pair of partial functions. */
  datatype Compressor =
    | NoCompression
    | Foreign(deflate: Bytes -> Option<Bytes>, inflate: Bytes -> Option<Bytes>)
    | UnknownCompression

  datatype Encoder = Encoder(compressor: Compressor, blockSize: Int32)

  function Compress(c: Compressor, data: Bytes): Option<Bytes> {
    match c
    case NoCompression => Some(data)
    case Foreign(deflate, _) => deflate(data)
    case UnknownCompression => None
  }

  function Decompress(c: Compressor, data: Bytes): Option<Bytes> {
    match c
    case NoCompression => Some(data)
    case Foreign(_, inflate) => inflate(data)
    case UnknownCompression => None
  }

  /** What is assumed of zstd and lz4. */
  ghost predicate Lossless(c: Compressor) {
    forall data :: Compress(c, data).Some? ==> Decompress(c, Compress(c, data).value) == Some(data)
  }

  // ---------- Fixed-width values ----------

  ghost predicate WordsFit(words: seq<nat>, width: nat) {
    forall i :: 0 <= i < |words| ==> words[i] < Power256(width)
  }

  function SerializeWords(words: seq<nat>, width: nat): Bytes
    requires WordsFit(words, width)
  {
    if words == [] then []
    else SerializeWords(words[..|words| - 1], width) + LittleEndian(words[|words| - 1], width)
  }

  function DeserializeWords(data: Bytes, width: nat): (words: seq<nat>)
    requires width > 0
    ensures |words| == |data| / width
  {
    seq(|data| / width, i requires 0 <= i < |data| / width =>
      WordInside(i, |data|, width);
      FromLittleEndian(data[i * width..i * width + width]))
  }

  lemma WordInside(i: nat, n: nat, width: nat)
    requires width > 0 && i < n / width
    ensures 0 <= i * width && i * width + width <= n
  {
    ProductOrder(i + 1, n / width, width);
    assert (n / width) * width <= n;
    assert (i + 1) * width == i * width + width;
  }

  lemma ProductOrder(a: nat, b: nat, c: nat)
    requires a <= b
    ensures 0 <= a * c <= b * c
  {
  }

  lemma {:induction false} SerializedWords(words: seq<nat>, width: nat)
    requires WordsFit(words, width)
    ensures |SerializeWords(words, width)| == |words| * width
  {
    hide LittleEndian;
    if words != [] {
      SerializedWords(words[..|words| - 1], width);
      ProductStep(|words| - 1, width);
    }
  }

  lemma ProductStep(n: nat, width: nat)
    ensures (n + 1) * width == n * width + width
  {
  }

  lemma ExactQuotient(n: nat, width: nat)
    requires width > 0
    ensures (n * width) / width == n
  {
    var q := (n * width) / width;
    assert q * width <= n * width < q * width + width;
    if q < n {
      ProductOrder(q + 1, n, width);
      ProductStep(q, width);
    } else if q > n {
      ProductOrder(n + 1, q, width);
      ProductStep(n, width);
    }
  }

  lemma {:induction false} SerializedWordAt(words: seq<nat>, width: nat, i: nat)
    requires WordsFit(words, width) && i < |words|
    ensures 0 <= i * width && i * width + width <= |SerializeWords(words, width)|
    ensures SerializeWords(words, width)[i * width..i * width + width] == LittleEndian(words[i], width)
  {
    var front := words[..|words| - 1];
    SerializedWords(words, width);
    SerializedWords(front, width);
    ProductOrder(i + 1, |words|, width);
    assert (i + 1) * width == i * width + width;
    if i < |front| {
      SerializedWordAt(front, width, i);
      var head := SerializeWords(front, width);
      assert SerializeWords(words, width)[i * width..i * width + width] == head[i * width..i * width + width];
    }
  }

  lemma WordsRoundTrip(words: seq<nat>, width: nat)
    requires WordsFit(words, width) && width > 0
    ensures DeserializeWords(SerializeWords(words, width), width) == words
  {
    hide SerializeWords, LittleEndian, FromLittleEndian;
    var data := SerializeWords(words, width);
    SerializedWords(words, width);
    ExactQuotient(|words|, width);
    forall i | 0 <= i < |words| ensures DeserializeWords(data, width)[i] == words[i] {
      SerializedWordAt(words, width, i);
      LittleEndianRoundTrip(words[i], width);
    }
  }

  // ---------- Length-prefixed values ----------

  function Frame(s: Bytes): Bytes {
    Encode32(|s|) + s
  }

  function SerializeStrings(strings: seq<Bytes>): Bytes {
    Flatten(Map(Frame, strings))
  }

  /** The strings in front of the first incomplete one. */
  function DeserializeStrings(data: Bytes): Outcome<seq<Bytes>> {
    if |data| < 4 then Value([])
    else
      var length := Decode32(data[..4]);
      if length < 0 then Panic
      else if |data| - 4 < length then Value([])
      else
        match DeserializeStrings(data[4 + length..])
        case Value(rest) => Value([data[4..4 + length]] + rest)
        case other => other
  }

  /** No string is too long for the 32-bit length in front of it. */
  ghost predicate ShortStrings(strings: seq<Bytes>) {
    forall i :: 0 <= i < |strings| ==> |strings[i]| < TWO_31
  }

  lemma {:induction false} ParsedStringsAreShort(data: Bytes)
    requires DeserializeStrings(data).Value?
    ensures ShortStrings(DeserializeStrings(data).value)
  {
    if |data| >= 4 {
      var length := Decode32(data[..4]);
      if 0 <= length <= |data| - 4 {
        ParsedStringsAreShort(data[4 + length..]);
      }
    }
  }

  lemma SerializeStringsFront(strings: seq<Bytes>)
    requires strings != []
    ensures SerializeStrings(strings) == Frame(strings[0]) + SerializeStrings(strings[1..])
  {
    var framed := Map(Frame, strings);
    FlattenFront(framed);
    assert framed[1..] == Map(Frame, strings[1..]);
  }

  /** How many of the strings lie wholly inside the first n bytes of their serialisation. */
  function WholeWithin(strings: seq<Bytes>, n: nat): (k: nat)
    ensures k <= |strings|
  {
    if strings == [] || 4 + |strings[0]| > n then 0
    else 1 + WholeWithin(strings[1..], n - 4 - |strings[0]|)
  }

  lemma {:induction false} WholeWithinIsMaximal(strings: seq<Bytes>, n: nat)
    ensures |SerializeStrings(strings[..WholeWithin(strings, n)])| <= n
    ensures forall k :: WholeWithin(strings, n) < k <= |strings| ==> |SerializeStrings(strings[..k])| > n
  {
    var w := WholeWithin(strings, n);
    if strings == [] {
    } else if 4 + |strings[0]| > n {
      forall k | w < k <= |strings| ensures |SerializeStrings(strings[..k])| > n {
        SerializeStringsFront(strings[..k]);
      }
    } else {
      var m := n - 4 - |strings[0]|;
      WholeWithinIsMaximal(strings[1..], m);
      forall k | 1 <= k <= |strings|
        ensures |SerializeStrings(strings[..k])| == 4 + |strings[0]| + |SerializeStrings(strings[1..][..k - 1])|
      {
        SerializeStringsFront(strings[..k]);
        assert strings[..k][1..] == strings[1..][..k - 1];
      }
      forall k | w < k <= |strings| ensures |SerializeStrings(strings[..k])| > n {
        assert |SerializeStrings(strings[1..][..k - 1])| > m;
      }
    }
  }

  lemma PrefixOfFrame(s: Bytes, tail: Bytes, n: nat)
    requires 4 <= n <= |Frame(s) + tail| && |s| < TWO_31
    ensures Decode32((Frame(s) + tail)[..n][..4]) == |s|
    ensures n >= 4 + |s| ==> (Frame(s) + tail)[..n][4..4 + |s|] == s
    ensures n >= 4 + |s| ==> (Frame(s) + tail)[..n][4 + |s|..] == tail[..n - 4 - |s|]
  {
    hide Encode32, Decode32;
    if n >= 4 + |s| {
      assert (Frame(s) + tail)[..n] == Frame(s) + tail[..n - 4 - |s|];
    }
    assert (Frame(s) + tail)[..n][..4] == Encode32(|s|);
    Decode32OfEncode32(|s|);
    Truncate32Keeps(|s|);
  }

  /** Deserialising any prefix returns exactly the strings that lie wholly inside it. */
  lemma {:induction false} StringsOfPrefix(strings: seq<Bytes>, n: nat)
    requires ShortStrings(strings) && n <= |SerializeStrings(strings)|
    ensures DeserializeStrings(SerializeStrings(strings)[..n]) == Value(strings[..WholeWithin(strings, n)])
  {
    hide Encode32, Decode32;
    if strings == [] {
    } else if n >= 4 {
      var s, tail := strings[0], SerializeStrings(strings[1..]);
      SerializeStringsFront(strings);
      PrefixOfFrame(s, tail, n);
      if n >= 4 + |s| {
        StringsOfPrefix(strings[1..], n - 4 - |s|);
        var w := WholeWithin(strings[1..], n - 4 - |s|);
        assert strings[..1 + w] == [s] + strings[1..][..w];
      }
    }
  }

  lemma {:induction false} WholeWithinAll(strings: seq<Bytes>, n: nat)
    requires n <= |SerializeStrings(strings)|
    ensures WholeWithin(strings, n) == |strings| <==> n == |SerializeStrings(strings)|
  {
    if strings != [] {
      SerializeStringsFront(strings);
      if 4 + |strings[0]| <= n {
        WholeWithinAll(strings[1..], n - 4 - |strings[0]|);
      }
    }
  }

  /** Strings survive exactly when their lengths fit in 32 bits. */
  lemma StringsRoundTrip(strings: seq<Bytes>)
    ensures DeserializeStrings(SerializeStrings(strings)) == Value(strings) <==> ShortStrings(strings)
  {
    var data := SerializeStrings(strings);
    if ShortStrings(strings) {
      StringsOfPrefix(strings, |data|);
      WholeWithinAll(strings, |data|);
      assert data[..|data|] == data && strings[..|strings|] == strings;
    } else if DeserializeStrings(data) == Value(strings) {
      ParsedStringsAreShort(data);
    }
  }

  // ---------- Columns ----------

  function UnsignedAll(values: seq<int>, modulus: nat): (words: seq<nat>)
    requires modulus > 0
    ensures |words| == |values| && forall i :: 0 <= i < |values| ==> words[i] < modulus
  {
    seq(|values|, i requires 0 <= i < |values| => Unsigned(values[i], modulus))
  }

  function Serialize(c: Column, t: DataType): Result<Bytes> {
    WordSizes();
    if !Encodable(t) then Failure("unsupported data type")
    else if !HasType(c, t) then Failure("unexpected Go type")
    else match c
      case Int32s(v) => Success(SerializeWords(UnsignedAll(v, TWO_32), 4))
      case Int64s(v) => Success(SerializeWords(UnsignedAll(v, TWO_64), 8))
      case Float32s(v) => Success(SerializeWords(v, 4))
      case Float64s(v) => Success(SerializeWords(v, 8))
      case Strings(v) => Success(SerializeStrings(v))
      case Binaries(v) => Success(SerializeStrings(v))
      case _ => Failure("unexpected Go type")
  }

  function SignedAll32(words: seq<Word32>): (r: seq<Int32>)
    ensures |r| == |words| && forall i :: 0 <= i < |words| ==> r[i] == Signed(words[i], TWO_32)
  {
    seq(|words|, i requires 0 <= i < |words| => Signed(words[i], TWO_32))
  }

  function SignedAll64(words: seq<Word64>): (r: seq<Int64>)
    ensures |r| == |words| && forall i :: 0 <= i < |words| ==> r[i] == Signed(words[i], TWO_64)
  {
    seq(|words|, i requires 0 <= i < |words| => Signed(words[i], TWO_64))
  }

  function Words32(words: seq<nat>): (r: seq<Word32>)
    ensures |r| == |words|
    ensures (forall i :: 0 <= i < |words| ==> words[i] < TWO_32) ==> r == words
  {
    seq(|words|, i requires 0 <= i < |words| => words[i] % TWO_32)
  }

  function Words64(words: seq<nat>): (r: seq<Word64>)
    ensures |r| == |words|
    ensures (forall i :: 0 <= i < |words| ==> words[i] < TWO_64) ==> r == words
  {
    seq(|words|, i requires 0 <= i < |words| => words[i] % TWO_64)
  }

  function Deserialize(data: Bytes, t: DataType): Outcome<Column> {
    match t
    case TypeInt32 =>
      Value(Int32s(SignedAll32(Words32(DeserializeWords(data, 4)))))
    case TypeInt64 =>
      Value(Int64s(SignedAll64(Words64(DeserializeWords(data, 8)))))
    case TypeFloat32 => Value(Float32s(Words32(DeserializeWords(data, 4))))
    case TypeFixedSizeList => Value(Float32s(Words32(DeserializeWords(data, 4))))
    case TypeFloat64 => Value(Float64s(Words64(DeserializeWords(data, 8))))
    case TypeString =>
      (match DeserializeStrings(data)
       case Value(v) => Value(Strings(v))
       case Error => Error
       case Panic => Panic)
    case TypeBinary =>
      (match DeserializeStrings(data)
       case Value(v) => Value(Binaries(v))
       case Error => Error
       case Panic => Panic)
    case _ => Error
  }

  /** No length prefix inside the column is truncated. */
  ghost predicate ShortElements(c: Column) {
    (c.Strings? ==> ShortStrings(c.strings)) && (c.Binaries? ==> ShortStrings(c.binaries))
  }

  /** Two's complement and bit patterns survive; strings survive when their lengths fit. */
  lemma ColumnRoundTrip(c: Column, t: DataType)
    requires Serialize(c, t).Success?
    ensures Deserialize(Serialize(c, t).value, t) == Value(c) <==> ShortElements(c)
  {
    hide SerializeWords, DeserializeWords, SerializeStrings, DeserializeStrings, Power256, LittleEndian;
    WordSizes();
    match c {
      case Int32s(v) =>
        WordsRoundTrip(UnsignedAll(v, TWO_32), 4);
        forall i | 0 <= i < |v| ensures Signed(Unsigned(v[i], TWO_32), TWO_32) == v[i] {
          SignedOfUnsigned32(v[i]);
        }
        assert SignedAll32(Words32(UnsignedAll(v, TWO_32))) == v;
      case Int64s(v) =>
        WordsRoundTrip(UnsignedAll(v, TWO_64), 8);
        forall i | 0 <= i < |v| ensures Signed(Unsigned(v[i], TWO_64), TWO_64) == v[i] {
          SignedOfUnsigned64(v[i]);
        }
        assert SignedAll64(Words64(UnsignedAll(v, TWO_64))) == v;
      case Float32s(v) => WordsRoundTrip(v, 4);
      case Float64s(v) => WordsRoundTrip(v, 8);
      case Strings(v) => StringsRoundTrip(v);
      case Binaries(v) => StringsRoundTrip(v);
      case _ =>
    }
  }

  /** Bytes that were serialised as one type and are read as another: the column comes back only
      as a type of the same Go slice; types that cannot be stored are errors; and whatever else
      is read has the kind of the type it is read as. */
  lemma RetypedRead(c: Column, t: DataType, u: DataType)
    requires Serialize(c, t).Success?
    ensures var r := Deserialize(Serialize(c, t).value, u);
      && (r == Value(c) <==> HasType(c, u) && ShortElements(c))
      && (!Encodable(u) ==> r == Error)
      && (r.Value? ==> HasType(r.value, u))
  {
    hide Serialize, SerializeWords, DeserializeWords, SerializeStrings, DeserializeStrings;
    ColumnRoundTrip(c, t);
    SerializedKind(c, t);
  }

  lemma SerializedKind(c: Column, t: DataType)
    requires Serialize(c, t).Success?
    ensures HasType(c, t) && Encodable(t)
  {
  }

  /** Between integers and floats of one width the words stay and only their reading changes. */
  lemma RetypedWords(c: Column, t: DataType)
    requires Serialize(c, t).Success?
    ensures var bytes := Serialize(c, t).value;
      && (c.Int32s? ==> Deserialize(bytes, TypeFloat32) == Value(Float32s(UnsignedAll(c.int32s, TWO_32))))
      && (c.Float32s? ==> Deserialize(bytes, TypeInt32) == Value(Int32s(SignedAll32(c.float32s))))
      && (c.Int64s? ==> Deserialize(bytes, TypeFloat64) == Value(Float64s(UnsignedAll(c.int64s, TWO_64))))
      && (c.Float64s? ==> Deserialize(bytes, TypeInt64) == Value(Int64s(SignedAll64(c.float64s))))
  {
    hide SerializeWords, DeserializeWords, SerializeStrings, DeserializeStrings, Power256;
    WordSizes();
    match c {
      case Int32s(v) => WordsRoundTrip(UnsignedAll(v, TWO_32), 4);
      case Int64s(v) => WordsRoundTrip(UnsignedAll(v, TWO_64), 8);
      case Float32s(v) => WordsRoundTrip(v, 4);
      case Float64s(v) => WordsRoundTrip(v, 8);
      case _ =>
    }
  }

  /** Losing bytes at the end of a serialised column loses values. */
  lemma ShortenedColumn(c: Column, t: DataType, n: nat)
    requires Serialize(c, t).Success? && n < |Serialize(c, t).value|
    ensures Deserialize(Serialize(c, t).value[..n], t) != Value(c)
  {
    WordSizes();
    match c {
      case Int32s(v) => ShortenedWords(UnsignedAll(v, TWO_32), 4, n);
      case Int64s(v) => ShortenedWords(UnsignedAll(v, TWO_64), 8, n);
      case Float32s(v) => ShortenedWords(v, 4, n);
      case Float64s(v) => ShortenedWords(v, 8, n);
      case Strings(v) => ShortenedStrings(v, n);
      case Binaries(v) => ShortenedStrings(v, n);
      case _ =>
    }
  }

  lemma ShortenedWords(words: seq<nat>, width: nat, n: nat)
    requires WordsFit(words, width) && width > 0 && n < |SerializeWords(words, width)|
    ensures |DeserializeWords(SerializeWords(words, width)[..n], width)| < |words|
  {
    hide SerializeWords;
    SerializedWords(words, width);
    QuotientOrder(n, |words|, width);
  }

  lemma QuotientOrder(n: nat, count: nat, width: nat)
    requires width > 0 && n < count * width
    ensures n / width < count
  {
    assert (n / width) * width <= n;
    if n / width >= count {
      ProductOrder(count, n / width, width);
    }
  }

  lemma ShortenedStrings(strings: seq<Bytes>, n: nat)
    requires n < |SerializeStrings(strings)|
    ensures DeserializeStrings(SerializeStrings(strings)[..n]) != Value(strings)
  {
    var data := SerializeStrings(strings)[..n];
    if ShortStrings(strings) {
      StringsOfPrefix(strings, n);
      WholeWithinAll(strings, n);
    } else if DeserializeStrings(data) == Value(strings) {
      ParsedStringsAreShort(data);
    }
  }

  // ---------- Pages ----------

  function EffectiveBlockSize(blockSize: Int32): (n: nat)
    ensures 0 < n < TWO_31
  {
    if blockSize <= 0 then DEFAULT_BLOCK_SIZE else blockSize
  }

  function SplitBlocks(data: Bytes, size: nat): (blocks: seq<Bytes>)
    requires size > 0
    ensures forall i :: 0 <= i < |blocks| ==> 0 < |blocks[i]| <= size
    decreases |data|
  {
    if data == [] then []
    else if |data| <= size then [data]
    else [data[..size]] + SplitBlocks(data[size..], size)
  }

  lemma {:induction false} BlocksJoin(data: Bytes, size: nat)
    requires size > 0
    ensures Flatten(SplitBlocks(data, size)) == data
    decreases |data|
  {
    if data != [] {
      var blocks := SplitBlocks(data, size);
      FlattenFront(blocks);
      if |data| <= size {
        assert Flatten(blocks[1..]) == [];
      } else {
        assert blocks[1..] == SplitBlocks(data[size..], size);
        BlocksJoin(data[size..], size);
      }
    }
  }

  /** The blocks after compression, or nothing when some block cannot be compressed. */
  function CompressAll(c: Compressor, blocks: seq<Bytes>): (r: Option<seq<Bytes>>)
    ensures r.Some? ==> |r.value| == |blocks|
  {
    if blocks == [] then Some([])
    else
      match CompressAll(c, blocks[..|blocks| - 1])
      case None => None
      case Some(front) =>
        match Compress(c, blocks[|blocks| - 1])
        case None => None
        case Some(last) => Some(front + [last])
  }

  function Header(blockCount: nat, blockSize: Int32): (h: Bytes)
    ensures |h| == 12
  {
    Encode32(ENCODING_MINI_BLOCK) + Encode32(blockCount) + Encode32(blockSize)
  }

  /** The blocks a column is cut into. */
  function BlocksOf(e: Encoder, c: Column, t: DataType): seq<Bytes>
    requires Serialize(c, t).Success?
  {
    SplitBlocks(Serialize(c, t).value, EffectiveBlockSize(e.blockSize))
  }

  function Encode(e: Encoder, c: Column, t: DataType): Result<Bytes> {
    match Serialize(c, t)
    case Failure(error) => Failure(error)
    case Success(_) =>
      match CompressAll(e.compressor, BlocksOf(e, c, t))
      case None => Failure("compression failed")
      case Some(frames) => Success(Header(|frames|, e.blockSize) + SerializeStrings(frames))
  }

  function EmptyColumn(t: DataType): Outcome<Column> {
    match t
    case TypeInt32 => Value(Int32s([]))
    case TypeInt64 => Value(Int64s([]))
    case TypeFloat32 => Value(Float32s([]))
    case TypeFixedSizeList => Value(Float32s([]))
    case TypeFloat64 => Value(Float64s([]))
    case TypeString => Value(Strings([]))
    case TypeBinary => Value(Binaries([]))
    case _ => Error
  }

  /** Reads n framed blocks from the front of data and joins what they decompress to. */
  function ReadBlocks(c: Compressor, data: Bytes, n: int): Outcome<Bytes>
    decreases n
  {
    if n <= 0 then Value([])
    else if |data| < 4 then Error
    else
      var length := Decode32(data[..4]);
      if length < 0 then Panic
      else if |data| - 4 < length then Error
      else
        match Decompress(c, data[4..4 + length])
        case None => Error
        case Some(block) =>
          match ReadBlocks(c, data[4 + length..], n - 1)
          case Value(rest) => Value(block + rest)
          case other => other
  }

  function Decode(e: Encoder, page: Bytes, t: DataType): Outcome<Column> {
    if page == [] then EmptyColumn(t)
    else if |page| < 12 then Error
    else
      match ReadBlocks(e.compressor, page[12..], Decode32(page[4..8]))
      case Value(data) => Deserialize(data, t)
      case Error => Error
      case Panic => Panic
  }

  lemma {:induction false} CompressedAt(c: Compressor, blocks: seq<Bytes>, i: nat)
    requires CompressAll(c, blocks).Some? && i < |blocks|
    ensures Compress(c, blocks[i]) == Some(CompressAll(c, blocks).value[i])
  {
    if i < |blocks| - 1 {
      CompressedAt(c, blocks[..|blocks| - 1], i);
    }
  }

  /** frames are the compressed forms of blocks. */
  ghost predicate CompressedForms(c: Compressor, blocks: seq<Bytes>, frames: seq<Bytes>) {
    |frames| == |blocks| && forall i :: 0 <= i < |blocks| ==> Compress(c, blocks[i]) == Some(frames[i])
  }

  lemma FramedFront(frames: seq<Bytes>, extra: Bytes)
    requires frames != [] && |frames[0]| < TWO_31
    ensures |SerializeStrings(frames) + extra| >= 4 + |frames[0]|
    ensures Decode32((SerializeStrings(frames) + extra)[..4]) == |frames[0]|
    ensures (SerializeStrings(frames) + extra)[4..4 + |frames[0]|] == frames[0]
    ensures (SerializeStrings(frames) + extra)[4 + |frames[0]|..] == SerializeStrings(frames[1..]) + extra
  {
    hide Encode32, Decode32, SerializeStrings;
    var s, tail := frames[0], SerializeStrings(frames[1..]) + extra;
    SerializeStringsFront(frames);
    assert SerializeStrings(frames) + extra == Frame(s) + tail;
    PrefixOfFrame(s, tail, |Frame(s) + tail|);
    assert (Frame(s) + tail)[..|Frame(s) + tail|] == Frame(s) + tail;
    assert tail[..|tail|] == tail;
  }

  /** Reading the first m frames of a page gives the first m blocks, whatever follows. */
  lemma {:induction false} ReadFrames(c: Compressor, blocks: seq<Bytes>, frames: seq<Bytes>, extra: Bytes, m: nat)
    requires Lossless(c) && CompressedForms(c, blocks, frames) && ShortStrings(frames) && m <= |blocks|
    ensures ReadBlocks(c, SerializeStrings(frames) + extra, m) == Value(Flatten(blocks[..m]))
    decreases m
  {
    hide Encode32, Decode32, SerializeStrings, Compress, Decompress;
    if m > 0 {
      FramedFront(frames, extra);
      ReadFrames(c, blocks[1..], frames[1..], extra, m - 1);
      FlattenFront(blocks[..m]);
      assert blocks[..m][1..] == blocks[1..][..m - 1];
      assert Compress(c, blocks[0]) == Some(frames[0]);
    }
  }

  /** A page cut inside its frames cannot be read. */
  lemma {:induction false} ReadCutFrames(c: Compressor, blocks: seq<Bytes>, frames: seq<Bytes>, n: nat)
    requires Lossless(c) && CompressedForms(c, blocks, frames) && ShortStrings(frames)
    requires n < |SerializeStrings(frames)|
    ensures ReadBlocks(c, SerializeStrings(frames)[..n], |frames|) == Error
    decreases |frames|
  {
    hide Encode32, Decode32, Compress, Decompress;
    assert frames != [];
    SerializeStringsFront(frames);
    if n >= 4 {
      var s, tail := frames[0], SerializeStrings(frames[1..]);
      PrefixOfFrame(s, tail, n);
      if n >= 4 + |s| {
        ReadCutFrames(c, blocks[1..], frames[1..], n - 4 - |s|);
        assert Compress(c, blocks[0]) == Some(frames[0]);
      }
    }
  }

  /** No count or length in the page is truncated to 32 bits. */
  ghost predicate PageFits(e: Encoder, c: Column, t: DataType)
    requires Encode(e, c, t).Success?
  {
    var frames := CompressAll(e.compressor, BlocksOf(e, c, t)).value;
    |frames| < TWO_31 && ShortStrings(frames)
  }

  lemma FramesOf(e: Encoder, c: Column, t: DataType) returns (frames: seq<Bytes>)
    requires Encode(e, c, t).Success?
    ensures Serialize(c, t).Success? && CompressAll(e.compressor, BlocksOf(e, c, t)) == Some(frames)
    ensures CompressedForms(e.compressor, BlocksOf(e, c, t), frames)
    ensures Encode(e, c, t).value == Header(|frames|, e.blockSize) + SerializeStrings(frames)
    ensures Flatten(BlocksOf(e, c, t)) == Serialize(c, t).value
    ensures forall i :: 0 <= i < |frames| ==> 0 < |BlocksOf(e, c, t)[i]| < TWO_31
  {
    hide SerializeStrings, Header, Compress, Serialize;
    var blocks := BlocksOf(e, c, t);
    frames := CompressAll(e.compressor, blocks).value;
    forall i | 0 <= i < |blocks| ensures Compress(e.compressor, blocks[i]) == Some(frames[i]) {
      CompressedAt(e.compressor, blocks, i);
    }
    BlocksJoin(Serialize(c, t).value, EffectiveBlockSize(e.blockSize));
  }

  lemma HeaderCount(n: nat, blockSize: Int32, rest: Bytes)
    ensures Decode32((Header(n, blockSize) + rest)[4..8]) == Truncate32(n)
    ensures (Header(n, blockSize) + rest)[12..] == rest
  {
    hide Encode32, Decode32;
    assert (Header(n, blockSize) + rest)[4..8] == Encode32(n);
    Decode32OfEncode32(n);
  }

  /** Decoding a page as any type reads the serialised column as that type, for every block size
      and lossless compression, and ignores whatever follows the page. */
  lemma PageReadAs(e: Encoder, c: Column, t: DataType, u: DataType, extra: Bytes)
    requires Lossless(e.compressor) && Encode(e, c, t).Success? && PageFits(e, c, t)
    ensures Serialize(c, t).Success?
    ensures Decode(e, Encode(e, c, t).value + extra, u) == Deserialize(Serialize(c, t).value, u)
  {
    hide Encode32, Decode32, Header, ReadBlocks, SerializeStrings, Serialize, Deserialize;
    var frames := FramesOf(e, c, t);
    var blocks := BlocksOf(e, c, t);
    var rest := SerializeStrings(frames) + extra;
    assert Encode(e, c, t).value + extra == Header(|frames|, e.blockSize) + rest;
    HeaderCount(|frames|, e.blockSize, rest);
    Truncate32Keeps(|frames|);
    ReadFrames(e.compressor, blocks, frames, extra, |blocks|);
    assert blocks[..|blocks|] == blocks;
  }

  /** Decoding an encoded page returns the column, for every type, block size and lossless
      compression, and ignores whatever follows the page. */
  lemma PageRoundTrip(e: Encoder, c: Column, t: DataType, extra: Bytes)
    requires Lossless(e.compressor) && Encode(e, c, t).Success? && PageFits(e, c, t) && ShortElements(c)
    ensures Decode(e, Encode(e, c, t).value + extra, t) == Value(c)
  {
    hide *;
    PageReadAs(e, c, t, t, extra);
    ColumnRoundTrip(c, t);
  }

  /** Decoding fails on every proper non-empty prefix of an encoded page. */
  lemma PagePrefixFails(e: Encoder, c: Column, t: DataType, n: nat)
    requires Lossless(e.compressor) && Encode(e, c, t).Success? && PageFits(e, c, t)
    requires 0 < n < |Encode(e, c, t).value|
    ensures Decode(e, Encode(e, c, t).value[..n], t) == Error
  {
    hide Encode32, Decode32, Header, ReadBlocks, SerializeStrings, Serialize;
    if n >= 12 {
      var frames := FramesOf(e, c, t);
      var rest := SerializeStrings(frames)[..n - 12];
      assert Encode(e, c, t).value[..n] == Header(|frames|, e.blockSize) + rest;
      HeaderCount(|frames|, e.blockSize, rest);
      Truncate32Keeps(|frames|);
      ReadCutFrames(e.compressor, BlocksOf(e, c, t), frames, n - 12);
    }
  }

  lemma {:induction false} FlattenTake(blocks: seq<Bytes>, m: nat)
    requires m < |blocks| && forall i :: 0 <= i < |blocks| ==> |blocks[i]| > 0
    ensures |Flatten(blocks[..m])| < |Flatten(blocks)|
    ensures Flatten(blocks[..m]) == Flatten(blocks)[..|Flatten(blocks[..m])|]
  {
    assert blocks == blocks[..m] + blocks[m..];
    FlattenConcat(blocks[..m], blocks[m..]);
    FlattenFront(blocks[m..]);
  }

  /** Without compression the round trip holds exactly when every string length and the
      number of blocks fit in 32 bits; the length of a block always does. */
  lemma UncompressedRoundTripExact(blockSize: Int32, c: Column, t: DataType)
    requires Serialize(c, t).Success?
    ensures var e := Encoder(NoCompression, blockSize);
      Encode(e, c, t).Success? &&
      (Decode(e, Encode(e, c, t).value, t) == Value(c) <==>
       ShortElements(c) && |BlocksOf(e, c, t)| < TWO_31)
  {
    hide Encode32, Decode32, Header, ReadBlocks, SerializeStrings, Serialize, Deserialize, Truncate32;
    var e := Encoder(NoCompression, blockSize);
    UncompressedFrames(BlocksOf(e, c, t));
    var frames := FramesOf(e, c, t);
    var blocks, page := BlocksOf(e, c, t), Encode(e, c, t).value;
    var m := Max(Truncate32(|blocks|), 0);
    Truncate32Keeps(|blocks|);
    HeaderCount(|frames|, e.blockSize, SerializeStrings(frames));
    assert SerializeStrings(frames) + [] == SerializeStrings(frames);
    ReadFrames(e.compressor, blocks, frames, [], m);
    ReadNegative(e.compressor, SerializeStrings(frames), Truncate32(|blocks|));
    if |blocks| < TWO_31 {
      assert blocks[..m] == blocks;
      ColumnRoundTrip(c, t);
    } else {
      FlattenTake(blocks, m);
      ShortenedColumn(c, t, |Flatten(blocks[..m])|);
    }
  }

  lemma ReadNegative(c: Compressor, data: Bytes, n: int)
    ensures ReadBlocks(c, data, n) == ReadBlocks(c, data, Max(n, 0))
  {
  }

  lemma {:induction false} UncompressedFrames(blocks: seq<Bytes>)
    ensures CompressAll(NoCompression, blocks) == Some(blocks)
  {
    if blocks != [] {
      UncompressedFrames(blocks[..|blocks| - 1]);
      assert blocks == blocks[..|blocks| - 1] + [blocks[|blocks| - 1]];
    }
  }

  /** A length prefix that reads as a negative number makes the string reader panic. */
  lemma OversizedFirstString(s: Bytes, rest: seq<Bytes>)
    requires TWO_31 <= |s| < TWO_32
    ensures DeserializeStrings(SerializeStrings([s] + rest)) == Panic
  {
    hide Encode32, Decode32;
    var strings := [s] + rest;
    assert strings[0] == s && strings[1..] == rest;
    SerializeStringsFront(strings);
    var data := SerializeStrings(strings);
    assert data[..4] == Encode32(|s|);
    Decode32OfEncode32(|s|);
  }

  lemma {:induction false} NoMoreBlocksThanBytes(data: Bytes, size: nat)
    requires size > 0
    ensures |SplitBlocks(data, size)| <= |data|
    decreases |data|
  {
    if |data| > size {
      NoMoreBlocksThanBytes(data[size..], size);
    }
  }

  /** A string of 2^31 bytes is encoded without an error. Decoding its page panics; cut into so
      many blocks that their number overflows as well, it reads as an empty column. */
  lemma OversizedStringIsLost(blockSize: Int32)
    ensures var c, e := Strings([seq(TWO_31, _ => 0)]), Encoder(NoCompression, blockSize);
      Encode(e, c, TypeString).Success? &&
      Decode(e, Encode(e, c, TypeString).value, TypeString) ==
        if |BlocksOf(e, c, TypeString)| < TWO_31 then Panic else Value(Strings([]))
  {
    hide SplitBlocks, SerializeStrings, DeserializeStrings, ReadBlocks, Header, Encode32, Decode32, Truncate32;
    var s: Bytes := seq(TWO_31, _ => 0);
    var c, e := Strings([s]), Encoder(NoCompression, blockSize);
    var blocks := BlocksOf(e, c, TypeString);
    UncompressedFrames(blocks);
    var frames := FramesOf(e, c, TypeString);
    var page := Encode(e, c, TypeString).value;
    if |blocks| < TWO_31 {
      assert [s] + [] == [s];
      OversizedFirstString(s, []);
      PageReadAs(e, c, TypeString, TypeString, []);
      assert page + [] == page;
    } else {
      OneOversizedString(s, EffectiveBlockSize(blockSize));
      HeaderCount(|frames|, blockSize, SerializeStrings(frames));
      Truncate32Wraps(|blocks|);
      NoBlocksRead(e.compressor, SerializeStrings(frames), Truncate32(|blocks|));
    }
  }

  lemma OneOversizedString(s: Bytes, size: nat)
    requires |s| == TWO_31 && size > 0
    ensures |SplitBlocks(SerializeStrings([s]), size)| < TWO_32
  {
    NoMoreBlocksThanBytes(SerializeStrings([s]), size);
    assert SerializeStrings([s]) == SerializeStrings([]) + Frame(s);
  }

  lemma Truncate32Wraps(n: nat)
    requires TWO_31 <= n < TWO_32
    ensures Truncate32(n) < 0
  {
  }

  lemma NoBlocksRead(c: Compressor, data: Bytes, n: int)
    requires n <= 0
    ensures ReadBlocks(c, data, n) == Value([])
    ensures DeserializeStrings([]) == Value([])
  {
  }
}
