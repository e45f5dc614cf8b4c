/** Little-endian words, two's complement and 32-bit truncation. */
module ByteOrder {
  type Byte = b: int | 0 <= b < 256

  const TWO_31 := 0x8000_0000
  const TWO_32 := 0x1_0000_0000
  const TWO_64 := 0x1_0000_0000_0000_0000

  type Int32 = i: int | -0x8000_0000 <= i < 0x8000_0000
  type Int64 = i: int | -0x8000_0000_0000_0000 <= i < 0x8000_0000_0000_0000
  type Word32 = w: int | 0 <= w < 0x1_0000_0000
  type Word64 = w: int | 0 <= w < 0x1_0000_0000_0000_0000

  /** The unsigned word of a signed integer, as Go's conversion gives it. */
  function Unsigned(i: int, modulus: nat): (w: nat)
    requires modulus > 0
    ensures w < modulus
  {
    i % modulus
  }

  /** The signed integer of an unsigned word. */
  function Signed(w: nat, modulus: nat): int {
    if 2 * w >= modulus then w - modulus else w
  }

  lemma SignedOfUnsigned32(i: Int32)
    ensures Signed(Unsigned(i, TWO_32), TWO_32) == i
  {
  }

  lemma SignedOfUnsigned64(i: Int64)
    ensures Signed(Unsigned(i, TWO_64), TWO_64) == i
  {
  }

  /** int32(n): what is left of a length after truncation to 32 bits. */
  function Truncate32(n: int): (i: Int32) {
    Signed(Unsigned(n, TWO_32), TWO_32)
  }

  lemma Truncate32Keeps(n: int)
    ensures -TWO_31 <= n < TWO_31 ==> Truncate32(n) == n
    ensures n >= TWO_31 ==> Truncate32(n) <= n - TWO_32
  {
    if n >= TWO_32 {
      assert n % TWO_32 <= n - TWO_32;
    }
  }

  function Power256(width: nat): (p: nat)
    ensures p > 0
  {
    if width == 0 then 1 else 256 * Power256(width - 1)
  }

  function LittleEndian(v: nat, width: nat): (s: seq<Byte>)
    requires v < Power256(width)
    ensures |s| == width
  {
    if width == 0 then [] else [v % 256] + LittleEndian(v / 256, width - 1)
  }

  function FromLittleEndian(s: seq<Byte>): (v: nat)
    ensures v < Power256(|s|)
  {
    if s == [] then 0 else s[0] + 256 * FromLittleEndian(s[1..])
  }

  lemma {:induction false} LittleEndianRoundTrip(v: nat, width: nat)
    requires v < Power256(width)
    ensures FromLittleEndian(LittleEndian(v, width)) == v
  {
    if width > 0 {
      LittleEndianRoundTrip(v / 256, width - 1);
      assert LittleEndian(v, width)[1..] == LittleEndian(v / 256, width - 1);
    }
  }

  lemma WordSizes()
    ensures Power256(4) == TWO_32 && Power256(8) == TWO_64
  {
    assert Power256(1) == 256;
    assert Power256(2) == 256 * Power256(1);
    assert Power256(3) == 256 * Power256(2);
    assert Power256(4) == 256 * Power256(3);
    assert Power256(5) == 256 * Power256(4);
    assert Power256(6) == 256 * Power256(5);
    assert Power256(7) == 256 * Power256(6);
    assert Power256(8) == 256 * Power256(7);
  }

  /** The four bytes of int32(n). */
  function Encode32(n: int): (s: seq<Byte>)
    ensures |s| == 4
  {
    WordSizes();
    LittleEndian(Unsigned(n, TWO_32), 4)
  }

  /** The int32 in four bytes. */
  function Decode32(s: seq<Byte>): (i: Int32)
    requires |s| == 4
  {
    WordSizes();
    Signed(FromLittleEndian(s), TWO_32)
  }

  lemma Decode32OfEncode32(n: int)
    ensures Decode32(Encode32(n)) == Truncate32(n)
  {
    WordSizes();
    LittleEndianRoundTrip(Unsigned(n, TWO_32), 4);
  }

  /** Writes the bytes of one word in place, lowest first. */
  method PutWord(buffer: array<Byte>, at: nat, v: nat, width: nat)
    requires at + width <= buffer.Length && v < Power256(width)
    modifies buffer
    ensures buffer[at..at + width] == LittleEndian(v, width)
    ensures buffer[..at] == old(buffer[..at]) && buffer[at + width..] == old(buffer[at + width..])
    decreases width
  {
    if width > 0 {
      buffer[at] := v % 256;
      PutWord(buffer, at + 1, v / 256, width - 1);
      assert buffer[at] == buffer[..at + 1][at] == v % 256;
      assert buffer[at..at + width] == [buffer[at]] + buffer[at + 1..at + width];
      assert buffer[..at] == buffer[..at + 1][..at];
    }
  }
}
