/**
  The fixed-width encodings `appendFixed32` and `appendFixed64` write: the
  4- or 8-byte two's-complement pattern of an `int` or `long` (or the raw
  IEEE-754 pattern of a `float` or `double`) in little-endian order (as
  protobuf requires) or in big-endian order (`ByteBuffer`'s default).
 */
module FixedWidth {
  import opened ProtoTypes
  import opened Bits

  datatype ByteOrder = Little | Big

  /** The low `n` bytes of `u`, least significant first. */
  function ToLittleEndian(u: nat, n: nat): (r: seq<byte>)
    ensures |r| == n
  {
    if n == 0 then [] else [u % 0x100] + ToLittleEndian(u / 0x100, n - 1)
  }

  /** The low `n` bytes of `u`, most significant first. */
  function ToBigEndian(u: nat, n: nat): (r: seq<byte>)
    ensures |r| == n
  {
    if n == 0 then [] else ToBigEndian(u / 0x100, n - 1) + [u % 0x100]
  }

  function FromLittleEndian(bs: seq<byte>): (r: nat)
    ensures r < Pow2(8 * |bs|)
  {
    if bs == [] then 0
    else
      var rest := FromLittleEndian(bs[1..]);
      ByteOnTop(bs[0], rest, |bs| - 1);
      bs[0] + 0x100 * rest
  }

  function FromBigEndian(bs: seq<byte>): (r: nat)
    ensures r < Pow2(8 * |bs|)
  {
    if bs == [] then 0
    else
      var rest := FromBigEndian(bs[..|bs| - 1]);
      ByteOnTop(bs[|bs| - 1], rest, |bs| - 1);
      0x100 * rest + bs[|bs| - 1]
  }

  /** A byte below a value of `n` bytes makes a value of `n + 1` bytes. */
  lemma ByteOnTop(b: byte, rest: nat, n: nat)
    requires rest < Pow2(8 * n)
    ensures b + 0x100 * rest < Pow2(8 * (n + 1))
  {
    Pow2Add(8, 8 * n);
    Pow2Values();
    MulAtLeast(Pow2(8 * n) - rest, 0x100);
  }

  function Reverse<T>(s: seq<T>): (r: seq<T>)
    ensures |r| == |s| && forall k :: 0 <= k < |s| ==> r[k] == s[|s| - 1 - k]
  {
    if s == [] then [] else Reverse(s[1..]) + [s[0]]
  }

  function FixedBytes(order: ByteOrder, u: nat, n: nat): (r: seq<byte>)
    ensures |r| == n
  {
    match order
    case Little => ToLittleEndian(u, n)
    case Big => ToBigEndian(u, n)
  }

  /** The four bytes of an `int` (or of a `float`'s bit pattern). */
  function Fixed32(order: ByteOrder, x: int32): (r: seq<byte>)
    ensures |r| == 4
  {
    FixedBytes(order, Unsigned32(x), 4)
  }

  /** The eight bytes of a `long` (or of a `double`'s bit pattern). */
  function Fixed64(order: ByteOrder, x: int64): (r: seq<byte>)
    ensures |r| == 8
  {
    FixedBytes(order, Unsigned64(x), 8)
  }

  /** Reading `n` little-endian bytes back gives `u` modulo `2^(8n)`. */
  lemma {:induction false} LittleEndianRoundTrip(u: nat, n: nat)
    ensures FromLittleEndian(ToLittleEndian(u, n)) == u % Pow2(8 * n)
  {
    if n > 0 {
      var bs := ToLittleEndian(u, n);
      assert bs[1..] == ToLittleEndian(u / 0x100, n - 1);
      LittleEndianRoundTrip(u / 0x100, n - 1);
      Pow2Add(8, 8 * (n - 1));
      Pow2Values();
      ModSplit(u, 0x100, Pow2(8 * (n - 1)));
    }
  }

  lemma {:induction false} BigEndianRoundTrip(u: nat, n: nat)
    ensures FromBigEndian(ToBigEndian(u, n)) == u % Pow2(8 * n)
  {
    if n > 0 {
      var bs := ToBigEndian(u, n);
      assert bs[..n - 1] == ToBigEndian(u / 0x100, n - 1);
      BigEndianRoundTrip(u / 0x100, n - 1);
      Pow2Add(8, 8 * (n - 1));
      Pow2Values();
      ModSplit(u, 0x100, Pow2(8 * (n - 1)));
    }
  }

  /** The big-endian bytes are the little-endian bytes in the opposite order. */
  lemma {:induction false} BigIsReversedLittle(u: nat, n: nat)
    ensures ToBigEndian(u, n) == Reverse(ToLittleEndian(u, n))
  {
    if n > 0 {
      BigIsReversedLittle(u / 0x100, n - 1);
      assert ToLittleEndian(u, n)[1..] == ToLittleEndian(u / 0x100, n - 1);
    }
  }

  /** Decoding in the order used for encoding gives back an `int`'s whole 32-bit pattern. */
  lemma Fixed32RoundTrip(order: ByteOrder, x: int32)
    ensures order.Little? ==> FromLittleEndian(Fixed32(order, x)) == Unsigned32(x)
    ensures order.Big? ==> FromBigEndian(Fixed32(order, x)) == Unsigned32(x)
  {
    var u := Unsigned32(x);
    assert u < Pow2(32) by { Pow2Wide(); }
    LittleEndianRoundTrip(u, 4);
    BigEndianRoundTrip(u, 4);
    DivModUnique(u, Pow2(32), 0, u);
  }

  /** Decoding in the order used for encoding gives back a `long`'s whole 64-bit pattern. */
  lemma Fixed64RoundTrip(order: ByteOrder, x: int64)
    ensures order.Little? ==> FromLittleEndian(Fixed64(order, x)) == Unsigned64(x)
    ensures order.Big? ==> FromBigEndian(Fixed64(order, x)) == Unsigned64(x)
  {
    var u := Unsigned64(x);
    assert u < Pow2(64) by { Pow2Wide(); }
    LittleEndianRoundTrip(u, 8);
    BigEndianRoundTrip(u, 8);
    DivModUnique(u, Pow2(64), 0, u);
  }

  /** The byte orders on the values the encoder's tests use. */
  lemma FixedExamples()
    ensures Fixed32(Big, 2020) == [0x00, 0x00, 0x07, 0xE4]
    ensures Fixed32(Little, 2020) == [0xE4, 0x07, 0x00, 0x00]
    ensures Fixed64(Big, 10123982) == [0x00, 0x00, 0x00, 0x00, 0x00, 0x9A, 0x7A, 0xCE]
    ensures Fixed64(Little, 10123982) == [0xCE, 0x7A, 0x9A, 0x00, 0x00, 0x00, 0x00, 0x00]
  {
    assert 2020 / 0x100 == 7 && 2020 % 0x100 == 0xE4;
    assert 10123982 / 0x100 == 39546 && 10123982 % 0x100 == 0xCE;
    assert 39546 / 0x100 == 154 && 39546 % 0x100 == 0x7A;
  }

  /** The bit pattern of the `double` -1284.123, in big-endian order. */
  lemma DoublePatternExample()
    ensures Fixed64(Big, 0xC094_107D_F3B6_45A2 - 0x1_0000_0000_0000_0000)
      == [0xC0, 0x94, 0x10, 0x7D, 0xF3, 0xB6, 0x45, 0xA2]
  {
    assert Unsigned64(0xC094_107D_F3B6_45A2 - 0x1_0000_0000_0000_0000) == 0xC094_107D_F3B6_45A2;
    assert ToBigEndian(0xC094_107D, 4) == [0xC0, 0x94, 0x10, 0x7D] by {
      assert ToBigEndian(0xC0, 1) == [0xC0];
      assert ToBigEndian(0xC094, 2) == [0xC0, 0x94];
      assert ToBigEndian(0xC094_10, 3) == [0xC0, 0x94, 0x10];
    }
    assert ToBigEndian(0xC094_107D_F3, 5) == [0xC0, 0x94, 0x10, 0x7D, 0xF3];
    assert ToBigEndian(0xC094_107D_F3B6, 6) == [0xC0, 0x94, 0x10, 0x7D, 0xF3, 0xB6];
    assert ToBigEndian(0xC094_107D_F3B6_45, 7) == [0xC0, 0x94, 0x10, 0x7D, 0xF3, 0xB6, 0x45];
  }

  /** The bit pattern of the `float` 47.8721, in big-endian order. */
  lemma FloatPatternExample()
    ensures Fixed32(Big, 0x423F_7D08) == [0x42, 0x3F, 0x7D, 0x08]
  {
    assert Unsigned32(0x423F_7D08) == 0x423F_7D08;
    assert ToBigEndian(0x42, 1) == [0x42];
    assert ToBigEndian(0x423F, 2) == [0x42, 0x3F];
    assert ToBigEndian(0x423F_7D, 3) == [0x42, 0x3F, 0x7D];
  }
}
