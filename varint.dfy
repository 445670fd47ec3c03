/**
  Base-128 varints: the bytes `appendVarint` writes, a reader for them,
  and the facts the encoder relies on (the round trip, the length, the
  continuation bits, ten bytes for every negative `long`).
 */
module VarintCodec {
  import opened ProtoTypes
  import opened Bits

  /**
    The varint of a non-negative integer: seven-bit groups, least
    significant first; every byte but the last carries the continuation
    bit 0x80.
   */
  function Varint(u: nat): (r: seq<byte>)
    ensures 1 <= |r|
    ensures r[|r| - 1] < 0x80
    ensures forall k :: 0 <= k < |r| - 1 ==> r[k] >= 0x80
    ensures u > 0 ==> r[|r| - 1] > 0
    decreases u
  {
    if u < 0x80 then [u] else [u % 0x80 + 0x80] + Varint(u / 0x80)
  }

  /** The varint of a `long`: its 64-bit two's-complement pattern, with no zig-zag step. */
  function VarintOfLong(x: int64): seq<byte>
  {
    Varint(Unsigned64(x))
  }

  /** Reads one varint from the front of `bs`: its value and how many bytes it took. */
  function DecodeVarint(bs: seq<byte>): (r: Option<(nat, nat)>)
    ensures r.Some? ==> 1 <= r.value.1 <= |bs|
  {
    if bs == [] then None
    else if bs[0] < 0x80 then Some((bs[0], 1))
    else match DecodeVarint(bs[1..])
      case None => None
      case Some((v, n)) => Some((bs[0] - 0x80 + 0x80 * v, n + 1))
  }

  /** Reading back a varint gives the number and stops right after its last byte. */
  lemma {:induction false} VarintRoundTrip(u: nat, rest: seq<byte>)
    ensures DecodeVarint(Varint(u) + rest) == Some((u, |Varint(u)|))
  {
    if u >= 0x80 {
      VarintRoundTrip(u / 0x80, rest);
      assert (Varint(u) + rest)[1..] == Varint(u / 0x80) + rest;
    }
  }

  lemma VarintInjective(u: nat, u': nat)
    requires Varint(u) == Varint(u')
    ensures u == u'
  {
    VarintRoundTrip(u, []);
    VarintRoundTrip(u', []);
    assert Varint(u) + [] == Varint(u);
  }

  /** One byte for zero, otherwise one byte per started group of seven significant bits. */
  lemma {:induction false} VarintLength(u: nat)
    ensures |Varint(u)| == if u == 0 then 1 else (BitLength(u) + 6) / 7
  {
    Pow2Values();
    if u >= 0x80 {
      VarintLength(u / 0x80);
      BitLengthShift(u, 7);
      BitLengthAtMost(u, 7);
    } else if u > 0 {
      BitLengthAtMost(u, 7);
    }
  }

  /** Every negative `long` takes ten bytes, and reading them back gives its unsigned 64-bit pattern. */
  lemma NegativeLongTakesTenBytes(x: int64)
    requires x < 0
    ensures |VarintOfLong(x)| == 10
    ensures DecodeVarint(VarintOfLong(x)) == Some((Unsigned64(x), 10))
  {
    var u := Unsigned64(x);
    VarintLength(u);
    Pow2Wide();
    BitLengthUnique(u, 64);
    VarintRoundTrip(u, []);
    assert VarintOfLong(x) + [] == VarintOfLong(x);
  }

  /** No `long` needs more than ten bytes. */
  lemma LongTakesAtMostTenBytes(x: int64)
    ensures 1 <= |VarintOfLong(x)| <= 10
  {
    var u := Unsigned64(x);
    VarintLength(u);
    Pow2Wide();
    BitLengthAtMost(u, 64);
  }

  lemma VarintExamples()
    ensures Varint(0) == [0x00]
    ensures Varint(1) == [0x01]
    ensures Varint(300) == [0xAC, 0x02]
  {
    assert 300 / 0x80 == 2 && 300 % 0x80 == 0x2C;
  }

  function Repeat(b: byte, n: nat): (r: seq<byte>)
    ensures |r| == n && forall k :: 0 <= k < n ==> r[k] == b
  {
    if n == 0 then [] else [b] + Repeat(b, n - 1)
  }

  /** A run of `7n + 1` one bits is `n` bytes 0xFF and a final 0x01. */
  lemma {:induction false} VarintOfOnes(n: nat)
    ensures Varint(Pow2(7 * n + 1) - 1) == Repeat(0xFF, n) + [0x01]
  {
    Pow2Values();
    if n > 0 {
      var p := Pow2(7 * (n - 1) + 1);
      Pow2Add(7, 7 * (n - 1) + 1);
      assert Pow2(7 * n + 1) - 1 == (p - 1) * 0x80 + 0x7F;
      DivModUnique(Pow2(7 * n + 1) - 1, 0x80, p - 1, 0x7F);
      VarintOfOnes(n - 1);
    }
  }

  /** Minus one is the all-ones pattern: nine bytes 0xFF and a final 0x01. */
  lemma VarintOfMinusOne()
    ensures VarintOfLong(-1) == [0xFF, 0xFF, 0xFF, 0xFF, 0xFF, 0xFF, 0xFF, 0xFF, 0xFF, 0x01]
  {
    VarintOfOnes(9);
    Pow2Wide();
  }
}
