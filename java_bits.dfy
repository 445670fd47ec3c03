/**
  The parts of `java.util.BitSet` and `java.lang.Long` the varint writers
  use, over bit sequences (least significant bit first), and the facts that
  tie the bytes they produce to the varint encoding.
 */
module JavaBits {
  import opened ProtoTypes
  import opened Bits
  import opened VarintCodec

  /** `BitSet.valueOf(new long[]{x})`: the 64 bits of a `long`'s pattern. */
  function LongBits(x: int64): (r: seq<bool>)
    ensures |r| == 64
  {
    BitsOf(Unsigned64(x), 64)
  }

  /** `Long.numberOfLeadingZeros(x)`: the zero bits above the highest one bit of the pattern. */
  function NumberOfLeadingZeros(x: int64): (n: nat)
    ensures n <= 64
    ensures Unsigned64(x) < Pow2(64 - n)
    ensures n < 64 ==> Pow2(63 - n) <= Unsigned64(x)
  {
    var u := Unsigned64(x);
    Pow2Wide();
    BitLengthAtMost(u, 64);
    BitLengthBounds(u);
    64 - BitLength(u)
  }

  function Zeros(n: nat): (r: seq<bool>)
    ensures |r| == n && forall k :: 0 <= k < n ==> !r[k]
  {
    if n == 0 then [] else [false] + Zeros(n - 1)
  }

  /** `BitSet.set(index, b)`: the set grows with clear bits as far as `index` when needed. */
  function SetBit(bs: seq<bool>, index: nat, b: bool): (r: seq<bool>)
    ensures |r| == if index < |bs| then |bs| else index + 1
    ensures r[index] == b
    ensures forall k :: 0 <= k < |r| && k != index ==> r[k] == (k < |bs| && bs[k])
  {
    if index < |bs| then bs[index := b] else bs + Zeros(index - |bs|) + [b]
  }

  /** The bytes of `v`, least significant first, without trailing zero bytes. */
  function MinimalLittleEndian(v: nat): (r: seq<byte>)
    ensures v == 0 <==> r == []
    ensures 0 < v < 0x100 ==> r == [v]
  {
    if v == 0 then [] else [v % 0x100] + MinimalLittleEndian(v / 0x100)
  }

  /** `BitSet.toByteArray()`: the set as little-endian bytes, as many as its highest set bit needs. */
  function ToByteArray(bs: seq<bool>): (r: seq<byte>)
    ensures BitsValue(bs) == 0 <==> r == []
  {
    MinimalLittleEndian(BitsValue(bs))
  }

  lemma {:induction false} BitsPrefix(u: nat, n: nat, b: nat)
    requires b <= n
    ensures BitsOf(u, n)[..b] == BitsOf(u, b)
  {
    if b > 0 {
      BitsPrefix(u / 2, n - 1, b - 1);
      assert BitsOf(u, n)[..b] == [u % 2 == 1] + BitsOf(u / 2, n - 1)[..b - 1];
    }
  }

  /** `BitSet.get(a, b)` on the bits of `u`: the bits of `u / 2^a`, `b - a` of them. */
  lemma {:induction false} BitsSlice(u: nat, n: nat, a: nat, b: nat)
    requires a <= b <= n
    ensures BitsOf(u, n)[a..b] == BitsOf(u / Pow2(a), b - a)
  {
    if a == 0 {
      BitsPrefix(u, n, b);
      assert BitsOf(u, n)[0..b] == BitsOf(u, n)[..b];
    } else {
      BitsSlice(u / 2, n - 1, a - 1, b - 1);
      assert BitsOf(u, n)[a..b] == BitsOf(u / 2, n - 1)[a - 1..b - 1];
      ShiftShift(u, 1, a - 1);
      Pow2Values();
    }
  }

  /** Byte `k` of a varint: group `k` of seven bits, with the continuation bit on all but the last. */
  lemma {:induction false} VarintByteAt(u: nat, k: nat)
    requires k < |Varint(u)|
    ensures Varint(u)[k] == (u / Pow2(7 * k)) % 0x80 + (if k < |Varint(u)| - 1 then 0x80 else 0)
  {
    if k == 0 {
      VarintFirstByte(u);
    } else {
      VarintTail(u, k);
      VarintByteAt(u / 0x80, k - 1);
      ShiftSeven(u, k);
    }
  }

  /** The first byte of a varint: the low seven bits, and the continuation bit if more follow. */
  lemma VarintFirstByte(u: nat)
    ensures Varint(u)[0] == (u / Pow2(0)) % 0x80 + (if 0 < |Varint(u)| - 1 then 0x80 else 0)
  {
    assert Pow2(0) == 1;
  }

  /** Past the first byte, a varint is the varint of the value shifted right by seven. */
  lemma VarintTail(u: nat, k: nat)
    requires 0 < k < |Varint(u)|
    ensures k - 1 < |Varint(u / 0x80)| && |Varint(u)| == |Varint(u / 0x80)| + 1
    ensures Varint(u)[k] == Varint(u / 0x80)[k - 1]
  {
  }

  /** Dropping seven bits, then `7(k-1)` more, drops `7k`. */
  lemma ShiftSeven(u: nat, k: nat)
    requires k > 0
    ensures u / 0x80 / Pow2(7 * (k - 1)) == u / Pow2(7 * k)
  {
    Pow2Values();
    ShiftShift(u, 7, 7 * (k - 1));
    assert 7 + 7 * (k - 1) == 7 * k;
  }

  /** The bits from `a` to `b` of `u` stand for `u / 2^a` modulo `2^(b-a)`. */
  lemma SliceValue(u: nat, a: nat, b: nat)
    requires a <= b <= 64
    ensures BitsValue(BitsOf(u, 64)[a..b]) == (u / Pow2(a)) % Pow2(b - a)
  {
    BitsSlice(u, 64, a, b);
    var p := Pow2(a);
    BitsValueOfBits(u / p, b - a);
  }

  /** Up to seven bits, padded and topped with bit 7 = `top`, stand for their value plus 128 if `top`. */
  lemma ToppedValue(bs: seq<bool>, top: bool)
    requires |bs| <= 7
    ensures BitsValue(SetBit(bs, 7, top)) == BitsValue(bs) + (if top then 0x80 else 0)
  {
    var pad := Zeros(7 - |bs|);
    assert SetBit(bs, 7, top) == (bs + pad) + [top];
    assert BitsValue(bs + pad) == BitsValue(bs) by {
      BitsValueAppend(bs, pad);
      BitsValueAllClear(pad);
    }
    BitsValueSnoc(bs + pad, top);
    Pow2Values();
  }

  /**
    The current encoder's byte for a group that is not the last: the
    seven bits from `i` with bit 7 set is byte `i / 7` of the varint.
   */
  lemma MiddleGroupByte(u: nat, i: nat)
    requires BitLength(u) <= 64 && i % 7 == 0 && i + 7 < BitLength(u)
    ensures i / 7 < |Varint(u)| - 1
    ensures ToByteArray(SetBit(BitsOf(u, 64)[i..i + 7], 7, true)) == [Varint(u)[i / 7]]
  {
    var k := i / 7;
    assert 7 * k == i;
    VarintLength(u);
    var bs := BitsOf(u, 64)[i..i + 7];
    var w := (u / Pow2(i)) % 0x80;
    assert BitsValue(bs) == w by {
      SliceValue(u, i, i + 7);
      Pow2Values();
    }
    assert Varint(u)[k] == w + 0x80 by {
      VarintByteAt(u, k);
    }
    assert BitsValue(SetBit(bs, 7, true)) == w + 0x80 by {
      ToppedValue(bs, true);
    }
    SingleByte(SetBit(bs, 7, true), w + 0x80);
  }

  /** Bits that stand for a non-zero value below 256 make a one-byte array. */
  lemma SingleByte(bs: seq<bool>, b: nat)
    requires BitsValue(bs) == b && 0 < b < 0x100
    ensures ToByteArray(bs) == [b]
  {
  }

  /**
    The current encoder's byte for the last group: the bits from `i` to
    the highest one bit, bit 7 clear, is the varint's last byte.
   */
  lemma LastGroupByte(u: nat, i: nat)
    requires BitLength(u) <= 64 && i % 7 == 0 && i < BitLength(u) <= i + 7
    ensures i / 7 == |Varint(u)| - 1
    ensures ToByteArray(SetBit(BitsOf(u, 64)[i..BitLength(u)], 7, false)) == [Varint(u)[i / 7]]
  {
    var L := BitLength(u);
    var k := i / 7;
    assert 7 * k == i;
    assert u > 0 by { BitLengthBounds(u); }
    VarintLength(u);
    TopGroup(u, i);
    var w := u / Pow2(i);
    SliceValue(u, i, L);
    assert Varint(u)[k] == w by {
      VarintByteAt(u, k);
      DivModUnique(w, 0x80, 0, w);
    }
    ToppedValue(BitsOf(u, 64)[i..L], false);
  }

  /** The top group of `u`, from bit `i` up to its highest one bit, is `u / 2^i`: non-zero and below 128. */
  lemma TopGroup(u: nat, i: nat)
    requires i < BitLength(u) <= i + 7
    ensures 0 < u / Pow2(i) < 0x80
    ensures (u / Pow2(i)) % Pow2(BitLength(u) - i) == u / Pow2(i)
  {
    var w := u / Pow2(i);
    BitLengthShift(u, i);
    BitLengthBounds(w);
    Pow2Monotone(BitLength(u) - i, 7);
    Pow2Values();
    DivModUnique(w, Pow2(BitLength(u) - i), 0, w);
  }

  /** `m << 1` on a `long`'s 64-bit pattern: the top bit falls off. */
  function ShiftLeftOne(m: nat): (r: nat)
    ensures r < 0x1_0000_0000_0000_0000
  {
    (m * 2) % 0x1_0000_0000_0000_0000
  }

  /** `a & b` on two bit patterns. */
  function And(a: nat, b: nat): nat
  {
    if a == 0 || b == 0 then 0 else (if a % 2 == 1 && b % 2 == 1 then 1 else 0) + 2 * And(a / 2, b / 2)
  }

  /** Masking with the single bit `2^i` tests bit `i`: `(u & (1L << i)) != 0`. */
  lemma {:induction false} AndSingleBit(u: nat, i: nat)
    ensures And(u, Pow2(i)) != 0 <==> BitAt(u, i)
  {
    if i > 0 {
      if u > 0 {
        var m := Pow2(i);
        assert m % 2 == 0 && m / 2 == Pow2(i - 1) by {
          assert m == 2 * Pow2(i - 1);
        }
        assert And(u, m) == 2 * And(u / 2, Pow2(i - 1));
        AndSingleBit(u / 2, i - 1);
        assert u / 2 / Pow2(i - 1) == u / m by {
          ShiftShift(u, 1, i - 1);
          Pow2Values();
        }
      } else {
        DivModUnique(u, Pow2(i), 0, 0);
      }
    }
  }

  /** Element `j` of the low `n` bits of `u` is bit `j` of `u`. */
  lemma BitsOfAt(u: nat, n: nat, j: nat)
    requires j < n
    ensures BitsOf(u, n)[j] == BitAt(u, j)
  {
    BitsPrefix(u, n, j + 1);
    BitsSnoc(u, j);
    assert BitsOf(u, n)[j] == BitsOf(u, n)[..j + 1][j];
  }

  /** Below `2^(n+1)`, a clear bit `n` means below `2^n`, and a set bit `n` means at least `2^n`. */
  lemma TopBit(u: nat, n: nat)
    requires u < Pow2(n + 1)
    ensures BitAt(u, n) <==> Pow2(n) <= u
  {
    var p := Pow2(n);
    assert Pow2(n + 1) == 2 * p;
    if u < p {
      DivModUnique(u, p, 0, u);
    } else {
      DivModUnique(u, p, 1, u - p);
    }
  }

  /** Below `2^(n+1)`, masking with the one-bit mask `2^n` gives zero exactly when the value is below `2^n`; halving the mask moves it one bit down. */
  lemma MaskTopBit(u: nat, i: nat, mask: nat)
    requires i < 64 && u < Pow2(64 - i) && mask == Pow2(63 - i)
    ensures (And(u, mask) == 0) == (u < Pow2(63 - i))
    ensures i < 63 ==> mask / 2 == Pow2(62 - i)
  {
    AndSingleBit(u, 63 - i);
    TopBit(u, 63 - i);
  }
}
