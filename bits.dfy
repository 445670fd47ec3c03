/**
  Powers of two, bit lengths and single bits of natural numbers, and the
  value of a little-endian sequence of bits (a `java.util.BitSet`).
  The varint encoders work on these.
 */
module Bits {

  function Pow2(n: nat): (r: nat)
    ensures r >= 1
  {
    if n == 0 then 1 else 2 * Pow2(n - 1)
  }

  lemma {:induction false} Pow2Add(a: nat, b: nat)
    ensures Pow2(a + b) == Pow2(a) * Pow2(b)
  {
    if a > 0 {
      Pow2Add(a - 1, b);
      assert Pow2(a + b) == 2 * Pow2(a - 1 + b);
    }
  }

  lemma {:induction false} Pow2Monotone(a: nat, b: nat)
    requires a <= b
    ensures Pow2(a) <= Pow2(b)
  {
    if a < b {
      Pow2Monotone(a, b - 1);
    }
  }

  lemma Pow2Values()
    ensures Pow2(1) == 2 && Pow2(7) == 128 && Pow2(8) == 256
  {
  }

  lemma Pow2Wide()
    ensures Pow2(28) == 0x1000_0000 && Pow2(29) == 0x2000_0000
    ensures Pow2(31) == 0x8000_0000 && Pow2(32) == 0x1_0000_0000
    ensures Pow2(63) == 0x8000_0000_0000_0000 && Pow2(64) == 0x1_0000_0000_0000_0000
  {
    Pow2Values();
    Pow2Add(8, 8);
    Pow2Add(16, 8);
    Pow2Add(24, 4);
    Pow2Add(28, 1);
    Pow2Add(29, 2);
    Pow2Add(31, 1);
    Pow2Add(32, 31);
    Pow2Add(63, 1);
  }

  /** The powers of two that bound a `long`'s bit pattern. */
  lemma Pow2Long()
    ensures Pow2(63) == 0x8000_0000_0000_0000 && Pow2(64) == 0x1_0000_0000_0000_0000
  {
    Pow2Wide();
  }

  lemma MulAssoc(a: int, b: int, c: int)
    ensures a * (b * c) == (a * b) * c
  {
  }

  lemma MulAtLeast(k: int, d: int)
    requires d > 0
    ensures k >= 1 ==> k * d >= d
    ensures k <= -1 ==> k * d <= -d
  {
    if k >= 1 {
      assert k * d == (k - 1) * d + d;
    } else if k <= -1 {
      assert k * d == (k + 1) * d - d;
    }
  }

  /** Division with remainder has one answer. */
  lemma DivModUnique(x: int, d: int, q: int, r: int)
    requires d > 0 && 0 <= r < d && x == q * d + r
    ensures x / d == q && x % d == r
  {
    var q', r' := x / d, x % d;
    assert x == q' * d + r';
    assert (q - q') * d == r' - r;
    MulAtLeast(q - q', d);
  }

  lemma DivDiv(x: nat, y: nat, z: nat)
    requires y > 0 && z > 0
    ensures x / y / z == x / (y * z)
  {
    var q, r := x / (y * z), x % (y * z);
    assert x == (q * z) * y + r;
    var s := r / y;
    assert r == s * y + r % y;
    assert x == (q * z + s) * y + r % y;
    DivModUnique(x, y, q * z + s, r % y);
    MulAtLeast(s - z + 1, y);
    assert s < z;
    DivModUnique(q * z + s, z, q, s);
  }

  /** `x / 2^a / 2^b == x / 2^(a+b)`: shifting right twice. */
  lemma ShiftShift(x: nat, a: nat, b: nat)
    ensures x / Pow2(a) / Pow2(b) == x / Pow2(a + b)
  {
    DivDiv(x, Pow2(a), Pow2(b));
    Pow2Add(a, b);
  }

  /** The number of significant bits of `u`: `64 - Long.numberOfLeadingZeros` for a 64-bit pattern. */
  function BitLength(u: nat): nat
  {
    if u == 0 then 0 else 1 + BitLength(u / 2)
  }

  lemma {:induction false} BitLengthBounds(u: nat)
    ensures u < Pow2(BitLength(u))
    ensures u > 0 ==> Pow2(BitLength(u) - 1) <= u
  {
    if u > 0 {
      BitLengthBounds(u / 2);
    }
  }

  /** `u` fits in `n` bits exactly when its bit length is at most `n`. */
  lemma {:induction false} BitLengthAtMost(u: nat, n: nat)
    ensures u < Pow2(n) <==> BitLength(u) <= n
  {
    if n > 0 && u > 0 {
      BitLengthAtMost(u / 2, n - 1);
    } else if u > 0 {
      assert BitLength(u) > 0;
    }
  }

  lemma {:induction false} BitLengthUnique(u: nat, n: nat)
    requires u < Pow2(n)
    requires n > 0 ==> Pow2(n - 1) <= u
    ensures BitLength(u) == n
  {
    if n > 0 {
      if n > 1 {
        assert Pow2(n - 2) <= u / 2;
      }
      BitLengthUnique(u / 2, n - 1);
    }
  }

  /** Dropping the low `k` bits shortens the bit length by `k`. */
  lemma {:induction false} BitLengthShift(u: nat, k: nat)
    ensures var q := u / Pow2(k); q >= 0 && BitLength(q) == if k >= BitLength(u) then 0 else BitLength(u) - k
  {
    if k > 0 {
      var p := u / Pow2(k - 1);
      BitLengthShift(u, k - 1);
      assert u / Pow2(k) == p / 2 by {
        ShiftShift(u, k - 1, 1);
        Pow2Values();
      }
      BitLengthHalf(p);
    }
  }

  /** Halving drops one bit. */
  lemma BitLengthHalf(q: nat)
    ensures BitLength(q / 2) == if q == 0 then 0 else BitLength(q) - 1
  {
  }

  /** Bit `i` of `u` is set: `(u & (1L << i)) != 0` for a 64-bit pattern. */
  predicate BitAt(u: nat, i: nat)
  {
    (u / Pow2(i)) % 2 == 1
  }

  /** The low `n` bits of `v`, least significant first. */
  function BitsOf(v: nat, n: nat): (r: seq<bool>)
    ensures |r| == n
  {
    if n == 0 then [] else [v % 2 == 1] + BitsOf(v / 2, n - 1)
  }

  lemma {:induction false} BitsSnoc(v: nat, n: nat)
    ensures BitsOf(v, n + 1) == BitsOf(v, n) + [BitAt(v, n)]
  {
    if n > 0 {
      BitsSnoc(v / 2, n - 1);
      ShiftShift(v, 1, n - 1);
      Pow2Values();
    }
  }

  /** The number a little-endian bit sequence stands for: `BitSet.toByteArray` read as one integer. */
  function BitsValue(bs: seq<bool>): (r: nat)
    ensures r < Pow2(|bs|)
  {
    if bs == [] then 0 else (if bs[0] then 1 else 0) + 2 * BitsValue(bs[1..])
  }

  lemma {:induction false} BitsValueAppend(s: seq<bool>, t: seq<bool>)
    ensures BitsValue(s + t) == BitsValue(s) + Pow2(|s|) * BitsValue(t)
  {
    if s == [] {
      assert s + t == t;
    } else {
      var rest := (s + t)[1..];
      assert rest == s[1..] + t;
      BitsValueAppend(s[1..], t);
      var b := if s[0] then 1 else 0;
      assert BitsValue(s + t) == b + 2 * BitsValue(rest);
      assert BitsValue(s) == b + 2 * BitsValue(s[1..]);
      ShiftedValue(b, BitsValue(s[1..]), Pow2(|s| - 1), BitsValue(t), BitsValue(rest));
    }
  }

  /** Shifting a value with `v` stacked at position `p` by one bit stacks `v` at `2p`. */
  lemma ShiftedValue(b: int, a: int, p: int, v: int, x: int)
    requires x == a + p * v
    ensures b + 2 * x == (b + 2 * a) + (2 * p) * v
  {
    MulAssoc(2, p, v);
  }

  /** One more bit on top adds `2^|s|` if it is set. */
  lemma {:induction false} BitsValueSnoc(s: seq<bool>, b: bool)
    ensures BitsValue(s + [b]) == BitsValue(s) + (if b then Pow2(|s|) else 0)
  {
    if s == [] {
      assert s + [b] == [b];
      assert [b][1..] == [];
    } else {
      assert (s + [b])[1..] == s[1..] + [b];
      BitsValueSnoc(s[1..], b);
    }
  }

  lemma {:induction false} BitsValueAllClear(s: seq<bool>)
    requires forall k :: 0 <= k < |s| ==> !s[k]
    ensures BitsValue(s) == 0
  {
    if s != [] {
      BitsValueAllClear(s[1..]);
    }
  }

  /** `v mod (a*m)` is the low digit in base `a` plus `a` times the rest mod `m`. */
  lemma ModSplit(v: nat, a: nat, m: nat)
    requires a > 0 && m > 0
    ensures v % (a * m) == v % a + a * ((v / a) % m)
  {
    var h := v / a;
    assert v == a * h + v % a;
    assert h == m * (h / m) + h % m;
    assert a * h == a * (m * (h / m)) + a * (h % m);
    MulAssoc(a, m, h / m);
    assert v == (h / m) * (a * m) + (a * (h % m) + v % a);
    assert a * (h % m) <= a * (m - 1) by {
      MulAtLeast(m - 1 - h % m, a);
    }
    DivModUnique(v, a * m, h / m, a * (h % m) + v % a);
  }

  /** The low `n` bits of `v` stand for `v mod 2^n`. */
  lemma {:induction false} BitsValueOfBits(v: nat, n: nat)
    ensures BitsValue(BitsOf(v, n)) == v % Pow2(n)
  {
    if n > 0 {
      BitsValueOfBits(v / 2, n - 1);
      assert BitsOf(v, n)[1..] == BitsOf(v / 2, n - 1);
      ModSplit(v, 2, Pow2(n - 1));
    }
  }

  /** `a ^ b` on two bit patterns: a bit is set where exactly one of them has it. */
  function Xor(a: nat, b: nat): nat
  {
    if a == 0 then b
    else if b == 0 then a
    else (if a % 2 != b % 2 then 1 else 0) + 2 * Xor(a / 2, b / 2)
  }
}
