/**
 Bytes, bitwise exclusive-or and conjunction on naturals, and the fixed-width
 big-endian integers of encoding/binary. The bitwise operators are defined bit
 by bit, so that one definition serves bytes, machine words and ring indices.
 */
module Bytes {

  type byte = x: int | 0 <= x < 256
  type bytes = seq<byte>

  const INT64_LIMIT: int := 0x8000_0000_0000_0000
  const UINT64_LIMIT: int := 0x1_0000_0000_0000_0000

  /** The value of a 64-bit two's complement register holding x. */
  function Int64(x: int): (r: int)
    ensures -INT64_LIMIT <= r < INT64_LIMIT
  {
    var m := x % UINT64_LIMIT;
    if m < INT64_LIMIT then m else m - UINT64_LIMIT
  }

  const INT32_RANGE: int := 0x1_0000_0000

  /** The value of a 32-bit two's complement register holding x. */
  function Int32(x: int): (r: int)
    ensures -0x8000_0000 <= r < 0x8000_0000
  {
    (x + 0x8000_0000) % INT32_RANGE - 0x8000_0000
  }

  function Min(a: nat, b: nat): (m: nat)
    ensures m <= a && m <= b && (m == a || m == b)
  {
    if a <= b then a else b
  }

  lemma Int64Exact(n: nat)
    ensures n < INT64_LIMIT ==> Int64(n) == n
    ensures INT64_LIMIT <= n < UINT64_LIMIT ==> Int64(n) < 0
  {
  }

  function Pow2(k: nat): (p: nat)
    ensures p >= 1
  {
    if k == 0 then 1 else 2 * Pow2(k - 1)
  }

  function Xor(a: nat, b: nat): nat
    decreases a + b
  {
    if a == 0 && b == 0 then 0 else (a % 2 + b % 2) % 2 + 2 * Xor(a / 2, b / 2)
  }

  function And(a: nat, b: nat): nat
    decreases a + b
  {
    if a == 0 && b == 0 then 0 else (a % 2) * (b % 2) + 2 * And(a / 2, b / 2)
  }

  lemma {:induction false} XorBound(k: nat, a: nat, b: nat)
    requires a < Pow2(k) && b < Pow2(k)
    ensures Xor(a, b) < Pow2(k)
  {
    if k > 0 {
      XorBound(k - 1, a / 2, b / 2);
    }
  }

  /** Exclusive-or acts separately on the low k bits and on the rest. */
  lemma {:induction false} XorSplit(k: nat, a: nat, b: nat, high: nat, high': nat)
    requires a < Pow2(k) && b < Pow2(k)
    ensures Xor(a + Pow2(k) * high, b + Pow2(k) * high') == Xor(a, b) + Pow2(k) * Xor(high, high')
  {
    if k == 0 {
      assert Xor(0, 0) == 0;
    } else {
      Halve(k, a, high);
      Halve(k, b, high');
      XorSplit(k - 1, a / 2, b / 2, high, high');
      Double(Pow2(k - 1), Xor(high, high'));
    }
  }

  lemma Double(p: nat, x: nat)
    ensures (2 * p) * x == 2 * (p * x)
  {
  }

  lemma Halve(k: nat, a: nat, high: nat)
    requires k > 0
    ensures (a + Pow2(k) * high) % 2 == a % 2
    ensures (a + Pow2(k) * high) / 2 == a / 2 + Pow2(k - 1) * high
  {
    var q := Pow2(k - 1) * high;
    assert Pow2(k) * high == 2 * q;
    assert (a + 2 * q) / 2 == a / 2 + q;
  }

  lemma XorHalf(a: nat, b: nat)
    ensures Xor(a, b) / 2 == Xor(a / 2, b / 2)
    ensures Xor(a, b) % 2 == (a % 2 + b % 2) % 2
  {
  }

  lemma XorZero()
    ensures Xor(0, 0) == 0
  {
  }

  lemma HalvesEqual(a: nat, b: nat)
    requires a / 2 == b / 2 && a % 2 == b % 2
    ensures a == b
  {
  }

  lemma {:induction false} XorInvolutive(a: nat, k: nat)
    ensures Xor(Xor(a, k), k) == a
    decreases a + k
  {
    hide Xor;
    if a == 0 && k == 0 {
      XorZero();
    } else {
      XorInvolutive(a / 2, k / 2);
      XorHalf(a, k);
      XorHalf(Xor(a, k), k);
      HalvesEqual(Xor(Xor(a, k), k), a);
    }
  }

  /** Only 0 leaves a number as it is. */
  lemma {:induction false} XorSame(a: nat, k: nat)
    ensures Xor(a, k) == a <==> k == 0
    decreases a + k
  {
    hide Xor;
    if a == 0 && k == 0 {
      XorZero();
    } else {
      XorSame(a / 2, k / 2);
      XorHalf(a, k);
      if a / 2 == Xor(a, k) / 2 && a % 2 == Xor(a, k) % 2 {
        HalvesEqual(Xor(a, k), a);
      }
    }
  }

  /** Conjunction with 2^k - 1 is remainder by 2^k. */
  lemma {:induction false} AndLowBits(k: nat, a: nat)
    ensures And(a, Pow2(k) - 1) == a % Pow2(k)
    decreases k, a
  {
    hide And;
    if k == 0 {
      AndZero(a);
    } else {
      var m := Pow2(k - 1);
      AndLowBits(k - 1, a / 2);
      AndOdd(a, m - 1);
      ModHalve(a, m);
      assert 2 * (m - 1) + 1 == Pow2(k) - 1;
    }
  }

  lemma AndOdd(a: nat, m: nat)
    ensures And(a, 2 * m + 1) == a % 2 + 2 * And(a / 2, m)
  {
    assert (2 * m + 1) / 2 == m && (2 * m + 1) % 2 == 1;
  }

  lemma {:induction false} AndZero(a: nat)
    ensures And(a, 0) == 0
  {
    if a != 0 {
      AndZero(a / 2);
    }
  }

  lemma ModHalve(a: nat, m: nat)
    requires m >= 1
    ensures a % (2 * m) == a % 2 + 2 * ((a / 2) % m)
  {
    var h, r := a / 2, a % 2;
    var q, s := h / m, h % m;
    assert h == q * m + s;
    assert a == (2 * m) * q + (r + 2 * s);
    ModUnique(a, 2 * m, q, r + 2 * s);
  }

  lemma ModUnique(a: int, m: nat, q: int, r: int)
    requires m > 0 && 0 <= r < m && a == m * q + r
    ensures a % m == r && a / m == q
  {
    var q', r' := a / m, a % m;
    assert m * (q - q') == r' - r;
    if q - q' >= 1 {
      AtLeast(m, q - q');
    } else if q' - q >= 1 {
      AtLeast(m, q' - q);
    }
  }

  lemma AtLeast(m: nat, d: nat)
    requires d >= 1
    ensures m * d >= m
  {
    assert m * d == m + m * (d - 1);
  }

  function XorByte(a: byte, b: byte): (r: byte) {
    assert Pow2(8) == 256 by {
      assert Pow2(4) == 16;
    }
    XorBound(8, a, b);
    Xor(a, b)
  }

  /** b & bit != 0, for bit a power of two. */
  predicate HasBit(b: byte, bit: nat)
    requires bit > 0
  {
    (b / bit) % 2 == 1
  }

  /** The low `width` bytes of n, most significant first: PutUint16 and PutUint64. */
  function BigEndian(width: nat, n: nat): (s: bytes)
    ensures |s| == width
  {
    if width == 0 then [] else BigEndian(width - 1, n / 256) + [n % 256]
  }

  /** The number whose big-endian bytes are s: Uint16 and Uint64. */
  function FromBigEndian(s: bytes): nat {
    if s == [] then 0 else 256 * FromBigEndian(s[..|s| - 1]) + s[|s| - 1]
  }

  function Pow256(k: nat): (p: nat)
    ensures p >= 1
  {
    if k == 0 then 1 else 256 * Pow256(k - 1)
  }

  /** A fixed-width big-endian field holds a number up to truncation to its width. */
  lemma {:induction false} BigEndianRoundTrip(width: nat, n: nat)
    requires n < Pow256(width)
    ensures FromBigEndian(BigEndian(width, n)) == n
  {
    if width > 0 {
      var s := BigEndian(width, n);
      assert s[..|s| - 1] == BigEndian(width - 1, n / 256);
      BigEndianRoundTrip(width - 1, n / 256);
    }
  }

  lemma {:induction false} BigEndianBound(s: bytes)
    ensures FromBigEndian(s) < Pow256(|s|)
  {
    if s != [] {
      BigEndianBound(s[..|s| - 1]);
    }
  }

  lemma FieldWidths()
    ensures Pow256(2) == 0x1_0000
    ensures Pow256(8) == UINT64_LIMIT
  {
    assert Pow256(4) == 0x1_0000_0000;
  }
}
