/** Integer facts shared by the P-384 and DER models: powers of two, modular
    arithmetic with a positive modulus, and little-/big-endian byte values. */
module Arith {

  /** A byte as the C code sees an `uint8_t`. */
  type Byte = x: int | 0 <= x < 256

  function Pow2(n: nat): (r: nat)
    ensures r >= 1
  {
    if n == 0 then 1 else 2 * Pow2(n - 1)
  }

  function Pow(a: int, n: nat): int
  {
    if n == 0 then 1 else a * Pow(a, n - 1)
  }

  lemma {:induction false} Pow2Add(a: nat, b: nat)
    ensures Pow2(a + b) == Pow2(a) * Pow2(b)
  {
    if b > 0 {
      Pow2Add(a, b - 1);
    }
  }

  /** Scaling by the next power of two doubles the product. */
  lemma Pow2Scale(e: int, i: nat)
    ensures e * Pow2(i + 1) == 2 * (e * Pow2(i))
  {
    assert Pow2(i + 1) == 2 * Pow2(i);
  }

  lemma {:induction false} Pow2Monotone(a: nat, b: nat)
    requires a <= b
    ensures Pow2(a) <= Pow2(b)
  {
    if a < b {
      Pow2Monotone(a, b - 1);
    }
  }

  lemma {:induction false} PowAdd(a: int, m: nat, n: nat)
    ensures Pow(a, m + n) == Pow(a, m) * Pow(a, n)
  {
    if n > 0 {
      PowAdd(a, m, n - 1);
      calc {
        Pow(a, m + n);
        a * Pow(a, m + n - 1);
        a * (Pow(a, m) * Pow(a, n - 1));
        Pow(a, m) * (a * Pow(a, n - 1));
      }
    }
  }

  lemma Pow2Byte()
    ensures Pow2(8) == 256
  {
    assert Pow2(2) == 4;
    assert Pow2(4) == 16;
  }

  /** Small powers of two used for windows and bytes. */
  lemma Pow2Values()
    ensures Pow2(1) == 2 && Pow2(2) == 4 && Pow2(3) == 8 && Pow2(4) == 16
    ensures Pow2(5) == 32 && Pow2(6) == 64 && Pow2(8) == 256
  {
    assert Pow2(4) == 16;
    assert Pow2(6) == 64;
    assert Pow2(8) == 256;
  }

  /** The wide powers of two that the P-384 constants are built from. */
  lemma Pow2Wide()
    ensures Pow2(32) == 0x1_0000_0000
    ensures Pow2(96) == 0x1_0000_0000_0000_0000_0000_0000
    ensures Pow2(128) == 0x1_0000_0000_0000_0000_0000_0000_0000_0000
    ensures Pow2(384) == 0x1_000000000000000000000000000000000000000000000000000000000000000000000000000000000000000000000000
  {
    Pow2Byte();
    Pow2Add(8, 8);
    assert Pow2(16) == 0x1_0000;
    Pow2Add(16, 16);
    assert Pow2(32) == 0x1_0000_0000;
    Pow2Add(32, 32);
    assert Pow2(64) == 0x1_0000_0000_0000_0000;
    Pow2Add(64, 32);
    Pow2Add(64, 64);
    assert Pow2(128) == 0x1_0000_0000_0000_0000_0000_0000_0000_0000;
    Pow2Add(128, 128);
    Pow2Add(256, 128);
  }

  // ---------------------------------------------------------------------
  // Division and remainder by a positive modulus (Dafny's / and % are
  // Euclidean; every use below has a non-negative dividend or a positive
  // modulus, where C's operators agree).
  // ---------------------------------------------------------------------

  lemma {:induction false} MulAtLeast(a: int, m: int)
    requires a >= 1 && m > 0
    ensures a * m >= m
  {
    if a > 1 {
      MulAtLeast(a - 1, m);
      assert a * m == (a - 1) * m + m;
    }
  }

  lemma DivNonNeg(x: int, m: int)
    requires x >= 0 && m > 0
    ensures x / m >= 0
  {
    var q := x / m;
    assert x == q * m + x % m;
    if q < 0 {
      MulAtLeast(-q, m);
      assert false;
    }
  }

  lemma ModUnique(x: int, q: int, r: int, m: int)
    requires m > 0 && 0 <= r < m && x == q * m + r
    ensures x % m == r && x / m == q
  {
    var q', r' := x / m, x % m;
    assert x == q' * m + r';
    if q' > q {
      assert (q' - q) * m == q' * m - q * m;
      MulAtLeast(q' - q, m);
      assert false;
    }
    if q' < q {
      assert (q - q') * m == q * m - q' * m;
      MulAtLeast(q - q', m);
      assert false;
    }
  }

  lemma ModShift(x: int, k: int, m: int)
    requires m > 0
    ensures (x + k * m) % m == x % m
    ensures (x + k * m) / m == x / m + k
  {
    assert x + k * m == (x / m + k) * m + x % m;
    ModUnique(x + k * m, x / m + k, x % m, m);
  }

  /** Multiplication modulo m is associative on residues. */
  lemma ModMulAssoc(a: int, b: int, c: int, m: int)
    requires m > 0 && 0 <= a < m && 0 <= c < m
    ensures ((a * b) % m * c) % m == (a * ((b * c) % m)) % m
  {
    ModUnique(a, 0, a, m);
    ModUnique(c, 0, c, m);
    ModMul(a * b, c, m);
    ModMul(a, b * c, m);
    MulAssocInt(a, b, c);
  }

  lemma ModMul(a: int, b: int, m: int)
    requires m > 0
    ensures (a % m) * (b % m) % m == a * b % m
  {
    var ra, rb := a % m, b % m;
    var k := ProductExpand(a, b, a / m, ra, b / m, rb, m);
    ModShift(ra * rb, k, m);
  }

  /** (qa m + ra)(qb m + rb) is ra rb plus a multiple of m. */
  lemma ProductExpand(a: int, b: int, qa: int, ra: int, qb: int, rb: int, m: int) returns (k: int)
    requires a == qa * m + ra && b == qb * m + rb
    ensures a * b == ra * rb + k * m
  {
    k := qa * rb + ra * qb + qa * qb * m;
  }

  lemma ModAdd(a: int, b: int, m: int)
    requires m > 0
    ensures (a % m + b % m) % m == (a + b) % m
  {
    assert a + b == a % m + b % m + (a / m + b / m) * m;
    ModShift(a % m + b % m, a / m + b / m, m);
  }

  lemma ModSub(a: int, b: int, m: int)
    requires m > 0
    ensures (a % m - b % m) % m == (a - b) % m
  {
    assert a - b == a % m - b % m + (a / m - b / m) * m;
    ModShift(a % m - b % m, a / m - b / m, m);
  }

  // Ring identities the field proofs use, kept apart so that each is proved
  // with nothing else in scope.

  lemma SquareOfSum(a: int, b: int)
    ensures (a + b) * (a + b) - a * a - b * b == 2 * (a * b) == 2 * a * b
  {
  }

  lemma DoubledSquare(a: int)
    ensures (a + a) * (a + a) == 4 * (a * a)
  {
  }

  lemma MulAssocInt(a: int, b: int, c: int)
    ensures (a * b) * c == a * (b * c)
  {
  }

  lemma MultipleMod(k: int, m: int)
    requires m > 0
    ensures (m * k) % m == 0
  {
    ModShift(0, k, m);
    MulComm(k, m);
  }

  lemma MulComm(a: int, b: int)
    ensures a * b == b * a
  {
  }

  lemma MulZero(a: int)
    ensures a * 0 == 0
  {
  }

  lemma MulNonNeg(a: int, b: int)
    requires a >= 0 && b >= 0
    ensures a * b >= 0
  {
  }

  /** Mixed-radix split: dividing by a then b is dividing by a * b, and the
      remainder modulo a * b is the low digit in base a plus the next in base b. */
  lemma DivDiv(x: int, a: int, b: int)
    requires x >= 0 && a > 0 && b > 0
    ensures x / a / b == x / (a * b)
    ensures x % (a * b) == x % a + a * ((x / a) % b)
  {
    var q1, r1 := x / a, x % a;
    var q2, r2 := q1 / b, q1 % b;
    assert x == q1 * a + r1;
    assert q1 == q2 * b + r2;
    assert q1 * a == q2 * (a * b) + a * r2;
    MulNonNeg(a, r2);
    MulNonNeg(a, b - 1 - r2);
    assert a * (b - 1 - r2) == a * b - a - a * r2;
    ModUnique(x, q2, a * r2 + r1, a * b);
  }

  /** Splitting off bit n of a non-negative integer. */
  lemma ModPow2Step(x: int, n: nat)
    requires x >= 0
    ensures x % Pow2(n + 1) == x % Pow2(n) + ((x / Pow2(n)) % 2) * Pow2(n)
  {
    var m := Pow2(n);
    var b := (x / m) % 2;
    var c := (x / m) / 2;
    assert x / m == 2 * c + b;
    assert x == c * (2 * m) + (b * m + x % m) by {
      assert x == (x / m) * m + x % m;
    }
    ModUnique(x, c, b * m + x % m, 2 * m);
  }

  /** Below 2^n every bit from n upwards is zero. */
  lemma HighBitsZero(x: int, n: nat, i: nat)
    requires 0 <= x < Pow2(n) && n <= i
    ensures x / Pow2(i) == 0 && x % Pow2(i) == x
  {
    Pow2Monotone(n, i);
    ModUnique(x, 0, x, Pow2(i));
  }

  /** Bit j of x, `(x >> j) & 1`: shift right one place at a time, then
      keep the low bit. */
  function Bit(x: int, j: nat): (b: int)
    ensures b == 0 || b == 1
    decreases j
  {
    if j == 0 then x % 2 else Bit(x / 2, j - 1)
  }

  /** The shifts add up to one division by 2^j. */
  lemma {:induction false} BitValue(x: int, j: nat)
    requires x >= 0
    ensures Bit(x, j) == (x / Pow2(j)) % 2
  {
    if j > 0 {
      BitValue(x / 2, j - 1);
      DivDiv(x, 2, Pow2(j - 1));
      assert Pow2(j) == 2 * Pow2(j - 1);
    }
  }

  /** Bit k of x / 2^n is bit n + k of x. */
  lemma BitShift(x: int, n: nat, k: nat)
    requires x >= 0
    ensures Bit(x / Pow2(n), k) == Bit(x, n + k)
  {
    DivNonNeg(x, Pow2(n));
    BitValue(x / Pow2(n), k);
    BitValue(x, n + k);
    DivDiv(x, Pow2(n), Pow2(k));
    Pow2Add(n, k);
  }

  /** The low five bits of y, bit by bit. */
  lemma LowBits5(y: int)
    requires y >= 0
    ensures y % 32 == Bit(y, 0) + 2 * Bit(y, 1) + 4 * Bit(y, 2) + 8 * Bit(y, 3) + 16 * Bit(y, 4)
  {
    Pow2Values();
    assert Pow2(1) == 2 && Pow2(3) == 8 && Pow2(4) == 16;
    ModPow2Step(y, 0);
    ModPow2Step(y, 1);
    ModPow2Step(y, 2);
    ModPow2Step(y, 3);
    ModPow2Step(y, 4);
    BitValue(y, 0);
    BitValue(y, 1);
    BitValue(y, 2);
    BitValue(y, 3);
    BitValue(y, 4);
    assert y % 1 == 0;
  }

  /** Five consecutive bits of x from bit n, as a number below 32. */
  lemma FiveBits(x: int, n: nat)
    requires x >= 0
    ensures (x / Pow2(n)) % 32 == Bit(x, n) + 2 * Bit(x, n + 1) + 4 * Bit(x, n + 2) + 8 * Bit(x, n + 3) + 16 * Bit(x, n + 4)
  {
    var y := x / Pow2(n);
    DivNonNeg(x, Pow2(n));
    LowBits5(y);
    BitShift(x, n, 0);
    BitShift(x, n, 1);
    BitShift(x, n, 2);
    BitShift(x, n, 3);
    BitShift(x, n, 4);
  }

  /** x mod 2^(n+k) splits into x mod 2^n and the next k bits. */
  lemma ModPow2Split(x: int, n: nat, k: nat)
    requires x >= 0
    ensures x % Pow2(n + k) == x % Pow2(n) + Pow2(n) * ((x / Pow2(n)) % Pow2(k))
  {
    Pow2Add(n, k);
    DivDiv(x, Pow2(n), Pow2(k));
  }

  // ---------------------------------------------------------------------
  // Byte strings as numbers.
  // ---------------------------------------------------------------------

  /** Value of a little-endian byte string. */
  function LeValue(s: seq<Byte>): nat
  {
    if s == [] then 0 else s[0] + 256 * LeValue(s[1..])
  }

  /** Value of a big-endian byte string. */
  function BeValue(s: seq<Byte>): nat
  {
    if s == [] then 0 else BeValue(s[..|s| - 1]) * 256 + s[|s| - 1]
  }

  /** The low n bytes of x, least significant first. */
  function LeBytes(x: nat, n: nat): (r: seq<Byte>)
    ensures |r| == n
  {
    if n == 0 then [] else [x % 256] + LeBytes(x / 256, n - 1)
  }

  function Reverse<T>(s: seq<T>): (r: seq<T>)
    ensures |r| == |s|
  {
    if s == [] then [] else Reverse(s[1..]) + [s[0]]
  }

  lemma {:induction false} LeValueBound(s: seq<Byte>)
    ensures LeValue(s) < Pow2(8 * |s|)
  {
    if s != [] {
      LeValueBound(s[1..]);
      assert 8 * |s| == 8 + 8 * (|s| - 1);
      Pow2Byte();
      Pow2Add(8, 8 * (|s| - 1));
      PrependByteBound(s[0], LeValue(s[1..]), Pow2(8 * (|s| - 1)));
    }
  }

  lemma PrependByteBound(b: Byte, v: int, m: int)
    requires 0 <= v < m
    ensures b + 256 * v < 256 * m
  {
  }

  /** Encoding n bytes and reading them back gives x modulo 2^(8n). */
  lemma {:induction false} LeBytesRoundTrip(x: nat, n: nat)
    ensures LeValue(LeBytes(x, n)) == x % Pow2(8 * n)
  {
    if n > 0 {
      LeBytesRoundTrip(x / 256, n - 1);
      var m := Pow2(8 * (n - 1));
      assert Pow2(8 * n) == 256 * m by {
        Pow2Byte();
        Pow2Add(8, 8 * (n - 1));
        assert 8 * n == 8 + 8 * (n - 1);
      }
      var s := LeBytes(x, n);
      assert s[0] == x % 256 && s[1..] == LeBytes(x / 256, n - 1);
      DivDiv(x, 256, m);
    }
  }

  /** Reading a byte string backwards as big-endian gives its little-endian value. */
  lemma {:induction false} BeValueOfReverse(s: seq<Byte>)
    ensures BeValue(Reverse(s)) == LeValue(s)
  {
    if s != [] {
      BeValueOfReverse(s[1..]);
      var r := Reverse(s[1..]) + [s[0]];
      assert r[..|r| - 1] == Reverse(s[1..]);
    }
  }

  /** Adding an even multiple of m leaves the parity of the quotient by m. */
  lemma QuotientParity(b: int, l: int, m: int, k: int)
    requires m > 0 && m * (2 * k) == 256
    ensures ((b + 256 * l) / m) % 2 == (b / m) % 2
  {
    assert 256 * l == (k * l * 2) * m;
    ModShift(b, k * l * 2, m);
    ModShift(b / m, k * l, 2);
  }

  /** Bits 0..7 of b + 256 l are the bits of the byte b. */
  lemma LowByteBit(b: Byte, l: int, i: nat)
    requires l >= 0 && i < 8
    ensures Bit(b + 256 * l, i) == Bit(b, i)
  {
    var m := Pow2(i);
    var k := Pow2(7 - i);
    Pow2Byte();
    Pow2Add(i, 8 - i);
    assert Pow2(8 - i) == 2 * k;
    QuotientParity(b, l, m, k);
    BitValue(b + 256 * l, i);
    BitValue(b, i);
  }

  /** Bits from 8 upwards of b + 256 l are the bits of l. */
  lemma HighByteBit(b: Byte, l: int, i: nat)
    requires l >= 0 && 8 <= i
    ensures Bit(b + 256 * l, i) == Bit(l, i - 8)
  {
    var x := b + 256 * l;
    BitValue(x, i);
    BitValue(l, i - 8);
    ModUnique(x, l, b, 256);
    DivDiv(x, 256, Pow2(i - 8));
    assert Pow2(i) == 256 * Pow2(i - 8) by {
      Pow2Byte();
      Pow2Add(8, i - 8);
    }
  }

  /** Bit i of a little-endian byte string's value is bit i mod 8 of byte i / 8. */
  lemma {:induction false} LeValueBit(s: seq<Byte>, i: nat)
    requires i < 8 * |s|
    ensures Bit(LeValue(s), i) == Bit(s[i / 8], i % 8)
  {
    if i < 8 {
      LowByteBit(s[0], LeValue(s[1..]), i);
    } else {
      LeValueBit(s[1..], i - 8);
      HighByteBit(s[0], LeValue(s[1..]), i);
      assert s[1..][(i - 8) / 8] == s[i / 8];
    }
  }
}
