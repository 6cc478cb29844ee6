/** The field GF(p) of P-384, p = 2^384 - 2^128 - 2^96 + 2^32 - 1, as the
    scalar-multiplication code uses it. The fiat engine's limbs and Montgomery
    form are abstracted away: a field element is its canonical residue, and
    each engine call (square, mul, add, sub) is the residue of the exact
    integer result. */
module P384Field {
  import opened Arith

  const P: int := 0xfffffffffffffffffffffffffffffffffffffffffffffffffffffffffffffffeffffffff0000000000000000ffffffff

  /** The order of the P-384 group; p - n is below 2^190. */
  const N: int := 0xffffffffffffffffffffffffffffffffffffffffffffffffc7634d81f4372ddf581a0db248b0a77aecec196accc52973

  type Felem = x: int | 0 <= x < P

  function Add(a: Felem, b: Felem): Felem { (a + b) % P }
  function Sub(a: Felem, b: Felem): Felem { (a - b) % P }
  function Mul(a: Felem, b: Felem): Felem { (a * b) % P }
  function Square(a: Felem): Felem { (a * a) % P }

  // Congruence steps: an engine call on residues of u and v gives the
  // residue of the exact integer result.

  lemma MulCong(a: Felem, b: Felem, u: int, v: int)
    requires a == u % P && b == v % P
    ensures Mul(a, b) == (u * v) % P
  {
    ModMul(u, v, P);
  }

  lemma AddCong(a: Felem, b: Felem, u: int, v: int)
    requires a == u % P && b == v % P
    ensures Add(a, b) == (u + v) % P
  {
    ModAdd(u, v, P);
  }

  lemma SubCong(a: Felem, b: Felem, u: int, v: int)
    requires a == u % P && b == v % P
    ensures Sub(a, b) == (u - v) % P
  {
    ModSub(u, v, P);
  }

  lemma SquareCong(a: Felem, u: int)
    requires a == u % P
    ensures Square(a) == (u * u) % P
  {
    MulCong(a, a, u, u);
  }

  lemma DoubleCong(a: Felem, u: int)
    requires a == u % P
    ensures Add(a, a) == (2 * u) % P
  {
    AddCong(a, a, u, u);
  }

  lemma Residue(a: Felem)
    ensures a % P == a
  {
    ModUnique(a, 0, a, P);
  }

  lemma MulOne(a: Felem)
    ensures Mul(a, 1) == a
  {
    Residue(a);
  }

  /** a^e reduced modulo p. */
  ghost function ModPow(a: int, e: nat): Felem
  {
    Pow(a, e) % P
  }

  /** The powers of two the addition chain's exponents are written with. */
  lemma ChainPowers()
    ensures Pow2(1) == 0x2 && Pow2(2) == 0x4 && Pow2(3) == 0x8 && Pow2(6) == 0x40
    ensures Pow2(12) == 0x1000 && Pow2(15) == 0x8000
    ensures Pow2(30) == 0x40000000 && Pow2(31) == 0x80000000 && Pow2(32) == 0x100000000
    ensures Pow2(60) == 0x1000000000000000
    ensures Pow2(94) == 0x400000000000000000000000
    ensures Pow2(96) == 0x1000000000000000000000000
    ensures Pow2(120) == 0x1000000000000000000000000000000
    ensures Pow2(126) == 0x40000000000000000000000000000000
    ensures Pow2(128) == 0x100000000000000000000000000000000
    ensures Pow2(240) == 0x1000000000000000000000000000000000000000000000000000000000000
    ensures Pow2(255) == 0x8000000000000000000000000000000000000000000000000000000000000000
    ensures Pow2(286) == 0x400000000000000000000000000000000000000000000000000000000000000000000000
    ensures Pow2(288) == 0x1000000000000000000000000000000000000000000000000000000000000000000000000
    ensures Pow2(382) == 0x400000000000000000000000000000000000000000000000000000000000000000000000000000000000000000000000
    ensures Pow2(384) == 0x1000000000000000000000000000000000000000000000000000000000000000000000000000000000000000000000000
  {
    Pow2Values();
    Pow2Wide();
    Pow2Add(6, 6);
    Pow2Add(12, 3);
    Pow2Add(15, 15);
    Pow2Add(30, 1);
    Pow2Add(30, 30);
    Pow2Add(32, 32);
    Pow2Add(64, 30);
    Pow2Add(60, 60);
    Pow2Add(120, 6);
    Pow2Add(120, 120);
    Pow2Add(240, 15);
    Pow2Add(255, 31);
    Pow2Add(286, 2);
    Pow2Add(288, 94);
  }

  lemma ModPowOne(a: Felem)
    ensures ModPow(a, 1) == a
  {
    assert Pow(a, 1) == a * Pow(a, 0);
  }

  /** Multiplying two powers of the same element adds their exponents. */
  lemma MulModPow(a: int, e1: nat, e2: nat)
    ensures Mul(ModPow(a, e1), ModPow(a, e2)) == ModPow(a, e1 + e2)
  {
    PowAdd(a, e1, e2);
    ModMul(Pow(a, e1), Pow(a, e2), P);
  }

  /** Squaring a power of an element doubles its exponent. */
  lemma SquareModPow(a: int, e: nat)
    ensures Square(ModPow(a, e)) == ModPow(a, 2 * e)
  {
    MulModPow(a, e, e);
  }

  /** The repeated squaring the addition chain is built from: n squarings
      multiply the exponent by 2^n. */
  method SquareTimes(x: Felem, n: nat, ghost a: int, ghost e: nat) returns (r: Felem)
    requires x == ModPow(a, e)
    ensures r == ModPow(a, e * Pow2(n))
  {
    r := x;
    for i := 0 to n
      invariant r == ModPow(a, e * Pow2(i))
    {
      SquareModPow(a, e * Pow2(i));
      Pow2Scale(e, i);
      r := Square(r);
    }
  }

  /** inv_square: in^(p-3), which by Fermat's little theorem is in^(-2).
      The ghost exponents follow the addition chain step by step. */
  method InvSquare(a: Felem) returns (out: Felem)
    ensures out == ModPow(a, P - 3)
  {
    ChainPowers();
    ModPowOne(a);
    SquareModPow(a, 1);
    var x2 := Square(a);                         // 2^2 - 2^1
    MulModPow(a, 2, 1);
    x2 := Mul(x2, a);                            // 2^2 - 2^0
    ghost var e2 := 3;
    assert e2 == Pow2(2) - 1;

    SquareModPow(a, e2);
    var x3 := Square(x2);                        // 2^3 - 2^1
    MulModPow(a, 2 * e2, 1);
    x3 := Mul(x3, a);                            // 2^3 - 2^0
    ghost var e3 := 2 * e2 + 1;
    assert e3 == Pow2(3) - 1;

    var x6 := SquareTimes(x3, 3, a, e3);
    assert e3 * Pow2(3) == Pow2(6) - Pow2(3);
    MulModPow(a, e3 * Pow2(3), e3);
    x6 := Mul(x6, x3);
    ghost var e6 := e3 * Pow2(3) + e3;
    assert e6 == Pow2(6) - 1;

    var x12 := SquareTimes(x6, 6, a, e6);
    assert e6 * Pow2(6) == Pow2(12) - Pow2(6);
    MulModPow(a, e6 * Pow2(6), e6);
    x12 := Mul(x12, x6);
    ghost var e12 := e6 * Pow2(6) + e6;
    assert e12 == Pow2(12) - 1;

    var x15 := SquareTimes(x12, 3, a, e12);
    assert e12 * Pow2(3) == Pow2(15) - Pow2(3);
    MulModPow(a, e12 * Pow2(3), e3);
    x15 := Mul(x15, x3);
    ghost var e15 := e12 * Pow2(3) + e3;
    assert e15 == Pow2(15) - 1;

    var x30 := SquareTimes(x15, 15, a, e15);
    assert e15 * Pow2(15) == Pow2(30) - Pow2(15);
    MulModPow(a, e15 * Pow2(15), e15);
    x30 := Mul(x30, x15);
    ghost var e30 := e15 * Pow2(15) + e15;
    assert e30 == Pow2(30) - 1;

    var x60 := SquareTimes(x30, 30, a, e30);
    assert e30 * Pow2(30) == Pow2(60) - Pow2(30);
    MulModPow(a, e30 * Pow2(30), e30);
    x60 := Mul(x60, x30);
    ghost var e60 := e30 * Pow2(30) + e30;
    assert e60 == Pow2(60) - 1;

    var x120 := SquareTimes(x60, 60, a, e60);
    assert e60 * Pow2(60) == Pow2(120) - Pow2(60);
    MulModPow(a, e60 * Pow2(60), e60);
    x120 := Mul(x120, x60);
    ghost var e120 := e60 * Pow2(60) + e60;
    assert e120 == Pow2(120) - 1;

    var ret := SquareTimes(x120, 120, a, e120);
    assert e120 * Pow2(120) == Pow2(240) - Pow2(120);
    MulModPow(a, e120 * Pow2(120), e120);
    ret := Mul(ret, x120);
    ghost var e := e120 * Pow2(120) + e120;
    assert e == Pow2(240) - 1;

    ret := SquareTimes(ret, 15, a, e);
    assert e * Pow2(15) == Pow2(255) - Pow2(15);
    MulModPow(a, e * Pow2(15), e15);
    ret := Mul(ret, x15);
    e := e * Pow2(15) + e15;
    assert e == Pow2(255) - 1;

    // 31 squarings, then x30: 255 ones, a zero, then 30 ones.
    ret := SquareTimes(ret, 31, a, e);
    assert e * Pow2(31) == Pow2(286) - Pow2(31);
    MulModPow(a, e * Pow2(31), e30);
    ret := Mul(ret, x30);
    e := e * Pow2(31) + e30;
    assert e == Pow2(286) - Pow2(30) - 1;

    ret := SquareTimes(ret, 2, a, e);
    assert e * Pow2(2) == Pow2(288) - Pow2(32) - Pow2(2);
    MulModPow(a, e * Pow2(2), e2);
    ret := Mul(ret, x2);
    e := e * Pow2(2) + e2;
    assert e == Pow2(288) - Pow2(32) - 1;

    // 94 squarings, then x30: 64 zeros and 30 ones.
    ret := SquareTimes(ret, 94, a, e);
    assert e * Pow2(94) == Pow2(382) - Pow2(126) - Pow2(94);
    MulModPow(a, e * Pow2(94), e30);
    ret := Mul(ret, x30);
    e := e * Pow2(94) + e30;
    assert e == Pow2(382) - Pow2(126) - Pow2(94) + Pow2(30) - 1;

    SquareModPow(a, e);
    ret := Square(ret);
    SquareModPow(a, 2 * e);
    out := Square(ret);
    assert 2 * (2 * e) == Pow2(384) - Pow2(128) - Pow2(96) + Pow2(32) - Pow2(2) == P - 3;
  }

  /** What inv_square's result means: multiplied by in^2 it gives in^(p-1),
      which Fermat's little theorem makes 1 for every nonzero in. */
  lemma InvSquareTimesSquare(a: Felem)
    ensures Mul(ModPow(a, P - 3), Square(a)) == ModPow(a, P - 1)
  {
    ModPowOne(a);
    SquareModPow(a, 1);
    MulModPow(a, P - 3, 2);
  }

  /** mont_felem_to_bytes: the 48-byte big-endian encoding of a field element,
      written by reading the little-endian encoding backwards. */
  method FelemToBytes(x: Felem) returns (out: seq<Byte>, outLen: nat)
    ensures outLen == |out| == 48
    ensures BeValue(out) == x
  {
    var len := 48;
    var bytes := LeBytes(x, len);
    out := [];
    for i := 0 to len
      invariant out == Reverse(bytes[len - i..])
    {
      assert bytes[len - 1 - i..][1..] == bytes[len - i..];
      out := out + [bytes[len - 1 - i]];
    }
    outLen := len;
    assert bytes[0..] == bytes;
    BeValueOfReverse(bytes);
    LeBytesRoundTrip(x, len);
    Pow2Wide();
    ModUnique(x, 0, x, Pow2(8 * len));
  }
}
