/** Scalar recoding for P-384 scalar multiplication: reading bits of a
    48-byte little-endian scalar, the regular wNAF recoding (77 odd digits in
    radix 2^5) used by the constant-time multiplications, and the textbook
    wNAF recoding (385 sparse digits in radix 2) used by the public one. */
module P384Scalar {
  import opened Arith

  /** fiat_p384_get_bit: bit i of the scalar, and 0 outside [0, 384). */
  function GetBit(scalar: seq<Byte>, i: int): (b: int)
    requires |scalar| == 48
    ensures b == 0 || b == 1
    ensures i < 0 || i >= 384 ==> b == 0
  {
    if i < 0 || i >= 384 then 0 else Bit(scalar[i / 8], i % 8)
  }

  /** The guarded byte-wise read is bit i of the scalar's value, for every
      non-negative i (bits from 384 on are zero). */
  lemma GetBitIsScalarBit(scalar: seq<Byte>, i: nat)
    requires |scalar| == 48
    ensures GetBit(scalar, i) == Bit(LeValue(scalar), i)
  {
    if i < 384 {
      LeValueBit(scalar, i);
    } else {
      LeValueBound(scalar);
      HighBitsZero(LeValue(scalar), 384, i);
      BitValue(LeValue(scalar), i);
    }
  }

  /** `x | 1`: the value with its low bit forced to one. */
  function SetLowBit(x: int): int
  {
    if x % 2 == 0 then x + 1 else x
  }

  /** Forcing the low bit leaves every higher bit alone. */
  lemma SetLowBitShift(x: int, n: nat)
    requires x >= 0 && n >= 1
    ensures SetLowBit(x) / Pow2(n) == x / Pow2(n)
  {
    assert SetLowBit(x) / 2 == x / 2;
    DivDiv(SetLowBit(x), 2, Pow2(n - 1));
    DivDiv(x, 2, Pow2(n - 1));
  }

  /** The value of a digit string in radix 2^w, least significant digit first. */
  function DigitsValue(d: seq<int>, w: nat): int
  {
    if d == [] then 0 else d[0] + Pow2(w) * DigitsValue(d[1..], w)
  }

  /** A digit string's value is its first k digits plus 2^(wk) times the rest. */
  lemma {:induction false} DigitsSplit(d: seq<int>, k: nat, w: nat)
    requires k <= |d|
    ensures DigitsValue(d, w) == DigitsValue(d[..k], w) + Pow2(w * k) * DigitsValue(d[k..], w)
  {
    if k > 0 {
      DigitsSplit(d[1..], k - 1, w);
      assert d[1..][..k - 1] == d[..k][1..];
      assert d[1..][k - 1..] == d[k..];
      assert w * k == w + w * (k - 1);
      Pow2Add(w, w * (k - 1));
      Distribute(Pow2(w), DigitsValue(d[..k][1..], w), Pow2(w * (k - 1)), DigitsValue(d[k..], w));
    } else {
      assert d[..0] == [] && d[0..] == d;
    }
  }

  lemma Distribute(p: int, a: int, q: int, b: int)
    ensures p * (a + q * b) == p * a + (p * q) * b
  {
  }

  lemma DigitsAppend(d: seq<int>, x: int, w: nat)
    ensures DigitsValue(d + [x], w) == DigitsValue(d, w) + x * Pow2(w * |d|)
  {
    var e := d + [x];
    DigitsSplit(e, |d|, w);
    assert e[..|d|] == d;
    assert e[|d|..] == [x];
    DigitsSingle(x, w);
    MulComm(Pow2(w * |d|), x);
  }

  lemma DigitsSingle(x: int, w: nat)
    ensures DigitsValue([x], w) == x
  {
    assert [x][1..] == [];
    MulZero(Pow2(w));
  }

  // ---------------------------------------------------------------------
  // Regular wNAF.
  // ---------------------------------------------------------------------

  /** Bits 1..5 of the window that starts at bit `base`, in place. */
  function Window5(scalar: seq<Byte>, base: int): int
    requires |scalar| == 48
  {
    GetBit(scalar, base + 1) * 2 + GetBit(scalar, base + 2) * 4 + GetBit(scalar, base + 3) * 8
      + GetBit(scalar, base + 4) * 16 + GetBit(scalar, base + 5) * 32
  }

  /** The five shifted-in bits of a refill: bits base + 1 .. base + 5 of
      the scalar, added to the carry at weights 2 .. 32. */
  method RefillWindow(scalar: seq<Byte>, base: int, carry: int) returns (window: int)
    requires |scalar| == 48
    ensures window == carry + Window5(scalar, base)
    ensures carry <= window <= carry + 62
  {
    window := carry;
    window := window + GetBit(scalar, base + 1) * 2;
    window := window + GetBit(scalar, base + 2) * 4;
    window := window + GetBit(scalar, base + 3) * 8;
    window := window + GetBit(scalar, base + 4) * 16;
    window := window + GetBit(scalar, base + 5) * 32;
  }

  /** A window built from bits 1..5 is even and at most 62; from bit 380 on
      only three scalar bits remain, so it is at most 14. */
  lemma Window5Range(scalar: seq<Byte>, base: int)
    requires |scalar| == 48
    ensures 0 <= Window5(scalar, base) <= 62 && Window5(scalar, base) % 2 == 0
    ensures base >= 380 ==> Window5(scalar, base) <= 14
  {
  }

  /** An odd window in [1, 63] yields an odd digit in [-31, 31] and leaves
      exactly 1 once the digit is taken out and the window shifted by five. */
  lemma RwnafDigit(w: int)
    requires 1 <= w <= 63 && w % 2 == 1
    ensures -31 <= w % 64 - 32 <= 31 && (w % 64 - 32) % 2 == 1
    ensures w % 64 == w && (w - (w % 64 - 32)) / 32 == 1
  {
  }

  /** The five scalar bits read into a window at `base` are twice the five
      bits of the forced-odd scalar from bit base + 1. */
  lemma Window5Bits(scalar: seq<Byte>, base: nat, k: nat)
    requires |scalar| == 48 && k == base + 1
    ensures Window5(scalar, base) == 2 * ((SetLowBit(LeValue(scalar)) / Pow2(k)) % 32)
  {
    Window5AsBits(scalar, base);
    WindowValue(LeValue(scalar), k, base + 2, base + 3, base + 4, base + 5);
    SetLowBitShift(LeValue(scalar), k);
  }

  /** The window's five guarded reads are five bits of the scalar's value. */
  lemma Window5AsBits(scalar: seq<Byte>, base: nat)
    requires |scalar| == 48
    ensures Window5(scalar, base) == Bit(LeValue(scalar), base + 1) * 2 + Bit(LeValue(scalar), base + 2) * 4
      + Bit(LeValue(scalar), base + 3) * 8 + Bit(LeValue(scalar), base + 4) * 16 + Bit(LeValue(scalar), base + 5) * 32
  {
    GetBitIsScalarBit(scalar, base + 1);
    GetBitIsScalarBit(scalar, base + 2);
    GetBitIsScalarBit(scalar, base + 3);
    GetBitIsScalarBit(scalar, base + 4);
    GetBitIsScalarBit(scalar, base + 5);
  }

  /** Five consecutive bits from bit i1, weighted 2, 4, ..., 32. */
  lemma WindowValue(x: int, i1: nat, i2: nat, i3: nat, i4: nat, i5: nat)
    requires x >= 0 && i2 == i1 + 1 && i3 == i1 + 2 && i4 == i1 + 3 && i5 == i1 + 4
    ensures Bit(x, i1) * 2 + Bit(x, i2) * 4 + Bit(x, i3) * 8 + Bit(x, i4) * 16 + Bit(x, i5) * 32
            == 2 * ((x / Pow2(i1)) % 32)
  {
    FiveBits(x, i1);
  }

  /** One step of the regular recoding keeps the running value exact: the
      digit w - 32 plus the next window 1 + (the five bits of o from bit
      n + 6) at weight 2^(n+5) extend the value to bit n + 11 of o. */
  lemma RwnafStep(o: int, n: nat, acc: int, w: int, d: int, next: int)
    requires o >= 0 && d == w - 32 && next == 1 + 2 * ((o / Pow2(n + 6)) % 32)
    requires acc + w * Pow2(n) == o % Pow2(n + 6)
    ensures acc + d * Pow2(n) + next * Pow2(n + 5) == o % Pow2(n + 11)
  {
    var y := (o / Pow2(n + 6)) % 32;
    assert n + 6 + 5 == n + 11;
    assert Pow2(n + 5) == 32 * Pow2(n) && Pow2(n + 6) == 64 * Pow2(n) && Pow2(5) == 32 by {
      Pow2Values();
      Pow2Add(n, 5);
      Pow2Add(n, 6);
    }
    ModPow2Split(o, n + 6, 5);
    StepAlgebra(acc, w, d, next, y, Pow2(n), Pow2(n + 5), Pow2(n + 6), o % Pow2(n + 6), o % Pow2(n + 11));
  }

  lemma StepAlgebra(acc: int, w: int, d: int, next: int, y: int, m: int, m5: int, m6: int, low: int, high: int)
    requires acc + w * m == low && d == w - 32 && next == 1 + 2 * y
    requires m5 == 32 * m && m6 == 64 * m && high == low + m6 * y
    ensures acc + d * m + next * m5 == high
  {
  }

  /** The first window is the low six bits of the forced-odd scalar. */
  lemma RwnafStart(scalar: seq<Byte>)
    requires |scalar| == 48
    ensures SetLowBit(scalar[0] % 64) == SetLowBit(LeValue(scalar)) % Pow2(6)
  {
    var b := scalar[0];
    var l := LeValue(scalar[1..]);
    var s := LeValue(scalar);
    assert s == b + 256 * l;
    assert Pow2(6) == 64 by { Pow2Values(); }
    assert s % 64 == b % 64 by { ModShift(b, 4 * l, 64); }
    assert s % 2 == b % 2 by { ModShift(b, 128 * l, 2); }
    assert (b % 64) % 2 == b % 2 by { ModShift(b % 64, 32 * (b / 64), 2); }
    if s % 2 == 0 {
      ModUnique(s + 1, s / 64, s % 64 + 1, 64);
    }
  }

  /** The state of the regular recoding after |digits| steps: the window is
      odd and in [1, 63] (at most 15 once all 76 low digits are out), every
      digit so far is odd and in [-31, 31], and the digits plus the window
      spell the low 5|digits| + 6 bits of the forced-odd scalar. */
  ghost predicate RwnafState(scalar: seq<Byte>, digits: seq<int>, w: int)
    requires |scalar| == 48
  {
    && |digits| <= 76
    && 1 <= w <= 63 && w % 2 == 1
    && (|digits| == 76 ==> w <= 15)
    && (forall k :: 0 <= k < |digits| ==> -31 <= digits[k] <= 31 && digits[k] % 2 == 1)
    && DigitsValue(digits, 5) + w * Pow2(5 * |digits|) == SetLowBit(LeValue(scalar)) % Pow2(5 * |digits| + 6)
  }

  lemma RwnafInit(scalar: seq<Byte>)
    requires |scalar| == 48
    ensures RwnafState(scalar, [], SetLowBit(scalar[0] % 64))
  {
    RwnafStart(scalar);
    assert Pow2(5 * 0) == 1;
  }

  /** One iteration: the digit w % 64 - 32 goes out and the window is
      refilled with five fresh scalar bits. */
  lemma RwnafAdvance(scalar: seq<Byte>, digits: seq<int>, i: nat, w: int, d: int, next: int)
    requires |scalar| == 48 && RwnafState(scalar, digits, w) && i == |digits| < 76
    requires d == w % 64 - 32
    requires next == (w - d) / 32 + Window5(scalar, (i + 1) * 5)
    ensures RwnafState(scalar, digits + [d], next)
  {
    RwnafDigit(w);
    Window5Range(scalar, (i + 1) * 5);
    OddSuccessor(Window5(scalar, (i + 1) * 5));
    OddDigitsAppend(digits, d);
    RwnafValueAdvance(scalar, digits, i, w, d, next);
  }

  /** The value half of one regular recoding step. */
  lemma RwnafValueAdvance(scalar: seq<Byte>, digits: seq<int>, i: nat, w: int, d: int, next: int)
    requires |scalar| == 48 && i == |digits| && d == w - 32
    requires DigitsValue(digits, 5) + w * Pow2(5 * |digits|) == SetLowBit(LeValue(scalar)) % Pow2(5 * |digits| + 6)
    requires next == 1 + Window5(scalar, (i + 1) * 5)
    ensures DigitsValue(digits + [d], 5) + next * Pow2(5 * |digits + [d]|)
            == SetLowBit(LeValue(scalar)) % Pow2(5 * |digits + [d]| + 6)
  {
    Window5Bits(scalar, (i + 1) * 5, 5 * |digits| + 6);
    DigitsStep(digits, SetLowBit(LeValue(scalar)), w, d, Window5(scalar, (i + 1) * 5), next,
               5 * |digits + [d]|, 5 * |digits + [d]| + 6);
  }

  /** RwnafStep restated for a digit string, with the window's bits abstracted
      and the new exponents passed in. */
  lemma DigitsStep(digits: seq<int>, o: int, w: int, d: int, win: int, next: int, k5: nat, k11: nat)
    requires o >= 0 && d == w - 32 && next == 1 + win
    requires k5 == 5 * |digits| + 5 && k11 == 5 * |digits| + 11
    requires win == 2 * ((o / Pow2(5 * |digits| + 6)) % 32)
    requires DigitsValue(digits, 5) + w * Pow2(5 * |digits|) == o % Pow2(5 * |digits| + 6)
    ensures DigitsValue(digits + [d], 5) + next * Pow2(k5) == o % Pow2(k11)
  {
    RwnafStep(o, 5 * |digits|, DigitsValue(digits, 5), w, d, next);
    DigitsAppend(digits, d, 5);
  }

  lemma OddSuccessor(x: int)
    requires x % 2 == 0
    ensures (1 + x) % 2 == 1
  {
    ModShift(1, x / 2, 2);
  }

  /** After 76 steps the last window is the top digit and the value is exact. */
  lemma RwnafResult(scalar: seq<Byte>, digits: seq<int>, w: int)
    requires |scalar| == 48 && RwnafState(scalar, digits, w) && |digits| == 76
    ensures forall i :: 0 <= i < 76 ==> -31 <= (digits + [w])[i] <= 31 && (digits + [w])[i] % 2 == 1
    ensures 1 <= w <= 15 && w % 2 == 1
    ensures DigitsValue(digits + [w], 5) == SetLowBit(LeValue(scalar))
  {
    var o := SetLowBit(LeValue(scalar));
    assert o < Pow2(386) by {
      LeValueBound(scalar);
      Pow2Add(384, 2);
      assert Pow2(2) == 4;
    }
    HighBitsZero(o, 386, 386);
    DigitsAppend(digits, w, 5);
    OddDigitsAppend(digits, w);
  }

  /** Appending an odd digit in [-31, 31] keeps every digit odd and in range. */
  lemma OddDigitsAppend(digits: seq<int>, d: int)
    requires forall k :: 0 <= k < |digits| ==> -31 <= digits[k] <= 31 && digits[k] % 2 == 1
    requires -31 <= d <= 31 && d % 2 == 1
    ensures forall k :: 0 <= k <= |digits| ==> -31 <= (digits + [d])[k] <= 31 && (digits + [d])[k] % 2 == 1
  {
    forall k | 0 <= k <= |digits|
      ensures -31 <= (digits + [d])[k] <= 31 && (digits + [d])[k] % 2 == 1
    {
      if k < |digits| {
        assert (digits + [d])[k] == digits[k];
      }
    }
  }

  /** fiat_p384_mul_scalar_rwnaf: 76 odd digits in [-31, 31] and a top digit
      in [1, 15], whose radix-2^5 value is the scalar with its low bit set. */
  method RegularWnaf(out: array<int>, scalar: seq<Byte>)
    requires out.Length == 77 && |scalar| == 48
    modifies out
    ensures forall i :: 0 <= i < 76 ==> -31 <= out[i] <= 31 && out[i] % 2 == 1
    ensures 1 <= out[76] <= 15 && out[76] % 2 == 1
    ensures DigitsValue(out[..], 5) == SetLowBit(LeValue(scalar))
  {
    ghost var digits: seq<int> := [];
    var window := SetLowBit(scalar[0] % 64);
    RwnafInit(scalar);
    for i := 0 to 76
      invariant |digits| == i && out[..i] == digits
      invariant RwnafState(scalar, digits, window)
    {
      ghost var w0 := window;
      var d := window % 64 - 32;
      out[i] := d;
      assert out[..i + 1] == digits + [d];
      window := (window - d) / 32;
      window := RefillWindow(scalar, (i + 1) * 5, window);
      RwnafAdvance(scalar, digits, i, w0, d, window);
      digits := digits + [d];
    }
    out[76] := window;
    assert out[..] == digits + [window];
    RwnafResult(scalar, digits, window);
  }

  // ---------------------------------------------------------------------
  // Textbook wNAF.
  // ---------------------------------------------------------------------

  /** The digit the textbook recoding takes out of window w: zero for an
      even window, otherwise w mod 64 moved into [-31, 31]. */
  function WnafDigit(w: int): int
  {
    if w % 2 == 1 then (if w % 64 >= 32 then w % 64 - 64 else w % 64) else 0
  }

  /** What one step does to a window in [0, 64]: the digit is 0 or odd in
      [-31, 31], the new window stays in [0, 64], and with no fresh bit a
      window of at most 32 at least halves. */
  lemma WnafWindowStep(w: int, b: int, d: int, next: int)
    requires 0 <= w <= 64 && (b == 0 || b == 1)
    requires d == WnafDigit(w) && next == (w - d) / 2 + b * 32
    ensures (w - d) % 2 == 0
    ensures d == 0 || (-31 <= d <= 31 && d % 2 == 1)
    ensures 0 <= next <= 32 + b * 32
    ensures b == 0 && w <= 32 ==> next <= w / 2
  {
    if w % 2 == 1 {
      assert w % 64 == w;
      if w >= 32 {
        assert d == w - 64 && next == 32 + b * 32;
      } else {
        assert d == w && next == b * 32;
      }
    } else {
      assert d == 0 && next == w / 2 + b * 32;
    }
  }

  /** A nonzero digit leaves a window that is a multiple of 32, and each
      further step halves that divisibility, so the next five digits are 0. */
  lemma WnafWindowDivides(w: int, b: int, d: int, next: int)
    requires 0 <= w <= 64 && (b == 0 || b == 1)
    requires d == WnafDigit(w) && next == (w - d) / 2 + b * 32
    ensures d != 0 ==> next % 32 == 0
    ensures w % 2 == 0 ==> d == 0
    ensures w % 32 == 0 ==> next % 16 == 0
    ensures w % 16 == 0 ==> next % 8 == 0
    ensures w % 8 == 0 ==> next % 4 == 0
    ensures w % 4 == 0 ==> next % 2 == 0
  {
    if w % 2 == 1 {
      assert w % 64 == w;
      assert next == 0 || next == 32 || next == 64;
    } else {
      assert d == 0 && next == w / 2 + b * 32;
      if w % 32 == 0 {
        assert next == 16 * (w / 32 + 2 * b);
        MultipleMod(w / 32 + 2 * b, 16);
      }
      if w % 16 == 0 {
        assert next == 8 * (w / 16 + 4 * b);
        MultipleMod(w / 16 + 4 * b, 8);
      }
      if w % 8 == 0 {
        assert next == 4 * (w / 8 + 8 * b);
        MultipleMod(w / 8 + 8 * b, 4);
      }
      if w % 4 == 0 {
        assert next == 2 * (w / 4 + 16 * b);
        MultipleMod(w / 4 + 16 * b, 2);
      }
    }
  }

  /** One step of the textbook recoding keeps the running value exact. */
  lemma WnafValueStep(s: nat, i: nat, acc: int, w: int, d: int, b: int)
    requires (w - d) % 2 == 0 && b == Bit(s, i + 6)
    requires acc + w * Pow2(i) == s % Pow2(i + 6)
    ensures acc + d * Pow2(i) + ((w - d) / 2 + b * 32) * Pow2(i + 1) == s % Pow2(i + 7)
  {
    var m := Pow2(i);
    assert Pow2(i + 1) == 2 * m;
    assert Pow2(i + 6) == 64 * m by {
      Pow2Add(i, 6);
      Pow2Values();
    }
    ModPow2Step(s, i + 6);
    BitValue(s, i + 6);
    WnafAlgebra(acc, w, d, b, m, (w - d) / 2);
  }

  lemma WnafAlgebra(acc: int, w: int, d: int, b: int, m: int, h: int)
    requires w - d == 2 * h
    ensures acc + d * m + (h + b * 32) * (2 * m) == acc + w * m + b * (64 * m)
  {
  }

  /** The window of the textbook recoding after n steps: in [0, 64], and
      emptying over the last six steps as no scalar bits remain. */
  ghost predicate WnafWindow(n: int, w: int)
  {
    && 0 <= w <= 64
    && (379 <= n <= 384 ==> w <= Pow2(384 - n))
    && (n == 385 ==> w == 0)
  }

  /** The digits so far are zero or odd in [-31, 31], no two nonzero digits
      are within five places, and the window is divisible enough that the
      digits owed after the last nonzero one come out zero. */
  ghost predicate WnafSparse(digits: seq<int>, w: int)
  {
    var n := |digits|;
    && (forall k :: 0 <= k < n ==> digits[k] == 0 || (-31 <= digits[k] <= 31 && digits[k] % 2 == 1))
    && (forall a, b :: 0 <= a < b < n && b <= a + 5 && digits[a] != 0 ==> digits[b] == 0)
    && (n >= 1 && digits[n - 1] != 0 ==> w % 32 == 0)
    && (n >= 2 && digits[n - 2] != 0 ==> w % 16 == 0)
    && (n >= 3 && digits[n - 3] != 0 ==> w % 8 == 0)
    && (n >= 4 && digits[n - 4] != 0 ==> w % 4 == 0)
    && (n >= 5 && digits[n - 5] != 0 ==> w % 2 == 0)
  }

  /** Every prefix of the digits is worth at most the scalar. */
  ghost predicate WnafPrefixes(s: int, digits: seq<int>)
  {
    forall k :: 0 <= k <= |digits| ==> DigitsValue(digits[..k], 1) <= s
  }

  /** The state of the textbook recoding after |digits| steps: the digits
      plus the window spell the low |digits| + 6 bits of the scalar. */
  ghost predicate WnafState(scalar: seq<Byte>, digits: seq<int>, w: int)
    requires |scalar| == 48
  {
    && |digits| <= 385
    && WnafWindow(|digits|, w)
    && WnafSparse(digits, w)
    && WnafPrefixes(LeValue(scalar), digits)
    && DigitsValue(digits, 1) + w * Pow2(|digits|) == LeValue(scalar) % Pow2(|digits| + 6)
  }

  lemma WnafInit(scalar: seq<Byte>)
    requires |scalar| == 48
    ensures WnafState(scalar, [], scalar[0] % 64)
  {
    var s := LeValue(scalar);
    assert s == scalar[0] + 256 * LeValue(scalar[1..]);
    assert Pow2(6) == 64 by { Pow2Values(); }
    ModShift(scalar[0], 4 * LeValue(scalar[1..]), 64);
    ModBelow(s, 64);
    var none: seq<int> := [];
    assert none[..0] == none;
  }

  /** A remainder by a positive modulus is at most the non-negative dividend. */
  lemma ModBelow(x: int, m: int)
    requires x >= 0 && m > 0
    ensures x % m <= x
  {
    DivNonNeg(x, m);
    MulNonNeg(x / m, m);
  }

  lemma WnafWindowAdvance(n: nat, w: int, b: int)
    requires WnafWindow(n, w) && n < 385 && (b == 0 || b == 1)
    requires n >= 378 ==> b == 0
    ensures WnafWindow(n + 1, (w - WnafDigit(w)) / 2 + b * 32)
  {
    WnafWindowStep(w, b, WnafDigit(w), (w - WnafDigit(w)) / 2 + b * 32);
    if n == 378 {
      assert Pow2(5) == 32 by { Pow2Values(); }
    } else if 379 <= n < 384 {
      Pow2Monotone(384 - n, 5);
      Pow2Values();
      assert Pow2(384 - n) == 2 * Pow2(384 - (n + 1));
    }
  }

  lemma EvenWhenDivisible(w: int)
    ensures w % 4 == 0 || w % 8 == 0 || w % 16 == 0 || w % 32 == 0 ==> w % 2 == 0
  {
  }

  lemma WnafSparseAdvance(digits: seq<int>, w: int, b: int)
    requires WnafSparse(digits, w) && 0 <= w <= 64 && (b == 0 || b == 1)
    ensures WnafSparse(digits + [WnafDigit(w)], (w - WnafDigit(w)) / 2 + b * 32)
  {
    var d := WnafDigit(w);
    var e := digits + [d];
    var n := |digits|;
    WnafWindowStep(w, b, d, (w - d) / 2 + b * 32);
    WnafWindowDivides(w, b, d, (w - d) / 2 + b * 32);
    forall k | 0 <= k < n
      ensures e[k] == digits[k]
    {
    }
    assert e[n] == d;
    forall a, c | 0 <= a < c <= n && c <= a + 5 && e[a] != 0
      ensures e[c] == 0
    {
      if c == n {
        assert digits[a] != 0;
        EvenWhenDivisible(w);
        if a == n - 1 {
          assert w % 32 == 0;
        } else if a == n - 2 {
          assert w % 16 == 0;
        } else if a == n - 3 {
          assert w % 8 == 0;
        } else if a == n - 4 {
          assert w % 4 == 0;
        } else {
          assert a == n - 5 && w % 2 == 0;
        }
      }
    }
  }

  lemma WnafPrefixesAdvance(s: int, digits: seq<int>, d: int)
    requires WnafPrefixes(s, digits) && DigitsValue(digits + [d], 1) <= s
    ensures WnafPrefixes(s, digits + [d])
  {
    var digits' := digits + [d];
    forall k | 0 <= k <= |digits'|
      ensures DigitsValue(digits'[..k], 1) <= s
    {
      if k <= |digits| {
        assert digits'[..k] == digits[..k];
      } else {
        assert digits'[..k] == digits';
      }
    }
  }

  lemma WnafAdvance(scalar: seq<Byte>, digits: seq<int>, i: nat, w: int, d: int, next: int)
    requires |scalar| == 48 && WnafState(scalar, digits, w) && i == |digits| < 385
    requires d == WnafDigit(w)
    requires next == (w - d) / 2 + GetBit(scalar, i + 1 + 5) * 32
    ensures WnafState(scalar, digits + [d], next)
  {
    var s := LeValue(scalar);
    var b := GetBit(scalar, i + 1 + 5);
    GetBitIsScalarBit(scalar, i + 6);
    WnafWindowAdvance(i, w, b);
    WnafSparseAdvance(digits, w, b);
    WnafValueAdvance(s, digits, w, d, b, next);
    WnafPrefixesAdvance(s, digits, d);
  }

  /** One step of the value equation: the new digit and the halved window,
      topped up with the next scalar bit, spell one more bit of the scalar. */
  lemma WnafValueAdvance(s: int, digits: seq<int>, w: int, d: int, b: int, next: int)
    requires s >= 0 && 0 <= w <= 64 && d == WnafDigit(w)
    requires b == Bit(s, |digits| + 6) && next == (w - d) / 2 + b * 32
    requires DigitsValue(digits, 1) + w * Pow2(|digits|) == s % Pow2(|digits| + 6)
    ensures DigitsValue(digits + [d], 1) + next * Pow2(|digits| + 1) == s % Pow2(|digits| + 1 + 6)
    ensures DigitsValue(digits + [d], 1) <= s
  {
    var i := |digits|;
    WnafWindowStep(w, b, d, next);
    WnafValueStep(s, i, DigitsValue(digits, 1), w, d, b);
    DigitsAppend(digits, d, 1);
    assert 1 * i == i && i + 1 + 6 == i + 7;
    ModBelow(s, Pow2(i + 7));
    MulNonNeg(next, Pow2(i + 1));
  }

  /** After 385 steps the digits spell the scalar exactly, and every suffix of
      them has a non-negative value (so the leading nonzero digit is positive). */
  lemma WnafResult(scalar: seq<Byte>, digits: seq<int>, w: int)
    requires |scalar| == 48 && WnafState(scalar, digits, w) && |digits| == 385
    ensures DigitsValue(digits, 1) == LeValue(scalar)
    ensures forall k :: 0 <= k <= 385 ==> DigitsValue(digits[k..], 1) >= 0
  {
    var s := LeValue(scalar);
    LeValueBound(scalar);
    Pow2Monotone(384, 391);
    HighBitsZero(s, 391, 391);
    ExactValue(DigitsValue(digits, 1), w, Pow2(385), s, Pow2(391));
    forall k | 0 <= k <= 385
      ensures DigitsValue(digits[k..], 1) >= 0
    {
      SuffixNonNeg(digits, k, s);
    }
  }

  lemma ExactValue(v: int, w: int, m: int, s: int, t: int)
    requires t > 0 && w == 0 && v + w * m == s % t && s % t == s
    ensures v == s
  {
  }

  /** When the whole digit string is worth s and its first k digits at most
      s, the remaining digits are worth at least 0. */
  lemma SuffixNonNeg(digits: seq<int>, k: nat, s: int)
    requires k <= |digits| && DigitsValue(digits, 1) == s && DigitsValue(digits[..k], 1) <= s
    ensures DigitsValue(digits[k..], 1) >= 0
  {
    DigitsSplit(digits, k, 1);
    NonNegFactor(Pow2(1 * k), DigitsValue(digits[k..], 1));
  }

  lemma NonNegFactor(p: int, v: int)
    requires p >= 1 && p * v >= 0
    ensures v >= 0
  {
    if v < 0 {
      MulAtLeast(p, -v);
    }
  }

  /** fiat_p384_mul_scalar_wnaf: 385 digits, each zero or odd in [-31, 31],
      every nonzero digit followed by at least five zeros, whose radix-2 value
      is the scalar; every suffix has a non-negative value. */
  method Wnaf(out: array<int>, scalar: seq<Byte>)
    requires out.Length == 385 && |scalar| == 48
    modifies out
    ensures forall i :: 0 <= i < 385 ==> out[i] == 0 || (-31 <= out[i] <= 31 && out[i] % 2 == 1)
    ensures forall i, j :: 0 <= i < j < 385 && j <= i + 5 && out[i] != 0 ==> out[j] == 0
    ensures DigitsValue(out[..], 1) == LeValue(scalar)
    ensures forall k :: 0 <= k <= 385 ==> DigitsValue(out[k..], 1) >= 0
  {
    ghost var digits: seq<int> := [];
    var window := scalar[0] % 64;
    WnafInit(scalar);
    for i := 0 to 385
      invariant |digits| == i && out[..i] == digits
      invariant WnafState(scalar, digits, window)
    {
      ghost var w0 := window;
      var d := 0;
      if window % 2 == 1 {
        d := window % 64;
        // `d & 32` on a value in [0, 64) tests d >= 32.
        if d >= 32 {
          d := d - 64;
        }
      }
      assert d == WnafDigit(w0);
      out[i] := d;
      window := (window - d) / 2;
      window := window + GetBit(scalar, i + 1 + 5) * 32;
      WnafAdvance(scalar, digits, i, w0, d, window);
      digits := digits + [d];
    }
    assert out[..] == digits;
    WnafResult(scalar, digits, window);
  }
}
