/** The three P-384 scalar multiplications: [k]P with an on-the-fly table and
    the regular wNAF recoding (point_mul), [k]G with the comb tables
    (point_mul_base), and [g]G + [p]P with the textbook wNAF recoding
    (point_mul_public). Points are taken as the group elements they stand
    for, written over the base point G and the point P given to the call: an
    element is the combination g·G + p·P. The drivers are thereby proved to
    compute the right multiples whatever point P is, independently of how the
    Jacobian formulas in P384Point represent the points. */
module P384Mul {
  import opened Arith
  import opened P384Scalar

  /** g·G + p·P. */
  datatype GroupElem = Combination(g: int, p: int)

  /** The point at infinity, which an all-zero Jacobian triple stands for. */
  const Infinity: GroupElem := Combination(0, 0)

  /** [k]G, for the base point G of P-384. */
  function MultipleOfG(k: int): GroupElem
  {
    Combination(k, 0)
  }

  /** [k]P, for the point P given to the multiplication. */
  function MultipleOfP(k: int): GroupElem
  {
    Combination(0, k)
  }

  /** point_add on the points the coordinates stand for. */
  function AddPoints(a: GroupElem, b: GroupElem): GroupElem
  {
    Combination(a.g + b.g, a.p + b.p)
  }

  /** point_double on the points the coordinates stand for. */
  function Double(a: GroupElem): GroupElem
  {
    Combination(2 * a.g, 2 * a.p)
  }

  /** (x, y, z) to (x, -y, z): the negated point. */
  function Negate(a: GroupElem): GroupElem
  {
    Combination(-a.g, -a.p)
  }

  /** Doubling the accumulator five times (FIAT_P384_SCALAR_RADIX) multiplies
      it by 2^5; one doubling at a time. */
  lemma DoubleStep(j: nat, v: int)
    ensures 2 * (Pow2(j) * v) == Pow2(j + 1) * v
  {
    assert Pow2(j + 1) == 2 * Pow2(j);
  }

  // Table selection.

  /** fiat_p384_select_point: a scan of the whole table that keeps entry idx,
      and the all-zero triple when idx is outside the table. */
  method SelectPoint<T>(idx: nat, table: array<T>, zero: T) returns (out: T)
    ensures idx < table.Length ==> out == table[idx]
    ensures idx >= table.Length ==> out == zero
  {
    out := zero;
    for i := 0 to table.Length
      invariant out == if idx < i then table[idx] else zero
    {
      out := if i == idx then table[i] else out;
    }
  }

  /** fiat_p384_select_point_affine: the same scan over a constant table of
      affine points. */
  method SelectPointAffine<T>(idx: nat, table: seq<T>, zero: T) returns (out: T)
    ensures idx < |table| ==> out == table[idx]
    ensures idx >= |table| ==> out == zero
  {
    out := zero;
    for i := 0 to |table|
      invariant out == if idx < i then table[idx] else zero
    {
      out := if i == idx then table[i] else out;
    }
  }

  /** The table p_pre_comp of point_mul and point_mul_public: P, then [2]P
      added to each entry in turn, giving the odd multiples [2i + 1]P. */
  method OddMultiples() returns (table: array<GroupElem>)
    ensures fresh(table) && table.Length == 16
    ensures forall j :: 0 <= j < 16 ==> table[j] == MultipleOfP(2 * j + 1)
  {
    table := new GroupElem[16];
    table[0] := MultipleOfP(1);
    var tmp := Double(table[0]);
    for i := 1 to 16
      invariant forall j :: 0 <= j < i ==> table[j] == MultipleOfP(2 * j + 1)
    {
      table[i] := AddPoints(tmp, table[i - 1]);
    }
  }

  /** The low bit of a little-endian scalar is the low bit of its first byte. */
  lemma ScalarParity(scalar: seq<Byte>)
    requires |scalar| == 48
    ensures LeValue(scalar) % 2 == scalar[0] % 2
  {
    assert LeValue(scalar) == scalar[0] + 128 * LeValue(scalar[1..]) * 2;
    ModShift(scalar[0], 128 * LeValue(scalar[1..]), 2);
  }

  /** The table index of an odd digit, |digit| >> 1, holds [|digit|] times the
      table's unit; negating it when the digit is negative gives [digit]. */
  lemma SignedIndex(digit: int)
    requires -31 <= digit <= 31 && digit % 2 == 1
    ensures var idx := (if digit < 0 then -digit else digit) / 2;
      0 <= idx < 16 && (if digit < 0 then -(2 * idx + 1) else 2 * idx + 1) == digit
  {
  }

  /** A digit string in radix 2^w is its first digit plus 2^w times the rest. */
  lemma DigitsHead(d: seq<int>, i: nat, w: nat)
    requires i < |d|
    ensures DigitsValue(d[i..], w) == d[i] + Pow2(w) * DigitsValue(d[i + 1..], w)
  {
    assert d[i..][1..] == d[i + 1..];
  }

  /** Adding the entry of digit i to the accumulator doubled five times
      extends the value it holds by that digit. */
  lemma RegularDigitStep(d: seq<int>, i: nat, v: int, res: GroupElem, entry: GroupElem)
    requires i < |d| && v == DigitsValue(d[i + 1..], 5)
    requires res == MultipleOfP(Pow2(5) * v) && entry == MultipleOfP(d[i])
    ensures AddPoints(res, entry) == MultipleOfP(DigitsValue(d[i..], 5))
  {
    DigitsHead(d, i, 5);
  }

  /** ec_GFp_nistp384_point_mul: [scalar]P, in constant time. */
  method PointMul(scalar: seq<Byte>) returns (r: GroupElem)
    requires |scalar| == 48
    ensures r == MultipleOfP(LeValue(scalar))
  {
    var table := OddMultiples();
    var rnaf := new int[77];
    RegularWnaf(rnaf, scalar);
    ghost var d := rnaf[..];
    ghost var tbl := table[..];

    // The top digit is positive and odd, at most 15.
    var idx := rnaf[76] / 2;
    var res := SelectPoint(idx, table, Infinity);
    assert d[76..] == [d[76]];
    Pow2Values();

    var i := 76;
    while i > 0
      invariant 0 <= i <= 76
      invariant rnaf[..] == d && table[..] == tbl
      invariant res == MultipleOfP(DigitsValue(d[i..], 5))
    {
      i := i - 1;
      ghost var v := DigitsValue(d[i + 1..], 5);
      for j := 0 to 5
        invariant rnaf[..] == d && table[..] == tbl
        invariant res == MultipleOfP(Pow2(j) * v)
      {
        DoubleStep(j, v);
        res := Double(res);
      }
      var digit := rnaf[i];
      var isNeg := if digit < 0 then 1 else 0;
      var absDigit := if isNeg == 1 then -digit else digit;
      idx := absDigit / 2;
      var tmp := SelectPoint(idx, table, Infinity);
      SignedIndex(digit);
      assert tmp == MultipleOfP(2 * idx + 1);
      var negated := Negate(tmp);
      tmp := if isNeg == 1 then negated else tmp;
      RegularDigitStep(d, i, v, res, tmp);
      res := AddPoints(res, tmp);
    }

    // Subtract P when the scalar is even.
    assert d[0..] == d;
    var tmp := AddPoints(res, Negate(table[0]));
    ScalarParity(scalar);
    r := if scalar[0] % 2 == 1 then res else tmp;
  }

  // The comb of point_mul_base.

  /** The sub-table i of fiat_p384_g_pre_comp: the odd multiples
      [(2k + 1)·2^(20i)]G for k in [0, 15]. */
  function GPreComp(i: nat): (t: seq<GroupElem>)
    ensures |t| == 16
  {
    seq(16, k => MultipleOfG((2 * k + 1) * Pow2(20 * i)))
  }

  /** The first sub-table holds the odd multiples of G themselves; it is the
      table point_mul_public reads for g_scalar. */
  lemma FirstSubTable(k: int)
    requires 0 <= k < 16
    ensures GPreComp(0)[k] == MultipleOfG(2 * k + 1)
  {
    assert Pow2(20 * 0) == 1;
  }

  /** The digits of group j mod 4 from position j on, each weighted by the
      sub-table it is read from: d[j]·2^(20(j/4)) + d[j+4]·2^(20(j/4+1)) + …. */
  function CombSum(d: seq<int>, j: nat): int
    decreases |d| - j
  {
    if j >= |d| then 0 else d[j] * Pow2(20 * (j / 4)) + CombSum(d, j + 4)
  }

  /** The accumulator after the groups i, …, 3 are processed: each group's
      sum, doubled five times for every group that follows it. */
  function Outer(d: seq<int>, i: nat): int
    requires i <= 4
    decreases 4 - i
  {
    if i == 4 then 0 else 32 * Outer(d, i + 1) + CombSum(d, i)
  }

  /** Dropping the first four digits drops one sub-table: a factor of
      2^20 = 1048576 per step. */
  lemma {:induction false} CombShift(d: seq<int>, j: nat)
    requires |d| >= 4
    ensures CombSum(d, j + 4) == 1048576 * CombSum(d[4..], j)
    decreases |d| - j
  {
    if j + 4 < |d| {
      CombShift(d, j + 4);
      CombShiftStep(d, j);
    } else {
      assert CombSum(d[4..], j) == 0;
    }
  }

  /** The inductive step of CombShift, from the claim for j + 4. */
  lemma CombShiftStep(d: seq<int>, j: nat)
    requires 4 <= j + 4 < |d|
    requires CombSum(d, j + 4 + 4) == 1048576 * CombSum(d[4..], j + 4)
    ensures CombSum(d, j + 4) == 1048576 * CombSum(d[4..], j)
  {
    var q := j / 4;
    DivNonNeg(j, 4);
    ModShift(j, 1, 4);
    Pow2Plus20(20 * q);
    var w := Pow2(20 * q);
    assert (j + 4) / 4 == q + 1 && 20 * (q + 1) == 20 * q + 20;
    assert CombSum(d, j + 4) == d[j + 4] * Pow2(20 * q + 20) + CombSum(d, j + 4 + 4);
    assert CombSum(d[4..], j) == d[4..][j] * w + CombSum(d[4..], j + 4);
    assert d[4..][j] == d[j + 4];
    CombShiftAlgebra(CombSum(d, j + 4), CombSum(d[4..], j), d[j + 4], 1048576, w,
                     CombSum(d, j + 4 + 4), CombSum(d[4..], j + 4), Pow2(20 * q + 20));
  }

  /** One sub-table further on weighs 2^20 = 1048576 times more. */
  lemma Pow2Plus20(n: nat)
    ensures Pow2(n + 20) == 1048576 * Pow2(n)
  {
    Pow2Add(n, 20);
    Pow2Values();
    Pow2Add(5, 5);
    Pow2Add(10, 10);
  }

  lemma CombShiftAlgebra(a: int, b: int, x: int, p: int, w: int, restA: int, restB: int, pw: int)
    requires a == x * pw + restA && pw == p * w && restA == p * restB && b == x * w + restB
    ensures a == p * b
  {
  }

  /** The comb regrouping: the four group sums, the later ones doubled 5, 10
      and 15 times, add up to the value of the recoded scalar. */
  lemma {:induction false} CombValue(d: seq<int>)
    ensures Outer(d, 0) == DigitsValue(d, 5)
    decreases |d|
  {
    Pow2Values();
    if |d| < 4 {
      CombSmall(d);
    } else {
      CombValue(d[4..]);
      CombHead(d);
      assert d[0..] == d;
      DigitsHead(d, 0, 5);
      DigitsHead(d, 1, 5);
      DigitsHead(d, 2, 5);
      DigitsHead(d, 3, 5);
      CombAlgebra(d[0], d[1], d[2], d[3], CombSum(d[4..], 0), CombSum(d[4..], 1),
                  CombSum(d[4..], 2), CombSum(d[4..], 3), DigitsValue(d[4..], 5));
    }
  }

  /** The first sub-table weighs 2^0: each group sum of a string of at least
      four digits is its first digit plus 2^20 times the group sum of the rest. */
  lemma CombHead(d: seq<int>)
    requires |d| >= 4
    ensures forall j :: 0 <= j < 4 ==> CombSum(d, j) == d[j] + 1048576 * CombSum(d[4..], j)
  {
    assert Pow2(20 * 0) == 1;
    forall j | 0 <= j < 4
      ensures CombSum(d, j) == d[j] + 1048576 * CombSum(d[4..], j)
    {
      assert j / 4 == 0;
      CombShift(d, j);
    }
  }

  lemma CombAlgebra(d0: int, d1: int, d2: int, d3: int, e0: int, e1: int, e2: int, e3: int, v: int)
    requires e0 + 32 * (e1 + 32 * (e2 + 32 * (e3 + 32 * 0))) == v
    ensures (d0 + 1048576 * e0) + 32 * ((d1 + 1048576 * e1) + 32 * ((d2 + 1048576 * e2) + 32 * ((d3 + 1048576 * e3) + 32 * 0)))
      == d0 + 32 * (d1 + 32 * (d2 + 32 * (d3 + 32 * v)))
  {
  }

  lemma CombSmall(d: seq<int>)
    requires |d| < 4 && Pow2(5) == 32
    ensures Outer(d, 0) == DigitsValue(d, 5)
  {
    assert Pow2(20 * 0) == 1;
    OuterUnfold(d);
    assert forall j :: 0 <= j < 4 ==> CombSum(d, j) == if j < |d| then d[j] else 0;
    assert d[0..] == d;
    forall k | 0 <= k < |d|
      ensures DigitsValue(d[k..], 5) == d[k] + 32 * DigitsValue(d[k + 1..], 5)
    {
      DigitsHead(d, k, 5);
    }
    assert d[|d|..] == [];
  }

  lemma OuterUnfold(d: seq<int>)
    ensures Outer(d, 0) == CombSum(d, 0) + 32 * (CombSum(d, 1) + 32 * (CombSum(d, 2) + 32 * (CombSum(d, 3) + 32 * 0)))
  {
    assert Outer(d, 3) == 32 * Outer(d, 4) + CombSum(d, 3);
    assert Outer(d, 2) == 32 * Outer(d, 3) + CombSum(d, 2);
    assert Outer(d, 1) == 32 * Outer(d, 2) + CombSum(d, 1);
  }

  /** The sub-table entry for a signed digit: entry |digit| >> 1 of sub-table
      j/4, negated when the digit is negative, is [digit·2^(20(j/4))]G. */
  lemma SignedCombEntry(digit: int, j: nat, entry: GroupElem)
    requires -31 <= digit <= 31 && digit % 2 == 1
    requires entry == GPreComp(j / 4)[(if digit < 0 then -digit else digit) / 2]
    ensures (if digit < 0 then Negate(entry) else entry) == MultipleOfG(digit * Pow2(20 * (j / 4)))
  {
    SignedIndex(digit);
    var w := Pow2(20 * (j / 4));
    var m := 2 * ((if digit < 0 then -digit else digit) / 2) + 1;
    assert entry == MultipleOfG(m * w);
    if digit < 0 {
      assert -(m * w) == (-m) * w;
    }
  }

  /** One step of the inner comb loop: adding digit j, weighted by its
      sub-table, moves the accumulator on by one place of the group. */
  lemma CombStep(d: seq<int>, i: nat, j: nat, base: int)
    requires j < |d|
    ensures base + CombSum(d, i) - CombSum(d, j) + d[j] * Pow2(20 * (j / 4))
      == base + CombSum(d, i) - CombSum(d, j + 4)
  {
  }

  /** ec_GFp_nistp384_point_mul_base: [scalar]G, in constant time. */
  method PointMulBase(scalar: seq<Byte>) returns (r: GroupElem)
    requires |scalar| == 48
    ensures r == MultipleOfG(LeValue(scalar))
  {
    var res := Infinity;
    var rnaf := new int[77];
    RegularWnaf(rnaf, scalar);
    // The loops read the recoded digits; the array is not written again.
    var d := rnaf[..];
    Pow2Values();

    var i := 4;
    while i > 0
      invariant 0 <= i <= 4
      invariant res == MultipleOfG(Outer(d, i))
    {
      i := i - 1;
      ghost var v := Outer(d, i + 1);
      if i != 3 {
        for j := 0 to 5
          invariant res == MultipleOfG(Pow2(j) * v)
        {
          DoubleStep(j, v);
          res := Double(res);
        }
      }
      assert res == MultipleOfG(32 * v);

      var j := i;
      ghost var step := 0;
      while j < 77
        invariant j == i + 4 * step && j <= 80
        invariant res == MultipleOfG(32 * v + CombSum(d, i) - CombSum(d, j))
        decreases 77 - j
      {
        var digit := d[j];
        var isNeg := if digit < 0 then 1 else 0;
        var absDigit := if isNeg == 1 then -digit else digit;
        var idx := absDigit / 2;
        var tmp := SelectPointAffine(idx, GPreComp(j / 4), Infinity);
        var negated := Negate(tmp);
        tmp := if isNeg == 1 then negated else tmp;
        SignedCombEntry(digit, j, GPreComp(j / 4)[idx]);
        CombStep(d, i, j, 32 * v);
        res := AddPoints(res, tmp);
        j := j + 4;
        step := step + 1;
      }
    }

    // Subtract G when the scalar is even.
    CombValue(d);
    FirstSubTable(0);
    var tmp := AddPoints(res, Negate(GPreComp(0)[0]));
    ScalarParity(scalar);
    r := if scalar[0] % 2 == 1 then res else tmp;
  }

  // The interleaved textbook-wNAF loop of point_mul_public.

  /** The table index point_mul_public computes for a nonzero digit:
      (|digit| - 1) >> 1, whose odd multiple, negated when the digit is
      negative, is [digit]. */
  lemma PublicIndex(digit: int, isNeg: bool, idx: int)
    requires digit != 0 && -31 <= digit <= 31 && digit % 2 == 1
    requires isNeg == (digit < 0)
    requires idx == if isNeg then (-digit - 1) / 2 else (digit - 1) / 2
    ensures 0 <= idx < 16
    ensures (if isNeg then -(2 * idx + 1) else 2 * idx + 1) == digit
  {
  }

  /** [k]P when ofP holds and [k]G otherwise. */
  function Multiple(ofP: bool, k: int): GroupElem
  {
    if ofP then MultipleOfP(k) else MultipleOfG(k)
  }

  /** One digit of point_mul_public, for either scalar: a zero digit leaves
      the accumulator alone; a nonzero one adds its signed table entry, or,
      while the accumulator is the point at infinity, replaces it with the
      entry as it stands, which is right because the digit is then positive. */
  method AddDigit(res: GroupElem, resIsInf: bool, digit: int, table: seq<GroupElem>, ghost ofP: bool)
    returns (res': GroupElem, resIsInf': bool)
    requires |table| == 16
    requires forall k :: 0 <= k < 16 ==> table[k] == Multiple(ofP, 2 * k + 1)
    requires digit == 0 || (-31 <= digit <= 31 && digit % 2 == 1)
    requires resIsInf ==> res == Infinity
    requires resIsInf ==> digit >= 0
    ensures digit == 0 ==> res' == res && resIsInf' == resIsInf
    ensures digit != 0 ==> res' == AddPoints(res, Multiple(ofP, digit)) && !resIsInf'
  {
    res', resIsInf' := res, resIsInf;
    if digit != 0 {
      var isNeg := digit < 0;
      var idx := if isNeg then (-digit - 1) / 2 else (digit - 1) / 2;
      PublicIndex(digit, isNeg, idx);
      if resIsInf {
        res' := table[idx];
        resIsInf' := false;
      } else {
        var entry := if isNeg then Negate(table[idx]) else table[idx];
        res' := AddPoints(res, entry);
      }
    }
  }

  /** One step of the loop of point_mul_public: double the accumulator
      unless it is the point at infinity, then add the digit of the scalar of
      P and the digit of the scalar of G. */
  method PublicStep(res: GroupElem, resIsInf: bool, pDigit: int, gDigit: int,
                    pTable: seq<GroupElem>, gTable: seq<GroupElem>)
    returns (res': GroupElem, resIsInf': bool)
    requires |pTable| == 16 && forall k :: 0 <= k < 16 ==> pTable[k] == Multiple(true, 2 * k + 1)
    requires |gTable| == 16 && forall k :: 0 <= k < 16 ==> gTable[k] == Multiple(false, 2 * k + 1)
    requires pDigit == 0 || (-31 <= pDigit <= 31 && pDigit % 2 == 1)
    requires gDigit == 0 || (-31 <= gDigit <= 31 && gDigit % 2 == 1)
    requires resIsInf ==> res == Infinity && pDigit >= 0 && gDigit >= 0
    ensures res' == Combination(2 * res.g + gDigit, 2 * res.p + pDigit)
    ensures resIsInf' ==> res' == Infinity
  {
    res', resIsInf' := res, resIsInf;
    if !resIsInf' {
      res' := Double(res');
    }
    res', resIsInf' := AddDigit(res', resIsInf', pDigit, pTable, true);
    res', resIsInf' := AddDigit(res', resIsInf', gDigit, gTable, false);
  }

  /** DigitsHead for the radix-2 digits of the textbook recoding. */
  lemma BinaryHead(d: seq<int>, i: nat)
    requires i < |d|
    ensures DigitsValue(d[i..], 1) == d[i] + 2 * DigitsValue(d[i + 1..], 1)
  {
    DigitsHead(d, i, 1);
    Pow2Values();
  }

  /** The digits of the textbook recoding are zero or odd in [-31, 31]. */
  ghost predicate WnafDigits(d: seq<int>)
  {
    forall k :: 0 <= k < |d| ==> d[k] == 0 || (-31 <= d[k] <= 31 && d[k] % 2 == 1)
  }

  /** 385 textbook digits and their suffix values: suffix[k] is worth the
      digits from place k on, and none is negative. */
  ghost predicate TextbookRecoding(d: seq<int>, suffix: seq<int>)
  {
    && |d| == 385 && WnafDigits(d)
    && |suffix| == 386 && suffix[385] == 0
    && (forall k {:trigger d[k]} :: 0 <= k < 385 ==> suffix[k] == d[k] + 2 * suffix[k + 1])
    && (forall k :: 0 <= k <= 385 ==> suffix[k] >= 0)
  }

  /** The facts about place i of a textbook recoding that one step of the
      point_mul_public loop reads. */
  lemma TextbookDigitAt(d: seq<int>, suffix: seq<int>, i: nat)
    requires TextbookRecoding(d, suffix) && i < 385
    ensures d[i] == 0 || (-31 <= d[i] <= 31 && d[i] % 2 == 1)
    ensures suffix[i] == d[i] + 2 * suffix[i + 1] && suffix[i] >= 0
  {
  }

  /** The int8_t p_wnaf[385] / g_wnaf[385] arrays of point_mul_public, filled
      by fiat_p384_mul_scalar_wnaf and then only read. Beside the digits, the
      ghost suffix[k] is the value of the digits from place k on: the whole
      string is worth the scalar, and every suffix at least zero. */
  method TextbookDigits(scalar: seq<Byte>) returns (d: seq<int>, ghost suffix: seq<int>)
    requires |scalar| == 48
    ensures TextbookRecoding(d, suffix) && suffix[0] == LeValue(scalar)
  {
    var wnaf := new int[385];
    Wnaf(wnaf, scalar);
    d := wnaf[..];
    suffix := seq(386, k requires 0 <= k <= 385 => DigitsValue(d[k..], 1));
    forall k | 0 <= k <= 385
      ensures suffix[k] >= 0
    {
      assert d[k..] == wnaf[k..];
    }
    forall k | 0 <= k < 385
      ensures suffix[k] == d[k] + 2 * suffix[k + 1]
    {
      BinaryHead(d, k);
    }
    assert d[0..] == d && d[385..] == [];
  }

  /** ec_GFp_nistp384_point_mul_public: [gScalar]G + [pScalar]P, not in
      constant time. While the accumulator is still the point at infinity
      the doubling is skipped and the first nonzero digit's entry is copied
      without its sign: the digits read so far are worth zero, so that digit
      leads its recoding, and a leading digit is positive. */
  method PointMulPublic(gScalar: seq<Byte>, pScalar: seq<Byte>) returns (r: GroupElem)
    requires |gScalar| == 48 && |pScalar| == 48
    ensures r == AddPoints(MultipleOfG(LeValue(gScalar)), MultipleOfP(LeValue(pScalar)))
  {
    var res := Infinity;
    var table := OddMultiples();
    var pd, ps := TextbookDigits(pScalar);
    var gd, gs := TextbookDigits(gScalar);
    var pTable := table[..];
    var gTable := GPreComp(0);
    forall k | 0 <= k < 16
      ensures gTable[k] == Multiple(false, 2 * k + 1)
    {
      FirstSubTable(k);
    }

    var resIsInf := true;
    var i := 385;
    while i > 0
      invariant 0 <= i <= 385
      invariant res == Combination(gs[i], ps[i])
      invariant resIsInf ==> res == Infinity
    {
      i := i - 1;
      TextbookDigitAt(pd, ps, i);
      TextbookDigitAt(gd, gs, i);
      res, resIsInf := PublicStep(res, resIsInf, pd[i], gd[i], pTable, gTable);
    }
    r := res;
  }
}
