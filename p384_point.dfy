/** Points of P-384 in Jacobian coordinates (X, Y, Z), standing for the affine
    point (X/Z^2, Y/Z^3); Z = 0 is the point at infinity. The doubling and
    addition formulas are modelled as the source computes them, engine call by
    engine call; that they implement the curve's group law is not part of
    this model. */
module P384Point {
  import opened Arith
  import opened Wrappers
  import opened P384Field

  datatype JacobianPoint = Jacobian(x: Felem, y: Felem, z: Felem)

  predicate IsInfinity(p: JacobianPoint) { p.z == 0 }

  /** cmovznz: z when the flag is clear, nz when it is set. */
  function Cmovznz(t: bool, z: Felem, nz: Felem): Felem { if t then nz else z }

  /** point_double (dbl-2001-b with a = -3). It keeps the point at infinity
      where it is. */
  function PointDouble(p: JacobianPoint): (r: JacobianPoint)
    ensures IsInfinity(p) ==> IsInfinity(r)
  {
    DoubleZOfZero(p.y);
    var delta := Square(p.z);
    var gamma := Square(p.y);
    var beta := Mul(p.x, gamma);
    var ftmp := Sub(p.x, delta);
    var ftmp2 := Add(p.x, delta);
    var tmptmp := Add(ftmp2, ftmp2);
    var ftmp3 := Add(ftmp2, tmptmp);
    var alpha := Mul(ftmp, ftmp3);
    var fourbeta := Add(Add(beta, beta), Add(beta, beta));
    var xOut := Sub(Square(alpha), Add(fourbeta, fourbeta));
    var zOut := Sub(Sub(Square(Add(p.y, p.z)), gamma), delta);
    var gamma2 := Square(Add(gamma, gamma));
    var yOut := Sub(Mul(alpha, Sub(fourbeta, xOut)), Add(gamma2, gamma2));
    Jacobian(xOut, yOut, zOut)
  }

  /** With Z = 0 the Z3 computation of point_double, (Y + Z)^2 - Y^2 - Z^2,
      gives 0. */
  lemma DoubleZOfZero(y: Felem)
    ensures Sub(Sub(Square(Add(y, 0)), Square(y)), Square(0)) == 0
  {
    Residue(y);
    assert Add(y, 0) == y;
  }

  /** The doubling formula as written in the literature, over the integers and
      reduced once at the end: M = 3(X - Z^2)(X + Z^2), S = 4XY^2,
      X' = M^2 - 2S, Y' = M(S - X') - 8Y^4, Z' = 2YZ. */
  function DoubleFormula(p: JacobianPoint): JacobianPoint
  {
    Jacobian(DoubleFormulaX(p),
             (DoubleM(p) * (DoubleS(p) - DoubleFormulaX(p)) - 8 * ((p.y * p.y) * (p.y * p.y))) % P,
             (2 * p.y * p.z) % P)
  }

  function DoubleM(p: JacobianPoint): int { (p.x - p.z * p.z) * (3 * (p.x + p.z * p.z)) }
  function DoubleS(p: JacobianPoint): int { 4 * (p.x * (p.y * p.y)) }
  function DoubleFormulaX(p: JacobianPoint): Felem { (DoubleM(p) * DoubleM(p) - 2 * DoubleS(p)) % P }

  lemma DoubleAlpha(x: Felem, z: Felem)
    ensures var t := Add(x, Square(z));
            Mul(Sub(x, Square(z)), Add(t, Add(t, t))) == ((x - z * z) * (3 * (x + z * z))) % P
  {
    Residue(x);
    var t := Add(x, Square(z));
    var u: int := x + z * z;
    SubCong(x, Square(z), x, z * z);
    AddCong(x, Square(z), x, z * z);
    AddCong(t, t, u, u);
    AddCong(t, Add(t, t), u, u + u);
    MulCong(Sub(x, Square(z)), Add(t, Add(t, t)), x - z * z, u + (u + u));
  }

  lemma DoubleFourBeta(x: Felem, y: Felem)
    ensures var beta := Mul(x, Square(y));
            Add(Add(beta, beta), Add(beta, beta)) == (4 * (x * (y * y))) % P
  {
    Residue(x);
    var beta := Mul(x, Square(y));
    var b: int := x * (y * y);
    MulCong(x, Square(y), x, y * y);
    AddCong(beta, beta, b, b);
    AddCong(Add(beta, beta), Add(beta, beta), b + b, b + b);
  }

  lemma DoubleZ(y: Felem, z: Felem)
    ensures Sub(Sub(Square(Add(y, z)), Square(y)), Square(z)) == (2 * y * z) % P
  {
    Residue(y);
    Residue(z);
    AddCong(y, z, y, z);
    MulCong(Add(y, z), Add(y, z), y + z, y + z);
    SubCong(Square(Add(y, z)), Square(y), (y + z) * (y + z), y * y);
    SubCong(Sub(Square(Add(y, z)), Square(y)), Square(z), (y + z) * (y + z) - y * y, z * z);
    SquareOfSum(y, z);
  }

  lemma DoubleEightY4(y: Felem)
    ensures var g := Square(Add(Square(y), Square(y)));
            Add(g, g) == (8 * ((y * y) * (y * y))) % P
  {
    var gamma := Square(y);
    var y2: int := y * y;
    AddCong(gamma, gamma, y2, y2);
    MulCong(Add(gamma, gamma), Add(gamma, gamma), y2 + y2, y2 + y2);
    var g := Square(Add(gamma, gamma));
    DoubledSquare(y2);
    AddCong(g, g, 4 * (y2 * y2), 4 * (y2 * y2));
  }

  lemma DoubleXStep(alpha: Felem, fourbeta: Felem, m: int, s: int)
    requires alpha == m % P && fourbeta == s % P
    ensures Sub(Square(alpha), Add(fourbeta, fourbeta)) == (m * m - 2 * s) % P
  {
    SquareCong(alpha, m);
    DoubleCong(fourbeta, s);
    SubCong(Square(alpha), Add(fourbeta, fourbeta), m * m, 2 * s);
  }

  lemma DoubleX(p: JacobianPoint)
    ensures PointDouble(p).x == DoubleFormula(p).x
  {
    var t := Add(p.x, Square(p.z));
    var beta := Mul(p.x, Square(p.y));
    DoubleAlpha(p.x, p.z);
    DoubleFourBeta(p.x, p.y);
    DoubleXStep(Mul(Sub(p.x, Square(p.z)), Add(t, Add(t, t))), Add(Add(beta, beta), Add(beta, beta)),
                DoubleM(p), DoubleS(p));
  }

  lemma DoubleYStep(alpha: Felem, fourbeta: Felem, xOut: Felem, gg: Felem, m: int, s: int, y8: int)
    requires alpha == m % P && fourbeta == s % P && gg == y8 % P
    ensures Sub(Mul(alpha, Sub(fourbeta, xOut)), gg) == (m * (s - xOut) - y8) % P
  {
    Residue(xOut);
    SubCong(fourbeta, xOut, s, xOut);
    MulCong(alpha, Sub(fourbeta, xOut), m, s - xOut);
    SubCong(Mul(alpha, Sub(fourbeta, xOut)), gg, m * (s - xOut), y8);
  }

  lemma DoubleY(p: JacobianPoint)
    ensures PointDouble(p).y == DoubleFormula(p).y
  {
    var t := Add(p.x, Square(p.z));
    var beta := Mul(p.x, Square(p.y));
    var g := Square(Add(Square(p.y), Square(p.y)));
    DoubleX(p);
    DoubleAlpha(p.x, p.z);
    DoubleFourBeta(p.x, p.y);
    DoubleEightY4(p.y);
    DoubleYStep(Mul(Sub(p.x, Square(p.z)), Add(t, Add(t, t))), Add(Add(beta, beta), Add(beta, beta)),
                PointDouble(p).x, Add(g, g), DoubleM(p), DoubleS(p), 8 * ((p.y * p.y) * (p.y * p.y)));
  }

  /** The engine-call sequence computes the literature formula. */
  lemma PointDoubleMatchesFormula(p: JacobianPoint)
    ensures PointDouble(p) == DoubleFormula(p)
  {
    DoubleX(p);
    DoubleY(p);
    DoubleZ(p.y, p.z);
  }

  // ---------------------------------------------------------------------
  // point_add (add-2007-bl, with a mixed path for Z2 = 1)
  // ---------------------------------------------------------------------

  /** The second operand as the formulas read it: on the mixed path Z2 is
      taken to be 1 whatever is stored. */
  function Effective(mixed: bool, p2: JacobianPoint): JacobianPoint
  {
    if mixed then Jacobian(p2.x, p2.y, 1) else p2
  }

  function AddU1(p1: JacobianPoint, mixed: bool, p2: JacobianPoint): Felem
  {
    if mixed then p1.x else Mul(p1.x, Square(p2.z))
  }

  function AddS1(p1: JacobianPoint, mixed: bool, p2: JacobianPoint): Felem
  {
    if mixed then p1.y else Mul(Mul(p2.z, Square(p2.z)), p1.y)
  }

  function AddTwoZ1Z2(p1: JacobianPoint, mixed: bool, p2: JacobianPoint): Felem
  {
    if mixed then Add(p1.z, p1.z)
    else Sub(Sub(Square(Add(p1.z, p2.z)), Square(p1.z)), Square(p2.z))
  }

  function AddH(p1: JacobianPoint, mixed: bool, p2: JacobianPoint): Felem
  {
    Sub(Mul(p2.x, Square(p1.z)), AddU1(p1, mixed, p2))
  }

  /** s2 - s1; the source's r is twice this. */
  function AddHalfR(p1: JacobianPoint, mixed: bool, p2: JacobianPoint): Felem
  {
    Sub(Mul(p2.y, Mul(p1.z, Square(p1.z))), AddS1(p1, mixed, p2))
  }

  function AddR(p1: JacobianPoint, mixed: bool, p2: JacobianPoint): Felem
  {
    Add(AddHalfR(p1, mixed, p2), AddHalfR(p1, mixed, p2))
  }

  /** The generic branch: I = (2h)^2, J = hI, V = u1 I, X3 = r^2 - J - 2V,
      Y3 = r(V - X3) - 2 s1 J, Z3 = h (2 z1 z2). */
  function AddGeneric(h: Felem, rr: Felem, u1: Felem, s1: Felem, twoZ1Z2: Felem): JacobianPoint
  {
    Jacobian(GenericX(h, rr, u1), GenericY(h, rr, u1, s1), Mul(h, twoZ1Z2))
  }

  function GenericI(h: Felem): Felem { Square(Add(h, h)) }
  function GenericJ(h: Felem): Felem { Mul(h, GenericI(h)) }
  function GenericV(h: Felem, u1: Felem): Felem { Mul(u1, GenericI(h)) }

  function GenericX(h: Felem, rr: Felem, u1: Felem): Felem
  {
    Sub(Sub(Sub(Square(rr), GenericJ(h)), GenericV(h, u1)), GenericV(h, u1))
  }

  function GenericY(h: Felem, rr: Felem, u1: Felem, s1: Felem): Felem
  {
    Sub(Sub(Mul(Sub(GenericV(h, u1), GenericX(h, rr, u1)), rr), Mul(s1, GenericJ(h))), Mul(s1, GenericJ(h)))
  }

  /** point_add: the sum of two Jacobian points. When both are finite and
      h = r = 0 (the same affine point) it falls back to doubling; the last
      six conditional moves return the other operand when one is infinity. */
  function PointAdd(p1: JacobianPoint, mixed: bool, p2: JacobianPoint): (r: JacobianPoint)
    ensures IsInfinity(p2) ==> r == p1
    ensures IsInfinity(p1) && !IsInfinity(p2) ==> r == p2
  {
    var z1nz := p1.z != 0;
    var z2nz := p2.z != 0;
    var h := AddH(p1, mixed, p2);
    var rr := AddR(p1, mixed, p2);
    if h == 0 && rr == 0 && z1nz && z2nz then
      PointDouble(p1)
    else
      var out := AddGeneric(h, rr, AddU1(p1, mixed, p2), AddS1(p1, mixed, p2), AddTwoZ1Z2(p1, mixed, p2));
      Jacobian(Cmovznz(z2nz, p1.x, Cmovznz(z1nz, p2.x, out.x)),
               Cmovznz(z2nz, p1.y, Cmovznz(z1nz, p2.y, out.y)),
               Cmovznz(z2nz, p1.z, Cmovznz(z1nz, p2.z, out.z)))
  }

  function U1Of(p1: JacobianPoint, q: JacobianPoint): int { p1.x * (q.z * q.z) }
  function U2Of(p1: JacobianPoint, q: JacobianPoint): int { q.x * (p1.z * p1.z) }
  function S1Of(p1: JacobianPoint, q: JacobianPoint): int { (q.z * (q.z * q.z)) * p1.y }
  function S2Of(p1: JacobianPoint, q: JacobianPoint): int { q.y * (p1.z * (p1.z * p1.z)) }

  /** X1/Z1^2 = X2/Z2^2 and Y1/Z1^3 = Y2/Z2^3, cross-multiplied. */
  predicate SameAffinePoint(p1: JacobianPoint, q: JacobianPoint)
  {
    (U2Of(p1, q) - U1Of(p1, q)) % P == 0 && (S2Of(p1, q) - S1Of(p1, q)) % P == 0
  }

  /** add-2007-bl as written in the literature, over the integers and reduced
      once at the end. */
  function AddFormula(p1: JacobianPoint, q: JacobianPoint): JacobianPoint
  {
    AddFormulaOf(U2Of(p1, q) - U1Of(p1, q), 2 * (S2Of(p1, q) - S1Of(p1, q)),
                 U1Of(p1, q), S1Of(p1, q), 2 * (p1.z * q.z))
  }

  function AddFormulaOf(h: int, r: int, u1: int, s1: int, twoZ1Z2: int): JacobianPoint
  {
    Jacobian(FormulaX(h, r, u1), ((FormulaV(h, u1) - FormulaX(h, r, u1)) * r - 2 * (s1 * FormulaJ(h))) % P,
             (h * twoZ1Z2) % P)
  }

  function FormulaI(h: int): int { (2 * h) * (2 * h) }
  function FormulaJ(h: int): int { h * FormulaI(h) }
  function FormulaV(h: int, u1: int): int { u1 * FormulaI(h) }
  function FormulaX(h: int, r: int, u1: int): Felem { (r * r - FormulaJ(h) - 2 * FormulaV(h, u1)) % P }

  lemma AddPrelude(p1: JacobianPoint, mixed: bool, p2: JacobianPoint)
    ensures var q := Effective(mixed, p2);
            && AddU1(p1, mixed, p2) == U1Of(p1, q) % P
            && AddS1(p1, mixed, p2) == S1Of(p1, q) % P
            && AddH(p1, mixed, p2) == (U2Of(p1, q) - U1Of(p1, q)) % P
            && AddHalfR(p1, mixed, p2) == (S2Of(p1, q) - S1Of(p1, q)) % P
            && AddR(p1, mixed, p2) == (2 * (S2Of(p1, q) - S1Of(p1, q))) % P
            && AddTwoZ1Z2(p1, mixed, p2) == (2 * (p1.z * q.z)) % P
  {
    var q := Effective(mixed, p2);
    var x1: int, y1: int, z1: int, z2: int := p1.x, p1.y, p1.z, p2.z;
    Residue(p1.x);
    Residue(p1.y);
    Residue(p1.z);
    Residue(p2.z);
    if mixed {
      AddCong(p1.z, p1.z, z1, z1);
    } else {
      MulCong(p1.x, Square(p2.z), x1, z2 * z2);
      MulCong(p2.z, Square(p2.z), z2, z2 * z2);
      MulCong(Mul(p2.z, Square(p2.z)), p1.y, z2 * (z2 * z2), y1);
      AddCong(p1.z, p2.z, z1, z2);
      MulCong(Add(p1.z, p2.z), Add(p1.z, p2.z), z1 + z2, z1 + z2);
      SubCong(Square(Add(p1.z, p2.z)), Square(p1.z), (z1 + z2) * (z1 + z2), z1 * z1);
      SubCong(Sub(Square(Add(p1.z, p2.z)), Square(p1.z)), Square(p2.z), (z1 + z2) * (z1 + z2) - z1 * z1, z2 * z2);
      SquareOfSum(z1, z2);
    }
    Residue(p2.x);
    Residue(p2.y);
    MulCong(p2.x, Square(p1.z), p2.x, z1 * z1);
    SubCong(Mul(p2.x, Square(p1.z)), AddU1(p1, mixed, p2), U2Of(p1, q), U1Of(p1, q));
    MulCong(p1.z, Square(p1.z), z1, z1 * z1);
    MulCong(p2.y, Mul(p1.z, Square(p1.z)), p2.y, z1 * (z1 * z1));
    var r := AddHalfR(p1, mixed, p2);
    SubCong(Mul(p2.y, Mul(p1.z, Square(p1.z))), AddS1(p1, mixed, p2), S2Of(p1, q), S1Of(p1, q));
    AddCong(r, r, S2Of(p1, q) - S1Of(p1, q), S2Of(p1, q) - S1Of(p1, q));
  }

  /** Twice a residue is zero only for zero, p being odd. */
  lemma TwiceZero(a: Felem)
    ensures Add(a, a) == 0 <==> a == 0
  {
    if a + a >= P {
      ModUnique(a + a, 1, a + a - P, P);
    } else {
      ModUnique(a + a, 0, a + a, P);
    }
  }

  /** The source's test h = r = 0 holds exactly for two representations of the
      same affine point. */
  lemma AddDetectsSamePoint(p1: JacobianPoint, mixed: bool, p2: JacobianPoint)
    ensures AddH(p1, mixed, p2) == 0 && AddR(p1, mixed, p2) == 0
            <==> SameAffinePoint(p1, Effective(mixed, p2))
  {
    AddPrelude(p1, mixed, p2);
    TwiceZero(AddHalfR(p1, mixed, p2));
  }

  /** The generic branch computes add-2007-bl from residues of its inputs. */
  lemma AddGenericMatches(h: Felem, rr: Felem, u1: Felem, s1: Felem, tz: Felem,
                          H: int, R: int, U1: int, S1: int, TZ: int)
    requires h == H % P && rr == R % P && u1 == U1 % P && s1 == S1 % P && tz == TZ % P
    ensures AddGeneric(h, rr, u1, s1, tz) == AddFormulaOf(H, R, U1, S1, TZ)
  {
    GenericTerms(h, u1, H, U1);
    GenericXMatches(h, rr, u1, H, R, U1);
    GenericYMatches(h, rr, u1, s1, H, R, U1, S1);
    MulCong(h, tz, H, TZ);
  }

  /** I, J and V of the generic branch are residues of their integer forms. */
  lemma GenericTerms(h: Felem, u1: Felem, H: int, U1: int)
    requires h == H % P && u1 == U1 % P
    ensures GenericI(h) == FormulaI(H) % P
    ensures GenericJ(h) == FormulaJ(H) % P
    ensures GenericV(h, u1) == FormulaV(H, U1) % P
  {
    AddCong(h, h, H, H);
    MulCong(Add(h, h), Add(h, h), 2 * H, 2 * H);
    MulCong(h, GenericI(h), H, FormulaI(H));
    MulCong(u1, GenericI(h), U1, FormulaI(H));
  }

  lemma GenericXMatches(h: Felem, rr: Felem, u1: Felem, H: int, R: int, U1: int)
    requires h == H % P && rr == R % P && u1 == U1 % P
    requires GenericJ(h) == FormulaJ(H) % P && GenericV(h, u1) == FormulaV(H, U1) % P
    ensures GenericX(h, rr, u1) == FormulaX(H, R, U1)
  {
    var j, v := GenericJ(h), GenericV(h, u1);
    var J, V := FormulaJ(H), FormulaV(H, U1);
    MulCong(rr, rr, R, R);
    SubCong(Square(rr), j, R * R, J);
    SubCong(Sub(Square(rr), j), v, R * R - J, V);
    SubCong(Sub(Sub(Square(rr), j), v), v, R * R - J - V, V);
  }

  lemma GenericYMatches(h: Felem, rr: Felem, u1: Felem, s1: Felem, H: int, R: int, U1: int, S1: int)
    requires h == H % P && rr == R % P && u1 == U1 % P && s1 == S1 % P
    requires GenericJ(h) == FormulaJ(H) % P && GenericV(h, u1) == FormulaV(H, U1) % P
    ensures GenericY(h, rr, u1, s1) == ((FormulaV(H, U1) - GenericX(h, rr, u1)) * R - 2 * (S1 * FormulaJ(H))) % P
  {
    var j, v, x := GenericJ(h), GenericV(h, u1), GenericX(h, rr, u1);
    var J, V := FormulaJ(H), FormulaV(H, U1);
    var s1j := Mul(s1, j);
    Residue(x);
    SubCong(v, x, V, x);
    MulCong(Sub(v, x), rr, V - x, R);
    MulCong(s1, j, S1, J);
    SubCong(Mul(Sub(v, x), rr), s1j, (V - x) * R, S1 * J);
    SubCong(Sub(Mul(Sub(v, x), rr), s1j), s1j, (V - x) * R - S1 * J, S1 * J);
  }

  /** Two representations of the same finite point: point_add doubles. */
  lemma PointAddOfSamePoint(p1: JacobianPoint, mixed: bool, p2: JacobianPoint)
    requires !IsInfinity(p1) && !IsInfinity(p2)
    requires SameAffinePoint(p1, Effective(mixed, p2))
    ensures PointAdd(p1, mixed, p2) == PointDouble(p1)
  {
    AddDetectsSamePoint(p1, mixed, p2);
  }

  /** Two finite operands that are not the same point: point_add computes
      add-2007-bl on the operands (with Z2 = 1 on the mixed path). */
  lemma PointAddMatchesFormula(p1: JacobianPoint, mixed: bool, p2: JacobianPoint)
    requires !IsInfinity(p1) && !IsInfinity(p2)
    requires !SameAffinePoint(p1, Effective(mixed, p2))
    ensures PointAdd(p1, mixed, p2) == AddFormula(p1, Effective(mixed, p2))
  {
    var q := Effective(mixed, p2);
    AddDetectsSamePoint(p1, mixed, p2);
    AddPrelude(p1, mixed, p2);
    AddGenericMatches(AddH(p1, mixed, p2), AddR(p1, mixed, p2), AddU1(p1, mixed, p2),
                      AddS1(p1, mixed, p2), AddTwoZ1Z2(p1, mixed, p2),
                      U2Of(p1, q) - U1Of(p1, q), 2 * (S2Of(p1, q) - S1Of(p1, q)),
                      U1Of(p1, q), S1Of(p1, q), 2 * (p1.z * q.z));
  }

  /** Adding a finite point to itself is doubling it. */
  lemma AddSelfIsDouble(p: JacobianPoint)
    requires !IsInfinity(p)
    ensures PointAdd(p, false, p) == PointDouble(p)
  {
    assert SameAffinePoint(p, Effective(false, p));
    PointAddOfSamePoint(p, false, p);
  }

  /** The mixed path is the full path specialised to Z2 = 1. */
  lemma MixedAgreesWithFull(p1: JacobianPoint, x2: Felem, y2: Felem)
    ensures PointAdd(p1, true, Jacobian(x2, y2, 1)) == PointAdd(p1, false, Jacobian(x2, y2, 1))
  {
    var p2 := Jacobian(x2, y2, 1);
    assert Effective(true, p2) == Effective(false, p2);
    if !IsInfinity(p1) {
      if SameAffinePoint(p1, p2) {
        PointAddOfSamePoint(p1, true, p2);
        PointAddOfSamePoint(p1, false, p2);
      } else {
        PointAddMatchesFormula(p1, true, p2);
        PointAddMatchesFormula(p1, false, p2);
      }
    }
  }

  // ---------------------------------------------------------------------
  // Leaving Jacobian coordinates
  // ---------------------------------------------------------------------

  /** A nonzero z satisfies Fermat's little theorem, z^(p-1) = 1. Primality
      of p is not proved here, so the lemmas that need it take it as a
      hypothesis. */
  ghost predicate FermatHolds(z: Felem)
  {
    ModPow(z, P - 1) == 1
  }

  /** X/Z^2 computed as X * Z^(p-3). */
  ghost function AffineX(p: JacobianPoint): Felem
  {
    Mul(p.x, ModPow(p.z, P - 3))
  }

  /** With Fermat's theorem for z, c * z^2 = X exactly when c = X * z^(p-3). */
  lemma DivideBySquare(c: Felem, x: Felem, z: Felem)
    requires FermatHolds(z)
    ensures Mul(c, Square(z)) == x <==> c == Mul(x, ModPow(z, P - 3))
  {
    var w := ModPow(z, P - 3);
    InvSquareTimesSquare(z);
    assert Mul(w, Square(z)) == 1;
    if Mul(c, Square(z)) == x {
      ModMulAssoc(c, Square(z), w, P);
      assert Mul(Square(z), w) == 1;
      MulOne(c);
    }
    if c == Mul(x, w) {
      ModMulAssoc(x, w, Square(z), P);
      MulOne(x);
    }
  }

  /** Y/Z^3 computed as Y * Z * (Z^(p-3))^2. */
  ghost function AffineY(p: JacobianPoint): Felem
  {
    Mul(Mul(p.y, p.z), Square(ModPow(p.z, P - 3)))
  }

  /** get_affine_coordinates: fails for the point at infinity; otherwise
      writes x = X * Z^(p-3) when x is asked for (x_out not NULL) and
      y = Y * Z * (Z^(p-3))^2 when y is asked for (y_out not NULL). These are
      X/Z^2 and Y/Z^3 whenever Fermat's theorem holds for Z. */
  method GetAffineCoordinates(p: JacobianPoint, wantX: bool, wantY: bool)
    returns (ok: bool, x: Option<Felem>, y: Option<Felem>)
    ensures ok <==> !IsInfinity(p)
    ensures x.Some? <==> ok && wantX
    ensures y.Some? <==> ok && wantY
    ensures x.Some? ==> x.value == AffineX(p)
    ensures y.Some? ==> y.value == AffineY(p)
    ensures x.Some? && FermatHolds(p.z) ==> Mul(x.value, Square(p.z)) == p.x
    ensures y.Some? && FermatHolds(p.z) ==> Mul(y.value, Mul(p.z, Square(p.z))) == p.y
  {
    x, y := None, None;
    if p.z == 0 {
      return false, x, y;
    }
    var z1 := p.z;
    var z2 := InvSquare(z1);
    if wantX {
      var xv := Mul(p.x, z2);
      x := Some(xv);
      if FermatHolds(z1) {
        DivideBySquare(xv, p.x, z1);
      }
    }
    if wantY {
      z2 := Square(z2);
      var yv := Mul(p.y, z1);
      yv := Mul(yv, z2);
      y := Some(yv);
      if FermatHolds(z1) {
        AffineYTimesCube(p.y, z1);
      }
    }
    ok := true;
  }

  /** Two powers whose exponents add up to twice an exponent k with z^k = 1
      multiply to 1. */
  lemma PowersCancel(z: Felem, k: nat, a: nat, b: nat)
    requires ModPow(z, k) == 1 && a + b == k + k
    ensures Mul(ModPow(z, a), ModPow(z, b)) == 1
  {
    MulModPow(z, a, b);
    MulModPow(z, k, k);
    MulOne(1);
    assert a + b == k + k;
  }

  lemma AffineYTimesCube(y: Felem, z: Felem)
    requires FermatHolds(z)
    ensures Mul(Mul(Mul(y, z), Square(ModPow(z, P - 3))), Mul(z, Square(z))) == y
  {
    var e: nat := P - 3;
    var w2 := Square(ModPow(z, e));
    ModPowOne(z);
    SquareModPow(z, e);
    MulModPow(z, 1, 2 * e);
    SquareModPow(z, 1);
    MulModPow(z, 1, 2 * 1);
    PowersCancel(z, P - 1, 1 + 2 * e, 1 + 2 * 1);
    ModMulAssoc(y, z, w2, P);
    ModMulAssoc(y, Mul(z, w2), Mul(z, Square(z)), P);
    MulOne(y);
  }

  /** cmp_x_coordinate: whether the affine x of p, reduced modulo the group
      order, equals r. X is compared with r * Z^2 and, when r < p - n, also
      with (r + n) * Z^2. */
  function CmpXCoordinate(p: JacobianPoint, r: int): (eq: bool)
    requires 0 <= r < N
    ensures eq ==> !IsInfinity(p)
  {
    if IsInfinity(p) then false
    else
      var z2 := Mul(p.z, p.z);
      if Mul(r, z2) == p.x then true
      else if r < P - N then Mul(r + N, z2) == p.x
      else false
  }

  /** What cmp_x_coordinate decides, given Fermat's theorem for Z. */
  lemma CmpXCoordinateMatchesAffine(p: JacobianPoint, r: int)
    requires 0 <= r < N
    requires FermatHolds(p.z)
    ensures CmpXCoordinate(p, r) <==> AffineX(p) % N == r
  {
    var ax := AffineX(p);
    DivideBySquare(r, p.x, p.z);
    if r < P - N {
      DivideBySquare(r + N, p.x, p.z);
    }
    if ax < N {
      ModUnique(ax, 0, ax, N);
    } else {
      ModUnique(ax, 1, ax - N, N);
    }
  }
}
