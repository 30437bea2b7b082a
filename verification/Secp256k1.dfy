/**
 The hand-written secp256k1 arithmetic: field operations, the affine group
 law, double-and-add, and the compressed point codec (SEC 1, sections 2.2.1,
 2.3.3 and 2.3.4).  Every function takes the modulus, so nothing can depend on
 the modulus being prime; `P` is the value the program runs with.
 */
module Secp256k1 {
  import opened Common
  import opened Congruence
  import opened CurveAlgebra
  import opened DoubleAndAdd
  import opened Radix

  /** An odd modulus above 2. */
  type Modulus = p: int | 2 < p && p % 2 == 1 witness 3

  /** The modulus the program runs with. */
  const P: Modulus := 0xfffffffffffffffffffffffffffffffffffffffffffffffffffffffefffffc2f

  datatype Point = Infinity | Affine(x: int, y: int)

  function FieldNormalize(p: Modulus, value: int): int { value % p }

  function FieldAdd(p: Modulus, a: int, b: int): int { FieldNormalize(p, a + b) }

  function FieldSub(p: Modulus, a: int, b: int): int { FieldNormalize(p, a - b) }

  function FieldMul(p: Modulus, a: int, b: int): int { FieldNormalize(p, a * b) }

  /** The inverse modulo `p`, when there is one. */
  function FieldInv(p: Modulus, value: int): (r: Option<int>)
    ensures r.Some? ==> 0 <= r.value < p && Cong(p, value * r.value, 1)
    ensures r.None? ==> forall i :: 0 <= i < p ==> !Inverts(p, value, i)
  {
    if exists i :: 0 <= i < p && Inverts(p, value, i) then
      InverseUnique(p, value);
      var i :| 0 <= i < p && Inverts(p, value, i);
      InvertsCong(p, value, i);
      Some(i)
    else None
  }

  predicate Inverts(p: Modulus, value: int, i: int) {
    FieldMul(p, FieldNormalize(p, value), i) == 1
  }

  lemma InvertsCong(p: Modulus, value: int, i: int)
    ensures Inverts(p, value, i) <==> Cong(p, value * i, 1)
  {
    CongMod(p, value);
    CongRefl(p, i);
    CongMul(p, value % p, value, i, i);
    CongIffMod(p, (value % p) * i, value * i);
    CongIffMod(p, value * i, 1);
    DivModUnique(0, 1, p);
  }

  lemma InverseUnique(p: Modulus, value: int)
    ensures forall i, j :: 0 <= i < p && 0 <= j < p && Inverts(p, value, i) && Inverts(p, value, j) ==> i == j
  {
    forall i, j | 0 <= i < p && 0 <= j < p && Inverts(p, value, i) && Inverts(p, value, j)
      ensures i == j
    {
      InvertsCong(p, value, i);
      InvertsCong(p, value, j);
      CongRefl(p, i);
      CongRefl(p, j);
      CongMul(p, value * j, 1, i, i);
      CongMul(p, value * i, 1, j, j);
      assert value * j * i == value * i * j;
      CongSym(p, value * j * i, i);
      CongTrans(p, i, value * j * i, j);
      CongReduced(p, i, j);
    }
  }

  /** Infinity, or reduced coordinates that satisfy y^2 = x^3 + 7. */
  predicate OnCurve(p: Modulus, point: Point) {
    point.Affine? ==>
      && 0 <= point.x < p && 0 <= point.y < p
      && FieldMul(p, point.y, point.y) == CurveRhs(p, point.x)
  }

  function CurveRhs(p: Modulus, x: int): int {
    FieldAdd(p, FieldMul(p, FieldMul(p, x, x), x), 7)
  }

  function PointDouble(p: Modulus, point: Point): Point {
    if point.Infinity? || point.y == 0 then Infinity else
      var numerator := FieldMul(p, 3, FieldMul(p, point.x, point.x));
      var denominatorInv := FieldInv(p, FieldMul(p, 2, point.y));
      if denominatorInv.None? then Infinity else
        var lambda := FieldMul(p, numerator, denominatorInv.value);
        var x3 := FieldSub(p, FieldMul(p, lambda, lambda), FieldMul(p, 2, point.x));
        var y3 := FieldSub(p, FieldMul(p, lambda, FieldSub(p, point.x, x3)), point.y);
        Affine(x3, y3)
  }

  function PointAdd(p: Modulus, left: Point, right: Point): Point {
    if left.Infinity? then right
    else if right.Infinity? then left
    else if left.x == right.x then
      if FieldAdd(p, left.y, right.y) == 0 then Infinity else PointDouble(p, left)
    else
      var numerator := FieldSub(p, right.y, left.y);
      var denominatorInv := FieldInv(p, FieldSub(p, right.x, left.x));
      if denominatorInv.None? then Infinity else
        var lambda := FieldMul(p, numerator, denominatorInv.value);
        var x3 := FieldSub(p, FieldSub(p, FieldMul(p, lambda, lambda), left.x), right.x);
        var y3 := FieldSub(p, FieldMul(p, lambda, FieldSub(p, left.x, x3)), left.y);
        Affine(x3, y3)
  }

  // ---------------------------------------------------------------- closure

  lemma CurveRhsCong(p: Modulus, x: int)
    ensures Cong(p, CurveRhs(p, x), x * x * x + 7)
  {
    CongMod(p, x * x);
    CongRefl(p, x);
    CongMul(p, (x * x) % p, x * x, x, x);
    var c := FieldMul(p, FieldMul(p, x, x), x);
    CongMod(p, (x * x) % p * x);
    CongTrans(p, c, (x * x) % p * x, x * x * x);
    CongRefl(p, 7);
    CongAdd(p, c, x * x * x, 7, 7);
    CongMod(p, c + 7);
    CongTrans(p, CurveRhs(p, x), c + 7, x * x * x + 7);
  }

  /** The code's own test agrees with the curve equation as a congruence. */
  lemma OnCurveSatisfies(p: Modulus, x: int, y: int)
    requires 0 <= x < p && 0 <= y < p
    ensures OnCurve(p, Affine(x, y)) <==> Satisfies(p, x, y)
  {
    CurveRhsCong(p, x);
    CongIffMod(p, CurveRhs(p, x), x * x * x + 7);
    CongIffMod(p, y * y, x * x * x + 7);
    var r := CurveRhs(p, x);
    DivModUnique(0, r, p);
    assert y * y - (x * x * x + 7) == y * y - x * x * x - 7 - 0;
  }

  /** Reducing an intermediate result does not change its congruence class. */
  lemma SubCong(p: Modulus, a: int, a': int, b: int, b': int)
    requires Cong(p, a, a') && Cong(p, b, b')
    ensures Cong(p, FieldSub(p, a, b), a' - b')
  {
    CongAdd(p, a, a', b, b');
    CongMod(p, a - b);
    CongTrans(p, FieldSub(p, a, b), a - b, a' - b');
  }

  lemma MulCong(p: Modulus, a: int, a': int, b: int, b': int)
    requires Cong(p, a, a') && Cong(p, b, b')
    ensures Cong(p, FieldMul(p, a, b), a' * b')
  {
    CongMul(p, a, a', b, b');
    CongMod(p, a * b);
    CongTrans(p, FieldMul(p, a, b), a * b, a' * b');
  }

  /** The reflected ordinate both rules end with. */
  lemma OrdinateCong(p: Modulus, l: int, x: int, x3: int, y: int)
    ensures Cong(p, FieldSub(p, FieldMul(p, l, FieldSub(p, x, x3)), y), l * (x - x3) - y)
  {
    CongRefl(p, l);
    CongRefl(p, x);
    CongRefl(p, x3);
    CongRefl(p, y);
    SubCong(p, x, x, x3, x3);
    MulCong(p, l, l, FieldSub(p, x, x3), x - x3);
    SubCong(p, FieldMul(p, l, FieldSub(p, x, x3)), l * (x - x3), y, y);
  }

  /** The slope of the tangent, and the inverse it is built from. */
  lemma TangentSlopeCong(p: Modulus, x: int, y: int, i: int)
    requires Cong(p, FieldMul(p, 2, y) * i, 1)
    ensures Cong(p, 2 * y * i, 1)
    ensures Cong(p, FieldMul(p, FieldMul(p, 3, FieldMul(p, x, x)), i), 3 * x * x * i)
  {
    CongRefl(p, x);
    CongRefl(p, 2);
    CongRefl(p, 3);
    CongRefl(p, y);
    CongRefl(p, i);
    MulCong(p, 2, 2, y, y);
    CongMul(p, FieldMul(p, 2, y), 2 * y, i, i);
    CongSym(p, FieldMul(p, 2, y) * i, 2 * y * i);
    CongTrans(p, 2 * y * i, FieldMul(p, 2, y) * i, 1);
    MulCong(p, x, x, x, x);
    MulCong(p, 3, 3, FieldMul(p, x, x), x * x);
    MulCong(p, FieldMul(p, 3, FieldMul(p, x, x)), 3 * (x * x), i, i);
    assert 3 * (x * x) == 3 * x * x;
  }

  /** Doubling maps curve points to curve points. */
  lemma DoubleCloses(p: Modulus, point: Point)
    requires OnCurve(p, point)
    ensures OnCurve(p, PointDouble(p, point))
  {
    if point.Affine? && PointDouble(p, point).Affine? {
      var x, y := point.x, point.y;
      var i := FieldInv(p, FieldMul(p, 2, y)).value;
      var lambda := FieldMul(p, FieldMul(p, 3, FieldMul(p, x, x)), i);
      var Affine(x3, y3) := PointDouble(p, point);
      TangentSlopeCong(p, x, y, i);
      CongRefl(p, x);
      CongRefl(p, 2);
      CongRefl(p, lambda);
      MulCong(p, lambda, lambda, lambda, lambda);
      MulCong(p, 2, 2, x, x);
      SubCong(p, FieldMul(p, lambda, lambda), lambda * lambda, FieldMul(p, 2, x), 2 * x);
      OrdinateCong(p, lambda, x, x3, y);
      OnCurveSatisfies(p, x, y);
      Tangent(p, x, y, i, lambda, x3, y3);
      OnCurveSatisfies(p, x3, y3);
    }
  }

  /** Addition maps curve points to curve points. */
  lemma AddCloses(p: Modulus, left: Point, right: Point)
    requires OnCurve(p, left) && OnCurve(p, right)
    ensures OnCurve(p, PointAdd(p, left, right))
  {
    if left.Affine? && right.Affine? {
      if left.x == right.x {
        DoubleCloses(p, left);
      } else if PointAdd(p, left, right).Affine? {
        ChordCloses(p, left, right);
      }
    }
  }

  lemma ChordCloses(p: Modulus, left: Point, right: Point)
    requires OnCurve(p, left) && OnCurve(p, right)
    requires left.Affine? && right.Affine? && left.x != right.x
    requires PointAdd(p, left, right).Affine?
    ensures OnCurve(p, PointAdd(p, left, right))
  {
    var Affine(x1, y1) := left;
    var Affine(x2, y2) := right;
    var Affine(x3, y3) := PointAdd(p, left, right);
    var i := FieldInv(p, FieldSub(p, x2, x1)).value;
    var lambda := FieldMul(p, FieldSub(p, y2, y1), i);
    CongRefl(p, x1);
    CongRefl(p, x2);
    CongRefl(p, y1);
    CongRefl(p, y2);
    CongRefl(p, i);
    CongRefl(p, lambda);
    SubCong(p, x2, x2, x1, x1);
    CongMul(p, FieldSub(p, x2, x1), x2 - x1, i, i);
    CongSym(p, FieldSub(p, x2, x1) * i, (x2 - x1) * i);
    CongTrans(p, (x2 - x1) * i, FieldSub(p, x2, x1) * i, 1);
    SubCong(p, y2, y2, y1, y1);
    MulCong(p, FieldSub(p, y2, y1), y2 - y1, i, i);
    var square := FieldMul(p, lambda, lambda);
    MulCong(p, lambda, lambda, lambda, lambda);
    SubCong(p, square, lambda * lambda, x1, x1);
    SubCong(p, FieldSub(p, square, x1), lambda * lambda - x1, x2, x2);
    OrdinateCong(p, lambda, x1, x3, y1);
    OnCurveSatisfies(p, x1, y1);
    OnCurveSatisfies(p, x2, y2);
    Chord(p, x1, y1, x2, y2, i, lambda, x3, y3);
    OnCurveSatisfies(p, x3, y3);
  }

  /** Adding a point to itself is doubling it, also for points of order two. */
  lemma AddSelfIsDouble(p: Modulus, q: Point)
    requires q.Affine? ==> 0 <= q.y < p
    ensures PointAdd(p, q, q) == PointDouble(p, q)
  {
    if q.Affine? && FieldAdd(p, q.y, q.y) == 0 && q.y != 0 {
      // 2y vanishes, so it has no inverse and the code falls back to infinity.
      assert FieldMul(p, 2, q.y) == 0;
      DivModUnique(0, 0, p);
      forall i | 0 <= i < p
        ensures !Inverts(p, 0, i)
      {
      }
    }
  }

  // -------------------------------------------------- the rules of SEC 1

  /** Any slope of the chord, however obtained, gives the point the code computes. */
  lemma ChordRule(p: Modulus, left: Point, right: Point, slope: int)
    requires left.Affine? && right.Affine? && left.x != right.x
    requires FieldInv(p, FieldSub(p, right.x, left.x)).Some?
    requires Cong(p, slope * (right.x - left.x), right.y - left.y)
    ensures var x3 := (slope * slope - left.x - right.x) % p;
            PointAdd(p, left, right) == Affine(x3, (slope * (left.x - x3) - left.y) % p)
  {
    var Affine(x1, y1) := left;
    var Affine(x2, y2) := right;
    var i := FieldInv(p, FieldSub(p, x2, x1)).value;
    var lambda := FieldMul(p, FieldSub(p, y2, y1), i);
    SlopeUnique(p, x1, y1, x2, y2, i, slope);
    ThirdPoint(p, lambda, slope, x1, x2, y1);
  }

  /** A quotient modulo `p` is congruent to every solution of its defining equation. */
  lemma QuotientUnique(p: Modulus, d: int, n: int, i: int, q: int, slope: int)
    requires Cong(p, d * i, 1) && Cong(p, q, n * i) && Cong(p, slope * d, n)
    ensures Cong(p, q, slope)
  {
    CongRefl(p, i);
    CongRefl(p, slope);
    CongSym(p, slope * d, n);
    CongMul(p, n, slope * d, i, i);
    CongMul(p, slope, slope, d * i, 1);
    assert slope * d * i == slope * (d * i);
    CongTrans(p, n * i, slope * d * i, slope);
    CongTrans(p, q, n * i, slope);
  }

  lemma SlopeUnique(p: Modulus, x1: int, y1: int, x2: int, y2: int, i: int, slope: int)
    requires Cong(p, FieldSub(p, x2, x1) * i, 1)
    requires Cong(p, slope * (x2 - x1), y2 - y1)
    ensures Cong(p, FieldMul(p, FieldSub(p, y2, y1), i), slope)
  {
    var e, f := x2 - x1, y2 - y1;
    CongMod(p, e);
    CongMod(p, f);
    CongRefl(p, i);
    MulCong(p, FieldSub(p, y2, y1), f, i, i);
    CongMul(p, e % p, e, i, i);
    CongSym(p, e % p * i, e * i);
    CongTrans(p, e * i, e % p * i, 1);
    QuotientUnique(p, e, f, i, FieldMul(p, FieldSub(p, y2, y1), i), slope);
  }

  lemma ThirdPoint(p: Modulus, lambda: int, slope: int, x1: int, x2: int, y1: int)
    requires Cong(p, lambda, slope)
    ensures var x3 := FieldSub(p, FieldSub(p, FieldMul(p, lambda, lambda), x1), x2);
            && x3 == (slope * slope - x1 - x2) % p
            && FieldSub(p, FieldMul(p, lambda, FieldSub(p, x1, x3)), y1) == (slope * (x1 - x3) - y1) % p
  {
    var square := FieldMul(p, lambda, lambda);
    var x3 := FieldSub(p, FieldSub(p, square, x1), x2);
    CongRefl(p, x1);
    CongRefl(p, x2);
    CongRefl(p, y1);
    MulCong(p, lambda, slope, lambda, slope);
    SubCong(p, square, slope * slope, x1, x1);
    CongAdd(p, FieldSub(p, square, x1), slope * slope - x1, x2, x2);
    CongIffMod(p, FieldSub(p, square, x1) - x2, slope * slope - x1 - x2);
    CongMod(p, x1 - x3);
    MulCong(p, lambda, slope, FieldSub(p, x1, x3), x1 - x3);
    CongAdd(p, FieldMul(p, lambda, FieldSub(p, x1, x3)), slope * (x1 - x3), y1, y1);
    CongIffMod(p, FieldMul(p, lambda, FieldSub(p, x1, x3)) - y1, slope * (x1 - x3) - y1);
  }

  /** Any slope of the tangent gives the point the code computes. */
  lemma TangentRule(p: Modulus, point: Point, slope: int)
    requires point.Affine? && point.y != 0
    requires FieldInv(p, FieldMul(p, 2, point.y)).Some?
    requires Cong(p, slope * (2 * point.y), 3 * point.x * point.x)
    ensures var x3 := (slope * slope - 2 * point.x) % p;
            PointDouble(p, point) == Affine(x3, (slope * (point.x - x3) - point.y) % p)
  {
    var Affine(x, y) := point;
    var i := FieldInv(p, FieldMul(p, 2, y)).value;
    var lambda := FieldMul(p, FieldMul(p, 3, FieldMul(p, x, x)), i);
    TangentSlopeCong(p, x, y, i);
    QuotientUnique(p, 2 * y, 3 * x * x, i, lambda, slope);
    TangentPoint(p, lambda, slope, x, y);
  }

  lemma TangentPoint(p: Modulus, lambda: int, slope: int, x: int, y: int)
    requires Cong(p, lambda, slope)
    ensures var x3 := FieldSub(p, FieldMul(p, lambda, lambda), FieldMul(p, 2, x));
            && x3 == (slope * slope - 2 * x) % p
            && FieldSub(p, FieldMul(p, lambda, FieldSub(p, x, x3)), y) == (slope * (x - x3) - y) % p
  {
    var square := FieldMul(p, lambda, lambda);
    var x3 := FieldSub(p, square, FieldMul(p, 2, x));
    CongRefl(p, y);
    MulCong(p, lambda, slope, lambda, slope);
    CongMod(p, 2 * x);
    CongAdd(p, square, slope * slope, FieldMul(p, 2, x), 2 * x);
    CongIffMod(p, square - FieldMul(p, 2, x), slope * slope - 2 * x);
    CongMod(p, x - x3);
    MulCong(p, lambda, slope, FieldSub(p, x, x3), x - x3);
    CongAdd(p, FieldMul(p, lambda, FieldSub(p, x, x3)), slope * (x - x3), y, y);
    CongIffMod(p, FieldMul(p, lambda, FieldSub(p, x, x3)) - y, slope * (x - x3) - y);
  }

  /** Points with one abscissa are equal or opposite, as they are on a curve over a field. */
  predicate SameOrOpposite(p: Modulus, left: Point, right: Point) {
    left.Affine? && right.Affine? && left.x == right.x ==>
      left.y == right.y || FieldAdd(p, left.y, right.y) == 0
  }

  /**
   Addition does not depend on the order of its arguments, except where one
   abscissa has two ordinates that are neither equal nor opposite and double
   to different points.
   */
  lemma AddCommutes(p: Modulus, left: Point, right: Point)
    ensures PointAdd(p, left, right) == PointAdd(p, right, left)
            <==> SameOrOpposite(p, left, right) || PointDouble(p, left) == PointDouble(p, right)
  {
    if left.Affine? && right.Affine? && left.x != right.x {
      var Affine(x1, y1) := left;
      var Affine(x2, y2) := right;
      InverseOfNegated(p, FieldSub(p, x2, x1), FieldSub(p, x1, x2), x2 - x1);
      InverseOfNegated(p, FieldSub(p, x1, x2), FieldSub(p, x2, x1), x1 - x2);
      if FieldInv(p, FieldSub(p, x2, x1)).Some? {
        var i := FieldInv(p, FieldSub(p, x2, x1)).value;
        var slope := (y2 - y1) * i;
        CongMod(p, x2 - x1);
        CongRefl(p, i);
        CongRefl(p, y2 - y1);
        CongMul(p, FieldSub(p, x2, x1), x2 - x1, i, i);
        CongSym(p, FieldSub(p, x2, x1) * i, (x2 - x1) * i);
        CongTrans(p, (x2 - x1) * i, FieldSub(p, x2, x1) * i, 1);
        CongMul(p, y2 - y1, y2 - y1, (x2 - x1) * i, 1);
        assert slope * (x2 - x1) == (y2 - y1) * ((x2 - x1) * i);
        ChordBothWays(p, left, right, slope);
      }
    }
  }

  /** On curve points whose ordinates differ by nothing or by something invertible, addition commutes. */
  lemma CurveAddCommutes(p: Modulus, left: Point, right: Point)
    requires OnCurve(p, left) && OnCurve(p, right)
    requires left.Affine? && right.Affine? && left.x == right.x ==>
               left.y == right.y || FieldInv(p, FieldSub(p, left.y, right.y)).Some?
    ensures PointAdd(p, left, right) == PointAdd(p, right, left)
  {
    if left.Affine? && right.Affine? && left.x == right.x && left.y != right.y {
      var d, e := left.y - right.y, left.y + right.y;
      var i := FieldInv(p, FieldSub(p, left.y, right.y)).value;
      CongIffMod(p, left.y * left.y, right.y * right.y);
      assert d * e == left.y * left.y - right.y * right.y;
      CongMod(p, d);
      CongRefl(p, i);
      CongMul(p, FieldSub(p, left.y, right.y), d, i, i);
      CongSym(p, FieldSub(p, left.y, right.y) * i, d * i);
      CongTrans(p, d * i, FieldSub(p, left.y, right.y) * i, 1);
      CancelUnit(p, d, i, e);
    }
    AddCommutes(p, left, right);
  }

  lemma SlopeReversed(p: Modulus, slope: int, dx: int, dy: int)
    requires Cong(p, slope * dx, dy)
    ensures Cong(p, slope * -dx, -dy)
  {
    CongRefl(p, 0);
    CongAdd(p, 0, 0, slope * dx, dy);
    assert slope * -dx == 0 - slope * dx;
  }

  /** The third point's ordinate does not depend on which end of the chord it is computed from. */
  lemma SameOrdinate(p: Modulus, slope: int, x1: int, y1: int, x2: int, y2: int, x3: int)
    requires Cong(p, slope * (x2 - x1), y2 - y1)
    ensures (slope * (x1 - x3) - y1) % p == (slope * (x2 - x3) - y2) % p
  {
    var a, b := slope * (x1 - x3) - y1, slope * (x2 - x3) - y2;
    assert slope * (x2 - x3) - slope * (x1 - x3) == slope * (x2 - x1);
    CongRefl(p, y2 - y1);
    CongAdd(p, slope * (x2 - x1), y2 - y1, y2 - y1, y2 - y1);
    CongIffMod(p, b, a);
  }

  lemma ChordBothWays(p: Modulus, left: Point, right: Point, slope: int)
    requires left.Affine? && right.Affine? && left.x != right.x
    requires FieldInv(p, FieldSub(p, right.x, left.x)).Some?
    requires FieldInv(p, FieldSub(p, left.x, right.x)).Some?
    requires Cong(p, slope * (right.x - left.x), right.y - left.y)
    ensures PointAdd(p, left, right) == PointAdd(p, right, left)
  {
    SlopeReversed(p, slope, right.x - left.x, right.y - left.y);
    ChordRule(p, left, right, slope);
    ChordRule(p, right, left, slope);
    SameOrdinate(p, slope, left.x, left.y, right.x, right.y, (slope * slope - left.x - right.x) % p);
  }

  lemma NegatedProduct(p: Modulus, e: int, d: int, i: int)
    requires Cong(p, e, d) && Cong(p, e * i, 1)
    ensures Cong(p, (-d) * (-i), 1)
  {
    assert (-d) * (-i) == d * i;
    CongRefl(p, i);
    CongMul(p, e, d, i, i);
    CongSym(p, e * i, d * i);
    CongTrans(p, d * i, e * i, 1);
  }

  /** An invertible difference stays invertible when its sign changes. */
  lemma InverseOfNegated(p: Modulus, e: int, f: int, d: int)
    requires e == FieldNormalize(p, d) && f == FieldNormalize(p, -d)
    ensures FieldInv(p, e).Some? ==> FieldInv(p, f).Some?
  {
    if FieldInv(p, e).Some? {
      var i := FieldInv(p, e).value;
      var j := (-i) % p;
      CongMod(p, d);
      NegatedProduct(p, e, d, i);
      CongMod(p, -d);
      CongMod(p, -i);
      CongMul(p, f, -d, j, -i);
      CongTrans(p, f * j, (-d) * (-i), 1);
      InvertsCong(p, f, j);
    }
  }

  // --------------------------------------------------------- double-and-add

  /** The point addition the ladder runs on. */
  function Group(p: Modulus): Addition<Point> {
    Addition(Infinity, (a, b) => PointAdd(p, a, b), a => PointDouble(p, a), a => OnCurve(p, a))
  }

  /** Curve points are closed under addition, and doubling is adding to oneself. */
  lemma GroupIsLawful(p: Modulus)
    ensures Group(p).Lawful()
  {
    var g := Group(p);
    forall a, b
      ensures g.ClosedAt(a, b)
    {
      if OnCurve(p, a) && OnCurve(p, b) { AddCloses(p, a, b); }
    }
    forall a
      ensures g.DoublesAt(a)
    {
      if OnCurve(p, a) { DoubleCloses(p, a); AddSelfIsDouble(p, a); }
    }
    forall a
      ensures g.UnitAt(a)
    {
    }
  }

  /** The ladder over point addition and doubling. */
  method ScalarMult(p: Modulus, point: Point, scalar: seq<Byte>) returns (result: Point)
    ensures result == Group(p).Ladder(point, Bits(scalar))
  {
    result := Group(p).ScalarMult(point, scalar);
  }

  /**
   The ladder is right for scalars of any length: it stays on the curve, and
   when point addition is associative (a hypothesis, never proved here) it is
   the point added to itself as often as the big-endian scalar says.
   */
  lemma ScalarMultCorrect(p: Modulus, point: Point, scalar: seq<Byte>)
    requires OnCurve(p, point)
    ensures OnCurve(p, Group(p).Ladder(point, Bits(scalar)))
    ensures Value(256, scalar) >= 0
    ensures Group(p).Associative() ==>
              Group(p).Ladder(point, Bits(scalar)) == Group(p).Multiple(Value(256, scalar), point)
  {
    GroupIsLawful(p);
    Group(p).LadderCloses(point, Bits(scalar));
    ValueBounds(256, scalar);
    BitsValue(scalar);
    if Group(p).Associative() { Group(p).LadderIsMultiple(point, Bits(scalar)); }
  }
}
