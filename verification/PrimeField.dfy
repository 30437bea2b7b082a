/**
 What the curve code gains when every nonzero residue has an inverse, as it does
 modulo a prime: sums vanish for opposite points only, and the codec's square
 root finds every point it serialized.
 */
module PrimeField {
  import opened Common
  import opened Congruence
  import opened CurveAlgebra
  import opened PublicKeyCodec
  import opened Radix
  import opened Secp256k1

  /** Every nonzero residue has an inverse. */
  predicate Field(p: Modulus) {
    forall v :: 0 < v < p ==> FieldInv(p, v).Some?
  }

  /** In a field a vanishing product has a vanishing factor. */
  lemma NoZeroDivisors(p: Modulus, a: int, b: int)
    requires Field(p) && Cong(p, a * b, 0)
    ensures Cong(p, a, 0) || Cong(p, b, 0)
  {
    CongMod(p, a);
    if a % p == 0 {
      CongSym(p, a % p, a);
    } else {
      var i := FieldInv(p, a % p).value;
      CongRefl(p, i);
      CongMul(p, a % p, a, i, i);
      CongSym(p, a % p * i, a * i);
      CongTrans(p, a * i, a % p * i, 1);
      CancelUnit(p, a, i, b);
    }
  }

  /** Reduced numbers with equal squares are equal or opposite. */
  lemma EqualSquares(p: Modulus, a: int, b: int)
    requires Field(p) && 0 <= a < p && 0 <= b < p && Cong(p, a * a, b * b)
    ensures a == b || a + b == p
  {
    assert (a - b) * (a + b) == a * a - b * b;
    NoZeroDivisors(p, a - b, a + b);
    if Cong(p, a - b, 0) {
      CongReduced(p, a, b);
    } else {
      CongIffMod(p, a, -b);
      NegatedParity(p, b);
      DivModUnique(0, a, p);
      if b == 0 { CongReduced(p, a, b); } else { DivModUnique(-1, p - b, p); }
    }
  }

  // -------------------------------------------------------- the group's inverse

  /** The reflected point. */
  function Opposite(p: Modulus, point: Point): Point {
    if point.Infinity? then Infinity else Affine(point.x, FieldSub(p, 0, point.y))
  }

  /** A point and its reflection add up to infinity, whatever the modulus. */
  lemma OppositeCancels(p: Modulus, point: Point)
    requires point.Affine? ==> 0 <= point.y < p
    ensures PointAdd(p, point, Opposite(p, point)) == Infinity
    ensures PointAdd(p, Opposite(p, point), point) == Infinity
  {
    if point.Affine? { SumWithOpposite(p, point.y); }
  }

  lemma SumWithOpposite(p: Modulus, y: int)
    requires 0 <= y < p
    ensures FieldSub(p, 0, y) == if y == 0 then 0 else p - y
    ensures FieldAdd(p, y, FieldSub(p, 0, y)) == 0 == FieldAdd(p, FieldSub(p, 0, y), y)
  {
    if y == 0 { DivModUnique(0, 0, p); } else { DivModUnique(-1, p - y, p); }
    DivModUnique(1, 0, p);
  }

  /** In a field curve points add up to infinity exactly when they are opposite. */
  lemma SumVanishesExactly(p: Modulus, left: Point, right: Point)
    requires Field(p) && OnCurve(p, left) && OnCurve(p, right)
    ensures PointAdd(p, left, right) == Infinity <==> right == Opposite(p, left)
  {
    OppositeCancels(p, left);
    if left.Affine? && right.Affine? && PointAdd(p, left, right) == Infinity {
      SumWithOpposite(p, left.y);
      if left.x != right.x {
        DifferenceHasInverse(p, left.x, right.x);
      } else {
        CongIffMod(p, left.y * left.y, right.y * right.y);
        EqualSquares(p, left.y, right.y);
        if left.y == right.y && left.y != 0 { TwiceIsNonzero(p, left.y); }
      }
    }
  }

  lemma DifferenceHasInverse(p: Modulus, x1: int, x2: int)
    requires Field(p) && 0 <= x1 < p && 0 <= x2 < p && x1 != x2
    ensures FieldInv(p, FieldSub(p, x2, x1)).Some?
  {
    if x1 < x2 { DivModUnique(0, x2 - x1, p); } else { DivModUnique(-1, p + x2 - x1, p); }
  }

  /** In a field addition commutes on all of the curve. */
  lemma AddCommutesInField(p: Modulus, left: Point, right: Point)
    requires Field(p) && OnCurve(p, left) && OnCurve(p, right)
    ensures PointAdd(p, left, right) == PointAdd(p, right, left)
  {
    if left.Affine? && right.Affine? && left.y != right.y {
      DifferenceHasInverse(p, right.y, left.y);
    }
    CurveAddCommutes(p, left, right);
  }

  lemma TwiceIsNonzero(p: Modulus, y: int)
    requires Field(p) && 0 < y < p
    ensures FieldInv(p, FieldMul(p, 2, y)).Some?
  {
    if 2 * y < p { DivModUnique(0, 2 * y, p); } else { DivModUnique(1, 2 * y - p, p); }
  }

  // ------------------------------------------------- Fermat's little theorem

  /** The product of the members of `s` from 1 to `n - 1`. */
  function Product(s: set<int>, n: nat): int {
    if n <= 1 then 1 else Product(s, n - 1) * if n - 1 in s then n - 1 else 1
  }

  lemma {:induction false} ProductExtends(s: set<int>, y: int, n: nat)
    requires y >= n
    ensures Product(s + {y}, n) == Product(s, n)
  {
    if n > 1 { ProductExtends(s, y, n - 1); }
  }

  lemma {:induction false} ProductWith(s: set<int>, y: int, n: nat)
    requires 0 < y < n && y !in s
    ensures Product(s + {y}, n) == y * Product(s, n)
  {
    if y == n - 1 {
      ProductExtends(s, y, n - 1);
    } else {
      var last := if n - 1 in s then n - 1 else 1;
      ProductWith(s, y, n - 1);
      assert Product(s + {y}, n) == Product(s + {y}, n - 1) * last;
      Regroup(y, Product(s, n - 1), last);
    }
  }

  lemma Regroup(a: int, b: int, c: int)
    ensures (a * b) * c == a * (b * c)
  {
  }

  /** The numbers from 1 to `n - 1`. */
  function Range(n: nat): (r: set<int>)
    requires n > 0
    ensures forall x :: x in r <==> 0 < x < n
    ensures |r| == n - 1
  {
    if n == 1 then {} else Range(n - 1) + {n - 1}
  }

  /** The first `n - 1` multiples of `a`. */
  function Multiples(p: Modulus, a: int, n: nat): set<int> {
    if n <= 1 then {} else Multiples(p, a, n - 1) + {FieldMul(p, a, n - 1)}
  }

  lemma TimesInjective(p: Modulus, a: int, x: int, y: int)
    requires Field(p) && 0 < a < p && 0 < x < p && 0 < y < p && FieldMul(p, a, x) == FieldMul(p, a, y)
    ensures x == y
  {
    CongIffMod(p, a * x, a * y);
    assert a * (x - y) == a * x - a * y;
    NoZeroDivisors(p, a, x - y);
    if Cong(p, a, 0) { CongReduced(p, a, 0); } else { CongReduced(p, x, y); }
  }

  lemma TimesNonzero(p: Modulus, a: int, x: int)
    requires Field(p) && 0 < a < p && 0 < x < p
    ensures 0 < FieldMul(p, a, x) < p
  {
    if FieldMul(p, a, x) == 0 {
      NoZeroDivisors(p, a, x);
      if Cong(p, a, 0) { CongReduced(p, a, 0); } else { CongReduced(p, x, 0); }
    }
  }

  lemma {:induction false} MultiplesAreNew(p: Modulus, a: int, n: nat, y: int)
    requires Field(p) && 0 < a < p && n <= y < p && y > 0
    ensures FieldMul(p, a, y) !in Multiples(p, a, n)
  {
    if n > 1 {
      MultiplesAreNew(p, a, n - 1, y);
      if FieldMul(p, a, n - 1) == FieldMul(p, a, y) { TimesInjective(p, a, n - 1, y); }
    }
  }

  /** The first multiples are distinct residues, and their product is a power of `a` times that of the factors. */
  lemma {:induction false} ProductOfMultiples(p: Modulus, a: int, n: nat)
    requires Field(p) && 0 < a < p && 0 < n <= p
    ensures Multiples(p, a, n) <= Range(p) && |Multiples(p, a, n)| == n - 1
    ensures Cong(p, Product(Multiples(p, a, n), p), PowMod(p, a, n - 1) * Product(Range(n), n))
  {
    if n == 1 {
      EmptyProduct(p);
      CongRefl(p, 1);
    } else {
      ProductOfMultiples(p, a, n - 1);
      MultiplesAreNew(p, a, n - 1, n - 1);
      TimesNonzero(p, a, n - 1);
      ProductWith(Multiples(p, a, n - 1), FieldMul(p, a, n - 1), p);
      ProductExtends(Range(n - 1), n - 1, n - 1);
      OneMoreMultiple(p, a, n - 1, Product(Multiples(p, a, n - 1), p), PowMod(p, a, n - 2), Product(Range(n - 1), n - 1));
    }
  }

  lemma {:induction false} EmptyProduct(n: nat)
    ensures Product({}, n) == 1
  {
    if n > 1 { EmptyProduct(n - 1); }
  }

  lemma OneMoreMultiple(p: Modulus, a: int, x: int, product: int, power: int, factors: int)
    requires Cong(p, product, power * factors)
    ensures Cong(p, FieldMul(p, a, x) * product, FieldMul(p, a, power) * (factors * x))
  {
    CongMod(p, a * x);
    CongMul(p, FieldMul(p, a, x), a * x, product, power * factors);
    CongMod(p, a * power);
    CongSym(p, FieldMul(p, a, power), a * power);
    CongRefl(p, factors * x);
    CongMul(p, a * power, FieldMul(p, a, power), factors * x, factors * x);
    Rearrange(a, x, power, factors);
    CongTrans(p, FieldMul(p, a, x) * product, a * power * (factors * x), FieldMul(p, a, power) * (factors * x));
  }

  lemma Rearrange(a: int, x: int, m: int, r: int)
    ensures a * x * (m * r) == a * m * (r * x)
  {
  }

  lemma {:induction false} SubsetOfSameSize<T>(a: set<T>, b: set<T>)
    requires a <= b && |a| == |b|
    ensures a == b
    decreases |a|
  {
    if |a| == 0 {
    } else {
      var x :| x in a;
      SubsetOfSameSize(a - {x}, b - {x});
      assert a == a - {x} + {x} && b == b - {x} + {x};
    }
  }

  lemma {:induction false} ProductIsUnit(p: Modulus, s: set<int>, n: nat)
    requires Field(p) && n <= p
    ensures !Cong(p, Product(s, n), 0)
  {
    if n <= 1 {
      DivModUnique(0, 1, p);
    } else {
      ProductIsUnit(p, s, n - 1);
      var last := if n - 1 in s then n - 1 else 1;
      if Cong(p, Product(s, n), 0) {
        NoZeroDivisors(p, Product(s, n - 1), last);
        CongReduced(p, last, 0);
      }
    }
  }

  lemma UnitFactor(p: Modulus, m: int, product: int)
    requires Field(p) && !Cong(p, product, 0) && Cong(p, product, m * product) && 0 <= m < p
    ensures m == 1
  {
    CongSym(p, product, m * product);
    assert (m - 1) * product == m * product - product;
    NoZeroDivisors(p, m - 1, product);
    CongReduced(p, m, 1);
  }

  /** Fermat's little theorem, for the code's own power function. */
  lemma Fermat(p: Modulus, a: int)
    requires Field(p) && 0 < a < p
    ensures PowMod(p, a, p - 1) == 1
  {
    ProductOfMultiples(p, a, p);
    SubsetOfSameSize(Multiples(p, a, p), Range(p));
    ProductIsUnit(p, Range(p), p);
    UnitFactor(p, PowMod(p, a, p - 1), Product(Range(p), p));
  }

  // ----------------------------------------------------- the codec's square root

  lemma {:induction false} PowSum(p: Modulus, base: int, m: nat, n: nat)
    ensures Cong(p, PowMod(p, base, m + n), PowMod(p, base, m) * PowMod(p, base, n))
  {
    if m == 0 {
      NothingMore(p, PowMod(p, base, n));
    } else {
      PowSum(p, base, m - 1, n);
      PowSumTurn(p, base, m - 1, n);
    }
  }

  lemma NothingMore(p: Modulus, v: int)
    ensures Cong(p, v, 1 * v)
  {
    CongRefl(p, v);
  }

  lemma PowSumTurn(p: Modulus, base: int, m: nat, n: nat)
    requires Cong(p, PowMod(p, base, m + n), PowMod(p, base, m) * PowMod(p, base, n))
    ensures Cong(p, PowMod(p, base, m + 1 + n), PowMod(p, base, m + 1) * PowMod(p, base, n))
  {
    OneMoreFactor(p, base, PowMod(p, base, m + n), PowMod(p, base, m), PowMod(p, base, n));
  }

  lemma OneMoreFactor(p: Modulus, base: int, all: int, w: int, v: int)
    requires Cong(p, all, w * v)
    ensures Cong(p, FieldMul(p, base, all), FieldMul(p, base, w) * v)
  {
    CongRefl(p, base);
    MulCong(p, base, base, all, w * v);
    CongMod(p, base * w);
    CongSym(p, FieldMul(p, base, w), base * w);
    CongRefl(p, v);
    CongMul(p, base * w, FieldMul(p, base, w), v, v);
    Regroup(base, w, v);
    CongTrans(p, FieldMul(p, base, all), base * w * v, FieldMul(p, base, w) * v);
  }

  lemma TwoFactors(p: Modulus, y: int, below: int)
    ensures Cong(p, FieldMul(p, y, FieldMul(p, y, below)), y * y * below)
  {
    CongRefl(p, y);
    CongMod(p, y * below);
    MulCong(p, y, y, FieldMul(p, y, below), y * below);
    Regroup(y, y, below);
  }

  lemma TwoMore(p: Modulus, y: int, n: nat)
    ensures Cong(p, PowMod(p, y, n + 2), y * y * PowMod(p, y, n))
  {
    TwoFactors(p, y, PowMod(p, y, n));
    assert PowMod(p, y, n + 2) == FieldMul(p, y, PowMod(p, y, n + 1));
  }

  /** Powers of a square are even powers. */
  lemma {:induction false} PowOfSquare(p: Modulus, y: int, e: nat)
    ensures Cong(p, PowMod(p, FieldMul(p, y, y), e), PowMod(p, y, 2 * e))
  {
    if e == 0 {
      CongRefl(p, 1);
    } else {
      PowOfSquare(p, y, e - 1);
      CongMod(p, y * y);
      PowOfSquareTurn(p, y, FieldMul(p, y, y), e);
    }
  }

  lemma PowOfSquareTurn(p: Modulus, y: int, square: int, e: nat)
    requires e > 0 && Cong(p, square, y * y) && Cong(p, PowMod(p, square, e - 1), PowMod(p, y, 2 * e - 2))
    ensures Cong(p, PowMod(p, square, e), PowMod(p, y, 2 * e))
  {
    MulCong(p, square, y * y, PowMod(p, square, e - 1), PowMod(p, y, 2 * e - 2));
    TwoMore(p, y, 2 * e - 2);
    CongSym(p, PowMod(p, y, 2 * e), y * y * PowMod(p, y, 2 * e - 2));
    CongTrans(p, PowMod(p, square, e), y * y * PowMod(p, y, 2 * e - 2), PowMod(p, y, 2 * e));
  }

  lemma FullTurn(p: Modulus, y: int)
    requires y == 0 || PowMod(p, y, p - 1) == 1
    ensures Cong(p, PowMod(p, y, p + 1), y * y)
  {
    TwoMore(p, y, p - 1);
    if y == 0 { ZeroTimes(PowMod(p, y, p - 1)); }
  }

  lemma ZeroTimes(m: int)
    ensures 0 * 0 * m == 0
  {
  }

  lemma SquareOf(p: Modulus, root: int, r: int, all: int, square: int)
    requires Cong(p, root, r) && Cong(p, all, r * r) && Cong(p, all, square)
    ensures Cong(p, root * root, square)
  {
    CongMul(p, root, r, root, r);
    CongSym(p, all, r * r);
    CongTrans(p, root * root, r * r, all);
    CongTrans(p, root * root, all, square);
  }

  /** Where y^(p-1) = 1 and p = 3 modulo 4, the root of y^2 the parser computes squares to y^2. */
  lemma RootSquares(p: Modulus, y: int)
    requires p % 4 == 3 && 0 <= y < p && (y == 0 || PowMod(p, y, p - 1) == 1)
    ensures var square := FieldMul(p, y, y); var root := PowMod(p, square, (p + 1) / 4);
            FieldMul(p, root, root) == square
  {
    var e := (p + 1) / 4;
    var root, r := PowMod(p, FieldMul(p, y, y), e), PowMod(p, y, 2 * e);
    PowOfSquare(p, y, e);
    assert 2 * e + 2 * e == p + 1;
    PowSum(p, y, 2 * e, 2 * e);
    FullTurn(p, y);
    SquareOf(p, root, r, PowMod(p, y, p + 1), y * y);
    CongIffMod(p, root * root, y * y);
  }

  /** The bytes a curve point is serialized to, taken apart again. */
  lemma SerializedParts(p: Modulus, point: Point)
    requires p <= Power(256, 32) && OnCurve(p, point) && point.Affine?
    ensures SerializeCompressedPublicKey(point).Ok?
    ensures var raw := SerializeCompressedPublicKey(point).value;
            && |raw| == 33 && Value(256, raw[1..]) == point.x
            && raw[0] == if point.y % 2 == 0 then 0x02 else 0x03
  {
    SerializedBytes(point);
    ValueOfFixed(256, 32, point.x);
    var raw := SerializeCompressedPublicKey(point).value;
    assert raw[1..] == Fixed(256, 32, point.x);
  }

  /** The parser computes one square root, and takes it or its negation. */
  lemma ParsedRoot(p: Modulus, raw: seq<Byte>, root: int)
    requires |raw| == 33 && raw[0] in {0x02, 0x03} && Value(256, raw[1..]) < p
    requires root == PowMod(p, CurveRhs(p, Value(256, raw[1..])), (p + 1) / 4)
    requires FieldMul(p, root, root) == CurveRhs(p, Value(256, raw[1..]))
    ensures ParseCompressedPublicKey(p, raw).Ok?
  {
  }

  /**
   The parser accepts what a curve point was serialized to, with the point's
   abscissa, whenever the ordinate satisfies y^(p-1) = 1 and p = 3 modulo 4.
   */
  lemma ParseAcceptsSerialized(p: Modulus, point: Point)
    requires p % 4 == 3 && p <= Power(256, 32) && OnCurve(p, point) && point.Affine?
    requires point.y == 0 || PowMod(p, point.y, p - 1) == 1
    ensures SerializeCompressedPublicKey(point).Ok?
    ensures var parsed := ParseCompressedPublicKey(p, SerializeCompressedPublicKey(point).value);
            && parsed.Ok? && parsed.value.Affine? && parsed.value.x == point.x
            && OnCurve(p, parsed.value) && parsed.value.y % 2 == point.y % 2
  {
    SerializedParts(p, point);
    RootSquares(p, point.y);
    var raw := SerializeCompressedPublicKey(point).value;
    ParsedRoot(p, raw, PowMod(p, FieldMul(p, point.y, point.y), (p + 1) / 4));
    ParsedPointOnCurve(p, raw);
    ParityAgrees(p, raw, point.y);
  }

  lemma ParityAgrees(p: Modulus, raw: seq<Byte>, y: int)
    requires p % 4 == 3 && ParseCompressedPublicKey(p, raw).Ok? && |raw| == 33
    requires OnCurve(p, Affine(Value(256, raw[1..]), y)) && (y == 0 || PowMod(p, y, p - 1) == 1)
    requires raw[0] == if y % 2 == 0 then 0x02 else 0x03
    ensures ParseCompressedPublicKey(p, raw).value.Affine?
    ensures ParseCompressedPublicKey(p, raw).value.y % 2 == y % 2
  {
    AcceptedParity(p, raw);
    ParsedPointOnCurve(p, raw);
    if ParseCompressedPublicKey(p, raw).value.y == 0 {
      DivModUnique(0, 0, p);
      RootOfZero(p, y);
    }
  }

  lemma RootOfZero(p: Modulus, y: int)
    requires y == 0 || PowMod(p, y, p - 1) == 1
    requires FieldMul(p, y, y) == 0
    ensures y == 0
  {
    if y != 0 {
      var below := PowMod(p, y, p - 3);
      TwoMore(p, y, p - 3);
      CongIffMod(p, y * y, 0);
      DivModUnique(0, 0, p);
      CongRefl(p, below);
      CongMul(p, y * y, 0, below, below);
      CongTrans(p, PowMod(p, y, p - 1), y * y * below, 0 * below);
      CongReduced(p, 1, 0);
    }
  }

  lemma SquaresAgree(p: Modulus, x: int, y: int, z: int)
    requires OnCurve(p, Affine(x, y)) && OnCurve(p, Affine(x, z))
    ensures Cong(p, y * y, z * z)
  {
    CongIffMod(p, y * y, z * z);
  }

  lemma OneParity(p: Modulus, y: int, z: int)
    requires (y == z || y + z == p) && y % 2 == z % 2
    ensures y == z
  {
  }

  /** Points of one abscissa and one parity are one point. */
  lemma SameParity(p: Modulus, x: int, y: int, z: int)
    requires Field(p) && OnCurve(p, Affine(x, y)) && OnCurve(p, Affine(x, z)) && y % 2 == z % 2
    ensures y == z
  {
    SquaresAgree(p, x, y, z);
    EqualSquares(p, y, z);
    OneParity(p, y, z);
  }

  /** In a field with p = 3 modulo 4, parsing a serialized curve point returns it. */
  lemma ParseRestores(p: Modulus, point: Point)
    requires Field(p) && p % 4 == 3 && p <= Power(256, 32) && OnCurve(p, point) && point.Affine?
    ensures SerializeCompressedPublicKey(point).Ok?
    ensures ParseCompressedPublicKey(p, SerializeCompressedPublicKey(point).value) == Ok(point)
  {
    if point.y != 0 { Fermat(p, point.y); }
    ParseAcceptsSerialized(p, point);
    var parsed := ParseCompressedPublicKey(p, SerializeCompressedPublicKey(point).value).value;
    SameParity(p, point.x, parsed.y, point.y);
  }

  /** The program's modulus has the shape these lemmas ask for; that it is a field is not shown here. */
  lemma PIsThreeModuloFour()
    ensures P % 4 == 3 && P <= Power(256, 32)
  {
    PFitsThirtyTwoBytes();
  }
}
