/**
 The algebra behind chord and tangent on y^2 = x^3 + 7, over integers modulo
 any `p`.  Each lemma needs only that the one denominator the formulas divide
 by has an inverse; `p` need not be prime.
 */
module CurveAlgebra {
  import opened Congruence

  /** (x, y) satisfies the curve equation modulo `p`. */
  ghost predicate Satisfies(p: int, x: int, y: int)
    requires p > 0
  {
    Cong(p, y * y - x * x * x - 7, 0)
  }

  lemma Square(a: int, b: int)
    ensures (a + b) * (a + b) == a * a + 2 * a * b + b * b
  {
  }

  lemma Cube(x: int, d: int)
    ensures (x + d) * (x + d) * (x + d) == x * x * x + 3 * x * x * d + 3 * x * d * d + d * d * d
  {
    var s := (x + d) * (x + d);
    assert s == x * x + 2 * x * d + d * d;
    assert s * (x + d) == s * x + s * d;
    assert s * x == x * x * x + 2 * x * x * d + x * d * d;
    assert s * d == x * x * d + 2 * x * d * d + d * d * d;
  }

  /** The curve equation along the line of slope `l` through (x, y), at distance `d`. */
  lemma AlongLine(x: int, y: int, l: int, d: int)
    ensures (y + l * d) * (y + l * d) - (x + d) * (x + d) * (x + d) - 7
         == (y * y - x * x * x - 7) + d * (2 * y * l - 3 * x * x) - d * d * (3 * x + d - l * l)
  {
    Cube(x, d);
    var m := l * d;
    Square(y, m);
    assert d * (2 * y * l - 3 * x * x) == 2 * y * m - 3 * x * x * d;
    assert d * d * (3 * x + d - l * l) == 3 * x * d * d + d * d * d - m * m by {
      assert d * d * (l * l) == m * m;
    }
  }

  /** Moving to congruent coordinates stays on the curve. */
  lemma SatisfiesCong(p: int, x: int, x': int, y: int, y': int)
    requires p > 0 && Cong(p, x, x') && Cong(p, y, y') && Satisfies(p, x', y')
    ensures Satisfies(p, x, y)
  {
    CongMul(p, y, y', y, y');
    CongMul(p, x, x', x, x');
    CongMul(p, x * x, x' * x', x, x');
    CongAdd(p, y * y, y' * y', x * x * x, x' * x' * x');
    CongRefl(p, 7);
    CongAdd(p, y * y - x * x * x, y' * y' - x' * x' * x', 7, 7);
    CongTrans(p, y * y - x * x * x - 7, y' * y' - x' * x' * x' - 7, 0);
  }

  /** The reflected third point of a line lies on the curve when the line meets it there. */
  lemma Reflect(p: int, x: int, y: int, l: int, x3: int, y3: int)
    requires p > 0
    requires Satisfies(p, x3, y + l * (x3 - x))
    requires Cong(p, y3, l * (x - x3) - y)
    ensures Satisfies(p, x3, y3)
  {
    var t := y + l * (x3 - x);
    assert l * (x - x3) - y == -t;
    assert (-t) * (-t) == t * t;
    CongRefl(p, x3);
    SatisfiesCong(p, x3, x3, y3, -t);
  }

  /** The tangent rule: `i` inverts the denominator 2y. */
  lemma Tangent(p: int, x: int, y: int, i: int, l: int, x3: int, y3: int)
    requires p > 0 && Satisfies(p, x, y)
    requires Cong(p, 2 * y * i, 1) && Cong(p, l, 3 * x * x * i)
    requires Cong(p, x3, l * l - 2 * x) && Cong(p, y3, l * (x - x3) - y)
    ensures Satisfies(p, x3, y3)
  {
    var d := x3 - x;
    TangentSlope(p, x, y, i, l);
    CongRefl(p, l * l - 2 * x);
    CongAdd(p, x3, l * l - 2 * x, l * l - 2 * x, l * l - 2 * x);
    assert x3 - (l * l - 2 * x) == 3 * x + d - l * l;
    CongScale(p, 3 * x + d - l * l, d);
    CongAdd(p, 2 * y * l - 3 * x * x, 0, d * (3 * x + d - l * l), 0);
    OnLine(p, x, y, l, d, 2 * y * l - 3 * x * x, 3 * x + d - l * l);
    assert x + d == x3;
    Reflect(p, x, y, l, x3, y3);
  }

  lemma TangentSlope(p: int, x: int, y: int, i: int, l: int)
    requires p > 0 && Cong(p, 2 * y * i, 1) && Cong(p, l, 3 * x * x * i)
    ensures Cong(p, 2 * y * l - 3 * x * x, 0)
  {
    var n := 3 * x * x;
    CongRefl(p, 2 * y);
    CongMul(p, 2 * y, 2 * y, l, n * i);
    CongRefl(p, n);
    CongMul(p, 2 * y * i, 1, n, n);
    assert 2 * y * (n * i) == (2 * y * i) * n;
    CongTrans(p, 2 * y * l, 2 * y * (n * i), n);
    CongAdd(p, 2 * y * l, n, n, n);
  }

  /** The chord rule: `i` inverts the denominator x2 - x1. */
  lemma Chord(p: int, x1: int, y1: int, x2: int, y2: int, i: int, l: int, x3: int, y3: int)
    requires p > 0 && Satisfies(p, x1, y1) && Satisfies(p, x2, y2)
    requires Cong(p, (x2 - x1) * i, 1) && Cong(p, l, (y2 - y1) * i)
    requires Cong(p, x3, l * l - x1 - x2) && Cong(p, y3, l * (x1 - x3) - y1)
    ensures Satisfies(p, x3, y3)
  {
    var e, d, m := x2 - x1, x3 - x1, l * l;
    var t := 2 * y1 * l - 3 * x1 * x1;
    ChordThroughSecond(p, x1, y1, x2, y2, i, l);
    var s := 3 * x1 + e - m;
    CancelUnit(p, e, i, t - e * s);
    // The third point's bracket differs from the second's by a multiple of u.
    var u := x3 - (m - x1 - x2);
    CongRefl(p, m - x1 - x2);
    CongAdd(p, x3, m - x1 - x2, m - x1 - x2, m - x1 - x2);
    BracketSwap(t, e, d, u);
    assert s == u - d;
    CongScale(p, u, e - d);
    CongAdd(p, t - e * (u - d), 0, (e - d) * u, 0);
    OnLine(p, x1, y1, l, d, t, u - e);
    assert x1 + d == x3;
    Reflect(p, x1, y1, l, x3, y3);
  }

  lemma BracketSwap(t: int, e: int, d: int, u: int)
    ensures t - d * (u - e) == (t - e * (u - d)) + (e - d) * u
  {
    assert d * (u - e) == d * u - d * e && e * (u - d) == e * u - e * d;
    assert (e - d) * u == e * u - d * u;
  }

  /** The line stays on the curve at distance `d` when its bracket vanishes there. */
  lemma OnLine(p: int, x: int, y: int, l: int, d: int, t: int, s: int)
    requires p > 0 && Satisfies(p, x, y)
    requires t == 2 * y * l - 3 * x * x && s == 3 * x + d - l * l
    requires Cong(p, t - d * s, 0)
    ensures Satisfies(p, x + d, y + l * d)
  {
    CongScale(p, t - d * s, d);
    assert d * (t - d * s) == d * t - d * d * s;
    CongAdd(p, y * y - x * x * x - 7, 0, d * t - d * d * s, 0);
    AlongLine(x, y, l, d);
  }

  /** Following the slope from the first point leads to the second, modulo `p`. */
  lemma SlopeReaches(p: int, e: int, f: int, i: int, l: int, y: int)
    requires p > 0 && Cong(p, e * i, 1) && Cong(p, l, f * i)
    ensures Cong(p, y + l * e, y + f)
  {
    CongRefl(p, e);
    CongMul(p, l, f * i, e, e);
    CongRefl(p, f);
    CongMul(p, e * i, 1, f, f);
    assert (f * i) * e == (e * i) * f;
    CongTrans(p, l * e, (f * i) * e, f);
    CongRefl(p, y);
    CongAdd(p, y, y, l * e, f);
  }

  /** The change of the curve equation along the line, as a multiple of the distance. */
  lemma BracketAlongLine(p: int, x: int, y: int, l: int, e: int)
    requires p > 0 && Satisfies(p, x, y) && Satisfies(p, x + e, y + l * e)
    ensures Cong(p, e * (2 * y * l - 3 * x * x - e * (3 * x + e - l * l)), 0)
  {
    AlongLine(x, y, l, e);
    var t, s := 2 * y * l - 3 * x * x, 3 * x + e - l * l;
    Distribute(e, t, s);
    CongAdd(p, (y + l * e) * (y + l * e) - (x + e) * (x + e) * (x + e) - 7, 0, y * y - x * x * x - 7, 0);
  }

  lemma Distribute(e: int, t: int, s: int)
    ensures e * (t - e * s) == e * t - e * e * s
  {
  }

  /** The chord meets the curve at the second point, which fixes one root of the cubic. */
  lemma ChordThroughSecond(p: int, x1: int, y1: int, x2: int, y2: int, i: int, l: int)
    requires p > 0 && Satisfies(p, x1, y1) && Satisfies(p, x2, y2)
    requires Cong(p, (x2 - x1) * i, 1) && Cong(p, l, (y2 - y1) * i)
    ensures var e := x2 - x1;
            Cong(p, e * (2 * y1 * l - 3 * x1 * x1 - e * (3 * x1 + e - l * l)), 0)
  {
    SlopeReaches(p, x2 - x1, y2 - y1, i, l, y1);
    CongRefl(p, x2);
    SatisfiesCong(p, x2, x2, y1 + l * (x2 - x1), y2);
    BracketAlongLine(p, x1, y1, l, x2 - x1);
  }

  /** A factor with an inverse can be cancelled. */
  lemma CancelUnit(p: int, e: int, i: int, w: int)
    requires p > 0 && Cong(p, e * i, 1) && Cong(p, e * w, 0)
    ensures Cong(p, w, 0)
  {
    CongRefl(p, w);
    CongMul(p, e * i, 1, w, w);
    CongSym(p, e * i * w, w);
    CongScale(p, e * w, i);
    assert i * (e * w) == e * i * w;
    CongTrans(p, w, e * i * w, 0);
  }
}
