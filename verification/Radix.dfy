/**
 Big-endian positional notation.  Base 256 is math/big's `SetBytes` and
 `Bytes`, base 58 is Base58, bases 2^5 and 2^8 are the symbols of a SegWit
 address, base 10 is decimal text.
 */
module Radix {
  import opened Common

  predicate AllDigits(b: int, ds: seq<int>) {
    forall i :: 0 <= i < |ds| ==> 0 <= ds[i] < b
  }

  /** The number a digit sequence denotes, most significant digit first. */
  function Value(b: int, ds: seq<int>): int {
    if |ds| == 0 then 0 else Value(b, ds[..|ds| - 1]) * b + ds[|ds| - 1]
  }

  function Power(b: int, k: nat): int {
    if k == 0 then 1 else Power(b, k - 1) * b
  }

  /** The shortest digits of `n`; zero has no digits at all. */
  function Minimal(b: int, n: nat): (ds: seq<int>)
    requires b >= 2
    ensures AllDigits(b, ds)
    decreases n
  {
    if n == 0 then [] else
      DivShrinks(n, b);
      Minimal(b, n / b) + [n % b]
  }

  /** Exactly `len` digits of `n`; higher digits are dropped. */
  function Fixed(b: int, len: nat, n: nat): (ds: seq<int>)
    requires b >= 2
    ensures |ds| == len && AllDigits(b, ds)
  {
    if len == 0 then [] else
      DivShrinks(n, b);
      Fixed(b, len - 1, n / b) + [n % b]
  }

  lemma DivShrinks(n: nat, b: int)
    requires b >= 2
    ensures 0 <= n / b && (n > 0 ==> n / b < n)
  {
    DivModIdentity(n, b);
    if n / b < 0 { MulMono(n / b, -1, b); }
    if n > 0 && n / b >= n { MulMono(n, n / b, b); MulMono(2, b, n); }
  }

  lemma DivModIdentity(n: int, b: int)
    requires b > 0
    ensures n == (n / b) * b + n % b && 0 <= n % b < b
  {
  }

  lemma MulMono(x: int, y: int, k: int)
    requires x <= y && 0 <= k
    ensures x * k <= y * k
  {
    assert (y - x) * k >= 0;
  }

  /** The only quotient and remainder of `q * b + r`. */
  lemma DivModUnique(q: int, r: int, b: int)
    requires 0 <= r < b
    ensures (q * b + r) / b == q && (q * b + r) % b == r
  {
    var n := q * b + r;
    var q', r' := n / b, n % b;
    assert n == q' * b + r';
    assert (q + 1) * b == q * b + b && (q' + 1) * b == q' * b + b;
    if q < q' { MulMono(q + 1, q', b); }
    if q' < q { MulMono(q' + 1, q, b); }
  }

  /** Dividing twice is dividing by the product. */
  lemma DivDiv(n: int, a: int, b: int)
    requires a > 0 && b > 0
    ensures a * b > 0 && n / a / b == n / (a * b)
  {
    var q, r := n / a, n % a;
    DivModIdentity(n, a);
    DivModIdentity(q, b);
    var q', r' := q / b, q % b;
    assert n == q' * (a * b) + (r' * a + r) by {
      assert (q' * b + r') * a == q' * (a * b) + r' * a;
    }
    MulMono(r' + 1, b, a);
    assert (r' + 1) * a == r' * a + a;
    MulMono(1, b, a);
    MulMono(0, r', a);
    DivModUnique(q', r' * a + r, a * b);
  }

  lemma ValueSnoc(b: int, ds: seq<int>, d: int)
    ensures Value(b, ds + [d]) == Value(b, ds) * b + d
  {
    assert (ds + [d])[..|ds|] == ds;
  }

  lemma {:induction false} ValueBounds(b: int, ds: seq<int>)
    requires b >= 2 && AllDigits(b, ds)
    ensures 0 <= Value(b, ds) < Power(b, |ds|)
  {
    if |ds| == 0 {
    } else {
      var front := ds[..|ds| - 1];
      ValueBounds(b, front);
      MulMono(0, Value(b, front), b);
      MulMono(Value(b, front) + 1, Power(b, |front|), b);
      assert (Value(b, front) + 1) * b == Value(b, front) * b + b;
    }
  }

  lemma {:induction false} PowerPositive(b: int, k: nat)
    requires b >= 1
    ensures Power(b, k) >= 1
  {
    if k == 0 {
    } else {
      PowerPositive(b, k - 1);
      MulMono(1, Power(b, k - 1), b);
    }
  }

  lemma {:induction false} PowerSum(b: int, m: nat, n: nat)
    ensures Power(b, m + n) == Power(b, m) * Power(b, n)
  {
    if n == 0 {
    } else {
      PowerSum(b, m, n - 1);
      var x, y := Power(b, m), Power(b, n - 1);
      assert x * y * b == x * (y * b);
    }
  }

  lemma Distribute(v: int, p: int, w: int, b: int)
    ensures (v * p + w) * b == v * (p * b) + w * b
  {
    assert (v * p) * b == v * (p * b);
  }

  lemma {:induction false} ValueConcat(b: int, xs: seq<int>, ys: seq<int>)
    ensures Value(b, xs + ys) == Value(b, xs) * Power(b, |ys|) + Value(b, ys)
  {
    if |ys| == 0 {
      assert xs + ys == xs;
    } else {
      var front, d := ys[..|ys| - 1], ys[|ys| - 1];
      assert xs + ys == (xs + front) + [d];
      ValueSnoc(b, xs + front, d);
      ValueConcat(b, xs, front);
      Distribute(Value(b, xs), Power(b, |front|), Value(b, front), b);
    }
  }

  lemma {:induction false} ValueZeros(b: int, k: nat)
    ensures Value(b, Repeat<int>(0, k)) == 0
  {
    if k == 0 {
    } else {
      assert Repeat<int>(0, k)[..k - 1] == Repeat<int>(0, k - 1);
      ValueZeros(b, k - 1);
    }
  }

  /** Leading zeros do not change the number. */
  lemma ValueLeadingZeros(b: int, k: nat, ds: seq<int>)
    ensures Value(b, Repeat<int>(0, k) + ds) == Value(b, ds)
  {
    ValueConcat(b, Repeat<int>(0, k), ds);
    ValueZeros(b, k);
  }

  /** Reading the shortest digits of `n` gives `n` back. */
  lemma {:induction false} ValueOfMinimal(b: int, n: nat)
    requires b >= 2
    ensures Value(b, Minimal(b, n)) == n
    ensures n > 0 ==> |Minimal(b, n)| > 0 && Minimal(b, n)[0] != 0
    decreases n
  {
    if n == 0 {
    } else {
      DivShrinks(n, b);
      var q, d := n / b, n % b;
      DivModIdentity(n, b);
      ValueOfMinimal(b, q);
      ValueSnoc(b, Minimal(b, q), d);
    }
  }

  lemma MinimalSnoc(b: int, v: nat, d: int)
    requires b >= 2 && 0 <= d < b && (v > 0 || d > 0)
    ensures v * b + d >= 0 && Minimal(b, v * b + d) == Minimal(b, v) + [d]
  {
    MulMono(0, v, b);
    DivModUnique(v, d, b);
    if v > 0 { MulMono(1, v, b); }
  }

  /** Digits without a leading zero are the shortest digits of their number. */
  lemma {:induction false} MinimalOfValue(b: int, ds: seq<int>)
    requires b >= 2 && AllDigits(b, ds)
    requires |ds| > 0 ==> ds[0] != 0
    ensures Value(b, ds) >= 0 && Minimal(b, Value(b, ds)) == ds
    ensures |ds| > 0 ==> Value(b, ds) > 0
  {
    if |ds| == 0 {
    } else {
      var front, d := ds[..|ds| - 1], ds[|ds| - 1];
      MinimalOfValue(b, front);
      MinimalSnoc(b, Value(b, front), d);
      assert ds == front + [d];
    }
  }

  lemma {:induction false} FixedOfValue(b: int, ds: seq<int>)
    requires b >= 2 && AllDigits(b, ds)
    ensures Value(b, ds) >= 0 && Fixed(b, |ds|, Value(b, ds)) == ds
  {
    ValueBounds(b, ds);
    if |ds| == 0 {
    } else {
      var front, d := ds[..|ds| - 1], ds[|ds| - 1];
      FixedOfValue(b, front);
      DivModUnique(Value(b, front), d, b);
      assert ds == front + [d];
    }
  }

  lemma {:induction false} ValueOfFixed(b: int, len: nat, n: nat)
    requires b >= 2 && n < Power(b, len)
    ensures Value(b, Fixed(b, len, n)) == n
  {
    if len == 0 {
    } else {
      DivShrinks(n, b);
      var q, d := n / b, n % b;
      DivModIdentity(n, b);
      if q >= Power(b, len - 1) { MulMono(Power(b, len - 1), q, b); }
      ValueOfFixed(b, len - 1, q);
      ValueSnoc(b, Fixed(b, len - 1, q), d);
    }
  }

  /** The digit in front of `i` others, as shifting and masking reads it. */
  lemma {:induction false} FixedAt(b: int, len: nat, n: nat, i: nat)
    requires b >= 2 && i < len
    ensures Power(b, i) > 0
    ensures Fixed(b, len, n)[len - 1 - i] == n / Power(b, i) % b
  {
    PowerPositive(b, i);
    if i == 0 {
    } else {
      DivShrinks(n, b);
      FixedAt(b, len - 1, n / b, i - 1);
      PowerPositive(b, i - 1);
      DivDiv(n, b, Power(b, i - 1));
      assert Power(b, i) == b * Power(b, i - 1);
    }
  }

  /** There is one way to write a number in a given width. */
  lemma FixedUnique(b: int, n: nat, ds: seq<int>)
    requires b >= 2 && AllDigits(b, ds) && Value(b, ds) == n
    ensures Fixed(b, |ds|, n) == ds
  {
    FixedOfValue(b, ds);
  }

  /** Right-aligning the shortest digits in a zeroed buffer gives the fixed-width digits. */
  lemma PaddedMinimalIsFixed(b: int, len: nat, n: nat)
    requires b >= 2 && n < Power(b, len)
    ensures |Minimal(b, n)| <= len
    ensures Repeat<int>(0, len - |Minimal(b, n)|) + Minimal(b, n) == Fixed(b, len, n)
  {
    MinimalLength(b, len, n);
    ValueOfMinimal(b, n);
    ValueLeadingZeros(b, len - |Minimal(b, n)|, Minimal(b, n));
    FixedUnique(b, n, Repeat<int>(0, len - |Minimal(b, n)|) + Minimal(b, n));
  }

  lemma {:induction false} MinimalLength(b: int, len: nat, n: nat)
    requires b >= 2 && n < Power(b, len)
    ensures |Minimal(b, n)| <= len
  {
    if n == 0 {
    } else {
      DivShrinks(n, b);
      if n / b >= Power(b, len - 1) { MulMono(Power(b, len - 1), n / b, b); }
      MinimalLength(b, len - 1, n / b);
    }
  }
}
