/**
 Congruence modulo an arbitrary positive `p`.  The lemmas take `p` as a
 parameter and never ask for it to be prime.
 */
module Congruence {
  import opened Radix

  ghost predicate Cong(p: int, a: int, b: int)
    requires p > 0
  {
    (a - b) % p == 0
  }

  lemma CongIntro(p: int, a: int, b: int, k: int)
    requires p > 0 && a - b == k * p
    ensures Cong(p, a, b)
  {
    DivModUnique(k, 0, p);
  }

  lemma CongElim(p: int, a: int, b: int) returns (k: int)
    requires p > 0 && Cong(p, a, b)
    ensures a - b == k * p
  {
    k := (a - b) / p;
    DivModIdentity(a - b, p);
  }

  lemma CongMod(p: int, a: int)
    requires p > 0
    ensures Cong(p, a % p, a)
  {
    DivModIdentity(a, p);
    CongIntro(p, a % p, a, -(a / p));
  }

  lemma CongSym(p: int, a: int, b: int)
    requires p > 0 && Cong(p, a, b)
    ensures Cong(p, b, a)
  {
    var k := CongElim(p, a, b);
    CongIntro(p, b, a, -k);
  }

  lemma CongTrans(p: int, a: int, b: int, c: int)
    requires p > 0 && Cong(p, a, b) && Cong(p, b, c)
    ensures Cong(p, a, c)
  {
    var j := CongElim(p, a, b);
    var k := CongElim(p, b, c);
    assert (j + k) * p == j * p + k * p;
    CongIntro(p, a, c, j + k);
  }

  lemma CongAdd(p: int, a: int, a': int, b: int, b': int)
    requires p > 0 && Cong(p, a, a') && Cong(p, b, b')
    ensures Cong(p, a + b, a' + b')
    ensures Cong(p, a - b, a' - b')
  {
    var j := CongElim(p, a, a');
    var k := CongElim(p, b, b');
    assert (j + k) * p == j * p + k * p && (j - k) * p == j * p - k * p;
    CongIntro(p, a + b, a' + b', j + k);
    CongIntro(p, a - b, a' - b', j - k);
  }

  lemma CongMul(p: int, a: int, a': int, b: int, b': int)
    requires p > 0 && Cong(p, a, a') && Cong(p, b, b')
    ensures Cong(p, a * b, a' * b')
  {
    var j := CongElim(p, a, a');
    var k := CongElim(p, b, b');
    calc {
      a * b - a' * b';
      (a - a') * b + a' * (b - b');
      (j * p) * b + a' * (k * p);
      (j * b) * p + (a' * k) * p;
      (j * b + a' * k) * p;
    }
    CongIntro(p, a * b, a' * b', j * b + a' * k);
  }

  /** A multiple of something that vanishes modulo `p` vanishes too. */
  lemma CongScale(p: int, a: int, k: int)
    requires p > 0 && Cong(p, a, 0)
    ensures Cong(p, k * a, 0)
  {
    CongRefl(p, k);
    CongMul(p, k, k, a, 0);
  }

  lemma CongRefl(p: int, a: int)
    requires p > 0
    ensures Cong(p, a, a)
  {
    CongIntro(p, a, a, 0);
  }

  /** Congruent reduced numbers are equal. */
  lemma CongReduced(p: int, a: int, b: int)
    requires 0 <= a < p && 0 <= b < p && Cong(p, a, b)
    ensures a == b
  {
    var k := CongElim(p, a, b);
    if k >= 1 { MulMono(1, k, p); }
    if k <= -1 { MulMono(k, -1, p); }
  }

  /** Congruence and equality of remainders are the same thing. */
  lemma CongIffMod(p: int, a: int, b: int)
    requires p > 0
    ensures Cong(p, a, b) <==> a % p == b % p
  {
    CongMod(p, a);
    CongMod(p, b);
    if Cong(p, a, b) {
      CongTrans(p, a % p, a, b);
      CongSym(p, b % p, b);
      CongTrans(p, a % p, b, b % p);
      CongReduced(p, a % p, b % p);
    }
    if a % p == b % p {
      CongSym(p, a % p, a);
      CongTrans(p, a, a % p, b);
    }
  }
}
