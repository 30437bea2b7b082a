/**
 A feedback shift register over words that form a group under `xor`.  Nothing
 here looks inside a word: what a register must satisfy is collected in
 `Linear`.
 */
module LinearRegister {

  datatype Register<!W(!new)> = Register(
    zero: W,
    xor: (W, W) -> W,
    left: W -> W,
    top: W -> W,
    bit: (W, nat) -> bool,
    generator: nat -> W)
  {
    /** What generator `i` contributes for the symbol `t` shifted out. */
    function Tap(t: W, i: nat): W {
      if bit(t, i) then generator(i) else zero
    }

    /** What the first `i` generators contribute. */
    function Feedback(t: W, i: nat): W {
      if i == 0 then zero else xor(Feedback(t, i - 1), Tap(t, i - 1))
    }

    /** Shift by one symbol, take in `value`, then add the feedback. */
    function Step(chk: W, value: W): W {
      xor(xor(left(chk), value), Feedback(top(chk), 5))
    }

    /** The register after feeding `values` into the state `chk`. */
    function Feed(chk: W, values: seq<W>): W {
      if |values| == 0 then chk else Step(Feed(chk, values[..|values| - 1]), values[|values| - 1])
    }

    ghost predicate Assoc(a: W, b: W, c: W) {
      xor(xor(a, b), c) == xor(a, xor(b, c))
    }

    ghost predicate Comm(a: W, b: W) {
      xor(a, b) == xor(b, a)
    }

    ghost predicate Unit(a: W) {
      xor(a, zero) == a && xor(a, a) == zero
    }

    ghost predicate LeftLinear(c: W, d: W) {
      left(xor(c, d)) == xor(left(c), left(d)) && top(xor(c, d)) == xor(top(c), top(d))
    }

    ghost predicate BitLinear(s: W, t: W, i: nat) {
      bit(xor(s, t), i) <==> bit(s, i) != bit(t, i)
    }

    ghost predicate Linear() {
      && (forall a, b, c :: Assoc(a, b, c))
      && (forall a, b :: Comm(a, b))
      && (forall a :: Unit(a))
      && (forall c, d :: LeftLinear(c, d))
      && (forall s, t, i :: BitLinear(s, t, i))
    }

    lemma Exchange(a: W, b: W, c: W, d: W)
      requires Linear()
      ensures xor(xor(a, b), xor(c, d)) == xor(xor(a, c), xor(b, d))
    {
      assert Assoc(a, b, xor(c, d)) && Assoc(b, c, d) && Comm(b, c);
      assert Assoc(c, b, d) && Assoc(a, c, xor(b, d));
    }

    lemma ZeroUnit(a: W)
      requires Linear()
      ensures xor(a, zero) == a && xor(zero, a) == a && xor(a, a) == zero
    {
      assert Unit(a) && Comm(a, zero);
    }

    lemma TapLinear(s: W, t: W, i: nat)
      requires Linear()
      ensures Tap(xor(s, t), i) == xor(Tap(s, i), Tap(t, i))
    {
      assert BitLinear(s, t, i);
      ZeroUnit(generator(i));
      ZeroUnit(zero);
    }

    lemma {:induction false} FeedbackLinear(s: W, t: W, i: nat)
      requires Linear()
      ensures Feedback(xor(s, t), i) == xor(Feedback(s, i), Feedback(t, i))
    {
      if i == 0 {
        ZeroUnit(zero);
      } else {
        FeedbackLinear(s, t, i - 1);
        TapLinear(s, t, i - 1);
        Exchange(Feedback(s, i - 1), Feedback(t, i - 1), Tap(s, i - 1), Tap(t, i - 1));
      }
    }

    lemma StepLinear(c: W, d: W, v: W, w: W)
      requires Linear()
      ensures Step(xor(c, d), xor(v, w)) == xor(Step(c, v), Step(d, w))
    {
      assert LeftLinear(c, d);
      FeedbackLinear(top(c), top(d), 5);
      Exchange(left(c), left(d), v, w);
      Exchange(xor(left(c), v), xor(left(d), w), Feedback(top(c), 5), Feedback(top(d), 5));
    }

    function XorAll(u: seq<W>, v: seq<W>): (w: seq<W>)
      requires |u| == |v|
      ensures |w| == |u| && forall i :: 0 <= i < |w| ==> w[i] == xor(u[i], v[i])
    {
      seq(|u|, i requires 0 <= i < |u| => xor(u[i], v[i]))
    }

    /** Feeding is linear in the state and in every symbol at once. */
    lemma {:induction false} FeedLinear(c: W, d: W, u: seq<W>, v: seq<W>)
      requires Linear() && |u| == |v|
      ensures Feed(xor(c, d), XorAll(u, v)) == xor(Feed(c, u), Feed(d, v))
    {
      if |u| == 0 {
      } else {
        var u', v' := u[..|u| - 1], v[..|v| - 1];
        FeedLinear(c, d, u', v');
        assert XorAll(u, v)[..|u| - 1] == XorAll(u', v');
        StepLinear(Feed(c, u'), Feed(d, v'), u[|u| - 1], v[|v| - 1]);
      }
    }

    lemma {:induction false} FeedConcat(c: W, u: seq<W>, v: seq<W>)
      ensures Feed(c, u + v) == Feed(Feed(c, u), v)
    {
      if |v| == 0 {
        assert u + v == u;
      } else {
        assert (u + v)[..|u + v| - 1] == u + v[..|v| - 1];
        FeedConcat(c, u, v[..|v| - 1]);
      }
    }

    lemma FeedSnoc(c: W, u: seq<W>, w: W)
      ensures Feed(c, u + [w]) == Step(Feed(c, u), w)
    {
      assert (u + [w])[..|u|] == u;
    }

    ghost predicate AllZero(values: seq<W>) {
      forall i :: 0 <= i < |values| ==> values[i] == zero
    }

    /** Zeros leave the zero state alone. */
    lemma {:induction false} FeedZeros(values: seq<W>)
      requires Linear() && AllZero(values)
      ensures Feed(zero, values) == zero
    {
      if |values| == 0 {
      } else {
        FeedZeros(values[..|values| - 1]);
        ZeroUnit(zero);
        ZeroUnit(Step(zero, zero));
        StepLinear(zero, zero, zero, zero);
      }
    }

    /** Words with no feedback to add are only shifted. */
    lemma StepWithoutFeedback(chk: W, value: W)
      requires Linear() && top(chk) == zero
      ensures Step(chk, value) == xor(left(chk), value)
    {
      ZeroUnit(zero);
      ZeroUnit(Feedback(zero, 5));
      FeedbackLinear(zero, zero, 5);
      ZeroUnit(xor(left(chk), value));
    }

    /** The remainders of two inputs differ by the remainder of their difference. */
    lemma DifferenceOfRemainders(c: W, u: seq<W>, v: seq<W>)
      requires Linear() && |u| == |v|
      ensures xor(Feed(c, u), Feed(c, v)) == Feed(zero, XorAll(u, v))
    {
      ZeroUnit(c);
      FeedLinear(c, c, u, v);
    }

    /** Feeding a symbol is stepping without one and adding it. */
    lemma StepAddsSymbol(chk: W, value: W)
      requires Linear()
      ensures Step(chk, value) == xor(Step(chk, zero), value)
    {
      var l, f := left(chk), Feedback(top(chk), 5);
      assert Unit(l) && Assoc(l, value, f) && Comm(value, f) && Assoc(l, f, value);
    }

    // ---------------------------------------------- words of six symbols

    /** What the register and the symbols have to do with each other. */
    ghost predicate Extends(layout: Layout<W>, y: W) {
      layout.small(y) ==>
        && layout.small(layout.shr(y)) && layout.symbol(layout.low(y))
        && top(layout.shr(y)) == zero && xor(left(layout.shr(y)), layout.low(y)) == y
    }

    ghost predicate Packs(layout: Layout<W>, x: W, d: W, j: nat) {
      j < 6 && layout.within(x, j) && layout.symbol(d) ==>
        && top(x) == zero && layout.within(xor(left(x), d), j + 1)
        && (xor(left(x), d) == zero <==> x == zero && d == zero)
    }

    ghost predicate KeepsNonzero(layout: Layout<W>, x: W) {
      layout.small(x) && x != zero ==> layout.small(Step(x, zero)) && Step(x, zero) != zero
    }

    ghost predicate KeepsSmall(layout: Layout<W>, a: W, b: W) {
      layout.small(a) && layout.small(b) ==> layout.small(xor(a, b))
    }

    ghost predicate SmallParts(layout: Layout<W>, x: W, i: nat) {
      layout.small(zero) && layout.small(left(x)) && layout.small(generator(i))
    }

    ghost predicate SixSymbols(layout: Layout<W>, q: W) {
      layout.small(q) ==> ShrTimes(layout, q, 6) == zero
    }

    ghost predicate Limits(layout: Layout<W>, x: W) {
      layout.within(zero, 0) && (layout.within(x, 6) ==> layout.small(x))
    }

    ghost predicate Fits(layout: Layout<W>) {
      && Linear()
      && (forall y :: Extends(layout, y))
      && (forall x, d, j :: Packs(layout, x, d, j))
      && (forall x :: KeepsNonzero(layout, x))
      && (forall a, b :: KeepsSmall(layout, a, b))
      && (forall x, i :: SmallParts(layout, x, i))
      && (forall q :: SixSymbols(layout, q))
      && (forall x :: Limits(layout, x))
    }

    function ShrTimes(layout: Layout<W>, q: W, n: nat): W {
      if n == 0 then q else ShrTimes(layout, layout.shr(q), n - 1)
    }

    /** The low `n` symbols of a word, most significant first. */
    function Symbols(layout: Layout<W>, q: W, n: nat): (symbols: seq<W>)
      ensures |symbols| == n
    {
      if n == 0 then [] else Symbols(layout, layout.shr(q), n - 1) + [layout.low(q)]
    }

    /** Feeding the symbols of a word into the zero state builds that word. */
    lemma {:induction false} FeedSymbols(layout: Layout<W>, q: W, n: nat)
      requires Fits(layout) && layout.small(q) && ShrTimes(layout, q, n) == zero
      ensures Feed(zero, Symbols(layout, q, n)) == q
    {
      if n == 0 {
      } else {
        assert Extends(layout, q);
        FeedSymbols(layout, layout.shr(q), n - 1);
        FeedSnoc(zero, Symbols(layout, layout.shr(q), n - 1), layout.low(q));
        StepWithoutFeedback(layout.shr(q), layout.low(q));
      }
    }

    /** Up to six symbols fed into the zero state give zero only if all are zero. */
    lemma {:induction false} FeedPacks(layout: Layout<W>, values: seq<W>)
      requires Fits(layout) && |values| <= 6
      requires forall i :: 0 <= i < |values| ==> layout.symbol(values[i])
      ensures layout.within(Feed(zero, values), |values|)
      ensures Feed(zero, values) == zero ==> AllZero(values)
    {
      if |values| == 0 {
        assert Limits(layout, zero);
      } else {
        var front, d := values[..|values| - 1], values[|values| - 1];
        FeedPacks(layout, front);
        assert Packs(layout, Feed(zero, front), d, |front|);
        StepWithoutFeedback(Feed(zero, front), d);
      }
    }

    /** Zeros cannot bring a nonzero state back to zero. */
    lemma {:induction false} ZerosKeepNonzero(layout: Layout<W>, c: W, values: seq<W>)
      requires Fits(layout) && AllZero(values) && layout.small(c) && c != zero
      ensures layout.small(Feed(c, values)) && Feed(c, values) != zero
    {
      if |values| == 0 {
      } else {
        ZerosKeepNonzero(layout, c, values[..|values| - 1]);
        assert KeepsNonzero(layout, Feed(c, values[..|values| - 1]));
      }
    }

    lemma {:induction false} FeedbackSmall(layout: Layout<W>, t: W, i: nat)
      requires Fits(layout)
      ensures layout.small(Feedback(t, i))
    {
      if i == 0 {
        assert SmallParts(layout, zero, 0);
      } else {
        FeedbackSmall(layout, t, i - 1);
        assert SmallParts(layout, zero, i - 1);
        assert KeepsSmall(layout, Feedback(t, i - 1), Tap(t, i - 1));
      }
    }

    lemma {:induction false} FeedSmall(layout: Layout<W>, c: W, values: seq<W>)
      requires Fits(layout) && layout.small(c)
      requires forall i :: 0 <= i < |values| ==> layout.small(values[i])
      ensures layout.small(Feed(c, values))
    {
      if |values| == 0 {
      } else {
        var chk, v := Feed(c, values[..|values| - 1]), values[|values| - 1];
        FeedSmall(layout, c, values[..|values| - 1]);
        FeedbackSmall(layout, top(chk), 5);
        assert SmallParts(layout, chk, 0);
        assert KeepsSmall(layout, left(chk), v);
        assert KeepsSmall(layout, xor(left(chk), v), Feedback(top(chk), 5));
      }
    }

    function Zeros(n: nat): (zs: seq<W>)
      ensures |zs| == n && AllZero(zs)
    {
      seq(n, _ => zero)
    }

    /**
     The checksum law: the six symbols of the remainder after six zeros, offset
     by `target`, bring the register to `target`.
     */
    lemma ChecksumReaches(layout: Layout<W>, c: W, values: seq<W>, target: W)
      requires Fits(layout) && layout.small(c) && layout.small(target)
      requires forall i :: 0 <= i < |values| ==> layout.small(values[i])
      ensures var q := xor(Feed(c, values + Zeros(6)), target);
              Feed(c, values + Symbols(layout, q, 6)) == target
    {
      var q := xor(Feed(c, values + Zeros(6)), target);
      RemainderSmall(layout, c, values, 6, target);
      assert SixSymbols(layout, q);
      FeedSymbols(layout, q, 6);
      Offset(c, values, Symbols(layout, q, 6), target);
    }

    lemma RemainderSmall(layout: Layout<W>, c: W, values: seq<W>, n: nat, target: W)
      requires Fits(layout) && layout.small(c) && layout.small(target)
      requires forall i :: 0 <= i < |values| ==> layout.small(values[i])
      ensures layout.small(xor(Feed(c, values + Zeros(n)), target))
    {
      assert SmallParts(layout, zero, 0);
      FeedSmall(layout, c, values + Zeros(n));
      assert KeepsSmall(layout, Feed(c, values + Zeros(n)), target);
    }

    lemma Offset(c: W, values: seq<W>, symbols: seq<W>, target: W)
      requires Linear()
      requires Feed(zero, symbols) == xor(Feed(c, values + Zeros(|symbols|)), target)
      ensures Feed(c, values + symbols) == target
    {
      var z := Feed(c, values + Zeros(|symbols|));
      FeedConcat(c, values, Zeros(|symbols|));
      FeedConcat(c, values, symbols);
      FeedSuperposes(Feed(c, values), symbols);
      assert Assoc(z, z, target);
      ZeroUnit(z);
      ZeroUnit(target);
    }

    /** Feeding symbols adds what they leave in the zero state to what zeros leave. */
    lemma FeedSuperposes(state: W, symbols: seq<W>)
      requires Linear()
      ensures Feed(state, symbols) == xor(Feed(state, Zeros(|symbols|)), Feed(zero, symbols))
    {
      var zeros := Zeros(|symbols|);
      forall i | 0 <= i < |symbols|
        ensures XorAll(zeros, symbols)[i] == symbols[i]
      {
        ZeroUnit(symbols[i]);
      }
      assert XorAll(zeros, symbols) == symbols;
      ZeroUnit(state);
      FeedLinear(state, zero, zeros, symbols);
    }

    /** A difference confined to six consecutive symbols leaves a nonzero remainder. */
    lemma BurstLeavesTrace(layout: Layout<W>, diff: seq<W>, k: nat)
      requires Fits(layout) && k + 6 <= |diff|
      requires AllZero(diff[..k]) && AllZero(diff[k + 6..]) && !AllZero(diff[k..k + 6])
      requires forall i :: k <= i < k + 6 ==> layout.symbol(diff[i])
      ensures Feed(zero, diff) != zero
    {
      var before, window, after := diff[..k], diff[k..k + 6], diff[k + 6..];
      assert diff == before + window + after;
      FeedConcat(zero, before + window, after);
      FeedConcat(zero, before, window);
      FeedZeros(before);
      FeedPacks(layout, window);
      assert Limits(layout, Feed(zero, window));
      ZerosKeepNonzero(layout, Feed(zero, window), after);
    }
  }

  /** How a word splits into symbols, and which words are small. */
  datatype Layout<!W(!new)> = Layout(
    shr: W -> W,
    low: W -> W,
    small: W -> bool,
    symbol: W -> bool,
    within: (W, nat) -> bool)
}
