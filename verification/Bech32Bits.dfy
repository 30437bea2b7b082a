/** The bit operations of the Bech32 polymod, and the facts about them that need looking at bits. */
module Bech32Bits {

  function Xor(a: bv32, b: bv32): bv32 {
    a ^ b
  }

  /** Drop the top symbol of the register and make room for a new one. */
  function Left(chk: bv32): bv32 {
    (chk & 0x1ffffff) << 5
  }

  /** The five bits shifted out. */
  function Top(chk: bv32): bv32 {
    chk >> 25
  }

  predicate Bit(top: bv32, i: nat) {
    if i == 0 then top & 1 == 1
    else if i == 1 then (top >> 1) & 1 == 1
    else if i == 2 then (top >> 2) & 1 == 1
    else if i == 3 then (top >> 3) & 1 == 1
    else (top >> 4) & 1 == 1
  }

  function Generator(i: nat): bv32 {
    if i == 0 then 0x3b6a57b2
    else if i == 1 then 0x26508e6d
    else if i == 2 then 0x1ea119fa
    else if i == 3 then 0x3d4233dd
    else 0x2a1462b3
  }

  lemma XorAssoc(a: bv32, b: bv32, c: bv32)
    ensures Xor(Xor(a, b), c) == Xor(a, Xor(b, c))
  {
  }

  lemma XorComm(a: bv32, b: bv32)
    ensures Xor(a, b) == Xor(b, a)
  {
  }

  lemma XorUnit(a: bv32)
    ensures Xor(a, 0) == a && Xor(a, a) == 0
  {
  }

  lemma XorCancels(a: bv32, b: bv32)
    requires Xor(a, b) == 0
    ensures a == b
  {
  }

  lemma LeftIsLinear(c: bv32, d: bv32)
    ensures Left(Xor(c, d)) == Xor(Left(c), Left(d))
  {
  }

  lemma TopIsLinear(c: bv32, d: bv32)
    ensures Top(Xor(c, d)) == Xor(Top(c), Top(d))
  {
  }

  lemma Bit0IsLinear(s: bv32, t: bv32)
    ensures (s ^ t) & 1 == 1 <==> (s & 1 == 1) != (t & 1 == 1)
  {
  }

  lemma Bit1IsLinear(s: bv32, t: bv32)
    ensures ((s ^ t) >> 1) & 1 == 1 <==> ((s >> 1) & 1 == 1) != ((t >> 1) & 1 == 1)
  {
  }

  lemma Bit2IsLinear(s: bv32, t: bv32)
    ensures ((s ^ t) >> 2) & 1 == 1 <==> ((s >> 2) & 1 == 1) != ((t >> 2) & 1 == 1)
  {
  }

  lemma Bit3IsLinear(s: bv32, t: bv32)
    ensures ((s ^ t) >> 3) & 1 == 1 <==> ((s >> 3) & 1 == 1) != ((t >> 3) & 1 == 1)
  {
  }

  lemma Bit4IsLinear(s: bv32, t: bv32)
    ensures ((s ^ t) >> 4) & 1 == 1 <==> ((s >> 4) & 1 == 1) != ((t >> 4) & 1 == 1)
  {
  }

  lemma BitIsLinear(s: bv32, t: bv32, i: nat)
    ensures Bit(Xor(s, t), i) <==> Bit(s, i) != Bit(t, i)
  {
    if i == 0 { Bit0IsLinear(s, t); }
    else if i == 1 { Bit1IsLinear(s, t); }
    else if i == 2 { Bit2IsLinear(s, t); }
    else if i == 3 { Bit3IsLinear(s, t); }
    else { Bit4IsLinear(s, t); }
  }

  /** What the generators add for the symbol shifted out, written out. */
  function Feedback(t: bv32): bv32 {
    (if t & 1 == 1 then 0x3b6a57b2 else 0)
    ^ (if (t >> 1) & 1 == 1 then 0x26508e6d else 0)
    ^ (if (t >> 2) & 1 == 1 then 0x1ea119fa else 0)
    ^ (if (t >> 3) & 1 == 1 then 0x3d4233dd else 0)
    ^ (if (t >> 4) & 1 == 1 then 0x2a1462b3 else 0)
  }

  /** The zero-input step written out. */
  function ZeroStep(chk: bv32): bv32 {
    Xor(Left(chk), Feedback(Top(chk)))
  }

  /** On 30-bit states the zero-input step has a trivial kernel. */
  lemma ZeroStepKernel(chk: bv32)
    requires chk < 0x40000000 && chk != 0
    ensures ZeroStep(chk) != 0 && ZeroStep(chk) < 0x40000000
  {
  }

  /** A state of the 30-bit register. */
  predicate Small(x: bv32) {
    x < 0x40000000
  }

  lemma SmallXor(a: bv32, b: bv32)
    requires Small(a) && Small(b)
    ensures Small(Xor(a, b))
  {
  }

  lemma SmallLeft(x: bv32)
    ensures Small(Left(x))
  {
  }

  lemma SmallGenerator(i: nat)
    ensures Small(0) && Small(Generator(i))
  {
  }

  // ------------------------------------------------ six symbols in one word

  function Shr5(y: bv32): bv32 {
    y >> 5
  }

  function Low5(y: bv32): bv32 {
    y & 31
  }

  predicate IsSymbol(d: bv32) {
    d < 32
  }

  /** Symbol `i` of six, most significant first: `(q >> 5 * (5 - i)) & 31`. */
  function Symbol(q: bv32, i: nat): (s: bv32)
    ensures s < 32
  {
    if i == 0 then (q >> 25) & 31
    else if i == 1 then (q >> 20) & 31
    else if i == 2 then (q >> 15) & 31
    else if i == 3 then (q >> 10) & 31
    else if i == 4 then (q >> 5) & 31
    else q & 31
  }

  lemma LowSymbol(y: bv32)
    requires Small(y)
    ensures Top(Shr5(y)) == 0 && Xor(Left(Shr5(y)), Low5(y)) == y
  {
  }

  lemma SmallShr(y: bv32)
    requires Small(y)
    ensures Small(Shr5(y)) && IsSymbol(Low5(y))
  {
  }

  lemma ShiftedOut(q: bv32)
    requires Small(q)
    ensures Shr5(Shr5(Shr5(Shr5(Shr5(Shr5(q)))))) == 0
  {
  }

  lemma Symbol0(q: bv32)
    ensures Low5(Shr5(Shr5(Shr5(Shr5(Shr5(q)))))) == (q >> 25) & 31
  {
  }

  lemma Symbol1(q: bv32)
    ensures Low5(Shr5(Shr5(Shr5(Shr5(q))))) == (q >> 20) & 31
  {
  }

  lemma Symbol2(q: bv32)
    ensures Low5(Shr5(Shr5(Shr5(q)))) == (q >> 15) & 31
  {
  }

  lemma Symbol3(q: bv32)
    ensures Low5(Shr5(Shr5(q))) == (q >> 10) & 31
  {
  }

  lemma Symbol4(q: bv32)
    ensures Low5(Shr5(q)) == (q >> 5) & 31
  {
  }

  /** An upper bound on the state after `j` symbols fed into zero. */
  predicate Within(x: bv32, j: nat) {
    if j == 0 then x < 1
    else if j == 1 then x < 0x20
    else if j == 2 then x < 0x400
    else if j == 3 then x < 0x8000
    else if j == 4 then x < 0x100000
    else if j == 5 then x < 0x2000000
    else x < 0x40000000
  }

  /** Packing a symbol loses nothing: the state is zero only if every symbol was. */
  lemma PackSymbol(x: bv32, d: bv32, j: nat)
    requires j < 6 && Within(x, j) && IsSymbol(d)
    ensures Top(x) == 0 && Within(Xor(Left(x), d), j + 1)
    ensures Xor(Left(x), d) == 0 <==> x == 0 && d == 0
  {
  }

  lemma SymbolXor(a: bv32, b: bv32)
    requires IsSymbol(a) && IsSymbol(b)
    ensures IsSymbol(Xor(a, b))
  {
  }

  // ------------------------------------------------------- bytes as words

  /** A byte widened to 32 bits. */
  function Word(b: int): bv32
    requires 0 <= b < 256
  {
    (b as bv8) as bv32
  }

  lemma WidenInjective(v: bv8, w: bv8)
    requires v as bv32 == w as bv32
    ensures v == w
  {
  }

  lemma NarrowRoundTrip(b: int)
    requires 0 <= b < 256
    ensures (b as bv8) as int == b
  {
    if b < 32 {} else if b < 64 {} else if b < 96 {} else if b < 128 {}
    else if b < 160 {} else if b < 192 {} else if b < 224 {} else {}
  }

  lemma NarrowInjective(a: int, b: int)
    requires 0 <= a < 256 && 0 <= b < 256 && a as bv8 == b as bv8
    ensures a == b
  {
    NarrowRoundTrip(a);
    NarrowRoundTrip(b);
  }

  lemma WordInjective(a: int, b: int)
    requires 0 <= a < 256 && 0 <= b < 256 && Word(a) == Word(b)
    ensures a == b
  {
    WidenInjective(a as bv8, b as bv8);
    NarrowInjective(a, b);
  }

  lemma WordIsSmall(b: int)
    requires 0 <= b < 256
    ensures Small(Word(b))
  {
  }

  lemma SymbolWord(b: int)
    requires 0 <= b < 32
    ensures IsSymbol(Word(b))
  {
  }

  lemma WordOfSymbol(x: bv32)
    requires IsSymbol(x)
    ensures 0 <= x as int < 32 && Word(x as int) == x
  {
  }

  // ------------------------------------------------------------ the field GF(32)

  /** Twice a symbol, where 32 is 9: multiplication by a root of x^5 + x^3 + 1. */
  function Twice(a: bv32): bv32 {
    if a & 16 == 16 then ((a << 1) & 31) ^ 9 else (a << 1) & 31
  }

  /** The product of two symbols. */
  function Times(a: bv32, t: bv32): bv32 {
    ((if t & 1 == 1 then a else 0)
     ^ (if (t >> 1) & 1 == 1 then Twice(a) else 0))
    ^ ((if (t >> 2) & 1 == 1 then Twice(Twice(a)) else 0)
       ^ (if (t >> 3) & 1 == 1 then Twice(Twice(Twice(a))) else 0)
       ^ (if (t >> 4) & 1 == 1 then Twice(Twice(Twice(Twice(a)))) else 0))
  }

  /**
   The coefficients of x^5 down to 1 in the generator polynomial
   x^6 + 29 x^5 + 22 x^4 + 20 x^3 + 21 x^2 + 29 x + 18.
   */
  function Coefficient(j: nat): bv32 {
    if j == 0 then 29 else if j == 1 then 22 else if j == 2 then 20
    else if j == 3 then 21 else if j == 4 then 29 else 18
  }

  /** A state after a step without input, with the symbol fed in. */
  function SymbolStep(chk: bv32, value: bv32): bv32 {
    Xor(ZeroStep(chk), value)
  }

  lemma FeedbackSymbol0(t: bv32)
    requires IsSymbol(t)
    ensures Symbol(Feedback(t), 0) == Times(29, t)
  {
    assert Twice(29) == 19 && Twice(19) == 15 && Twice(15) == 30 && Twice(30) == 21;
  }

  lemma StepSymbol0(chk: bv32, v: bv32, feedback: bv32)
    requires Small(chk) && IsSymbol(v)
    ensures Symbol(Xor(Xor(Left(chk), feedback), v), 0) == Xor(Symbol(chk, 1), Symbol(feedback, 0))
  {
  }

  lemma FeedbackSymbol1(t: bv32)
    requires IsSymbol(t)
    ensures Symbol(Feedback(t), 1) == Times(22, t)
  {
    assert Twice(22) == 5 && Twice(5) == 10 && Twice(10) == 20 && Twice(20) == 1;
  }

  lemma StepSymbol1(chk: bv32, v: bv32, feedback: bv32)
    requires Small(chk) && IsSymbol(v)
    ensures Symbol(Xor(Xor(Left(chk), feedback), v), 1) == Xor(Symbol(chk, 2), Symbol(feedback, 1))
  {
  }

  lemma FeedbackSymbol2(t: bv32)
    requires IsSymbol(t)
    ensures Symbol(Feedback(t), 2) == Times(20, t)
  {
    assert Twice(20) == 1 && Twice(1) == 2 && Twice(2) == 4 && Twice(4) == 8;
  }

  lemma StepSymbol2(chk: bv32, v: bv32, feedback: bv32)
    requires Small(chk) && IsSymbol(v)
    ensures Symbol(Xor(Xor(Left(chk), feedback), v), 2) == Xor(Symbol(chk, 3), Symbol(feedback, 2))
  {
  }

  lemma FeedbackSymbol3(t: bv32)
    requires IsSymbol(t)
    ensures Symbol(Feedback(t), 3) == Times(21, t)
  {
    assert Twice(21) == 3 && Twice(3) == 6 && Twice(6) == 12 && Twice(12) == 24;
  }

  lemma StepSymbol3(chk: bv32, v: bv32, feedback: bv32)
    requires Small(chk) && IsSymbol(v)
    ensures Symbol(Xor(Xor(Left(chk), feedback), v), 3) == Xor(Symbol(chk, 4), Symbol(feedback, 3))
  {
  }

  lemma FeedbackSymbol4(t: bv32)
    requires IsSymbol(t)
    ensures Symbol(Feedback(t), 4) == Times(29, t)
  {
    assert Twice(29) == 19 && Twice(19) == 15 && Twice(15) == 30 && Twice(30) == 21;
  }

  lemma StepSymbol4(chk: bv32, v: bv32, feedback: bv32)
    requires Small(chk) && IsSymbol(v)
    ensures Symbol(Xor(Xor(Left(chk), feedback), v), 4) == Xor(Symbol(chk, 5), Symbol(feedback, 4))
  {
  }

  lemma FeedbackSymbol5(t: bv32)
    requires IsSymbol(t)
    ensures Symbol(Feedback(t), 5) == Times(18, t)
  {
    assert Twice(18) == 13 && Twice(13) == 26 && Twice(26) == 29 && Twice(29) == 19;
  }

  lemma StepSymbol5(chk: bv32, v: bv32, feedback: bv32)
    requires Small(chk) && IsSymbol(v)
    ensures Symbol(Xor(Xor(Left(chk), feedback), v), 5) == Xor(v, Symbol(feedback, 5))
  {
  }

  lemma SmallSymbolStep(chk: bv32, v: bv32)
    requires Small(chk) && IsSymbol(v)
    ensures Small(SymbolStep(chk, v))
  {
  }

  lemma TopSymbol(chk: bv32)
    requires Small(chk)
    ensures IsSymbol(Top(chk)) && Symbol(chk, 0) == Top(chk)
  {
  }

  lemma InitialSymbols()
    ensures Small(1) && Symbol(1, 0) == 0 && Symbol(1, 1) == 0 && Symbol(1, 2) == 0
    ensures Symbol(1, 3) == 0 && Symbol(1, 4) == 0 && Symbol(1, 5) == 1
  {
  }
}
