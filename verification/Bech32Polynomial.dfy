/**
 What the polymod is for (BIP-173, section "Bech32 / Checksum"): the remainder
 of a polynomial over GF(32) modulo the generator polynomial, with the symbols
 as coefficients and a leading 1.
 */
module Bech32Polynomial {
  import opened Bech32
  import opened Bech32Bits
  import opened Common
  import opened LinearRegister

  /**
   Polynomial division next to a register that packs six coefficients in a
   word; `coefficient(j)` is that of x^(5-j) in the monic generator of degree 6.
   */
  datatype Division<!W(!new)> = Division(
    register: Register<W>,
    symbol: (W, nat) -> W,
    times: (W, W) -> W,
    coefficient: nat -> W,
    fits: W -> bool,
    isSymbol: W -> bool)
  {
    /** `r * x + v` modulo the generator: x^6 is the sum of the lower terms. */
    function MultiplyAdd(r: seq<W>, v: W): (next: seq<W>)
      requires |r| == 6
      ensures |next| == 6
    {
      seq(6, j requires 0 <= j < 6 => register.xor(if j < 5 then r[j + 1] else v, times(coefficient(j), r[0])))
    }

    /** The remainder after bringing down each of `values`, from the remainder `r`. */
    function Divide(r: seq<W>, values: seq<W>): (remainder: seq<W>)
      requires |r| == 6
      ensures |remainder| == 6
    {
      if |values| == 0 then r else MultiplyAdd(Divide(r, values[..|values| - 1]), values[|values| - 1])
    }

    function SymbolsOf(chk: W): (symbols: seq<W>)
      ensures |symbols| == 6 && forall j :: 0 <= j < 6 ==> symbols[j] == symbol(chk, j)
    {
      seq(6, j requires 0 <= j < 6 => symbol(chk, j))
    }

    /** Coefficient `j` after a step of the register. */
    ghost predicate Reduces(chk: W, v: W, j: nat) {
      fits(chk) && isSymbol(v) ==>
        symbol(register.Step(chk, v), j)
          == register.xor(if j < 5 then symbol(chk, j + 1) else v, times(coefficient(j), symbol(chk, 0)))
    }

    ghost predicate Stays(chk: W, v: W) {
      fits(chk) && isSymbol(v) ==> fits(register.Step(chk, v))
    }

    ghost predicate Lawful() {
      (forall chk, v, j: nat :: j < 6 ==> Reduces(chk, v, j)) && (forall chk, v :: Stays(chk, v))
    }

    /** Feeding symbols into the register divides. */
    lemma {:induction false} FeedDivides(chk: W, values: seq<W>)
      requires Lawful() && fits(chk) && forall i :: 0 <= i < |values| ==> isSymbol(values[i])
      ensures fits(register.Feed(chk, values))
      ensures SymbolsOf(register.Feed(chk, values)) == Divide(SymbolsOf(chk), values)
    {
      if |values| == 0 {
      } else {
        var front, v := values[..|values| - 1], values[|values| - 1];
        FeedDivides(chk, front);
        var before := register.Feed(chk, front);
        assert Stays(before, v);
        forall j: nat | j < 6
          ensures SymbolsOf(register.Step(before, v))[j] == MultiplyAdd(SymbolsOf(before), v)[j]
        {
          assert Reduces(before, v, j);
        }
      }
    }
  }

  /** The program's register beside division by x^6 + 29 x^5 + 22 x^4 + 20 x^3 + 21 x^2 + 29 x + 18. */
  function Bech32Division(): Division<bv32> {
    Division(Polynomial(), Symbol, Times, Coefficient, Small, IsSymbol)
  }

  lemma StepIsSymbolStep(chk: bv32, v: bv32)
    ensures Polynomial().Step(chk, v) == SymbolStep(chk, v) == Xor(Xor(Left(chk), Feedback(Top(chk))), v)
  {
    PolynomialIsLinear();
    Polynomial().StepAddsSymbol(chk, v);
    ZeroStepIsStep(chk);
  }

  lemma Reduces0(chk: bv32, v: bv32)
    ensures Bech32Division().Reduces(chk, v, 0)
  {
    if Small(chk) && IsSymbol(v) {
      StepIsSymbolStep(chk, v);
      TopSymbol(chk);
      FeedbackSymbol0(Top(chk));
      StepSymbol0(chk, v, Feedback(Top(chk)));
    }
  }

  lemma Reduces1(chk: bv32, v: bv32)
    ensures Bech32Division().Reduces(chk, v, 1)
  {
    if Small(chk) && IsSymbol(v) {
      StepIsSymbolStep(chk, v);
      TopSymbol(chk);
      FeedbackSymbol1(Top(chk));
      StepSymbol1(chk, v, Feedback(Top(chk)));
    }
  }

  lemma Reduces2(chk: bv32, v: bv32)
    ensures Bech32Division().Reduces(chk, v, 2)
  {
    if Small(chk) && IsSymbol(v) {
      StepIsSymbolStep(chk, v);
      TopSymbol(chk);
      FeedbackSymbol2(Top(chk));
      StepSymbol2(chk, v, Feedback(Top(chk)));
    }
  }

  lemma Reduces3(chk: bv32, v: bv32)
    ensures Bech32Division().Reduces(chk, v, 3)
  {
    if Small(chk) && IsSymbol(v) {
      StepIsSymbolStep(chk, v);
      TopSymbol(chk);
      FeedbackSymbol3(Top(chk));
      StepSymbol3(chk, v, Feedback(Top(chk)));
    }
  }

  lemma Reduces4(chk: bv32, v: bv32)
    ensures Bech32Division().Reduces(chk, v, 4)
  {
    if Small(chk) && IsSymbol(v) {
      StepIsSymbolStep(chk, v);
      TopSymbol(chk);
      FeedbackSymbol4(Top(chk));
      StepSymbol4(chk, v, Feedback(Top(chk)));
    }
  }

  lemma Reduces5(chk: bv32, v: bv32)
    ensures Bech32Division().Reduces(chk, v, 5)
  {
    if Small(chk) && IsSymbol(v) {
      StepIsSymbolStep(chk, v);
      TopSymbol(chk);
      FeedbackSymbol5(Top(chk));
      StepSymbol5(chk, v, Feedback(Top(chk)));
    }
  }

  lemma StepStays(chk: bv32, v: bv32)
    ensures Bech32Division().Stays(chk, v)
  {
    if Small(chk) && IsSymbol(v) {
      StepIsSymbolStep(chk, v);
      SmallSymbolStep(chk, v);
    }
  }

  lemma RegisterDivides()
    ensures Bech32Division().Lawful()
  {
    var d := Bech32Division();
    forall chk, v, j: nat | j < 6
      ensures d.Reduces(chk, v, j)
    {
      if j == 0 { Reduces0(chk, v); }
      else if j == 1 { Reduces1(chk, v); }
      else if j == 2 { Reduces2(chk, v); }
      else if j == 3 { Reduces3(chk, v); }
      else if j == 4 { Reduces4(chk, v); }
      else { Reduces5(chk, v); }
    }
    forall chk, v
      ensures d.Stays(chk, v)
    {
      StepStays(chk, v);
    }
  }

  /** The polymod of a symbol sequence packs the coefficients of its remainder, starting from the polynomial 1. */
  lemma RemainderIsPolynomial(values: seq<Byte>)
    requires AllSymbols(values)
    ensures Bech32Division().SymbolsOf(Remainder(values))
            == Bech32Division().Divide(Bech32Division().SymbolsOf(1), Words(values))
    ensures Symbol(1, 0) == Symbol(1, 1) == Symbol(1, 2) == Symbol(1, 3) == Symbol(1, 4) == 0 && Symbol(1, 5) == 1
  {
    InitialSymbols();
    RegisterDivides();
    forall i | 0 <= i < |values|
      ensures IsSymbol(Words(values)[i])
    {
      SymbolWord(values[i]);
    }
    Bech32Division().FeedDivides(1, Words(values));
  }
}
