/** The Bech32 checksum (BIP-173, section "Bech32 / Checksum"). */
module Bech32 {
  import opened Bech32Bits
  import opened Common
  import opened LinearRegister

  function Polynomial(): Register<bv32> {
    Register(0, Xor, Left, Top, Bit, Generator)
  }

  /** The register is linear over exclusive or. */
  lemma PolynomialIsLinear()
    ensures Polynomial().Linear()
  {
    var r := Polynomial();
    forall a, b, c
      ensures r.Assoc(a, b, c)
    {
      XorAssoc(a, b, c);
    }
    forall a, b
      ensures r.Comm(a, b)
    {
      XorComm(a, b);
    }
    forall a
      ensures r.Unit(a)
    {
      XorUnit(a);
    }
    forall c, d
      ensures r.LeftLinear(c, d)
    {
      LeftIsLinear(c, d);
      TopIsLinear(c, d);
    }
    forall s, t, i
      ensures r.BitLinear(s, t, i)
    {
      BitIsLinear(s, t, i);
    }
  }

  lemma ZeroStepIsStep(chk: bv32)
    ensures Polynomial().Step(chk, 0) == ZeroStep(chk)
  {
    var r, t := Polynomial(), chk >> 25;
    assert r.Feedback(t, 1) == Xor(0, r.Tap(t, 0));
    assert r.Feedback(t, 2) == Xor(r.Feedback(t, 1), r.Tap(t, 1));
    assert r.Feedback(t, 3) == Xor(r.Feedback(t, 2), r.Tap(t, 2));
    assert r.Feedback(t, 4) == Xor(r.Feedback(t, 3), r.Tap(t, 3));
  }

  function SixSymbolWord(): Layout<bv32> {
    Layout(Shr5, Low5, Small, IsSymbol, Within)
  }

  /** The bit-level facts, gathered: the polymod register works on words of six symbols. */
  lemma PolynomialFits()
    ensures Polynomial().Fits(SixSymbolWord())
  {
    var r, layout := Polynomial(), SixSymbolWord();
    PolynomialIsLinear();
    forall y
      ensures r.Extends(layout, y)
    {
      if Small(y) {
        LowSymbol(y);
        SmallShr(y);
      }
    }
    forall x, d, j
      ensures r.Packs(layout, x, d, j)
    {
      if j < 6 && Within(x, j) && IsSymbol(d) { PackSymbol(x, d, j); }
    }
    forall x
      ensures r.KeepsNonzero(layout, x)
    {
      if Small(x) && x != 0 {
        ZeroStepIsStep(x);
        ZeroStepKernel(x);
      }
    }
    forall a, b
      ensures r.KeepsSmall(layout, a, b)
    {
      if Small(a) && Small(b) { SmallXor(a, b); }
    }
    forall x, i
      ensures r.SmallParts(layout, x, i)
    {
      SmallLeft(x);
      SmallGenerator(i);
    }
    forall q
      ensures r.SixSymbols(layout, q)
    {
      ShiftedOutInSix(q);
    }
    forall x
      ensures r.Limits(layout, x)
    {
    }
  }

  lemma ShiftedOutInSix(q: bv32)
    ensures Polynomial().SixSymbols(SixSymbolWord(), q)
  {
    if Small(q) {
      var r, l := Polynomial(), SixSymbolWord();
      ShiftedOut(q);
      assert r.ShrTimes(l, q, 6) == r.ShrTimes(l, Shr5(q), 5);
      assert r.ShrTimes(l, Shr5(q), 5) == r.ShrTimes(l, Shr5(Shr5(q)), 4);
    }
  }

  // ---------------------------------------------------------------- polymod

  function Words(values: seq<Byte>): (words: seq<bv32>)
    ensures |words| == |values|
    ensures forall i :: 0 <= i < |values| ==> words[i] == Word(values[i])
  {
    seq(|values|, i requires 0 <= i < |values| => Word(values[i]))
  }

  /** The Bech32 remainder of a byte sequence. */
  function Remainder(values: seq<Byte>): bv32 {
    Polynomial().Feed(1, Words(values))
  }

  lemma RemainderSnoc(values: seq<Byte>, n: nat)
    requires n < |values|
    ensures Remainder(values[..n + 1]) == Polynomial().Step(Remainder(values[..n]), Word(values[n]))
  {
    assert Words(values[..n + 1]) == Words(values[..n]) + [Word(values[n])];
    Polynomial().FeedSnoc(1, Words(values[..n]), Word(values[n]));
  }

  /** The loop over the values, with the inner loop over the generators. */
  method Polymod(values: seq<Byte>) returns (chk: bv32)
    ensures chk == Remainder(values)
  {
    chk := 1;
    for n := 0 to |values|
      invariant chk == Remainder(values[..n])
    {
      RemainderSnoc(values, n);
      var top := Top(chk);
      chk := Xor(Left(chk), Word(values[n]));
      chk := AddGenerators(chk, top);
    }
    assert values[..|values|] == values;
  }

  method AddGenerators(shifted: bv32, top: bv32) returns (chk: bv32)
    ensures chk == Xor(shifted, Polynomial().Feedback(top, 5))
  {
    ghost var r := Polynomial();
    chk := shifted;
    XorUnit(shifted);
    for i := 0 to 5
      invariant chk == Xor(shifted, r.Feedback(top, i))
    {
      XorAssoc(shifted, r.Feedback(top, i), r.Tap(top, i));
      XorUnit(chk);
      if Bit(top, i) {
        chk := Xor(chk, Generator(i));
      }
    }
  }

  /**
   The expansion of a prefix: as many symbols as characters, a zero, and as many
   again, where symbol `i` of the first part and of the last are the high bits
   and the low five bits of character `i`.
   */
  predicate Expands(hrp: seq<Byte>, e: seq<Byte>) {
    var n := |hrp|;
    && |e| == 2 * n + 1 && e[n] == 0
    && forall i :: 0 <= i < n ==> SplitsInto(hrp[i], e[i], e[n + 1 + i])
  }

  predicate SplitsInto(character: int, high: int, low: int) {
    high * 32 + low == character && 0 <= low < 32
  }

  /** High bits of each character, a zero, then low bits of each character. */
  function HrpExpand(hrp: seq<Byte>): (expanded: seq<Byte>)
    ensures Expands(hrp, expanded)
  {
    seq(|hrp|, i requires 0 <= i < |hrp| => hrp[i] / 32) + [0]
      + seq(|hrp|, i requires 0 <= i < |hrp| => hrp[i] % 32)
  }

  /** A prefix has one expansion. */
  lemma ExpansionUnique(hrp: seq<Byte>, e: seq<Byte>)
    ensures Expands(hrp, e) <==> e == HrpExpand(hrp)
  {
    if Expands(hrp, e) {
      var f, n := HrpExpand(hrp), |hrp|;
      forall k | 0 <= k < |e|
        ensures e[k] == f[k]
      {
        if k != n {
          var i := if k < n then k else k - n - 1;
          assert SplitsInto(hrp[i], e[i], e[n + 1 + i]) && SplitsInto(hrp[i], f[i], f[n + 1 + i]);
        }
      }
    }
  }

  /** The two loops over the prefix. */
  method ExpandHrp(hrp: seq<Byte>) returns (expanded: seq<Byte>)
    ensures expanded == HrpExpand(hrp)
  {
    expanded := [];
    for i := 0 to |hrp|
      invariant expanded == HrpExpand(hrp)[..i]
    {
      expanded := expanded + [hrp[i] / 32];
    }
    expanded := expanded + [0];
    for i := 0 to |hrp|
      invariant expanded == HrpExpand(hrp)[..|hrp| + 1 + i]
    {
      expanded := expanded + [hrp[i] % 32];
    }
  }

  /** The remainder with six zero symbols in place of the checksum, offset by the target 1. */
  function ChecksumWord(hrp: seq<Byte>, data: seq<Byte>): bv32 {
    Xor(Remainder(HrpExpand(hrp) + data + Repeat<Byte>(0, 6)), 1)
  }

  /** The six checksum symbols. */
  function Checksum(hrp: seq<Byte>, data: seq<Byte>): seq<Byte> {
    SixSymbols(ChecksumWord(hrp, data))
  }

  function SixSymbols(q: bv32): (symbols: seq<Byte>)
    ensures |symbols| == 6 && forall i :: 0 <= i < 6 ==> symbols[i] < 32 && symbols[i] == SymbolByte(q, i)
  {
    seq(6, i requires 0 <= i < 6 => SymbolByte(q, i))
  }

  function SymbolByte(q: bv32, i: nat): (b: Byte)
    ensures b < 32 && Word(b) == Symbol(q, i)
  {
    WordOfSymbol(Symbol(q, i));
    Symbol(q, i) as int
  }

  method Split(q: bv32) returns (checksum: seq<Byte>)
    ensures checksum == SixSymbols(q)
  {
    checksum := [];
    for i := 0 to 6
      invariant |checksum| == i && forall j :: 0 <= j < i ==> checksum[j] == SymbolByte(q, j)
    {
      checksum := checksum + [SymbolByte(q, i)];
    }
  }

  lemma SymbolsOfWord(q: bv32)
    ensures Polynomial().Symbols(SixSymbolWord(), q, 6)
         == [Symbol(q, 0), Symbol(q, 1), Symbol(q, 2), Symbol(q, 3), Symbol(q, 4), Symbol(q, 5)]
  {
    var r, l := Polynomial(), SixSymbolWord();
    Symbol0(q);
    Symbol1(q);
    Symbol2(q);
    Symbol3(q);
    Symbol4(q);
    var q1 := Shr5(q);
    var q2 := Shr5(q1);
    var q3 := Shr5(q2);
    var q4 := Shr5(q3);
    var q5 := Shr5(q4);
    assert r.Symbols(l, q5, 1) == [Low5(q5)];
    assert r.Symbols(l, q4, 2) == [Low5(q5), Low5(q4)];
    assert r.Symbols(l, q3, 3) == [Low5(q5), Low5(q4), Low5(q3)];
    assert r.Symbols(l, q2, 4) == [Low5(q5), Low5(q4), Low5(q3), Low5(q2)];
    assert r.Symbols(l, q1, 5) == [Low5(q5), Low5(q4), Low5(q3), Low5(q2), Low5(q1)];
  }

  // ------------------------------------------------------- the two theorems

  /** Every checksum verifies: the remainder of the whole sequence is 1. */
  lemma ChecksumVerifies(hrp: seq<Byte>, data: seq<Byte>)
    ensures Remainder(HrpExpand(hrp) + data + Checksum(hrp, data)) == 1
  {
    var r, layout := Polynomial(), SixSymbolWord();
    var values := HrpExpand(hrp) + data;
    PolynomialFits();
    WordsOfPadding(values, 6);
    WordsOfChecksum(values, ChecksumWord(hrp, data));
    WordsAreSmall(values);
    r.ChecksumReaches(layout, 1, Words(values), 1);
  }

  lemma WordsOfPadding(values: seq<Byte>, n: nat)
    ensures Words(values + Repeat<Byte>(0, n)) == Words(values) + Polynomial().Zeros(n)
  {
    ZeroWord();
  }

  lemma WordsConcat(a: seq<Byte>, b: seq<Byte>)
    ensures Words(a + b) == Words(a) + Words(b)
  {
  }

  lemma WordsOfSixSymbols(q: bv32)
    ensures Words(SixSymbols(q)) == Polynomial().Symbols(SixSymbolWord(), q, 6)
  {
    SymbolsOfWord(q);
  }

  lemma WordsOfChecksum(values: seq<Byte>, q: bv32)
    ensures Words(values + SixSymbols(q)) == Words(values) + Polynomial().Symbols(SixSymbolWord(), q, 6)
  {
    WordsConcat(values, SixSymbols(q));
    WordsOfSixSymbols(q);
  }

  lemma WordsAreSmall(values: seq<Byte>)
    ensures forall i :: 0 <= i < |values| ==> Small(Words(values)[i])
  {
    forall i | 0 <= i < |values|
      ensures Small(Words(values)[i])
    {
      WordIsSmall(values[i]);
    }
  }

  lemma ZeroWord()
    ensures Word(0) == 0
  {
  }

  /** The difference of two messages that agree outside a window is a burst of symbols. */
  lemma DifferenceIsBurst(sent: seq<Byte>, received: seq<Byte>, k: nat)
    requires |sent| == |received| && k + 6 <= |sent|
    requires forall i :: 0 <= i < |sent| && (i < k || k + 6 <= i) ==> sent[i] == received[i]
    requires forall i :: k <= i < k + 6 ==> sent[i] < 32 && received[i] < 32
    ensures var diff := Polynomial().XorAll(Words(sent), Words(received));
            forall i :: 0 <= i < |diff| ==>
              (diff[i] == 0 <==> sent[i] == received[i]) && (k <= i < k + 6 ==> IsSymbol(diff[i]))
  {
    var diff := Polynomial().XorAll(Words(sent), Words(received));
    forall i | 0 <= i < |diff|
      ensures diff[i] == 0 <==> sent[i] == received[i]
      ensures k <= i < k + 6 ==> IsSymbol(diff[i])
    {
      DifferenceOfBytes(sent[i], received[i]);
    }
  }

  lemma BurstMoves(diff: seq<bv32>, k: nat, i: nat)
    requires k + 6 <= |diff| && i < |diff| && diff[i] != 0
    requires forall j :: 0 <= j < |diff| ==> if k <= j < k + 6 then IsSymbol(diff[j]) else diff[j] == 0
    ensures Polynomial().Feed(0, diff) != 0
  {
    assert diff[k..k + 6][i - k] != 0;
    PolynomialFits();
    Polynomial().BurstLeavesTrace(SixSymbolWord(), diff, k);
  }

  /**
   Changing symbols inside one window of six consecutive positions always
   changes the remainder, at any length.
   */
  lemma BurstDetected(sent: seq<Byte>, received: seq<Byte>, k: nat)
    requires |sent| == |received| && k + 6 <= |sent|
    requires forall i :: 0 <= i < |sent| && (i < k || k + 6 <= i) ==> sent[i] == received[i]
    requires forall i :: k <= i < k + 6 ==> sent[i] < 32 && received[i] < 32
    ensures Remainder(sent) == Remainder(received) <==> sent == received
  {
    if sent != received {
      DifferenceIsBurst(sent, received, k);
      var i :| 0 <= i < |sent| && sent[i] != received[i];
      BurstMoves(Polynomial().XorAll(Words(sent), Words(received)), k, i);
      PolynomialFits();
      Polynomial().DifferenceOfRemainders(1, Words(sent), Words(received));
      XorUnit(Remainder(sent));
    }
  }

  lemma DifferenceOfBytes(a: Byte, b: Byte)
    ensures Xor(Word(a), Word(b)) == 0 <==> a == b
    ensures a < 32 && b < 32 ==> IsSymbol(Xor(Word(a), Word(b)))
  {
    XorUnit(Word(a));
    if Xor(Word(a), Word(b)) == 0 {
      XorCancels(Word(a), Word(b));
      WordInjective(a, b);
    }
    if a < 32 && b < 32 {
      SymbolWord(a);
      SymbolWord(b);
      SymbolXor(Word(a), Word(b));
    }
  }

  predicate AllSymbols(values: seq<Byte>) {
    forall i :: 0 <= i < |values| ==> values[i] < 32
  }

  /** The checksum is the only suffix of six symbols that verifies. */
  lemma ChecksumUnique(hrp: seq<Byte>, data: seq<Byte>, suffix: seq<Byte>)
    requires |suffix| == 6 && AllSymbols(suffix)
    ensures Remainder(HrpExpand(hrp) + data + suffix) == 1 <==> suffix == Checksum(hrp, data)
  {
    ChecksumVerifies(hrp, data);
    var prefix := HrpExpand(hrp) + data;
    var sent, received := prefix + Checksum(hrp, data), prefix + suffix;
    BurstDetected(sent, received, |prefix|);
    assert sent[|prefix|..] == Checksum(hrp, data) && received[|prefix|..] == suffix;
  }

  /**
   Any corruption of data plus checksum confined to at most six consecutive
   symbols is rejected, whatever the length.
   */
  lemma CorruptionRejected(hrp: seq<Byte>, data: seq<Byte>, received: seq<Byte>, k: nat)
    requires AllSymbols(data) && AllSymbols(received)
    requires |received| == |data| + 6 && k + 6 <= |received|
    requires var sent := data + Checksum(hrp, data);
             && received != sent
             && forall i :: 0 <= i < |sent| && (i < k || k + 6 <= i) ==> sent[i] == received[i]
    ensures Remainder(HrpExpand(hrp) + received) != 1
  {
    var h, sent := HrpExpand(hrp), data + Checksum(hrp, data);
    ChecksumVerifies(hrp, data);
    assert h + data + Checksum(hrp, data) == h + sent;
    assert (h + sent)[|h|..] == sent && (h + received)[|h|..] == received;
    BurstDetected(h + sent, h + received, |h| + k);
  }

  /**
   The checksum: the six symbols, and the only six, that bring the register to 1
   after the expanded prefix and the data.
   */
  method CreateChecksum(hrp: seq<Byte>, data: seq<Byte>) returns (checksum: seq<Byte>)
    ensures checksum == Checksum(hrp, data)
    ensures |checksum| == 6 && AllSymbols(checksum)
    ensures forall e, six :: Expands(hrp, e) && |six| == 6 && AllSymbols(six) ==>
              (Remainder(e + data + six) == 1 <==> six == checksum)
  {
    var values := ExpandHrp(hrp);
    values := values + data;
    values := values + Repeat<Byte>(0, 6);
    var polymod := Polymod(values);
    checksum := Split(Xor(polymod, 1));
    forall e, six | Expands(hrp, e) && |six| == 6 && AllSymbols(six)
      ensures Remainder(e + data + six) == 1 <==> six == checksum
    {
      ExpansionUnique(hrp, e);
      ChecksumUnique(hrp, data, six);
    }
  }
}
