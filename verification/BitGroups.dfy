/** `convertBits`: regrouping a bit string from symbols of one width into another. */
module BitGroups {
  import opened Common
  import opened Radix

  datatype ConvertError = ValueOutOfRange | InvalidPadding

  /** The accumulator is a Go `uint`: 64 bits, shifted left without a mask. */
  const WORD: int := 0x1_0000_0000_0000_0000

  type Width = w: int | 1 <= w <= 8 witness 8

  /**
   The regrouped symbols, stated on the unbounded number `data` denotes in base
   2^from: its leading whole symbols, and with padding one more for the bits
   left over, filled up with zeros.
   */
  function Regroup(data: seq<Byte>, from: Width, to: Width, pad: bool): Result<seq<Byte>, ConvertError> {
    if !AllDigits(Power(2, from), data) then Err(ValueOutOfRange) else
      var count, left := Count(|data|, from, to), Left(|data|, from, to);
      var value := Number(data, from);
      var padded := Padded(value, to - left);
      if pad then
        Ok(if left > 0 then Symbols(to, count + 1, padded) else Symbols(to, count, value))
      else if left >= from || padded % Base(to) != 0 then Err(InvalidPadding)
      else Ok(Symbols(to, count, Shifted(value, left)))
  }

  /** Whole target symbols in `n` source symbols. */
  function Count(n: nat, from: Width, to: Width): nat {
    DivNonNegative(n * from, to);
    n * from / to
  }

  /** Bits left over after the whole target symbols. */
  function Left(n: nat, from: Width, to: Width): (left: nat)
    ensures left < to && n * from == Count(n, from, to) * to + left
  {
    DivModIdentity(n * from, to);
    n * from % to
  }

  function Base(w: Width): (b: nat)
    ensures 2 <= b <= 256 && b == Power(2, w)
  {
    WidthPowers(w);
    Power(2, w)
  }

  /** The number the data denotes. */
  function Number(data: seq<Byte>, from: Width): (value: nat)
    requires AllDigits(Power(2, from), data)
    ensures value == Value(Base(from), data)
  {
    ValueBounds(Base(from), data);
    Value(Base(from), data)
  }

  function Padded(value: nat, k: nat): (padded: nat)
    ensures padded == value * Power(2, k)
  {
    PowerPositive(2, k);
    MulMono(0, value, Power(2, k));
    value * Power(2, k)
  }

  function Shifted(value: nat, k: nat): (shifted: nat)
    ensures Power(2, k) > 0 && shifted == value / Power(2, k)
  {
    PowerPositive(2, k);
    DivNonNegative(value, Power(2, k));
    value / Power(2, k)
  }

  /** `n` symbols of a number. */
  function Symbols(to: Width, n: nat, value: nat): (out: seq<Byte>)
    ensures Power(2, to) >= 2 && out == Fixed(Power(2, to), n, value)
  {
    WidthPowers(to);
    Fixed(Power(2, to), n, value)
  }

  lemma WidthPowers(w: Width)
    ensures 2 <= Power(2, w) <= 256
  {
    PowerSum(2, w, 8 - w);
    PowerPositive(2, 8 - w);
    PowerPositive(2, w - 1);
    assert Power(2, 4) == 16;
    assert Power(2, 6) == 64;
    assert Power(2, 8) == 256;
    MulMono(1, Power(2, 8 - w), Power(2, w));
  }

  lemma DivNonNegative(n: int, d: int)
    requires n >= 0 && d > 0
    ensures n / d >= 0
  {
    DivModIdentity(n, d);
    if n / d < 0 { MulMono(n / d, -1, d); }
  }

  // ------------------------------------------------- wrap-around is harmless

  /** Reading symbols below bit 64 of the wrapped accumulator reads the true ones. */
  lemma WrapHarmless(value: int, s: nat, t: nat)
    requires value >= 0 && s + t <= 64
    ensures Power(2, s) > 0 && Power(2, t) > 0
    ensures value % WORD / Power(2, s) % Power(2, t) == value / Power(2, s) % Power(2, t)
  {
    PowerPositive(2, s);
    PowerPositive(2, t);
    PowerPositive(2, 64 - s - t);
    WordIsPower();
    PowerSum(2, s, 64 - s);
    PowerSum(2, t, 64 - s - t);
    HighBitsDropOut(value, Power(2, s), Power(2, t), Power(2, 64 - s - t));
  }

  lemma WordIsPower()
    ensures Power(2, 64) == WORD
  {
    assert Power(2, 4) == 16;
    assert Power(2, 8) == 256;
    PowerSum(2, 8, 8);
    PowerSum(2, 16, 16);
    PowerSum(2, 32, 32);
  }

  lemma HighBitsDropOut(value: int, a: int, b: int, c: int)
    requires a > 0 && b > 0 && c > 0
    ensures a * (b * c) > 0 && value % (a * (b * c)) / a % b == value / a % b
  {
    assert b * c > 0 && a * (b * c) > 0;
    var m := a * (b * c);
    var q, r := value / m, value % m;
    DivModIdentity(value, m);
    DivModIdentity(r, a);
    var u, v := r / a, r % a;
    assert value == (q * (b * c) + u) * a + v by {
      assert q * m == q * (b * c) * a;
    }
    DivModUnique(q * (b * c) + u, v, a);
    DivModIdentity(u, b);
    assert q * (b * c) + u == (q * c + u / b) * b + u % b;
    DivModUnique(q * c + u / b, u % b, b);
  }

  /** Shifting in a symbol commutes with dropping the high bits. */
  lemma ShiftWraps(value: int, base: int, symbol: int)
    ensures (value % WORD * base + symbol) % WORD == (value * base + symbol) % WORD
  {
    DivModIdentity(value, WORD);
    var q, r := value / WORD, value % WORD;
    var n := r * base + symbol;
    DivModIdentity(n, WORD);
    assert value * base + symbol == (q * base) * WORD + n;
    DivModUnique(q * base + n / WORD, n % WORD, WORD);
  }

  // ----------------------------------------------------------------- the loop

  /** Taking one symbol off the top of the bits still held. */
  lemma EmitSymbol(value: nat, to: Width, n: nat, bits: nat)
    requires to <= bits < 16
    ensures Power(2, bits - to) > 0
    ensures Fixed(Base(to), n + 1, Shifted(value, bits - to))
         == Fixed(Base(to), n, Shifted(value, bits))
            + [value % WORD / Power(2, bits - to) % Base(to)]
  {
    var x := Shifted(value, bits - to);
    PowerSum(2, bits - to, to);
    DivDiv(value, Power(2, bits - to), Base(to));
    WrapHarmless(value, bits - to, to);
  }

  /** Shifting a symbol in keeps what was already emitted. */
  lemma TakeSymbol(value: nat, symbol: nat, from: Width, bits: nat)
    requires symbol < Base(from)
    ensures Shifted(Padded(value, from) + symbol, bits + from) == Shifted(value, bits)
  {
    var x := Padded(value, from) + symbol;
    PowerPositive(2, bits);
    PowerSum(2, from, bits);
    DivDiv(x, Base(from), Power(2, bits));
    DivModUnique(value, symbol, Base(from));
    assert Shifted(x, bits + from) == x / Power(2, bits + from);
  }

  /** The inner loop: emit symbols while enough bits are held. */
  method EmitAll(ghost value: nat, accumulator: int, to: Width, emitted: seq<Byte>, held: nat)
    returns (out: seq<Byte>, bits: nat)
    requires accumulator == value % WORD && held < 16
    requires emitted == Fixed(Base(to), |emitted|, Shifted(value, held))
    ensures bits < to && |out| * to + bits == |emitted| * to + held
    ensures out == Fixed(Base(to), |out|, Shifted(value, bits))
  {
    out, bits := emitted, held;
    while bits >= to
      invariant |out| * to + bits == |emitted| * to + held && bits < 16
      invariant out == Fixed(Base(to), |out|, Shifted(value, bits))
    {
      EmitSymbol(value, to, |out|, bits);
      assert (|out| + 1) * to == |out| * to + to;
      bits := bits - to;
      DivModIdentity(accumulator / Power(2, bits), Base(to));
      out := out + [accumulator / Power(2, bits) % Base(to)];
    }
  }

  /** The conversion loop with its wrapping accumulator. */
  method ConvertBits(data: seq<Byte>, from: Width, to: Width, pad: bool)
    returns (r: Result<seq<Byte>, ConvertError>)
    ensures r == Regroup(data, from, to, pad)
  {
    var accumulator, bits := 0, 0;
    var out: seq<Byte> := [];
    ghost var value := 0;
    PowerPositive(2, 0);
    for i := 0 to |data|
      invariant AllDigits(Power(2, from), data[..i]) && value == Number(data[..i], from)
      invariant accumulator == value % WORD && 0 <= bits < to
      invariant |out| * to + bits == i * from
      invariant out == Fixed(Base(to), |out|, Shifted(value, bits))
    {
      var symbol := data[i];
      if symbol >= Base(from) {
        return Err(ValueOutOfRange);
      }
      TakeTurn(data, i, from, bits);
      accumulator := (accumulator * Base(from) + symbol) % WORD;
      value := Padded(value, from) + symbol;
      out, bits := EmitAll(value, accumulator, to, out, bits + from);
    }
    assert data[..|data|] == data;
    r := Finish(data, from, to, pad, accumulator, out, bits);
  }

  /** One symbol into the accumulator, wrapped or not. */
  lemma TakeTurn(data: seq<Byte>, i: nat, from: Width, bits: nat)
    requires i < |data| && AllDigits(Power(2, from), data[..i]) && data[i] < Base(from)
    ensures AllDigits(Power(2, from), data[..i + 1])
    ensures var value := Number(data[..i], from);
            && Number(data[..i + 1], from) == Padded(value, from) + data[i]
            && (value % WORD * Base(from) + data[i]) % WORD == (Padded(value, from) + data[i]) % WORD
            && Shifted(Padded(value, from) + data[i], bits + from) == Shifted(value, bits)
    ensures (i + 1) * from == i * from + from
  {
    NumberSnoc(data, i, from);
    TakeSymbol(Number(data[..i], from), data[i], from, bits);
    ShiftWraps(Number(data[..i], from), Base(from), data[i]);
  }

  /** What happens to the bits left over. */
  method Finish(data: seq<Byte>, from: Width, to: Width, pad: bool, accumulator: int, whole: seq<Byte>, bits: nat)
    returns (r: Result<seq<Byte>, ConvertError>)
    requires AllDigits(Power(2, from), data)
    requires accumulator == Number(data, from) % WORD && bits < to
    requires |whole| * to + bits == |data| * from
    requires whole == Fixed(Base(to), |whole|, Shifted(Number(data, from), bits))
    ensures r == Regroup(data, from, to, pad)
  {
    ghost var value := Number(data, from);
    DivModUnique(|whole|, bits, to);
    assert bits == Left(|data|, from, to) && |whole| == Count(|data|, from, to);
    FinalSymbol(value, to, |whole|, bits);
    var last := accumulator * Power(2, to - bits) % WORD % Base(to);
    if pad {
      if bits > 0 {
        DivModIdentity(accumulator * Power(2, to - bits) % WORD, Base(to));
        return Ok(whole + [last]);
      }
      NothingShifted(value);
      return Ok(whole);
    }
    if bits >= from || last != 0 {
      return Err(InvalidPadding);
    }
    r := Ok(whole);
  }

  lemma NothingShifted(value: nat)
    ensures Shifted(value, 0) == value
  {
  }

  lemma NumberSnoc(data: seq<Byte>, i: nat, from: Width)
    requires i < |data| && AllDigits(Power(2, from), data[..i]) && data[i] < Base(from)
    ensures AllDigits(Power(2, from), data[..i + 1])
    ensures Number(data[..i + 1], from) == Padded(Number(data[..i], from), from) + data[i]
  {
    assert data[..i + 1][..i] == data[..i];
  }

  /** The symbol made of the bits left over, filled up with zeros. */
  lemma FinalSymbol(value: nat, to: Width, n: nat, bits: nat)
    requires bits < to
    ensures value % WORD * Power(2, to - bits) % WORD % Base(to) == Padded(value, to - bits) % Base(to)
    ensures Fixed(Base(to), n + 1, Padded(value, to - bits))
         == Fixed(Base(to), n, Shifted(value, bits)) + [Padded(value, to - bits) % Base(to)]
  {
    var k := to - bits;
    var x := Padded(value, k);
    ShiftWraps(value, Power(2, k), 0);
    WrapHarmless(x, 0, to);
    PowerSum(2, k, bits);
    PowerPositive(2, bits);
    PowerPositive(2, k);
    DivDiv(x, Power(2, k), Power(2, bits));
    DivModUnique(value, 0, Power(2, k));
  }

  // -------------------------------------------------------------- round trips

  lemma {:induction false} PowerPower(w: nat, n: nat)
    ensures Power(Power(2, w), n) == Power(2, n * w)
  {
    if n == 0 {
    } else {
      PowerPower(w, n - 1);
      assert n * w == (n - 1) * w + w;
      PowerSum(2, (n - 1) * w, w);
    }
  }

  /** A number read from `n` symbols fits in `n * w` bits. */
  lemma NumberFits(data: seq<Byte>, w: Width)
    requires AllDigits(Power(2, w), data)
    ensures Number(data, w) < Power(2, |data| * w)
  {
    ValueBounds(Base(w), data);
    PowerPower(w, |data|);
  }

  /** Reading back what was written, when it fits. */
  lemma NumberOfSymbols(w: Width, n: nat, value: nat)
    requires value < Power(2, n * w)
    ensures AllDigits(Power(2, w), Symbols(w, n, value)) && Number(Symbols(w, n, value), w) == value
  {
    PowerPower(w, n);
    ValueOfFixed(Base(w), n, value);
  }

  lemma PaddedFits(value: nat, bits: nat, k: nat)
    requires value < Power(2, bits)
    ensures Padded(value, k) < Power(2, bits + k)
  {
    PowerSum(2, bits, k);
    PowerPositive(2, k);
    MulMono(value + 1, Power(2, bits), Power(2, k));
    assert (value + 1) * Power(2, k) == value * Power(2, k) + Power(2, k);
  }

  lemma ShiftedOfPadded(value: nat, k: nat)
    ensures Shifted(Padded(value, k), k) == value
  {
    PowerPositive(2, k);
    DivModUnique(value, 0, Power(2, k));
  }

  /** Padded twice up to a whole symbol leaves nothing in the low symbol. */
  lemma PaddedTail(value: nat, k: nat, w: Width)
    requires k <= w
    ensures Padded(Padded(value, k), w - k) % Base(w) == 0
  {
    PowerSum(2, k, w - k);
    assert value * Power(2, k) * Power(2, w - k) == value * (Power(2, k) * Power(2, w - k));
    DivModUnique(value, 0, Base(w));
  }

  /** A tail of zero bits means the number was a padded one. */
  lemma ZeroTail(value: nat, k: nat, w: Width)
    requires k <= w && Padded(value, w - k) % Base(w) == 0
    ensures value == Padded(Shifted(value, k), k)
  {
    PowerPositive(2, k);
    PowerPositive(2, w - k);
    PowerSum(2, k, w - k);
    TailDivides(value, Power(2, k), Power(2, w - k));
  }

  lemma TailDivides(value: int, a: int, b: int)
    requires a > 0 && b > 0 && a * b > 0 && value * b % (a * b) == 0
    ensures value == value / a * a
  {
    var q, r := value / a, value % a;
    DivModIdentity(value, a);
    assert value * b == q * (a * b) + r * b by {
      assert (q * a + r) * b == q * (a * b) + r * b;
    }
    MulMono(r + 1, a, b);
    assert (r + 1) * b == r * b + b;
    MulMono(0, r, b);
    DivModUnique(q, r * b, a * b);
    if r > 0 { MulMono(1, r, b); }
  }

  /** How many zero bits padding adds. */
  function Fill(n: nat, from: Width, to: Width): (k: nat)
    ensures k < to
  {
    if Left(n, from, to) == 0 then 0 else to - Left(n, from, to)
  }

  lemma CeilCount(n: nat, from: Width, to: Width)
    ensures var ceil := (n * from + to - 1) / to;
            && ceil >= 0 && ceil * to == n * from + Fill(n, from, to)
            && ceil == if Left(n, from, to) > 0 then Count(n, from, to) + 1 else Count(n, from, to)
  {
    var count, left := Count(n, from, to), Left(n, from, to);
    if left == 0 {
      DivModUnique(count, to - 1, to);
    } else {
      assert (count + 1) * to == count * to + to;
      DivModUnique(count + 1, left - 1, to);
    }
  }

  /** The padded conversion, with both of its cases in one formula. */
  lemma PaddedConversion(data: seq<Byte>, from: Width, to: Width)
    requires AllDigits(Power(2, from), data)
    ensures var k := Fill(|data|, from, to);
            var n := (|data| * from + to - 1) / to;
            && n >= 0 && n * to == |data| * from + k
            && Regroup(data, from, to, true) == Ok(Symbols(to, n, Padded(Number(data, from), k)))
  {
    CeilCount(|data|, from, to);
    NothingPadded(Number(data, from));
  }

  lemma NothingPadded(value: nat)
    ensures Padded(value, 0) == value
  {
  }

  /** The unpadded conversion of a number that was padded by less than a symbol. */
  lemma UnpaddedConversion(symbols: seq<Byte>, from: Width, to: Width, n: nat, k: nat, value: nat)
    requires to <= from && k < to && |symbols| * to == n * from + k
    requires AllDigits(Power(2, to), symbols) && Number(symbols, to) == Padded(value, k)
    ensures Regroup(symbols, to, from, false) == Ok(Symbols(from, n, value))
  {
    DivModUnique(n, k, from);
    ShiftedOfPadded(value, k);
    PaddedTail(value, k, from);
    assert Left(|symbols|, to, from) == k && Count(|symbols|, to, from) == n;
  }

  /**
   Regrouping into narrower symbols with padding and back without gives the
   data back, through ceil(n * from / to) symbols.
   */
  lemma RoundTrip(data: seq<Byte>, from: Width, to: Width)
    requires to <= from && AllDigits(Power(2, from), data)
    ensures Regroup(data, from, to, true).Ok?
    ensures var middle := Regroup(data, from, to, true).value;
            && |middle| == (|data| * from + to - 1) / to
            && AllDigits(Power(2, to), middle)
            && Regroup(middle, to, from, false) == Ok(data)
  {
    PaddedConversion(data, from, to);
    BackFromPadded(data, from, to, (|data| * from + to - 1) / to, Fill(|data|, from, to));
  }

  lemma BackFromPadded(data: seq<Byte>, from: Width, to: Width, n: nat, k: nat)
    requires to <= from && AllDigits(Power(2, from), data)
    requires k < to && n * to == |data| * from + k
    ensures var middle := Symbols(to, n, Padded(Number(data, from), k));
            AllDigits(Power(2, to), middle) && Regroup(middle, to, from, false) == Ok(data)
  {
    var value := Number(data, from);
    NumberFits(data, from);
    PaddedFits(value, |data| * from, k);
    NumberOfSymbols(to, n, Padded(value, k));
    UnpaddedConversion(Symbols(to, n, Padded(value, k)), from, to, |data|, k, value);
    FixedOfValue(Base(from), data);
  }

  /** An accepted unpadded conversion splits the symbols into whole groups and zero bits. */
  lemma WholeGroups(symbols: seq<Byte>, from: Width, to: Width)
    requires to <= from && Regroup(symbols, to, from, false).Ok?
    ensures var data, k := Regroup(symbols, to, from, false).value, Left(|symbols|, to, from);
            && AllDigits(Power(2, from), data) && AllDigits(Power(2, to), symbols)
            && k < to && |symbols| * to == |data| * from + k
            && Number(symbols, to) == Padded(Number(data, from), k)
  {
    NumberFits(symbols, to);
    ReadWhole(Number(symbols, to), Count(|symbols|, to, from), Left(|symbols|, to, from), from);
  }

  /** Dropping `k` zero bits and reading back the whole groups loses nothing. */
  lemma ReadWhole(value: nat, n: nat, k: nat, from: Width)
    requires k <= from && Padded(value, from - k) % Base(from) == 0 && value < Power(2, n * from + k)
    ensures AllDigits(Power(2, from), Symbols(from, n, Shifted(value, k)))
    ensures value == Padded(Number(Symbols(from, n, Shifted(value, k)), from), k)
  {
    ZeroTail(value, k, from);
    ShiftedFits(value, n * from, k);
    NumberOfSymbols(from, n, Shifted(value, k));
  }

  /** What the unpadded conversion accepts is exactly what the padded one produces. */
  lemma RoundTripBack(symbols: seq<Byte>, from: Width, to: Width)
    requires to <= from && Regroup(symbols, to, from, false).Ok?
    ensures var data := Regroup(symbols, to, from, false).value;
            AllDigits(Power(2, from), data) && Regroup(data, from, to, true) == Ok(symbols)
  {
    WholeGroups(symbols, from, to);
    BackFromWhole(symbols, Regroup(symbols, to, from, false).value, from, to, Left(|symbols|, to, from));
  }

  /** Whole groups with nothing but zero bits left over regroup to the symbols they came from. */
  lemma BackFromWhole(symbols: seq<Byte>, data: seq<Byte>, from: Width, to: Width, k: nat)
    requires to <= from && k < to && |symbols| * to == |data| * from + k
    requires AllDigits(Power(2, from), data) && AllDigits(Power(2, to), symbols)
    requires Number(symbols, to) == Padded(Number(data, from), k)
    ensures Regroup(data, from, to, true) == Ok(symbols)
  {
    PaddedConversion(data, from, to);
    FillOfWhole(|data|, |symbols|, from, to, k);
    FixedOfValue(Base(to), symbols);
  }

  lemma ShiftedFits(value: nat, bits: nat, k: nat)
    requires value == Padded(Shifted(value, k), k) && value < Power(2, bits + k)
    ensures Shifted(value, k) < Power(2, bits)
  {
    PowerSum(2, bits, k);
    if Shifted(value, k) >= Power(2, bits) {
      MulMono(Power(2, bits), Shifted(value, k), Power(2, k));
    }
  }

  lemma FillOfWhole(n: nat, m: nat, from: Width, to: Width, k: nat)
    requires m * to == n * from + k && k < to
    ensures Fill(n, from, to) == k && (n * from + to - 1) / to == m
  {
    if k == 0 {
      DivModUnique(m, 0, to);
      DivModUnique(m, to - 1, to);
    } else {
      assert (m - 1) * to == m * to - to;
      DivModUnique(m - 1, to - k, to);
      DivModUnique(m, to - 1 - k, to);
    }
  }

  /** The instance a SegWit address uses: bytes to 5-bit symbols and back, for every byte string. */
  lemma SegWitRoundTrip(program: seq<Byte>)
    ensures Regroup(program, 8, 5, true).Ok?
    ensures var middle := Regroup(program, 8, 5, true).value;
            && |middle| == (8 * |program| + 4) / 5
            && (forall i :: 0 <= i < |middle| ==> middle[i] < 32)
            && Regroup(middle, 5, 8, false) == Ok(program)
  {
    assert Power(2, 5) == 32 by {
      assert Power(2, 3) == 8;
    }
    PowerSum(2, 5, 3);
    assert Power(2, 8) == 256;
    RoundTrip(program, 8, 5);
  }
}
