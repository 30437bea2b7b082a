/**
 Left-to-right double-and-add over the bits of a byte string, for any addition
 with a zero.  Nothing here looks inside a point.
 */
module DoubleAndAdd {
  import opened Common
  import opened Radix

  /** The eight bits of a byte, most significant first. */
  function ByteBits(b: Byte): (bits: seq<int>)
    ensures |bits| == 8 && AllDigits(2, bits)
  {
    Fixed(2, 8, b)
  }

  function Bits(bytes: seq<Byte>): (bits: seq<int>)
    ensures AllDigits(2, bits)
  {
    if |bytes| == 0 then [] else Bits(bytes[..|bytes| - 1]) + ByteBits(bytes[|bytes| - 1])
  }

  lemma {:induction false} BitsValue(bytes: seq<Byte>)
    ensures Value(2, Bits(bytes)) == Value(256, bytes)
  {
    if |bytes| == 0 {
    } else {
      var b := bytes[|bytes| - 1];
      BitsValue(bytes[..|bytes| - 1]);
      ValueConcat(2, Bits(bytes[..|bytes| - 1]), ByteBits(b));
      assert Power(2, 8) == 256 by {
        assert Power(2, 4) == 16;
        assert Power(2, 6) == 64;
      }
      ValueOfFixed(2, 8, b);
    }
  }

  lemma BitsSnoc(bytes: seq<Byte>, i: nat)
    requires i < |bytes|
    ensures Bits(bytes[..i + 1]) == Bits(bytes[..i]) + ByteBits(bytes[i])
  {
    assert bytes[..i + 1][..i] == bytes[..i];
  }

  /** An addition on the elements that satisfy `on`. */
  datatype Addition<!T(!new)> = Addition(zero: T, add: (T, T) -> T, double: T -> T, on: T -> bool)
  {
    /** `x` added to itself `n` times. */
    function Multiple(n: nat, x: T): T {
      if n == 0 then zero else add(Multiple(n - 1, x), x)
    }

    /** What the nested loops of the ladder compute, bit by bit. */
    function Ladder(x: T, bits: seq<int>): T {
      if |bits| == 0 then zero else
        var doubled := double(Ladder(x, bits[..|bits| - 1]));
        if bits[|bits| - 1] == 1 then add(doubled, x) else doubled
    }

    ghost predicate ClosedAt(a: T, b: T) {
      on(a) && on(b) ==> on(add(a, b))
    }

    ghost predicate DoublesAt(a: T) {
      on(a) ==> on(double(a)) && add(a, a) == double(a)
    }

    ghost predicate UnitAt(a: T) {
      add(a, zero) == a
    }

    /** Closed, with a zero, and doubling is adding to oneself. */
    ghost predicate Lawful() {
      && on(zero) && (forall a, b :: ClosedAt(a, b)) && (forall a :: DoublesAt(a)) && (forall a :: UnitAt(a))
    }

    ghost predicate AssociativeAt(a: T, b: T, c: T) {
      on(a) && on(b) && on(c) ==> add(add(a, b), c) == add(a, add(b, c))
    }

    ghost predicate Associative() {
      forall a, b, c :: AssociativeAt(a, b, c)
    }

    lemma {:induction false} MultipleCloses(n: nat, x: T)
      requires Lawful() && on(x)
      ensures on(Multiple(n, x))
    {
      if n == 0 {
      } else {
        MultipleCloses(n - 1, x);
        assert ClosedAt(Multiple(n - 1, x), x);
      }
    }

    lemma {:induction false} LadderCloses(x: T, bits: seq<int>)
      requires Lawful() && on(x)
      ensures on(Ladder(x, bits))
    {
      if |bits| == 0 {
      } else {
        var front := Ladder(x, bits[..|bits| - 1]);
        LadderCloses(x, bits[..|bits| - 1]);
        assert DoublesAt(front) && ClosedAt(double(front), x);
      }
    }

    lemma {:induction false} MultipleSum(m: nat, n: nat, x: T)
      requires Lawful() && Associative() && on(x)
      ensures add(Multiple(m, x), Multiple(n, x)) == Multiple(m + n, x)
    {
      if n == 0 {
        assert UnitAt(Multiple(m, x));
      } else {
        MultipleSum(m, n - 1, x);
        MultipleCloses(m, x);
        MultipleCloses(n - 1, x);
        assert AssociativeAt(Multiple(m, x), Multiple(n - 1, x), x);
      }
    }

    /** Double-and-add over bits computes the multiple those bits denote. */
    lemma {:induction false} LadderIsMultiple(x: T, bits: seq<int>)
      requires Lawful() && Associative() && on(x) && AllDigits(2, bits)
      ensures Value(2, bits) >= 0 && Ladder(x, bits) == Multiple(Value(2, bits), x)
    {
      if |bits| == 0 {
      } else {
        var v := Value(2, bits[..|bits| - 1]);
        LadderIsMultiple(x, bits[..|bits| - 1]);
        MultipleCloses(v, x);
        assert DoublesAt(Multiple(v, x));
        MultipleSum(v, v, x);
      }
    }

    lemma LadderSnoc(x: T, bits: seq<int>, bit: int)
      ensures var doubled := double(Ladder(x, bits));
              Ladder(x, bits + [bit]) == if bit == 1 then add(doubled, x) else doubled
    {
      assert (bits + [bit])[..|bits|] == bits;
    }

    /** The running element after `k` bits of a byte. */
    function AfterBits(x: T, done: seq<int>, b: Byte, k: nat): T
      requires k <= 8
    {
      Ladder(x, done + ByteBits(b)[..k])
    }

    /** One turn of the inner loop. */
    lemma LadderTurn(x: T, done: seq<int>, b: Byte, bit: nat)
      requires bit < 8
      ensures Power(2, bit) > 0
      ensures var doubled := double(AfterBits(x, done, b, 7 - bit));
              AfterBits(x, done, b, 8 - bit) == if b / Power(2, bit) % 2 == 1 then add(doubled, x) else doubled
    {
      FixedAt(2, 8, b, bit);
      var before, last := done + ByteBits(b)[..7 - bit], ByteBits(b)[7 - bit];
      assert done + ByteBits(b)[..8 - bit] == before + [last];
      LadderSnoc(x, before, last);
    }

    /** One turn of the outer loop takes in eight bits. */
    lemma ByteDone(x: T, scalar: seq<Byte>, i: nat)
      requires i < |scalar|
      ensures var done := Bits(scalar[..i]);
              && AfterBits(x, done, scalar[i], 0) == Ladder(x, done)
              && AfterBits(x, done, scalar[i], 8) == Ladder(x, Bits(scalar[..i + 1]))
    {
      var done := Bits(scalar[..i]);
      assert done + ByteBits(scalar[i])[..0] == done;
      assert ByteBits(scalar[i])[..8] == ByteBits(scalar[i]);
      BitsSnoc(scalar, i);
    }

    /** Left-to-right double-and-add over the bits of a big-endian scalar. */
    method ScalarMult(x: T, scalar: seq<Byte>) returns (result: T)
      ensures result == Ladder(x, Bits(scalar))
    {
      result := zero;
      var addend := x;
      for i := 0 to |scalar|
        invariant result == Ladder(x, Bits(scalar[..i]))
      {
        var byteValue := scalar[i];
        ghost var done := Bits(scalar[..i]);
        ByteDone(x, scalar, i);
        var bit := 7;
        while bit >= 0
          invariant -1 <= bit <= 7
          invariant result == AfterBits(x, done, byteValue, 7 - bit)
        {
          LadderTurn(x, done, byteValue, bit);
          result := double(result);
          if byteValue / Power(2, bit) % 2 == 1 {
            result := add(result, addend);
          }
          bit := bit - 1;
        }
      }
      assert scalar[..|scalar|] == scalar;
    }
  }
}
