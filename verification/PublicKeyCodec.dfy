/** Compressed public keys: 33 bytes to a curve point and back (SEC 1, sections 2.3.3 and 2.3.4). */
module PublicKeyCodec {
  import opened Common
  import opened Congruence
  import opened CurveAlgebra
  import opened Radix
  import opened Secp256k1

  datatype KeyBytesError =
    | WrongLength
    | WrongPrefix
    | XOutOfRange
    | NotOnCurve
    | AtInfinity

  /** `base` to the power `e`, modulo `p`. */
  function PowMod(p: Modulus, base: int, e: nat): (r: int)
    ensures 0 <= r < p
  {
    if e == 0 then 1 else FieldMul(p, base, PowMod(p, base, e - 1))
  }

  function ParseCompressedPublicKey(p: Modulus, raw: seq<Byte>): (r: Result<Point, KeyBytesError>) {
    if |raw| != 33 then Err(WrongLength)
    else if raw[0] != 0x02 && raw[0] != 0x03 then Err(WrongPrefix)
    else
      var x := Value(256, raw[1..]);
      if x >= p then Err(XOutOfRange)
      else
        var rhs := CurveRhs(p, x);
        var root := PowMod(p, rhs, (p + 1) / 4);
        if FieldMul(p, root, root) != rhs then Err(NotOnCurve)
        else
          var yIsOdd := root % 2 == 1;
          var expectOdd := raw[0] == 0x03;
          Ok(Affine(x, if yIsOdd != expectOdd then FieldSub(p, p, root) else root))
  }

  /** Copying `x.Bytes()` into the 33-byte buffer needs an abscissa of at most 32 bytes; curve points have one. */
  function SerializeCompressedPublicKey(point: Point): (r: Result<seq<Byte>, KeyBytesError>)
    requires point.Affine? ==> 0 <= point.x < Power(256, 32)
  {
    if point.Infinity? then Err(AtInfinity) else
      var prefix: Byte := if point.y % 2 == 0 then 0x02 else 0x03;
      MinimalLength(256, 32, point.x);
      var xBytes: seq<Byte> := Minimal(256, point.x);
      Ok([prefix] + Repeat<int>(0, 32 - |xBytes|) + xBytes)
  }

  /** A square root on the right-hand side and its negation are both on the curve. */
  lemma RootsOnCurve(p: Modulus, x: int, root: int)
    requires 0 <= x < p && 0 <= root < p && FieldMul(p, root, root) == CurveRhs(p, x)
    ensures OnCurve(p, Affine(x, root)) && OnCurve(p, Affine(x, FieldSub(p, p, root)))
  {
    OnCurveSatisfies(p, x, root);
    var y := FieldSub(p, p, root);
    CongIntro(p, p - root, -root, 1);
    CongMod(p, p - root);
    CongTrans(p, y, p - root, -root);
    assert (-root) * (-root) == root * root;
    CongRefl(p, x);
    SatisfiesCong(p, x, x, y, -root);
    OnCurveSatisfies(p, x, y);
  }

  /** What acceptance says about the bytes and the point. */
  lemma ParsedShape(p: Modulus, raw: seq<Byte>)
    requires ParseCompressedPublicKey(p, raw).Ok?
    ensures |raw| == 33 && raw[0] in {0x02, 0x03} && 0 <= Value(256, raw[1..]) < p
    ensures var point := ParseCompressedPublicKey(p, raw).value;
            && point.Affine? && point.x == Value(256, raw[1..])
            && exists root :: 0 <= root < p && FieldMul(p, root, root) == CurveRhs(p, point.x)
                 && point.y == if (root % 2 == 1) != (raw[0] == 0x03) then FieldSub(p, p, root) else root
  {
    ValueBounds(256, raw[1..]);
    var root := PowMod(p, CurveRhs(p, Value(256, raw[1..])), (p + 1) / 4);
    assert 0 <= root < p && FieldMul(p, root, root) == CurveRhs(p, Value(256, raw[1..]));
  }

  /** Whatever the parser accepts is a reduced affine point of the curve. */
  lemma ParsedPointOnCurve(p: Modulus, raw: seq<Byte>)
    requires ParseCompressedPublicKey(p, raw).Ok?
    ensures var point := ParseCompressedPublicKey(p, raw).value;
            point.Affine? && OnCurve(p, point) && point.x == Value(256, raw[1..])
  {
    ParsedShape(p, raw);
    var point := ParseCompressedPublicKey(p, raw).value;
    var root :| 0 <= root < p && FieldMul(p, root, root) == CurveRhs(p, point.x)
      && point.y == if (root % 2 == 1) != (raw[0] == 0x03) then FieldSub(p, p, root) else root;
    RootsOnCurve(p, point.x, root);
  }

  /** The serialized abscissa is the fixed-width one. */
  lemma SerializedBytes(point: Point)
    requires point.Affine? && 0 <= point.x < Power(256, 32)
    ensures SerializeCompressedPublicKey(point).Ok?
    ensures SerializeCompressedPublicKey(point).value
         == [if point.y % 2 == 0 then 0x02 else 0x03] + Fixed(256, 32, point.x)
  {
    PaddedMinimalIsFixed(256, 32, point.x);
    var xBytes := Minimal(256, point.x);
    var prefix := [if point.y % 2 == 0 then 0x02 else 0x03];
    assert prefix + Repeat<int>(0, 32 - |xBytes|) + xBytes == prefix + (Repeat<int>(0, 32 - |xBytes|) + xBytes);
  }

  /** An accepted ordinate has the announced parity unless it is zero, which is even. */
  lemma AcceptedParity(p: Modulus, raw: seq<Byte>)
    requires ParseCompressedPublicKey(p, raw).Ok?
    ensures ParseCompressedPublicKey(p, raw).value.Affine?
    ensures var y := ParseCompressedPublicKey(p, raw).value.y;
            y >= 0 && if y == 0 then y % 2 == 0 else (y % 2 == 1 <==> raw[0] == 0x03)
  {
    ParsedShape(p, raw);
    var point := ParseCompressedPublicKey(p, raw).value;
    var root :| 0 <= root < p && FieldMul(p, root, root) == CurveRhs(p, point.x)
      && point.y == if (root % 2 == 1) != (raw[0] == 0x03) then FieldSub(p, p, root) else root;
    ChosenParity(p, root, raw[0] == 0x03, point.y);
  }

  lemma ChosenParity(p: Modulus, root: int, odd: bool, y: int)
    requires 0 <= root < p
    requires y == if (root % 2 == 1) != odd then FieldSub(p, p, root) else root
    ensures y >= 0 && if y == 0 then y % 2 == 0 else (y % 2 == 1 <==> odd)
  {
    NegatedParity(p, root);
  }

  /**
   Serializing an accepted key restores its bytes exactly when its ordinate is
   not the even zero announced as odd.
   */
  lemma SerializeRestores(p: Modulus, raw: seq<Byte>)
    requires p <= Power(256, 32)
    requires ParseCompressedPublicKey(p, raw).Ok?
    ensures var point := ParseCompressedPublicKey(p, raw).value;
            && point.Affine? && 0 <= point.x < Power(256, 32)
            && (SerializeCompressedPublicKey(point) == Ok(raw) <==> !(point.y == 0 && raw[0] == 0x03))
  {
    ParsedShape(p, raw);
    AcceptedParity(p, raw);
    var x, y := ParseCompressedPublicKey(p, raw).value.x, ParseCompressedPublicKey(p, raw).value.y;
    SerializedBytes(Affine(x, y));
    FixedOfValue(256, raw[1..]);
    SamePrefix(if y % 2 == 0 then 0x02 else 0x03, raw);
  }

  lemma SamePrefix(prefix: Byte, raw: seq<Byte>)
    requires |raw| > 0
    ensures [prefix] + raw[1..] == raw <==> prefix == raw[0]
  {
    assert ([prefix] + raw[1..])[0] == prefix;
    assert raw == [raw[0]] + raw[1..];
  }

  /** Negating a nonzero residue modulo an odd number flips its parity. */
  lemma NegatedParity(p: Modulus, root: int)
    requires 0 <= root < p
    ensures FieldSub(p, p, root) == if root == 0 then 0 else p - root
  {
    if root == 0 {
      DivModUnique(1, 0, p);
    } else {
      DivModUnique(0, p - root, p);
    }
  }

  /** The program's modulus is that of secp256k1 (SEC 2, section 2.4.1): 2^256 - 2^32 - 977. */
  lemma PFitsThirtyTwoBytes()
    ensures P == Power(256, 32) - Power(256, 4) - 977
    ensures P <= Power(256, 32)
  {
    assert Power(256, 4) == 0x1_0000_0000;
    PowerSum(256, 4, 4);
    PowerSum(256, 8, 8);
    PowerSum(256, 16, 16);
  }

  /** The program's codec restores the bytes it accepted exactly when they do not announce a zero ordinate as odd. */
  lemma SerializeRestoresForP(raw: seq<Byte>)
    requires ParseCompressedPublicKey(P, raw).Ok?
    ensures var point := ParseCompressedPublicKey(P, raw).value;
            && point.Affine? && OnCurve(P, point) && 0 <= point.x < Power(256, 32)
            && (SerializeCompressedPublicKey(point) == Ok(raw) <==> !(point.y == 0 && raw[0] == 0x03))
  {
    PFitsThirtyTwoBytes();
    ParsedPointOnCurve(P, raw);
    SerializeRestores(P, raw);
  }
}
