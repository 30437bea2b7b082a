/** `encodeSegWitAddress` and the Bech32 text it produces, as bytes. */
module SegWitAddress {
  import opened Common
  import opened Bech32
  import opened BitGroups

  const CHARSET: string := "qpzry9x8gf2tvdw0s3jn54khce6mua7l"

  /** Thirty-two different characters, one per symbol value. */
  predicate IsCharset(s: string) {
    |s| == 32 && forall i, j :: 0 <= i < j < 32 ==> s[i] != s[j]
  }

  type Charset = s: string | IsCharset(s) ghost witness (CharsetDistinct(); CHARSET)

  /** The symbol a character stands for. */
  function SymbolOf(c: char): int {
    match c
    case 'q' => 0 case 'p' => 1 case 'z' => 2 case 'r' => 3 case 'y' => 4 case '9' => 5 case 'x' => 6 case '8' => 7
    case 'g' => 8 case 'f' => 9 case '2' => 10 case 't' => 11 case 'v' => 12 case 'd' => 13 case 'w' => 14 case '0' => 15
    case 's' => 16 case '3' => 17 case 'j' => 18 case 'n' => 19 case '5' => 20 case '4' => 21 case 'k' => 22 case 'h' => 23
    case 'c' => 24 case 'e' => 25 case '6' => 26 case 'm' => 27 case 'u' => 28 case 'a' => 29 case '7' => 30 case 'l' => 31
    case _ => -1
  }

  lemma CharsetPlaces(i: int)
    requires 0 <= i < 32
    ensures |CHARSET| == 32 && SymbolOf(CHARSET[i]) == i
  {
  }

  lemma CharsetDistinct()
    ensures IsCharset(CHARSET)
  {
    CharsetPlaces(0);
    forall i, j | 0 <= i < j < 32
      ensures CHARSET[i] != CHARSET[j]
    {
      CharsetPlaces(i);
      CharsetPlaces(j);
    }
  }

  /** The program's characters: the small letters and digits except 1, b, i and o. */
  lemma CharsetIsLegible(c: char)
    ensures c in CHARSET <==> ('0' <= c <= '9' || 'a' <= c <= 'z') && c != '1' && c != 'b' && c != 'i' && c != 'o'
  {
  }

  /** Lower-casing again changes nothing. */
  lemma LowerTwice(hrp: seq<Byte>)
    ensures Lower(Lower(hrp)) == Lower(hrp)
  {
  }

  datatype AddressError = EmptyHrp | SymbolOutOfRange | VersionOutOfRange | BadGroups(cause: ConvertError)

  function LowerByte(b: Byte): Byte {
    if 'A' as int <= b <= 'Z' as int then b + 32 else b
  }

  predicate IsUpper(b: int) {
    'A' as int <= b <= 'Z' as int
  }

  /** Capital ASCII letters become small ones; everything else stays. */
  function Lower(hrp: seq<Byte>): (r: seq<Byte>)
    ensures |r| == |hrp|
    ensures forall i :: 0 <= i < |hrp| ==>
              if IsUpper(hrp[i]) then 'a' as int <= r[i] <= 'z' as int && r[i] - 'a' as int == hrp[i] - 'A' as int
              else r[i] == hrp[i]
  {
    seq(|hrp|, i requires 0 <= i < |hrp| => LowerByte(hrp[i]))
  }

  function Text(bytes: seq<Byte>): (s: string)
    ensures |s| == |bytes| && forall i :: 0 <= i < |s| ==> s[i] as int == bytes[i]
  {
    seq(|bytes|, i requires 0 <= i < |bytes| => bytes[i] as char)
  }

  function SymbolChars(c: Charset, symbols: seq<Byte>): (s: string)
    requires AllSymbols(symbols)
    ensures |s| == |symbols| && forall i :: 0 <= i < |s| ==> s[i] == c[symbols[i]]
  {
    seq(|symbols|, i requires 0 <= i < |symbols| => c[symbols[i]])
  }

  function Encode(c: Charset, hrp: seq<Byte>, data: seq<Byte>): Result<string, AddressError> {
    if |hrp| == 0 then Err(EmptyHrp) else
      var lower := Lower(hrp);
      var combined := data + Checksum(lower, data);
      if !AllSymbols(combined) then Err(SymbolOutOfRange)
      else Ok(Text(lower) + "1" + SymbolChars(c, combined))
  }

  function EncodeSegWitAddress(c: Charset, hrp: seq<Byte>, version: Byte, program: seq<Byte>)
    : Result<string, AddressError>
  {
    if version > 16 then Err(VersionOutOfRange) else
      match Regroup(program, 8, 5, true)
      case Err(e) => Err(BadGroups(e))
      case Ok(converted) => Encode(c, hrp, [version] + converted)
  }

  /** The symbols of an address: version, regrouped program, checksum. */
  function AddressSymbols(hrp: seq<Byte>, version: Byte, program: seq<Byte>): (symbols: seq<Byte>)
    requires version <= 16
    ensures AllSymbols(symbols) && |symbols| >= 7 && symbols[0] == version
    ensures Regroup(symbols[1..|symbols| - 6], 5, 8, false) == Ok(program)
  {
    SegWitRoundTrip(program);
    var data := [version] + Regroup(program, 8, 5, true).value;
    Join(data, Checksum(Lower(hrp), data))
  }

  function Join(data: seq<Byte>, checksum: seq<Byte>): (symbols: seq<Byte>)
    requires |checksum| == 6 && |data| >= 1 && AllSymbols(data) && AllSymbols(checksum)
    ensures symbols == data + checksum && AllSymbols(symbols)
    ensures symbols[0] == data[0] && symbols[1..|symbols| - 6] == data[1..]
  {
    data + checksum
  }

  /** Encoding fails only for an empty prefix or a version above 16. */
  lemma EncodesExactly(c: Charset, hrp: seq<Byte>, version: Byte, program: seq<Byte>)
    ensures EncodeSegWitAddress(c, hrp, version, program).Ok? <==> version <= 16 && |hrp| > 0
    ensures version <= 16 && |hrp| > 0 ==>
              EncodeSegWitAddress(c, hrp, version, program)
                == Ok(Text(Lower(hrp)) + "1" + SymbolChars(c, AddressSymbols(hrp, version, program)))
  {
    SegWitRoundTrip(program);
  }

  /** The symbols after the separator verify as a Bech32 word. */
  lemma AddressVerifies(hrp: seq<Byte>, version: Byte, program: seq<Byte>)
    requires version <= 16
    ensures Remainder(HrpExpand(Lower(hrp)) + AddressSymbols(hrp, version, program)) == 1
  {
    SegWitRoundTrip(program);
    var data := [version] + Regroup(program, 8, 5, true).value;
    ChecksumVerifies(Lower(hrp), data);
    Reassociate(HrpExpand(Lower(hrp)), data, Checksum(Lower(hrp), data));
  }

  lemma Reassociate(a: seq<Byte>, b: seq<Byte>, c: seq<Byte>)
    ensures a + b + c == a + (b + c)
  {
  }

  lemma CharsDetermineSymbols(c: Charset, prefix: string, u: seq<Byte>, v: seq<Byte>)
    requires AllSymbols(u) && AllSymbols(v)
    requires prefix + SymbolChars(c, u) == prefix + SymbolChars(c, v)
    ensures u == v
  {
    var cu, cv := SymbolChars(c, u), SymbolChars(c, v);
    assert (prefix + cu)[|prefix|..] == cu && (prefix + cv)[|prefix|..] == cv;
    assert forall i :: 0 <= i < |u| ==> c[u[i]] == cu[i] && c[v[i]] == cv[i];
  }

  /** Under one prefix an address identifies its version and witness program. */
  lemma AddressIdentifiesProgram(c: Charset, hrp: seq<Byte>,
                                 version: Byte, program: seq<Byte>, version': Byte, program': seq<Byte>)
    requires EncodeSegWitAddress(c, hrp, version, program).Ok?
    requires EncodeSegWitAddress(c, hrp, version, program) == EncodeSegWitAddress(c, hrp, version', program')
    ensures version == version' && program == program'
  {
    EncodesExactly(c, hrp, version, program);
    EncodesExactly(c, hrp, version', program');
    var u, v := AddressSymbols(hrp, version, program), AddressSymbols(hrp, version', program');
    CharsDetermineSymbols(c, Text(Lower(hrp)) + "1", u, v);
  }
}
