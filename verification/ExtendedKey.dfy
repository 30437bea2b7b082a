/** BIP-32 extended public keys: serialization, parsing and the keyset normalizers. */
module ExtendedKey {
  import opened Common
  import opened Base58
  import opened PublicKeyCodec
  import opened Radix
  import opened Secp256k1
  import opened Text

  const VERSION_XPUB: int := 0x0488b21e
  const VERSION_TPUB: int := 0x043587cf
  const VERSION_VPUB: int := 0x045f1cf6

  type U32 = x: int | 0 <= x < 0x1_0000_0000
  type Bytes32 = s: seq<Byte> | |s| == 32 witness Repeat<Byte>(0, 32)
  type Bytes33 = s: seq<Byte> | |s| == 33 witness Repeat<Byte>(0, 33)

  /** What the key code is built on: the Base58 alphabet, SHA-256 and the field modulus. */
  datatype Primitives = Primitives(alphabet: Alphabet, sha256: Sha256, modulus: Modulus)

  datatype ExtendedPublicKey = ExtendedPublicKey(
    version: U32,
    depth: Byte,
    parentFingerprint: U32,
    childNumber: U32,
    chainCode: Bytes32,
    publicKey: Bytes33)

  datatype KeyError =
    | BadEncoding(cause: Base58Error)
    | BadPayloadLength
    | UnsupportedVersion
    | InvalidKeyData
    | InvalidPoint(reason: KeyBytesError)
    | WrongNetworkVersion

  function Payload(key: ExtendedPublicKey): (payload: seq<Byte>)
    ensures |payload| == 78
  {
    var version: seq<Byte> := Fixed(256, 4, key.version);
    var fingerprint: seq<Byte> := Fixed(256, 4, key.parentFingerprint);
    var child: seq<Byte> := Fixed(256, 4, key.childNumber);
    version + [key.depth] + fingerprint + child + key.chainCode + key.publicKey
  }

  function Serialize(c: Primitives, key: ExtendedPublicKey): string {
    EncodeBase58Check(c.alphabet, c.sha256, Payload(key))
  }

  predicate KnownVersion(version: int) {
    version == VERSION_XPUB || version == VERSION_TPUB || version == VERSION_VPUB
  }

  lemma Word(bytes: seq<Byte>)
    requires |bytes| == 4
    ensures 0 <= Value(256, bytes) < 0x1_0000_0000
  {
    ValueBounds(256, bytes);
    assert Power(256, 4) == 0x1_0000_0000;
  }

  /** The fields of a 78-byte payload. */
  function Fields(payload: seq<Byte>): ExtendedPublicKey
    requires |payload| == 78
  {
    Word(payload[..4]);
    Word(payload[5..9]);
    Word(payload[9..13]);
    ExtendedPublicKey(Value(256, payload[..4]), payload[4], Value(256, payload[5..9]),
                      Value(256, payload[9..13]), payload[13..45], payload[45..78])
  }

  function ParsePayload(c: Primitives, payload: seq<Byte>): Result<ExtendedPublicKey, KeyError> {
    if |payload| != 78 then Err(BadPayloadLength) else
      var key := Fields(payload);
      if !KnownVersion(key.version) then Err(UnsupportedVersion)
      else if key.publicKey[0] != 0x02 && key.publicKey[0] != 0x03 then Err(InvalidKeyData)
      else match ParseCompressedPublicKey(c.modulus, key.publicKey)
        case Err(reason) => Err(InvalidPoint(reason))
        case Ok(_) => Ok(key)
  }

  function ParseExtendedPublicKey(c: Primitives, serialized: string): Result<ExtendedPublicKey, KeyError> {
    match DecodeBase58Check(c.alphabet, c.sha256, TrimSpace(serialized))
    case Err(e) => Err(BadEncoding(e))
    case Ok(payload) => ParsePayload(c, payload)
  }

  /** The keys the parser can return: a known version and a public key on the curve. */
  predicate Acceptable(c: Primitives, key: ExtendedPublicKey) {
    KnownVersion(key.version) && ParseCompressedPublicKey(c.modulus, key.publicKey).Ok?
  }

  // -------------------------------------------------------------- round trips

  lemma FieldsOfPayload(key: ExtendedPublicKey)
    ensures Fields(Payload(key)) == key
  {
    assert Power(256, 4) == 0x1_0000_0000;
    ValueOfFixed(256, 4, key.version);
    ValueOfFixed(256, 4, key.parentFingerprint);
    ValueOfFixed(256, 4, key.childNumber);
    var payload := Payload(key);
    assert payload[..4] == Fixed(256, 4, key.version);
    assert payload[5..9] == Fixed(256, 4, key.parentFingerprint);
    assert payload[9..13] == Fixed(256, 4, key.childNumber);
  }

  lemma PayloadOfFields(payload: seq<Byte>)
    requires |payload| == 78
    ensures Payload(Fields(payload)) == payload
  {
    Word(payload[..4]);
    Word(payload[5..9]);
    Word(payload[9..13]);
    FixedOfValue(256, payload[..4]);
    FixedOfValue(256, payload[5..9]);
    FixedOfValue(256, payload[9..13]);
    SixParts(payload);
  }

  lemma SixParts(p: seq<Byte>)
    requires |p| == 78
    ensures p == p[..4] + [p[4]] + p[5..9] + p[9..13] + p[13..45] + p[45..78]
  {
  }

  /** Four bytes from `at` on hold `n`, most significant first. */
  predicate HoldsWord(bytes: seq<int>, at: nat, n: U32)
    requires at + 4 <= |bytes|
  {
    && bytes[at] == n / 0x100_0000
    && bytes[at + 1] == n / 0x1_0000 % 0x100
    && bytes[at + 2] == n / 0x100 % 0x100
    && bytes[at + 3] == n % 0x100
  }

  lemma WordBytes(n: U32)
    ensures HoldsWord(Fixed(256, 4, n), 0, n)
  {
    FixedAt(256, 4, n, 0);
    FixedAt(256, 4, n, 1);
    FixedAt(256, 4, n, 2);
    FixedAt(256, 4, n, 3);
    assert Power(256, 0) == 1 && Power(256, 1) == 0x100 && Power(256, 2) == 0x1_0000 && Power(256, 3) == 0x100_0000;
  }

  /**
   Where the payload keeps each field: version, depth, parent fingerprint and
   child number in bytes 0, 4, 5 and 9, chain code and key in bytes 13 and 45.
   */
  predicate LaidOut(payload: seq<Byte>, key: ExtendedPublicKey) {
    && |payload| == 78
    && HoldsWord(payload, 0, key.version)
    && payload[4] == key.depth
    && HoldsWord(payload, 5, key.parentFingerprint)
    && HoldsWord(payload, 9, key.childNumber)
    && (forall i :: 0 <= i < 32 ==> payload[13 + i] == key.chainCode[i])
    && (forall i :: 0 <= i < 33 ==> payload[45 + i] == key.publicKey[i])
  }

  lemma PayloadLayout(key: ExtendedPublicKey)
    ensures LaidOut(Payload(key), key)
  {
    WordBytes(key.version);
    WordBytes(key.parentFingerprint);
    WordBytes(key.childNumber);
    var p := Payload(key);
    assert p[0..4] == Fixed(256, 4, key.version);
    assert p[5..9] == Fixed(256, 4, key.parentFingerprint);
    assert p[9..13] == Fixed(256, 4, key.childNumber);
    assert p[13..45] == key.chainCode && p[45..78] == key.publicKey;
  }

  /** A serialized key is the Base58Check text of the one payload with that layout, and conversely. */
  lemma SerializedLayout(c: Primitives, key: ExtendedPublicKey, payload: seq<Byte>)
    requires LaidOut(payload, key)
    ensures Serialize(c, key) == EncodeBase58Check(c.alphabet, c.sha256, payload)
    ensures Payload(key) == payload
  {
    PayloadLayout(key);
    var p := Payload(key);
    forall i | 0 <= i < 78
      ensures p[i] == payload[i]
    {
      if 13 <= i < 45 { assert payload[13 + (i - 13)] == p[13 + (i - 13)]; }
      if 45 <= i { assert payload[45 + (i - 45)] == p[45 + (i - 45)]; }
    }
    assert p == payload;
  }

  /**
   What the parser accepts, byte by byte: 78 bytes that start with one of the
   three version words and end with an acceptable public key; the key it returns
   is the one laid out in them.
   */
  lemma ParseAccepts(c: Primitives, serialized: string, payload: seq<Byte>)
    requires DecodeBase58Check(c.alphabet, c.sha256, TrimSpace(serialized)) == Ok(payload)
    ensures ParseExtendedPublicKey(c, serialized).Ok? <==>
              && |payload| == 78
              && (payload[..4] == [0x04, 0x88, 0xb2, 0x1e] || payload[..4] == [0x04, 0x35, 0x87, 0xcf]
                  || payload[..4] == [0x04, 0x5f, 0x1c, 0xf6])
              && ParseCompressedPublicKey(c.modulus, payload[45..]).Ok?
    ensures ParseExtendedPublicKey(c, serialized).Ok? ==> LaidOut(payload, ParseExtendedPublicKey(c, serialized).value)
    ensures |payload| != 78 ==> ParseExtendedPublicKey(c, serialized) == Err(BadPayloadLength)
  {
    if |payload| == 78 {
      PayloadOfFields(payload);
      PayloadLayout(Fields(payload));
      VersionWord(payload, Fields(payload).version);
      assert payload[45..] == payload[45..78];
      if ParseCompressedPublicKey(c.modulus, payload[45..]).Ok? { ParsedShape(c.modulus, payload[45..]); }
    }
  }

  lemma VersionWord(payload: seq<Byte>, n: U32)
    requires |payload| == 78 && HoldsWord(payload, 0, n)
    ensures n == VERSION_XPUB <==> payload[..4] == [0x04, 0x88, 0xb2, 0x1e]
    ensures n == VERSION_TPUB <==> payload[..4] == [0x04, 0x35, 0x87, 0xcf]
    ensures n == VERSION_VPUB <==> payload[..4] == [0x04, 0x5f, 0x1c, 0xf6]
  {
    var w: seq<int> := payload[..4];
    assert w == [w[0], w[1], w[2], w[3]];
    assert n == 0x100_0000 * w[0] + 0x1_0000 * w[1] + 0x100 * w[2] + w[3];
  }

  lemma AlphabetHasNoSpace(a: Alphabet, s: string)
    requires ValidChars(a, s)
    ensures forall i :: 0 <= i < |s| ==> !IsSpace(s[i])
  {
    forall i | 0 <= i < |s|
      ensures !IsSpace(s[i])
    {
      assert a[DigitOf(a, s[i])] == s[i];
    }
  }

  /** A serialized key contains no white space. */
  lemma SerializedIsTrimmed(c: Primitives, payload: seq<Byte>)
    ensures TrimSpace(EncodeBase58Check(c.alphabet, c.sha256, payload)) == EncodeBase58Check(c.alphabet, c.sha256, payload)
  {
    var s := EncodeBase58Check(c.alphabet, c.sha256, payload);
    EncodedDigits(c.alphabet, payload + Checksum4(c.sha256, payload));
    AlphabetHasNoSpace(c.alphabet, s);
    NothingToTrim(s);
  }

  /** Parsing a serialized key gives the key back exactly when the key is acceptable. */
  lemma ParseSerialize(c: Primitives, key: ExtendedPublicKey)
    ensures ParseExtendedPublicKey(c, Serialize(c, key)) == Ok(key) <==> Acceptable(c, key)
  {
    SerializedIsTrimmed(c, Payload(key));
    CheckDecodeEncode(c.alphabet, c.sha256, Payload(key));
    FieldsOfPayload(key);
    if Acceptable(c, key) { ParsedShape(c.modulus, key.publicKey); }
  }

  /** Serializing an accepted key restores its text, up to surrounding white space. */
  lemma SerializeParse(c: Primitives, serialized: string)
    requires ParseExtendedPublicKey(c, serialized).Ok?
    ensures var key := ParseExtendedPublicKey(c, serialized).value;
            Acceptable(c, key) && Serialize(c, key) == TrimSpace(serialized)
  {
    var text := TrimSpace(serialized);
    var payload := DecodeBase58Check(c.alphabet, c.sha256, text).value;
    CheckEncodeDecode(c.alphabet, c.sha256, text, payload);
    PayloadOfFields(payload);
  }

  // --------------------------------------------------------------- normalizers

  function NormalizeBitcoinKeyset(c: Primitives, raw: string): Result<(ExtendedPublicKey, string), KeyError> {
    match ParseExtendedPublicKey(c, raw)
    case Err(e) => Err(e)
    case Ok(key) =>
      if key.version == VERSION_TPUB then Ok((key, Serialize(c, key)))
      else if key.version == VERSION_VPUB then
        var normalized := key.(version := VERSION_TPUB);
        Ok((normalized, Serialize(c, normalized)))
      else Err(WrongNetworkVersion)
  }

  function NormalizeEVMKeyset(c: Primitives, raw: string): Result<(ExtendedPublicKey, string), KeyError> {
    match ParseExtendedPublicKey(c, raw)
    case Err(e) => Err(e)
    case Ok(key) =>
      if key.version == VERSION_XPUB then Ok((key, Serialize(c, key)))
      else if key.version == VERSION_TPUB then
        var normalized := key.(version := VERSION_XPUB);
        Ok((normalized, Serialize(c, normalized)))
      else Err(WrongNetworkVersion)
  }

  lemma RestampedParses(c: Primitives, key: ExtendedPublicKey, version: U32)
    requires Acceptable(c, key) && KnownVersion(version)
    ensures ParseExtendedPublicKey(c, Serialize(c, key.(version := version))) == Ok(key.(version := version))
  {
    ParseSerialize(c, key.(version := version));
  }

  lemma AcceptedKey(c: Primitives, raw: string)
    requires ParseExtendedPublicKey(c, raw).Ok?
    ensures Acceptable(c, ParseExtendedPublicKey(c, raw).value)
  {
    SerializeParse(c, raw);
  }

  /** The key with every field of `key` but the version. */
  predicate Restamped(after: ExtendedPublicKey, key: ExtendedPublicKey, version: int) {
    && after.version == version && after.depth == key.depth
    && after.parentFingerprint == key.parentFingerprint && after.childNumber == key.childNumber
    && after.chainCode == key.chainCode && after.publicKey == key.publicKey
  }

  /** Bitcoin keysets are tpub or vpub keys, and come out as the same key under the tpub version. */
  lemma BitcoinNormalizes(c: Primitives, raw: string)
    ensures var parsed, outcome := ParseExtendedPublicKey(c, raw), NormalizeBitcoinKeyset(c, raw);
            && (parsed.Err? ==> outcome == Err(parsed.error))
            && (parsed.Ok? && parsed.value.version !in {0x043587cf, 0x045f1cf6} ==> outcome == Err(WrongNetworkVersion))
            && (parsed.Ok? && parsed.value.version in {0x043587cf, 0x045f1cf6} ==>
                  && outcome.Ok? && Restamped(outcome.value.0, parsed.value, 0x043587cf)
                  && ParseExtendedPublicKey(c, outcome.value.1) == Ok(outcome.value.0))
  {
    if ParseExtendedPublicKey(c, raw).Ok? {
      AcceptedKey(c, raw);
      RestampedParses(c, ParseExtendedPublicKey(c, raw).value, VERSION_TPUB);
    }
  }

  /** EVM keysets are xpub or tpub keys, and come out as the same key under the xpub version. */
  lemma EVMNormalizes(c: Primitives, raw: string)
    ensures var parsed, outcome := ParseExtendedPublicKey(c, raw), NormalizeEVMKeyset(c, raw);
            && (parsed.Err? ==> outcome == Err(parsed.error))
            && (parsed.Ok? && parsed.value.version !in {0x0488b21e, 0x043587cf} ==> outcome == Err(WrongNetworkVersion))
            && (parsed.Ok? && parsed.value.version in {0x0488b21e, 0x043587cf} ==>
                  && outcome.Ok? && Restamped(outcome.value.0, parsed.value, 0x0488b21e)
                  && ParseExtendedPublicKey(c, outcome.value.1) == Ok(outcome.value.0))
  {
    if ParseExtendedPublicKey(c, raw).Ok? {
      AcceptedKey(c, raw);
      RestampedParses(c, ParseExtendedPublicKey(c, raw).value, VERSION_XPUB);
    }
  }

  /** Normal forms: normalizing a normalized keyset changes neither key nor text. */
  lemma BitcoinNormalForm(c: Primitives, raw: string)
    requires NormalizeBitcoinKeyset(c, raw).Ok?
    ensures var (key, text) := NormalizeBitcoinKeyset(c, raw).value;
            key.version == VERSION_TPUB && NormalizeBitcoinKeyset(c, text) == Ok((key, text))
  {
    AcceptedKey(c, raw);
    RestampedParses(c, ParseExtendedPublicKey(c, raw).value, VERSION_TPUB);
  }

  lemma EVMNormalForm(c: Primitives, raw: string)
    requires NormalizeEVMKeyset(c, raw).Ok?
    ensures var (key, text) := NormalizeEVMKeyset(c, raw).value;
            key.version == VERSION_XPUB && NormalizeEVMKeyset(c, text) == Ok((key, text))
  {
    AcceptedKey(c, raw);
    RestampedParses(c, ParseExtendedPublicKey(c, raw).value, VERSION_XPUB);
  }
}
