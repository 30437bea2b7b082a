/** `hashCreateRequest`: the payload whose canonical text identifies an idempotent request. */
module RequestHash {
  import opened Common
  import opened CanonicalJson
  import opened Decimal

  datatype HashInput = HashInput(
    chain: string,
    network: string,
    asset: string,
    webhookUrl: string,
    expectedAmountMinor: Option<string>,
    expiresInSeconds: int,
    metadata: map<string, Json>)

  /** The payload: optional fields are left out, and so is an empty metadata object. */
  function Payload(input: HashInput): Json {
    Obj(Required(input) + ExpectedAmount(input) + Metadata(input))
  }

  const CHAIN := "chain"
  const NETWORK := "network"
  const ASSET := "asset"
  const WEBHOOK_URL := "webhook_url"
  const EXPIRES := "expires_in_seconds"
  const EXPECTED := "expected_amount_minor"
  const METADATA := "metadata"

  function Required(input: HashInput): map<string, Json> {
    map[
      CHAIN := Str(input.chain),
      NETWORK := Str(input.network),
      ASSET := Str(input.asset),
      WEBHOOK_URL := Str(input.webhookUrl),
      EXPIRES := Number(IntText(input.expiresInSeconds))
    ]
  }

  function ExpectedAmount(input: HashInput): map<string, Json> {
    if input.expectedAmountMinor.Some? then map[EXPECTED := Str(input.expectedAmountMinor.value)] else map[]
  }

  function Metadata(input: HashInput): map<string, Json> {
    if |input.metadata| > 0 then map[METADATA := Obj(input.metadata)] else map[]
  }

  /** No two field names coincide: their lengths already differ, but for one pair. */
  lemma KeysDistinct()
    ensures |CHAIN| == 5 && |ASSET| == 5 && CHAIN[0] != ASSET[0]
    ensures |NETWORK| == 7 && |METADATA| == 8 && |WEBHOOK_URL| == 11
    ensures |EXPIRES| == 18 && |EXPECTED| == 21
  {
  }

  /** Each field can be read back from the payload. */
  lemma PayloadFields(a: HashInput)
    ensures var p := Payload(a).members;
            && (forall k :: k in Required(a) ==> k in p && p[k] == Required(a)[k])
            && (EXPECTED in p <==> a.expectedAmountMinor.Some?)
            && (a.expectedAmountMinor.Some? ==> p[EXPECTED] == Str(a.expectedAmountMinor.value))
            && (METADATA in p <==> a.metadata != map[])
            && (a.metadata != map[] ==> p[METADATA] == Obj(a.metadata))
  {
    KeysDistinct();
    if |a.metadata| == 0 { assert a.metadata == map[]; }
  }

  lemma RequiredValues(a: HashInput)
    ensures var r := Required(a);
            && r.Keys == {CHAIN, NETWORK, ASSET, WEBHOOK_URL, EXPIRES}
            && r[CHAIN] == Str(a.chain) && r[NETWORK] == Str(a.network) && r[ASSET] == Str(a.asset)
            && r[WEBHOOK_URL] == Str(a.webhookUrl) && r[EXPIRES] == Number(IntText(a.expiresInSeconds))
  {
    KeysDistinct();
  }

  /** The payload field by field: which names it has, and what stands under each. */
  lemma PayloadByName(a: HashInput)
    ensures var p := Payload(a).members;
            && p.Keys == {"chain", "network", "asset", "webhook_url", "expires_in_seconds"}
                         + (if a.expectedAmountMinor.Some? then {"expected_amount_minor"} else {})
                         + (if a.metadata != map[] then {"metadata"} else {})
            && p["chain"] == Str(a.chain) && p["network"] == Str(a.network) && p["asset"] == Str(a.asset)
            && p["webhook_url"] == Str(a.webhookUrl)
            && p["expires_in_seconds"] == Number(IntText(a.expiresInSeconds))
            && (a.expectedAmountMinor.Some? ==> p["expected_amount_minor"] == Str(a.expectedAmountMinor.value))
            && (a.metadata != map[] ==> p["metadata"] == Obj(a.metadata))
  {
    PayloadFields(a);
    RequiredValues(a);
  }

  /** The payload determines the required fields. */
  lemma SameRequired(a: HashInput, b: HashInput)
    requires Payload(a) == Payload(b)
    ensures Required(a) == Required(b)
  {
    PayloadFields(a);
    PayloadFields(b);
    RequiredValues(a);
    RequiredValues(b);
    var p := Payload(a).members;
    forall k | k in Required(a)
      ensures Required(a)[k] == Required(b)[k]
    {
      assert p[k] == Required(a)[k] && p[k] == Required(b)[k];
    }
  }

  lemma RequiredInjective(a: HashInput, b: HashInput)
    requires Required(a) == Required(b)
    ensures a.chain == b.chain && a.network == b.network && a.asset == b.asset
    ensures a.webhookUrl == b.webhookUrl && a.expiresInSeconds == b.expiresInSeconds
  {
    RequiredValues(a);
    RequiredValues(b);
    IntTextInjective(a.expiresInSeconds, b.expiresInSeconds);
  }

  lemma OptionalInjective(a: HashInput, b: HashInput)
    requires Payload(a) == Payload(b)
    ensures a.expectedAmountMinor == b.expectedAmountMinor && a.metadata == b.metadata
  {
    PayloadFields(a);
    PayloadFields(b);
  }

  /** Equal payloads come from equal inputs. */
  lemma PayloadInjective(a: HashInput, b: HashInput)
    ensures Payload(a) == Payload(b) ==> a == b
  {
    if Payload(a) == Payload(b) {
      SameRequired(a, b);
      RequiredInjective(a, b);
      OptionalInjective(a, b);
    }
  }

  /**
   Two requests are written as the same bytes exactly when they agree in every
   field, metadata objects compared as unordered maps.
   */
  lemma RequestTextIsFaithful(quote: Quote, a: HashInput, b: HashInput)
    requires SelfDelimiting(quote)
    requires WellFormed(Obj(a.metadata)) && WellFormed(Obj(b.metadata))
    ensures Canon(quote, Payload(a)) == Canon(quote, Payload(b)) <==> a == b
  {
    PayloadWellFormed(a);
    PayloadWellFormed(b);
    CanonIsFaithful(quote, Payload(a), Payload(b));
    PayloadInjective(a, b);
  }

  lemma IntTextIsNumber(n: int)
    ensures NumberToken(IntText(n))
  {
    DecimalDigits(if n < 0 then -n else n);
  }

  lemma UnionWellFormed(m: map<string, Json>, n: map<string, Json>)
    requires WellFormed(Obj(m)) && WellFormed(Obj(n))
    ensures WellFormed(Obj(m + n))
  {
  }

  lemma RequiredWellFormed(a: HashInput)
    ensures WellFormed(Obj(Required(a)))
  {
    RequiredValues(a);
    IntTextIsNumber(a.expiresInSeconds);
  }

  lemma PayloadWellFormed(a: HashInput)
    requires WellFormed(Obj(a.metadata))
    ensures WellFormed(Payload(a))
  {
    RequiredWellFormed(a);
    UnionWellFormed(Required(a), ExpectedAmount(a));
    UnionWellFormed(Required(a) + ExpectedAmount(a), Metadata(a));
  }
}
