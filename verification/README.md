# ChainTx in Dafny

ChainTx turns payment requests into derived addresses, watches chains for
payment and delivers webhooks.  This project models the two parts of it that
carry real invariants and proves them.

**Key and address arithmetic.**  The hand-written secp256k1 group law and point
codec (SEC 1, sections 2.2.1, 2.3.3 and 2.3.4), Bech32 and bit regrouping
(BIP-173), Base58Check and extended public keys (BIP-32), and a streaming
RIPEMD-160 with the padding of RFC 1320, sections 3.1 and 3.2.
`Congruence`, `CurveAlgebra`, `DoubleAndAdd`, `Secp256k1`, `PublicKeyCodec`,
`PrimeField`; `LinearRegister`, `Bech32Bits`, `Bech32`, `Bech32Polynomial`,
`BitGroups`, `SegWitAddress`;
`Radix`, `Base58`, `Text`, `ExtendedKey`; `Ripemd160`.

**Persistent protocols.**  Each SQL statement or transaction is one atomic step
over tables, and any number of workers interleave: reconciliation
(`ReconcileDecision`, `ReconcileProtocol`, `ReconcileCycles`, `ReconcileStreaks`,
`ReconcileWindow`, `ReconcileTable`, `Evidence`, `Observer`), the webhook outbox (`Outbox`,
`Backoff`), claims of either table (`Claims`), wallet accounts and
idempotent creation (`WalletSync`, `Allocation`, `WalletRuns`, `WalletStore`)
and the canonical text that identifies a request (`StringOrder`,
`CanonicalJson`, `Decimal`, `RequestHash`, `JsonQuote`), with a JSON reader
written from RFC 8259 to read it back (`JsonReader`, `JsonUnquote`).

Imperative Go code appears as methods and classes proved against specification
functions; the theorems are lemmas about those functions, over all inputs or
all runs.  `dafny verify dfyconfig.toml` checks everything.

## What the theorems assume

- Hashes (SHA-256, HMAC, the RIPEMD-160 block function, FNV) and address
  derivation are function parameters.  Only the wallet theorems assume
  something of one: that the keyed hash determines the key material, and
  `WalletRuns.ConflictMeansIdTaken` also that derivation is injective.
- Associativity of point addition is a hypothesis of `Secp256k1.ScalarMultCorrect`
  alone.  That every nonzero residue has an inverse is a hypothesis of the
  lemmas of `PrimeField` alone; nothing else assumes the modulus prime.
- `WalletRuns.NoSlotIsReused` and its companions assume stored hashes made only
  with configured secrets, no unhashed account, distinct keys and at most one
  active account at the start, and processes that derive with the last synced
  key.  `WalletRuns.DroppedSecretStalls` shows what the first of these is for.
- `ReconcileStreaks.HeldTailBacksTransition` assumes windows of at least one
  second and that the last `cycles - 1` commits held their leases;
  `ReconcileStreaks.LapsedLeaseBreaksStreaks` is a run that loses one of those
  leases.  `ReconcileWindow.WindowClosesExactly` assumes the same of the commits
  since the last forgetting one, and later commits at later times;
  `ReconcileWindow.StoredTimeIsLineage` assumes nothing.
- `Outbox.SendsBounded` assumes that no lease is lost, `Outbox.SendsBoundedByOverlaps`
  nothing; `Outbox.LapsedLeaseOverruns` is a run that meets its bound.
- The evidence theorems assume that reading an amount back from its numeric
  column is idempotent, and that stored amounts are in that form.

## Findings about the code

- `shouldSkipConfirmedObservation` is dead for claimed rows unless the observe
  window is below one second, and then runs reach it
  (`ReconcileWindow.SkipReachedExactly`).  Times here are integer ticks: the
  database rounds them to microseconds, so with a window of one second a claim
  within that rounding of the window's end can still be skipped.
- A failed or unsupported reconciliation cycle, and no observation, forgets when a
  request was first confirmed (`ReconcileDecision.ConfirmationKeptExactly`), so a
  confirmed request stops being claimed at the end of its observe window exactly
  when no such cycle was committed since (`ReconcileWindow.WindowClosesExactly`).
- Repeating a consistent batch of evidence touches time stamps exactly when an
  amount is not written the way its numeric column reads back
  (`Evidence.ConsistentSyncTwice`); the EVM observer's amounts always are
  (`Observer.ReportedAmountsAreNormal`).
- The doubling backoff wraps for ceilings above 2^62 ns when a doubling lands
  in the upper half of int64; the condition is exact (`Backoff.PromiseKeptExactly`),
  and `Backoff.WrappedWait` is a negative wait.

## Model

| member | source | states |
|---|---|---|
| `Secp256k1.FieldInv` | internal/infrastructure/walletkeys/secp256k1.go:55-61 | `ModInverse`: a reduced inverse when one exists, absent exactly when no residue inverts the value; needs no primality |
| `Secp256k1.DoubleCloses` | internal/infrastructure/walletkeys/secp256k1.go:63-78 | doubling a reduced curve point gives infinity or a reduced curve point, for every odd modulus |
| `Secp256k1.AddCloses` | internal/infrastructure/walletkeys/secp256k1.go:80-105 | adding reduced curve points gives infinity or a reduced curve point, for every odd modulus |
| `Secp256k1.ChordRule` | internal/infrastructure/walletkeys/secp256k1.go:91-104 | for distinct abscissas whose difference is invertible, the sum is the reflected third point of any chord slope, as SEC 1 section 2.2.1 defines it |
| `Secp256k1.TangentRule` | internal/infrastructure/walletkeys/secp256k1.go:68-77 | doubling is the reflected second point of any tangent slope, as SEC 1 section 2.2.1 defines it |
| `Secp256k1.AddCommutes` | internal/infrastructure/walletkeys/secp256k1.go:80-105 | point addition depends on the order of its arguments exactly where one abscissa has two ordinates, neither equal nor opposite, that double differently |
| `Secp256k1.CurveAddCommutes` | internal/infrastructure/walletkeys/secp256k1.go:80-105 | it commutes on curve points whose ordinates, at one abscissa, differ by nothing or by something invertible, as they do over a field |
| `Secp256k1.AddSelfIsDouble` | internal/infrastructure/walletkeys/secp256k1.go:87-90 | `pointAdd(Q, Q)` is `pointDouble(Q)` for every reduced point, including y = 0 and infinity |
| `Secp256k1.GroupIsLawful` | internal/infrastructure/walletkeys/secp256k1.go:63-105 | the curve points with the code's addition form what double-and-add needs: closed, with zero, doubling being self-addition |
| `Secp256k1.ScalarMult` | internal/infrastructure/walletkeys/secp256k1.go:107-121 | the ladder returns the double-and-add value of the scalar's bits |
| `DoubleAndAdd.Addition.ScalarMult` | internal/infrastructure/walletkeys/secp256k1.go:107-121 | the nested byte and bit loops compute double-and-add over the bits of the whole scalar, whatever its length |
| `DoubleAndAdd.Addition.LadderIsMultiple` | internal/infrastructure/walletkeys/secp256k1.go:107-121 | under associativity, double-and-add over bits is the element added to itself as often as the bits say |
| `DoubleAndAdd.BitsValue` | internal/infrastructure/walletkeys/secp256k1.go:110-118 | the bits the loops visit denote the big-endian value of the bytes |
| `Secp256k1.ScalarMultCorrect` | internal/infrastructure/walletkeys/secp256k1.go:107-121 | for scalars of any length the ladder stays on the curve, and if point addition is associative it is the point added to itself big-endian-value times |
| `PrimeField.OppositeCancels` | internal/infrastructure/walletkeys/secp256k1.go:80-90 | a point and its reflection add up to infinity, for every odd modulus |
| `PrimeField.SumVanishesExactly` | internal/infrastructure/walletkeys/secp256k1.go:80-105 | where every nonzero residue has an inverse, curve points add up to infinity exactly when they are opposite |
| `PrimeField.AddCommutesInField` | internal/infrastructure/walletkeys/secp256k1.go:80-105 | there addition commutes on the whole curve |
| `PublicKeyCodec.ParsedPointOnCurve` | internal/infrastructure/walletkeys/secp256k1.go:127-154 | whatever bytes are accepted, the parsed point is reduced and on the curve, without assuming p prime |
| `PublicKeyCodec.ParsedShape` | internal/infrastructure/walletkeys/secp256k1.go:128-137 | accepted bytes are 33 long with prefix 2 or 3 and a reduced abscissa |
| `PublicKeyCodec.SerializeRestores` | internal/infrastructure/walletkeys/secp256k1.go:156-174 | for any odd modulus, re-serializing an accepted key restores its bytes exactly when y is nonzero or the prefix is the even one |
| `PublicKeyCodec.SerializeRestoresForP` | internal/infrastructure/walletkeys/secp256k1.go:127-174 | the same condition for the program's own modulus, whose coordinates fit 32 bytes |
| `PublicKeyCodec.PFitsThirtyTwoBytes` | internal/infrastructure/walletkeys/secp256k1.go:8-9 | the modulus is 2^256 − 2^32 − 977, so coordinates fit 32 bytes |
| `PrimeField.Fermat` | internal/infrastructure/walletkeys/secp256k1.go:142 | the parser's power function gives a^(p−1) = 1 for every nonzero a, where every nonzero residue has an inverse |
| `PrimeField.ParseAcceptsSerialized` | internal/infrastructure/walletkeys/secp256k1.go:127-174 | for p = 3 modulo 4 the bytes a curve point is serialized to are accepted, with its abscissa and parity, if its ordinate satisfies y^(p−1) = 1 |
| `PrimeField.ParseRestores` | internal/infrastructure/walletkeys/secp256k1.go:127-174 | where every nonzero residue has an inverse and p = 3 modulo 4, parsing the serialized point returns it, for every affine curve point |
| `Bech32.Polymod` | internal/infrastructure/walletkeys/bech32.go:18-30 | the checksum loop computes the remainder of the whole byte sequence |
| `Bech32.ExpandHrp` | internal/infrastructure/walletkeys/bech32.go:32-42 | the two loops give the high three bits of each character, a zero, and the low five bits: 32·high + low is the character |
| `Bech32.ExpansionUnique` | internal/infrastructure/walletkeys/bech32.go:32-42 | only one sequence has that shape |
| `Bech32Polynomial.RemainderIsPolynomial` | internal/infrastructure/walletkeys/bech32.go:10-30 | the register holds the remainder of dividing by one polynomial of degree six over GF(32): the taps are that polynomial's multiples |
| `Bech32.CreateChecksum` | internal/infrastructure/walletkeys/bech32.go:44-54 | for every expansion of the prefix as BIP-173 defines it, the result is the only six symbols that bring the register to 1 after expansion and data |
| `Bech32.PolynomialIsLinear` | internal/infrastructure/walletkeys/bech32.go:18-30 | the step is linear over exclusive or: shift, top bits and the five generator taps |
| `LinearRegister.Register.FeedLinear` | internal/infrastructure/walletkeys/bech32.go:18-30 | feeding the exclusive or of two sequences gives the exclusive or of the states |
| `Bech32.ChecksumVerifies` | internal/infrastructure/walletkeys/bech32.go:18-54 | the polymod of expanded hrp, data and checksum is 1, for every hrp and data |
| `LinearRegister.Register.BurstLeavesTrace` | internal/infrastructure/walletkeys/bech32.go:18-30 | a nonzero burst of six symbols leaves a nonzero state, because the zero-input step is injective on 30-bit states |
| `Bech32.BurstDetected` | internal/infrastructure/walletkeys/bech32.go:18-54 | sequences of any length that differ only inside six consecutive symbols have equal remainders exactly when they are equal |
| `Bech32.ChecksumUnique` | internal/infrastructure/walletkeys/bech32.go:44-54 | the checksum is the only six-symbol suffix that verifies |
| `Bech32.CorruptionRejected` | internal/infrastructure/walletkeys/bech32.go:18-54 | changing symbols inside one six-symbol window of data plus checksum makes the polymod differ from 1 |
| `BitGroups.ConvertBits` | internal/infrastructure/walletkeys/bech32.go:79-108 | the loop with its wrapping 64-bit accumulator equals regrouping the number the input denotes, including both error branches |
| `BitGroups.WrapHarmless` | internal/infrastructure/walletkeys/bech32.go:80-98 | symbols read below bit 64 of a wrapped accumulator are those of the true one |
| `BitGroups.RoundTrip` | internal/infrastructure/walletkeys/bech32.go:79-108 | regrouping down with padding and back without succeeds and returns the input; the middle length is the ceiling of bits over width |
| `BitGroups.RoundTripBack` | internal/infrastructure/walletkeys/bech32.go:79-108 | regrouping up without padding, when accepted, is undone by regrouping down with padding |
| `BitGroups.SegWitRoundTrip` | internal/infrastructure/walletkeys/bech32.go:79-124 | 8 to 5 bits padded, then 5 to 8 unpadded, returns every witness program; the middle length is ceil(8n/5) |
| `SegWitAddress.EncodesExactly` | internal/infrastructure/walletkeys/bech32.go:110-124 | the address is the lower-cased hrp, a `1`, and the characters of version, program symbols and checksum, and is refused exactly when the code refuses |
| `SegWitAddress.AddressVerifies` | internal/infrastructure/walletkeys/bech32.go:110-124 | the symbols of every encoded address verify |
| `SegWitAddress.AddressIdentifiesProgram` | internal/infrastructure/walletkeys/bech32.go:110-124 | for one hrp, equal addresses come from equal versions and programs |
| `SegWitAddress.CharsetIsLegible` | internal/infrastructure/walletkeys/bech32.go:8 | the 32 characters are the lower-case letters and digits without 1, b, i and o |
| `SegWitAddress.LowerTwice` | internal/infrastructure/walletkeys/bech32.go:61 | lower-casing leaves lower-case text alone |
| `Base58.DecodeLoop` | internal/infrastructure/walletkeys/base58check.go:23-52 | the decoding loop agrees with decoding as a number with one zero byte per leading `1`, including refused characters and the empty input |
| `Base58.EncodeLoop` | internal/infrastructure/walletkeys/base58check.go:54-73 | repeated division and reversal agree with encoding as a number with one `1` per leading zero byte |
| `Base58.ReverseInPlace` | internal/infrastructure/walletkeys/base58check.go:68-70 | swapping from both ends reverses the buffer |
| `Base58.DecodeEncode` | internal/infrastructure/walletkeys/base58check.go:23-73 | decoding an encoding returns the bytes, leading zeros included |
| `Base58.EncodeDecode` | internal/infrastructure/walletkeys/base58check.go:23-73 | encoding an accepted decoding returns the text, leading `1`s included |
| `Base58.EncodesWithDoubleHash` | internal/infrastructure/walletkeys/base58check.go:94-106 | Base58Check encoding is the Base58 text of the payload and the first four bytes of its double SHA-256 |
| `Base58.AcceptsExactly` | internal/infrastructure/walletkeys/base58check.go:75-106 | a text decodes to a payload exactly when it is the Base58 text of the payload followed by those four bytes |
| `Base58.RefusesExactly` | internal/infrastructure/walletkeys/base58check.go:75-92 | which of the three errors every other text gets |
| `Base58.AlphabetIsLegible` | internal/infrastructure/walletkeys/base58check.go:16 | the alphabet is the ASCII digits and letters without 0, O, I and l |
| `Base58.CheckDecodeEncode` | internal/infrastructure/walletkeys/base58check.go:75-106 | Base58Check decoding returns every encoded payload |
| `Base58.CheckEncodeDecode` | internal/infrastructure/walletkeys/base58check.go:75-106 | Base58Check encoding restores every accepted text |
| `ExtendedKey.ParseSerialize` | internal/infrastructure/walletkeys/bip32.go:23-69 | parsing a serialized key returns it exactly when its version is known and its public key is accepted |
| `ExtendedKey.SerializeParse` | internal/infrastructure/walletkeys/bip32.go:23-69 | serializing an accepted key restores the text up to surrounding white space |
| `ExtendedKey.PayloadLayout` | internal/infrastructure/walletkeys/bip32.go:57-67 | where each field stands: version, depth, parent fingerprint and child number at bytes 0, 4, 5 and 9, big-endian, chain code at 13, key at 45 |
| `ExtendedKey.SerializedLayout` | internal/infrastructure/walletkeys/bip32.go:57-69 | a serialized key is the Base58Check text of the only 78 bytes with that layout |
| `ExtendedKey.ParseAccepts` | internal/infrastructure/walletkeys/bip32.go:23-55 | a payload is accepted exactly when it has 78 bytes, one of the three version words and an acceptable public key, and its layout is the key returned |
| `ExtendedKey.BitcoinNormalizes` | internal/infrastructure/walletkeys/bip32.go:71-86 | tpub and vpub keys, and only they, come out unchanged but for the tpub version; every other outcome is the parser's error or the wrong-network one |
| `ExtendedKey.EVMNormalizes` | internal/infrastructure/walletkeys/bip32.go:88-103 | the same for xpub and tpub keys and the xpub version |
| `ExtendedKey.BitcoinNormalForm` | internal/infrastructure/walletkeys/bip32.go:71-86 | Bitcoin normalization yields a tpub key, and normalizing its text again changes nothing |
| `ExtendedKey.EVMNormalForm` | internal/infrastructure/walletkeys/bip32.go:88-103 | EVM normalization yields an xpub key, and normalizing its text again changes nothing |
| `Ripemd160.Hasher.Write` | internal/infrastructure/walletkeys/ripemd160.go:44-71 | a write advances the abstract stream by its bytes: buffer, chaining state and wrapped length |
| `Ripemd160.LengthField` | internal/infrastructure/walletkeys/ripemd160.go:85-89 | byte i of the last eight padding bytes is the bit length modulo 2^64, divided by 256^i, modulo 256 |
| `Ripemd160.OutputWord` | internal/infrastructure/walletkeys/ripemd160.go:95-101 | byte 4j + i of the digest is word j divided by 256^i, modulo 256 |
| `Ripemd160.PaddingDetermined` | internal/infrastructure/walletkeys/ripemd160.go:76-89 | the padding is the only sequence of 0x80, zeros and that length field that ends on a block boundary within 72 bytes |
| `Ripemd160.InitialBytes` | internal/infrastructure/walletkeys/ripemd160.go:12-16 | the initial state, byte by byte |
| `Ripemd160.Hasher.CheckSum` | internal/infrastructure/walletkeys/ripemd160.go:73-104 | the digest of the stream so far; the receiver keeps its state and the check before the panic always passes |
| `Ripemd160.FeedConcat` | internal/infrastructure/walletkeys/ripemd160.go:44-71 | two writes are one write of the concatenation |
| `Ripemd160.SplitsAgree` | internal/infrastructure/walletkeys/ripemd160.go:44-71 | any split of a message into writes ends in the state of one write |
| `Ripemd160.FinishEmptiesBuffer` | internal/infrastructure/walletkeys/ripemd160.go:77-96 | padding ends on a block boundary, so the panic is unreachable |
| `Ripemd160.StreamingDigest` | internal/infrastructure/walletkeys/ripemd160.go:26-104 | for any chunks, finishing compresses exactly message, 0x80, zeros and the 8-byte little-endian bit length |
| `Ripemd160.PaddedLengths` | internal/infrastructure/walletkeys/ripemd160.go:77-92 | the padded length is a multiple of 64, for every message length |
| `Ripemd160.PaddingInjective` | internal/infrastructure/walletkeys/ripemd160.go:77-92 | below 2^61 bytes different messages are padded differently |
| `CanonicalJson.WriteCanonicalJson` | internal/application/use_cases/create_payment_request_hashing.go:63-141 | the recursive writer appends exactly the canonical text to the shared buffer |
| `StringOrder.AscendingUnique` | internal/application/use_cases/create_payment_request_hashing.go:100-105 | a set of keys has one ascending enumeration, so sorting erases map order |
| `StringOrder.LessExactly` | internal/application/use_cases/create_payment_request_hashing.go:105 | the order of the keys: at the first difference a string ends, or has the smaller character |
| `CanonicalJson.CanonInjective` | internal/application/use_cases/create_payment_request_hashing.go:63-141 | canonical texts followed by a delimiter are equal only if trees and remainders are |
| `CanonicalJson.CanonIsFaithful` | internal/application/use_cases/create_payment_request_hashing.go:63-141 | two trees write the same bytes exactly when they are equal with objects as unordered maps |
| `RequestHash.PayloadInjective` | internal/application/use_cases/create_payment_request_hashing.go:26-41 | requests with equal payloads agree in every field |
| `RequestHash.PayloadByName` | internal/application/use_cases/create_payment_request_hashing.go:26-41 | which names the payload has, and what stands under each |
| `RequestHash.RequestTextIsFaithful` | internal/application/use_cases/create_payment_request_hashing.go:26-61 | two requests have one canonical text exactly when they are equal, for any injective self-delimiting quoting |
| `JsonQuote.QuotedIsSelfDelimiting` | internal/application/use_cases/create_payment_request_hashing.go:74-79 | `json.Marshal`'s quoting of valid text is injective and self-delimiting |
| `JsonQuote.QuotedRequestIsFaithful` | internal/application/use_cases/create_payment_request_hashing.go:26-141 | with that quoting, two requests have one canonical text exactly when they are equal |
| `JsonReader.CanonIsJson` | internal/application/use_cases/create_payment_request_hashing.go:63-141 | a reader of compact JSON written from RFC 8259 reads the canonical text of every value back as the value, for any quoting it can read |
| `JsonUnquote.QuotedReads` | internal/application/use_cases/create_payment_request_hashing.go:74-79 | reading string literals as RFC 8259, section 7, defines them undoes the quoting, whatever follows |
| `JsonUnquote.RequestTextIsJson` | internal/application/use_cases/create_payment_request_hashing.go:26-61 | the text a request is hashed from reads back as its payload |
| `ReconcileDecision.DueExactly` | internal/adapters/outbound/persistence/postgresql/paymentrequest/reconciliation_repository.go:33-45 | pending and detected rows are always due, confirmed and reorged ones while their window lasts, expired and failed ones never |
| `ReconcileDecision.DecidesExactly` | internal/application/use_cases/reconcile_payment_requests_use_case.go:104-292 | for each status, exactly when it is written, by the stored status and streaks and the observation |
| `ReconcileDecision.StoresExactly` | internal/application/use_cases/reconcile_payment_requests_use_case.go:378-447 | which streaks and signal are written, for every outcome |
| `ReconcileDecision.TimesExactly` | internal/application/use_cases/reconcile_payment_requests_use_case.go:406-447 | which times of first confirmation and finality are written, for every outcome |
| `ReconcileDecision.SkipReachability` | internal/application/use_cases/reconcile_payment_requests_use_case.go:131-166 | some stored state that is claimed is also skipped exactly when the window is under a second |
| `ReconcileDecision.DecisionsFollowGraph` | internal/application/use_cases/reconcile_payment_requests_use_case.go:104-292 | every decision keeps the status or follows the reconciler's graph |
| `ReconcileDecision.FirstConfirmationKept` | internal/application/use_cases/reconcile_payment_requests_use_case.go:406-447 | observations keep the time of the first confirmation, promotions set it and finality, and reorgs clear finality |
| `ReconcileDecision.ConfirmationKeptExactly` | internal/application/use_cases/reconcile_payment_requests_use_case.go:181-222 | a cycle on a due confirmed request keeps the time of first confirmation exactly when it is an observation |
| `ReconcileProtocol.RunKeepsShape` | internal/application/use_cases/reconcile_payment_requests_use_case.go:378-447 | over any interleaving: finality only after a confirmation, no times before the first one, and at most one streak, the one the signal names |
| `ReconcileTable.PaymentRequests.ClaimOpenForReconciliation` | internal/adapters/outbound/persistence/postgresql/paymentrequest/reconciliation_repository.go:18-187 | leases exactly the first due, unleased and unlocked rows, returns them as read, leaves the others, and is the claim step of those rows |
| `Claims.ClaimRows` | internal/adapters/outbound/persistence/postgresql/paymentrequest/reconciliation_repository.go:26-56 | one pass over the rows in order leases the first eligible ones up to the limit |
| `Claims.TakesTheFirst` | internal/adapters/outbound/persistence/postgresql/paymentrequest/reconciliation_repository.go:26-48 | at most `limit` eligible rows are taken, in the query's order, and an eligible one is passed over only for that many rows before it |
| `ReconcileTable.PaymentRequests.TransitionStatusIfCurrent` | internal/adapters/outbound/persistence/postgresql/paymentrequest/reconciliation_repository.go:643-801 | writes status, metadata and events exactly when the guard holds, and nothing otherwise |
| `ReconcileProtocol.FaithfulEventLog` | internal/adapters/outbound/persistence/postgresql/paymentrequest/reconciliation_repository.go:652-748 | over any interleaving a request's events chain from `pending` along the graph and end in the row's status; none if not announced |
| `ReconcileProtocol.ExpiredIsAbsorbing` | internal/adapters/outbound/persistence/postgresql/paymentrequest/reconciliation_repository.go:652-663 | an expired request never changes status and announces nothing more |
| `ReconcileProtocol.LeaseProtects` | internal/adapters/outbound/persistence/postgresql/paymentrequest/reconciliation_repository.go:47-57 | until its lease ends, an owner's row, snapshot and log stay as they are whatever others do |
| `ReconcileProtocol.HeldMeansUninterrupted` | internal/adapters/outbound/persistence/postgresql/paymentrequest/reconciliation_repository.go:661-663 | a write that passes the guard holds the lease exactly when nothing was committed since its claim |
| `ReconcileStreaks.HeldTailBacksTransition` | internal/application/use_cases/reconcile_payment_requests_use_case.go:244-265 | over any interleaving with windows of at least 1 s: promotion is the last of N consecutive confirmed observations, demotion without orphans of N unconfirmed ones, if the last N - 1 commits held their leases |
| `ReconcileStreaks.StreaksBackTransitions` | internal/application/use_cases/reconcile_payment_requests_use_case.go:244-265 | in particular every transition is backed when every write held its lease |
| `ReconcileStreaks.LapsedLeaseBreaksStreaks` | internal/adapters/outbound/persistence/postgresql/paymentrequest/reconciliation_repository.go:661-663 | one lost lease among those commits suffices: a run confirms right after a failed cycle although two confirmed cycles were required |
| `ReconcileCycles.ClaimHolds` | internal/adapters/outbound/persistence/postgresql/paymentrequest/reconciliation_repository.go:26-57 | from its claim until claim time plus lease duration, an owner's row, snapshot and log stay as they are whatever others do |
| `ReconcileCycles.ClaimExcludes` | internal/adapters/outbound/persistence/postgresql/paymentrequest/reconciliation_repository.go:26-57 | another worker can claim the row again exactly when that lease is over and the row is due |
| `ReconcileCycles.CycleWrites` | internal/application/use_cases/reconcile_payment_requests_use_case.go:104-292 | a claim and the write that follows store the decision and free the row |
| `ReconcileCycles.OverdueExpires` | internal/application/use_cases/reconcile_payment_requests_use_case.go:104-130 | a claimed request that waits for payment expires exactly when its time is up, whatever is observed |
| `ReconcileCycles.DetectionIsRecorded` | internal/application/use_cases/reconcile_payment_requests_use_case.go:263-265 | a pending request becomes detected exactly when a payment is observed that does not confirm it |
| `ReconcileCycles.OrphanReorgsAtOnce` | internal/application/use_cases/reconcile_payment_requests_use_case.go:244-249 | one observation that orphans evidence reorgs a due confirmed request at once |
| `ReconcileCycles.EnoughRoundsConfirm` | internal/application/use_cases/reconcile_payment_requests_use_case.go:250-261 | uninterrupted confirmed cycles keep the status until exactly the missing number is complete, and then confirm the request |
| `ReconcileCycles.EnoughRoundsReorg` | internal/application/use_cases/reconcile_payment_requests_use_case.go:244-249 | uninterrupted unconfirmed cycles without orphans keep a request confirmed until exactly the missing number is complete, and then reorg it |
| `ReconcileWindow.StoredTimeIsLineage` | internal/application/use_cases/reconcile_payment_requests_use_case.go:406-447 | over any interleaving, late writes included, row and snapshots hold the time of first confirmation their chain of commits gives |
| `ReconcileWindow.StoredTimeIsFirstConfirmation` | internal/application/use_cases/reconcile_payment_requests_use_case.go:406-447 | with leases held since the last forgetting commit, the stored time is that of the first confirming commit since |
| `ReconcileWindow.TimeOfOpening` | internal/application/use_cases/reconcile_payment_requests_use_case.go:406-447 | the commit that opened the window gives the time exactly until a failed or unsupported cycle is committed |
| `ReconcileWindow.WindowClosesExactly` | internal/adapters/outbound/persistence/postgresql/paymentrequest/reconciliation_repository.go:33-45 | a confirmed request is due up to the end of the window its opening commit gives, and no longer, exactly when nothing has been forgotten since |
| `ReconcileWindow.SkipReachedExactly` | internal/application/use_cases/reconcile_payment_requests_use_case.go:131-166 | runs with one window reach the branch that skips a confirmed request exactly when that window is under a second |
| `ReconcileTable.RowsRunAlone` | internal/adapters/outbound/persistence/postgresql/paymentrequest/reconciliation_repository.go:652-664 | in any run over the table each row goes through a run of its own steps |
| `ReconcileTable.TableEventLog` | internal/adapters/outbound/persistence/postgresql/paymentrequest/reconciliation_repository.go:652-748 | the event log is faithful for every request of every reachable table, each with its own webhook URL |
| `ReconcileTable.TableStreaks` | internal/application/use_cases/reconcile_payment_requests_use_case.go:244-265 | the same for every transition of every request of every reachable table, from its own last N - 1 commits |
| `ReconcileTable.TableWindow` | internal/adapters/outbound/persistence/postgresql/paymentrequest/reconciliation_repository.go:33-45 | the window closes exactly, for every request of every reachable table |
| `ReconcileTable.PaymentRequests.ReconcileRow` | internal/application/use_cases/reconcile_payment_requests_use_case.go:104-292 | deciding on a claimed row and writing it is the write step of that row, in whatever run holds the tables |
| `Evidence.SettlementTable.SyncObservedSettlements` | internal/adapters/outbound/persistence/postgresql/paymentrequest/reconciliation_repository.go:189-529 | the merge loop with its unread-back copy, the orphaning statement and the counts do what the specification of one sync says |
| `Evidence.SyncResult` | internal/adapters/outbound/persistence/postgresql/paymentrequest/reconciliation_repository.go:334-500 | afterwards the references are old and observed ones, a row keeps its last mention as the database reads it back, is canonical exactly when that says so, and first-seen times survive |
| `Evidence.SyncedRow` | internal/adapters/outbound/persistence/postgresql/paymentrequest/reconciliation_repository.go:336-432 | what the row of an observed reference holds, field by field, by the last settlement that names it: trimmed, confirmations not negative, amount as read back |
| `Evidence.UnnamedRow` | internal/adapters/outbound/persistence/postgresql/paymentrequest/reconciliation_repository.go:434-500 | a reference the batch does not name gets no row, and an old one is orphaned and otherwise kept |
| `Evidence.SyncedStamps` | internal/adapters/outbound/persistence/postgresql/paymentrequest/reconciliation_repository.go:371-431 | a row is stamped exactly when what the batch always says of it is not what it held |
| `Text.TrimSpaceExact` | internal/adapters/outbound/persistence/postgresql/paymentrequest/reconciliation_repository.go:337-338 | trimming removes white space at both ends, all of it and nothing else |
| `Evidence.SyncSummary` | internal/adapters/outbound/persistence/postgresql/paymentrequest/reconciliation_repository.go:435-529 | newly orphaned counts the previously canonical references the batch omits; canonical and non-canonical counts sum to the rows |
| `Evidence.SyncTwice` | internal/adapters/outbound/persistence/postgresql/paymentrequest/reconciliation_repository.go:189-529 | repeating a batch changes no content and orphans nothing |
| `Evidence.ConsistentSyncTwice` | internal/adapters/outbound/persistence/postgresql/paymentrequest/reconciliation_repository.go:189-529 | repeating a batch that never contradicts itself, at another time, changes nothing, time stamps included, exactly when its amounts are in read-back form |
| `Outbox.Repository.ClaimPendingForDispatch` | internal/adapters/outbound/persistence/postgresql/webhookoutbox/repository.go:25-108 | leases exactly the first due, unleased, non-blank rows and returns their attempts and limits |
| `Outbox.Repository.MarkDelivered` | internal/adapters/outbound/persistence/postgresql/webhookoutbox/repository.go:110-130 | marks delivered exactly when pending and unleased or leased by the caller |
| `Outbox.Repository.MarkRetry` | internal/adapters/outbound/persistence/postgresql/webhookoutbox/repository.go:132-165 | records attempts and next attempt time under the same guard, releasing the lease |
| `Outbox.Repository.MarkFailed` | internal/adapters/outbound/persistence/postgresql/webhookoutbox/repository.go:167-198 | records the failure under the same guard |
| `Outbox.Repository.RenewLease` | internal/adapters/outbound/persistence/postgresql/webhookoutbox/repository.go:200-225 | extends the lease exactly when pending and leased by the caller |
| `Outbox.Repository.RequeueFailed` | internal/adapters/outbound/persistence/postgresql/webhookoutbox/repository.go:227-272 | makes a failed event pending with no attempts, and reports the status found |
| `Outbox.Repository.CancelEvent` | internal/adapters/outbound/persistence/postgresql/webhookoutbox/repository.go:274-318 | fails a pending or failed event, and reports the status found |
| `Outbox.Repository.MarkAfterSend` | internal/application/use_cases/dispatch_webhook_events_use_case.go:164-239 | after a send: deliver, fail at the effective limit, or retry |
| `Outbox.EffectiveMax` | internal/application/use_cases/dispatch_webhook_events_use_case.go:422-432 | the smaller of the row's limit and budget plus one; a budget of zero or less does not count |
| `Outbox.PendingHasAttemptsLeft` | internal/adapters/outbound/persistence/postgresql/webhookoutbox/repository.go:116-308 | over any interleaving every pending event has attempts below its maximum |
| `Outbox.DeliveredIsAbsorbing` | internal/adapters/outbound/persistence/postgresql/webhookoutbox/repository.go:116-308 | a delivered row is never changed again |
| `Outbox.LeaseProtects` | internal/adapters/outbound/persistence/postgresql/webhookoutbox/repository.go:32-60 | while a lease runs, no other dispatcher and no requeue can touch the row |
| `Outbox.ClaimProtects` | internal/adapters/outbound/persistence/postgresql/webhookoutbox/repository.go:32-60 | from a successful claim until the end it asked for the row is the claimer's, pending with the attempts it was claimed with, whatever others do |
| `Outbox.RenewalProtects` | internal/adapters/outbound/persistence/postgresql/webhookoutbox/repository.go:200-225 | a renewal by the holder moves that end, and the row stays the holder's until then |
| `Outbox.LeaseEnds` | internal/adapters/outbound/persistence/postgresql/webhookoutbox/repository.go:32-40 | after a claim or a renewal the row can be claimed again exactly from the end of the lease on |
| `Outbox.SuccessIsFinal` | internal/adapters/outbound/persistence/postgresql/webhookoutbox/repository.go:110-130 | a successful send marked in time delivers the event, and nothing changes the row after that |
| `Outbox.LateMarkIsIgnored` | internal/adapters/outbound/persistence/postgresql/webhookoutbox/repository.go:110-198 | a mark on a settled row, or on one leased to another, changes nothing |
| `Outbox.RequeueRevives` | internal/adapters/outbound/persistence/postgresql/webhookoutbox/repository.go:227-272 | a requeue makes exactly the failed events pending again, with all attempts back, claimable from the given time on |
| `Outbox.CancelExactly` | internal/adapters/outbound/persistence/postgresql/webhookoutbox/repository.go:274-318 | a cancel fails every event but the delivered ones and releases its lease, and leaves delivered ones alone |
| `Outbox.CancelHolds` | internal/adapters/outbound/persistence/postgresql/webhookoutbox/repository.go:274-318 | a cancelled event is failed and stays so until it is requeued |
| `Outbox.SendsBoundedByOverlaps` | internal/application/use_cases/dispatch_webhook_events_use_case.go:128-239 | over any interleaving, sends since the last requeue are at most the effective maximum times one plus the claims that found a dispatcher in flight |
| `Outbox.SendsBounded` | internal/application/use_cases/dispatch_webhook_events_use_case.go:128-239 | with no lease lost, at most min(max_attempts, retry_budget + 1) sends happen between requeues |
| `Outbox.FailedSendProgress` | internal/application/use_cases/dispatch_webhook_events_use_case.go:182-236 | each failed send under a held lease uses an attempt, fails the event exactly when none is left, and otherwise makes it claimable from the retry time on |
| `Outbox.OperatorActions` | internal/adapters/outbound/persistence/postgresql/webhookoutbox/repository.go:227-318 | a requeued event has all its attempts back and is claimable from then on; a cancelled one cannot be claimed, marked or renewed |
| `Outbox.LapsedLeaseOverruns` | internal/adapters/outbound/persistence/postgresql/webhookoutbox/repository.go:32-60 | one lapse doubles the sends of an event allowed one attempt, which meets the bound |
| `Backoff.ComputeRetryBackoff` | internal/application/use_cases/dispatch_webhook_events_use_case.go:403-420 | the doubling loop, int64 wrap-around included, equals its round-by-round specification |
| `Backoff.PromiseKeptExactly` | internal/application/use_cases/dispatch_webhook_events_use_case.go:403-420 | the loop returns min(initial·2^(attempts−1), max) for all attempts exactly when no doubling below the ceiling reaches 2^62 or more |
| `Backoff.WrappedWait` | internal/application/use_cases/dispatch_webhook_events_use_case.go:403-420 | the 64th wait of a 1 ns delay under the largest ceiling is negative |
| `Backoff.BackoffMonotone` | internal/application/use_cases/dispatch_webhook_events_use_case.go:403-420 | later attempts never wait less, and the delay stays in (0, max] |
| `Backoff.ProductFitsExactly` | internal/application/use_cases/dispatch_webhook_events_use_case.go:448-453 | the jitter product fits int64 for every base, digest and jitter exactly when max is at most (2^63−1)/20000 |
| `Backoff.JitteredDelayInBand` | internal/application/use_cases/dispatch_webhook_events_use_case.go:434-461 | up to that ceiling the jittered delay is in [1, max] and within the basis-point band of the base delay |
| `Backoff.JitteredDelayExact` | internal/application/use_cases/dispatch_webhook_events_use_case.go:434-485 | up to that ceiling the delay is the base delay times 10000 plus the offset in basis points, rounded down and kept in [1, max], the offset being the one number of the band the digest determines |
| `Observer.NewThresholdPolicy` | internal/adapters/outbound/chainobserver/devtest/threshold_policy.go:12-37 | detected ≤ confirmed ≤ 10000 basis points whatever the configuration; valid settings are kept, missing ones become the defaults, and others are capped |
| `Observer.NewConfirmationPolicy` | internal/adapters/outbound/chainobserver/devtest/confirmation_policy.go:10-50 | positive business minimums are kept and others become the defaults; finality minimums are kept unless missing or below them |
| `Observer.ThresholdIsCeiling` | internal/adapters/outbound/chainobserver/devtest/threshold_policy.go:47-58 | an amount reaches the threshold exactly when its basis points do, also for negative products |
| `Observer.ThresholdOrder` | internal/adapters/outbound/chainobserver/devtest/threshold_policy.go:39-58 | detected threshold ≤ confirmed threshold ≤ expected amount |
| `Observer.AggregateAmounts` | internal/adapters/outbound/chainobserver/devtest/evm_observer.go:293-317 | one loop computes the totals of canonical, non-negative evidence at the three depths |
| `Observer.ObserveSettlements` | internal/adapters/outbound/chainobserver/devtest/evm_observer.go:124-133 | the verdicts from the aggregated amounts and the two thresholds |
| `Observer.VerdictsOrdered` | internal/adapters/outbound/chainobserver/devtest/evm_observer.go:124-130 | finality implies confirmed, detected excludes confirmed, and each verdict is an exact basis-point comparison |
| `Observer.ConfirmationCountExact` | internal/adapters/outbound/chainobserver/devtest/evm_observer.go:441-461 | a block has k confirmations exactly when it and k−1 successors are mined |
| `Observer.TotalOfTransfers` | internal/adapters/outbound/chainobserver/devtest/evm_observer.go:160-317 | aggregating the reported evidence adds up exactly the canonical transfers buried deep enough |
| `Observer.ReportedAmountsAreNormal` | internal/adapters/outbound/chainobserver/devtest/evm_observer.go:160-291 | reported amounts read back from the numeric column as they were written |
| `Observer.ExtensionKeepsVerdicts` | internal/adapters/outbound/chainobserver/devtest/evm_observer.go:124-130 | extending the chain with the same canonical transfers revokes neither confirmed nor finality |
| `Decimal.ParsePrinted` | internal/adapters/outbound/chainobserver/devtest/evm_observer.go:299-303 | an amount printed and parsed after trimming is the amount |
| `Decimal.ParsedParts` | internal/adapters/outbound/chainobserver/devtest/evm_observer.go:299-303 | accepted amounts are one optional sign and decimal digits, nothing else, and have the value those denote |
| `WalletSync.SelectFindsHolder` | internal/adapters/outbound/persistence/postgresql/bootstrap/wallet_sync.go:402-438 | the sync selects the account holding the configured key whenever one exists, and opens a new one exactly otherwise |
| `WalletSync.SelectExactly` | internal/adapters/outbound/persistence/postgresql/bootstrap/wallet_sync.go:402-438 | which account is chosen: the active one if it has no hash or a configured one, else an inactive one with a configured hash, else a new one |
| `WalletSync.SyncResult` | internal/adapters/outbound/persistence/postgresql/bootstrap/wallet_sync.go:356-468 | exactly one account is active and it holds the key, hashed with the active secret; accounts keep keys and next indices, a new one starts at 0 |
| `WalletSync.SyncFailures` | internal/adapters/outbound/persistence/postgresql/bootstrap/wallet_sync.go:430-468 | a sync fails exactly when the new account's ID is taken or no asset leads to any of the accounts |
| `WalletSync.CatalogFollows` | internal/adapters/outbound/persistence/postgresql/bootstrap/wallet_sync.go:664-706 | a successful sync rebinds exactly the assets that led to the target's accounts |
| `WalletStore.Store.CollectCandidates` | internal/adapters/outbound/persistence/postgresql/bootstrap/wallet_sync.go:356-368 | the candidate loop collects active and legacy hashes in order without repeats |
| `WalletStore.Store.SyncWalletAccountTarget` | internal/adapters/outbound/persistence/postgresql/bootstrap/wallet_sync.go:348-468 | the statements of the transaction leave exactly the specified tables, and an error leaves the old ones |
| `WalletStore.Store.InsertPaymentRequest` | internal/adapters/outbound/persistence/postgresql/paymentrequest/repository.go:417-511 | inserts exactly when ID, address and derivation slot are all free |
| `WalletStore.Store.BumpNextIndex` | internal/adapters/outbound/persistence/postgresql/paymentrequest/repository.go:568-602 | advances the index exactly when it is still the one read |
| `WalletStore.Store.AllocateRequest` | internal/adapters/outbound/persistence/postgresql/paymentrequest/repository.go:152-265 | lock, derive, insert and bump leave exactly the specified tables; the index conflict cannot happen |
| `WalletStore.Store.Create` | internal/adapters/outbound/persistence/postgresql/paymentrequest/repository.go:112-271 | run alone: a recorded slot replays its resource exactly when the request hash agrees and is a conflict otherwise; an unrecorded one stores a new request, or fails for a stated reason; the race is never lost |
| `Allocation.AllocateStores` | internal/adapters/outbound/persistence/postgresql/paymentrequest/repository.go:152-265 | an allocation succeeds exactly when the account is active, derivation works and ID, address, index and slot are free; what it stores, row by row |
| `Allocation.AllocateKeepsRequests` | internal/adapters/outbound/persistence/postgresql/paymentrequest/repository.go:152-265 | an allocation keeps every request on an account of its own key, below the next index, in increasing order |
| `Allocation.NextSlotIsFree` | internal/adapters/outbound/persistence/postgresql/paymentrequest/repository.go:152-186 | the counter never meets a slot already handed out |
| `WalletRuns.NoSlotIsReused` | internal/adapters/outbound/persistence/postgresql/paymentrequest/repository.go:152-265 | over any interleaving of syncs and creates no two committed requests share key material and derivation index |
| `WalletRuns.OneActiveAfterSync` | internal/adapters/outbound/persistence/postgresql/bootstrap/wallet_sync.go:356-468 | after each sync of any run exactly one account is active, holding the synced key |
| `WalletRuns.CreatesAreIdempotent` | internal/adapters/outbound/persistence/postgresql/paymentrequest/repository.go:112-271 | over any run each idempotency slot commits at most one request and every success for it returns that request, for one request hash |
| `WalletRuns.RetriesAreAnswered` | internal/adapters/outbound/persistence/postgresql/paymentrequest/repository.go:112-150 | once a slot is recorded, whatever happens later, every create that looks it up, first or after a lost race, gets the recorded resource exactly when its request hash is the recorded one, and a conflict exactly when it differs |
| `WalletRuns.CommitStores` | internal/adapters/outbound/persistence/postgresql/paymentrequest/repository.go:152-265 | a commit that answers with a resource has just stored it under its slot with its own request hash |
| `WalletRuns.LoserFindsRecord` | internal/adapters/outbound/persistence/postgresql/paymentrequest/repository.go:229-247 | a create that loses the insert race always finds the winner's record |
| `WalletRuns.IndicesAreDense` | internal/adapters/outbound/persistence/postgresql/paymentrequest/repository.go:568-602 | an account starting empty at 0 hands out exactly 0 to next_index−1, each once, in commit order |
| `WalletRuns.ConflictMeansIdTaken` | internal/adapters/outbound/persistence/postgresql/paymentrequest/repository.go:487-493 | in reachable states the allocation conflict means a taken resource ID: index and address constraints never fire |
| `WalletRuns.DroppedSecretStalls` | internal/adapters/outbound/persistence/postgresql/bootstrap/wallet_sync.go:356-368 | dropping the secret of a stored hash gives the key a second account whose every create conflicts |

## Left out

- nil `big.Int` coordinates, uncompressed keys and child key derivation are not part of this model.
- PrimeField.ParseRestores: that P is prime, and so that its residues form a field, is not proved; neither is associativity of the group law.
- Secp256k1.FieldInv: modelled as any reduced inverse, not as the algorithm of `ModInverse`.
- PublicKeyCodec.SerializeRestoresForP: does not show that its exception is empty for P, which has no cube root of -7; that needs P prime.
- RIPEMD-160 rounds and tables: the block function is a parameter.
- SegWitAddress.EncodesExactly: lower-casing of the hrp is for ASCII bytes only.
- Text is valid Unicode; invalid UTF-8 and the replacement character are not modelled, so JsonQuote.QuotedIsSelfDelimiting does not cover them.
- CanonicalJson.WriteCanonicalJson: the fall-through branch that re-encodes other Go types, and the float formats, are not modelled; a number is its literal.
- StringOrder.Sort: an insertion sort stands for the library's; keys are compared by code point, which for valid text is the order of their UTF-8 bytes.
- SHA-256 of the canonical text: the request hash is compared, not computed.
- Reconciliation steps: the loop of `Execute` appears as separate claim and write steps of each worker; counters, logging and early returns on store errors are left out (a worker may simply never write).
- ReconcileWindow.SkipReachedExactly: times are integers; rounding to microseconds in the database and JSON time parsing are not modelled, and stored reconciliation metadata is always of the form this code writes.
- Evidence.SettlementTable.SyncObservedSettlements: amounts the numeric column refuses abort the transaction and are left out, and metadata is compared as its canonical text.
- Outbox.SendsBounded: all dispatchers share one retry budget; heartbeat timing is arbitrary renewals, and error texts and time stamps of rows are left out.
- Backoff.JitteredDelayInBand: the digest is any 32-bit value; FNV itself is left out.
- Observer: the Bitcoin observer, JSON-RPC decoding and the nil expected amount are left out; an observation's transfers are an input.
- WalletSync.SyncResult: one target (chain, network and keyset) is modelled; sync events, match sources and the index-zero preflight are left out.
- WalletStore.Store.InsertPaymentRequest: column checks other than the unique constraints are left out, and response formatting of addresses is the identity.
- Claims.TakesTheFirst: the order of the rows (created_at, id) is an input of the claim.
- WalletStore.Store.Create: the `Replayed` flag and the stored JSON of the resource are left out; a record holds the resource itself.
- JsonReader.CanonIsJson: the reader takes a number literal as it stands and knows no white space, which the canonical text never has.
- Row locks are atomicity of the transaction; serialization and connection failures are a step that abandons the worker.
- HTTP, configuration parsing, alerting, read models and metrics would only add easy members.
