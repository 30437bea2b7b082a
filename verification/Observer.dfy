/**
 The EVM observer's decision: thresholds and confirmation minimums from the
 policy constructors, amounts aggregated over settlement evidence, and the
 detected, confirmed and finality verdicts.
 */
module Observer {
  import opened Common
  import opened Decimal
  import opened Evidence
  import opened Radix
  import opened Text

  const BASIS: int := 10000
  const MAX_INT: int := 0x7FFF_FFFF_FFFF_FFFF

  // ------------------------------------------------------------------ policies

  datatype ThresholdPolicy = ThresholdPolicy(detectedBps: int, confirmedBps: int)

  function NewThresholdPolicy(rawDetected: int, rawConfirmed: int, defaultDetected: int, defaultConfirmed: int)
    : (p: ThresholdPolicy)
    ensures p.detectedBps <= p.confirmedBps <= BASIS
    ensures defaultDetected > 0 && defaultConfirmed > 0 ==> p.detectedBps > 0
    ensures 0 < rawDetected <= rawConfirmed <= BASIS ==> p == ThresholdPolicy(rawDetected, rawConfirmed)
    ensures p.confirmedBps == BASIS
            || p.confirmedBps == rawConfirmed > 0 || (rawConfirmed <= 0 && p.confirmedBps == defaultConfirmed)
    ensures p.confirmedBps == BASIS ==> (if rawConfirmed > 0 then rawConfirmed else defaultConfirmed) >= BASIS
    ensures p.detectedBps == p.confirmedBps
            || p.detectedBps == rawDetected > 0 || (rawDetected <= 0 && p.detectedBps == defaultDetected)
    ensures p.detectedBps == p.confirmedBps ==>
              (if rawDetected > 0 then rawDetected else defaultDetected) >= p.confirmedBps
  {
    var detected := if rawDetected <= 0 then defaultDetected else rawDetected;
    var wanted := if rawConfirmed <= 0 then defaultConfirmed else rawConfirmed;
    var confirmed := if wanted > BASIS then BASIS else wanted;
    ThresholdPolicy(if detected > confirmed then confirmed else detected, confirmed)
  }

  datatype ConfirmationPolicy = ConfirmationPolicy(
    btcBusinessMin: int, btcFinalityMin: int, evmBusinessMin: int, evmFinalityMin: int)

  /** A missing finality minimum, or one below the business minimum, becomes the business minimum. */
  function FinalityMin(raw: int, businessMin: int): (finality: int)
    ensures finality >= businessMin
    ensures finality == raw || finality == businessMin
    ensures raw > 0 && raw >= businessMin ==> finality == raw
  {
    var finality := if raw <= 0 then businessMin else raw;
    if finality < businessMin then businessMin else finality
  }

  function NewConfirmationPolicy(rawBtcBusiness: int, rawBtcFinality: int, rawEvmBusiness: int, rawEvmFinality: int,
                                 defaultBtc: int, defaultEvm: int): (p: ConfirmationPolicy)
    ensures p.btcBusinessMin <= p.btcFinalityMin && p.evmBusinessMin <= p.evmFinalityMin
    ensures defaultBtc > 0 && defaultEvm > 0 ==> p.btcBusinessMin > 0 && p.evmBusinessMin > 0
    ensures rawBtcBusiness > 0 ==> p.btcBusinessMin == rawBtcBusiness
    ensures rawEvmBusiness > 0 ==> p.evmBusinessMin == rawEvmBusiness
    ensures rawBtcBusiness <= 0 ==> p.btcBusinessMin == defaultBtc
    ensures rawEvmBusiness <= 0 ==> p.evmBusinessMin == defaultEvm
    ensures rawBtcFinality > 0 && rawBtcFinality >= p.btcBusinessMin ==> p.btcFinalityMin == rawBtcFinality
    ensures rawEvmFinality > 0 && rawEvmFinality >= p.evmBusinessMin ==> p.evmFinalityMin == rawEvmFinality
    ensures rawBtcFinality <= 0 || rawBtcFinality < p.btcBusinessMin ==> p.btcFinalityMin == p.btcBusinessMin
    ensures rawEvmFinality <= 0 || rawEvmFinality < p.evmBusinessMin ==> p.evmFinalityMin == p.evmBusinessMin
  {
    var btc := if rawBtcBusiness <= 0 then defaultBtc else rawBtcBusiness;
    var evm := if rawEvmBusiness <= 0 then defaultEvm else rawEvmBusiness;
    ConfirmationPolicy(btc, FinalityMin(rawBtcFinality, btc), evm, FinalityMin(rawEvmFinality, evm))
  }

  /** `bps` basis points of `expected`, from a quotient truncated toward zero. */
  function ThresholdAmount(expected: int, bps: int): int {
    var product := expected * bps;
    var quotient := if product >= 0 then product / BASIS else -((-product) / BASIS);
    if product - quotient * BASIS > 0 then quotient + 1 else quotient
  }

  /** The threshold is the exact ceiling: an amount reaches it just when its basis points do. */
  lemma ThresholdIsCeiling(expected: int, bps: int, amount: int)
    ensures amount >= ThresholdAmount(expected, bps) <==> amount * BASIS >= expected * bps
  {
    var product := expected * bps;
    DivModIdentity(if product >= 0 then product else -product, BASIS);
  }

  /** The detected threshold never exceeds the confirmed one, nor that the expected amount. */
  lemma ThresholdOrder(expected: nat, p: ThresholdPolicy)
    requires p.detectedBps <= p.confirmedBps <= BASIS
    ensures ThresholdAmount(expected, p.detectedBps) <= ThresholdAmount(expected, p.confirmedBps) <= expected
  {
    MulMono(p.detectedBps, p.confirmedBps, expected);
    MulMono(p.confirmedBps, BASIS, expected);
    ThresholdIsCeiling(expected, p.detectedBps, ThresholdAmount(expected, p.confirmedBps));
    ThresholdIsCeiling(expected, p.confirmedBps, ThresholdAmount(expected, p.confirmedBps));
    ThresholdIsCeiling(expected, p.confirmedBps, expected);
  }

  // --------------------------------------------------------------- aggregation

  /** The evidence that counts toward an amount: canonical, a non-negative number, and deep enough. */
  predicate Counts(s: Settlement, floor: Option<int>) {
    && s.canonical
    && ParseDecimal(TrimSpace(s.amountMinor)).Some? && ParseDecimal(TrimSpace(s.amountMinor)).value >= 0
    && (floor.None? || s.confirmations >= floor.value)
  }

  function Total(settlements: seq<Settlement>, floor: Option<int>): (total: nat) {
    if |settlements| == 0 then 0 else
      var s := settlements[|settlements| - 1];
      Total(settlements[..|settlements| - 1], floor)
      + if Counts(s, floor) then ParseDecimal(TrimSpace(s.amountMinor)).value else 0
  }

  method AggregateAmounts(settlements: seq<Settlement>, p: ConfirmationPolicy)
    returns (latest: int, confirmed: int, finality: int)
    ensures latest == Total(settlements, None)
    ensures confirmed == Total(settlements, Some(p.evmBusinessMin))
    ensures finality == Total(settlements, Some(p.evmFinalityMin))
  {
    latest, confirmed, finality := 0, 0, 0;
    for n := 0 to |settlements|
      invariant latest == Total(settlements[..n], None)
      invariant confirmed == Total(settlements[..n], Some(p.evmBusinessMin))
      invariant finality == Total(settlements[..n], Some(p.evmFinalityMin))
    {
      assert settlements[..n + 1][..n] == settlements[..n];
      var s := settlements[n];
      if !s.canonical {
        continue;
      }
      var amount := ParseDecimal(TrimSpace(s.amountMinor));
      if amount.None? || amount.value < 0 {
        continue;
      }
      latest := latest + amount.value;
      if s.confirmations >= p.evmBusinessMin {
        confirmed := confirmed + amount.value;
      }
      if s.confirmations >= p.evmFinalityMin {
        finality := finality + amount.value;
      }
    }
    assert settlements[..|settlements|] == settlements;
  }

  /** A lower floor counts at least as much. */
  lemma {:induction false} TotalAntitone(settlements: seq<Settlement>, low: int, high: int)
    requires low <= high
    ensures Total(settlements, Some(high)) <= Total(settlements, Some(low)) <= Total(settlements, None)
  {
    if |settlements| == 0 {
    } else {
      TotalAntitone(settlements[..|settlements| - 1], low, high);
    }
  }

  // ------------------------------------------------------------------ decision

  datatype Verdict = Verdict(detected: bool, confirmed: bool, finalityReached: bool)

  function Decide(settlements: seq<Settlement>, expected: int, t: ThresholdPolicy, c: ConfirmationPolicy): Verdict {
    var required := ThresholdAmount(expected, t.confirmedBps);
    var confirmed := Total(settlements, Some(c.evmBusinessMin)) >= required;
    Verdict(
      !confirmed && Total(settlements, None) >= ThresholdAmount(expected, t.detectedBps),
      confirmed,
      Total(settlements, Some(c.evmFinalityMin)) >= required)
  }

  /** `Observe` once the settlements are known. */
  method ObserveSettlements(settlements: seq<Settlement>, expected: int, t: ThresholdPolicy, c: ConfirmationPolicy)
    returns (v: Verdict, observedAmount: int)
    ensures v == Decide(settlements, expected, t, c)
    ensures observedAmount == Total(settlements, None)
  {
    var latest, confirmedAmount, finalityAmount := AggregateAmounts(settlements, c);
    var confirmedRequired := ThresholdAmount(expected, t.confirmedBps);
    var detectedRequired := ThresholdAmount(expected, t.detectedBps);
    var confirmed := confirmedAmount >= confirmedRequired;
    var finalityReached := finalityAmount >= confirmedRequired;
    var detected := !confirmed && latest >= detectedRequired;
    v, observedAmount := Verdict(detected, confirmed, finalityReached), latest;
  }

  /**
   Under the constructors' policies: finality implies confirmed, an amount
   confirmed would also have been detected, and each verdict compares basis
   points exactly, without rounding.
   */
  lemma VerdictsOrdered(settlements: seq<Settlement>, expected: nat, t: ThresholdPolicy, c: ConfirmationPolicy)
    requires t.detectedBps <= t.confirmedBps <= BASIS && c.evmBusinessMin <= c.evmFinalityMin
    ensures var v := Decide(settlements, expected, t, c);
            && (v.finalityReached ==> v.confirmed)
            && !(v.detected && v.confirmed)
            && (v.detected || v.confirmed <==> Total(settlements, None) * BASIS >= expected * t.detectedBps)
            && (v.confirmed <==> Total(settlements, Some(c.evmBusinessMin)) * BASIS >= expected * t.confirmedBps)
            && (v.finalityReached <==> Total(settlements, Some(c.evmFinalityMin)) * BASIS >= expected * t.confirmedBps)
  {
    TotalAntitone(settlements, c.evmBusinessMin, c.evmFinalityMin);
    ThresholdOrder(expected, t);
    ThresholdIsCeiling(expected, t.detectedBps, Total(settlements, None));
    ThresholdIsCeiling(expected, t.confirmedBps, Total(settlements, Some(c.evmBusinessMin)));
    ThresholdIsCeiling(expected, t.confirmedBps, Total(settlements, Some(c.evmFinalityMin)));
  }

  // --------------------------------------------------------- a growing chain

  /** How deep a block lies, clamped to the range of int. */
  function ConfirmationCount(latest: Option<int>, block: Option<int>): (count: int)
    ensures 0 <= count <= MAX_INT
  {
    if latest.None? || block.None? then 0 else
      var diff := latest.value - block.value + 1;
      if diff < 0 then 0 else if diff > MAX_INT then MAX_INT else diff
  }

  /** A block has `k` confirmations exactly when it and `k - 1` successors are mined. */
  lemma ConfirmationCountExact(latest: int, block: int, k: int)
    requires 0 < k <= MAX_INT
    ensures ConfirmationCount(Some(latest), Some(block)) >= k <==> block + k <= latest + 1
  {
  }

  /** A transfer to the watched address, as a block or a log entry records it. */
  datatype Transfer = Transfer(ref: string, amount: int, block: int, removed: bool, hash: Option<string>)

  /** One transfer as evidence. */
  function Reported(t: Transfer, latest: int): Settlement
    requires t.amount > 0
  {
    Settlement(t.ref, DecimalText(t.amount), ConfirmationCount(Some(latest), Some(t.block)),
               Some(t.block), t.hash, !t.removed, "")
  }

  /** The evidence the scan of a chain with head `latest` reports, in chain order. */
  function Settle(transfers: seq<Transfer>, latest: int): seq<Settlement> {
    if |transfers| == 0 then [] else
      var front, t := Settle(transfers[..|transfers| - 1], latest), transfers[|transfers| - 1];
      if t.amount <= 0 then front else
        front + [Reported(t, latest)]
  }

  /** The evidence this observer reports is written the way the database reads it back. */
  lemma {:induction false} ReportedAmountsAreNormal(transfers: seq<Transfer>, latest: int)
    ensures Idempotent(ReadBack) && AmountsNormal(ReadBack, Settle(transfers, latest))
  {
    forall text
      ensures ReadBack(ReadBack(text)) == ReadBack(text)
    {
      ReadBackTwice(text);
    }
    if |transfers| == 0 {
    } else {
      var front, t := transfers[..|transfers| - 1], transfers[|transfers| - 1];
      ReportedAmountsAreNormal(front, latest);
      if t.amount > 0 { PrintedReadsBack(t.amount); }
    }
  }

  predicate Buried(t: Transfer, latest: int, floor: Option<int>) {
    t.amount > 0 && !t.removed && (floor.None? || ConfirmationCount(Some(latest), Some(t.block)) >= floor.value)
  }

  function Received(transfers: seq<Transfer>, latest: int, floor: Option<int>): (total: nat) {
    if |transfers| == 0 then 0 else
      var t := transfers[|transfers| - 1];
      Received(transfers[..|transfers| - 1], latest, floor) + if Buried(t, latest, floor) then t.amount else 0
  }

  lemma TotalSnoc(front: seq<Settlement>, s: Settlement, floor: Option<int>)
    ensures Total(front + [s], floor) ==
            Total(front, floor) + if Counts(s, floor) then ParseDecimal(TrimSpace(s.amountMinor)).value else 0
  {
    assert (front + [s])[..|front|] == front;
  }

  /** Aggregating the reported evidence adds up exactly the transfers buried deep enough. */
  lemma {:induction false} TotalOfTransfers(transfers: seq<Transfer>, latest: int, floor: Option<int>)
    ensures Total(Settle(transfers, latest), floor) == Received(transfers, latest, floor)
  {
    if |transfers| == 0 {
    } else {
      var front, t := transfers[..|transfers| - 1], transfers[|transfers| - 1];
      TotalOfTransfers(front, latest, floor);
      if t.amount > 0 {
        var settlement := Reported(t, latest);
        TotalSnoc(Settle(front, latest), settlement, floor);
        ReportedCounts(t, latest, floor);
      }
    }
  }

  lemma ReportedCounts(t: Transfer, latest: int, floor: Option<int>)
    requires t.amount > 0
    ensures Counts(Reported(t, latest), floor) <==> Buried(t, latest, floor)
    ensures ParseDecimal(TrimSpace(Reported(t, latest).amountMinor)) == Some(t.amount)
  {
    ParsePrinted(t.amount);
  }

  /** More blocks and more transfers never lower an amount. */
  lemma {:induction false} ReceivedGrows(transfers: seq<Transfer>, more: seq<Transfer>, latest: int, later: int,
                                         floor: Option<int>)
    requires latest <= later
    ensures Received(transfers, latest, floor) <= Received(transfers + more, later, floor)
  {
    if |more| > 0 {
      var all := transfers + more;
      assert all[..|all| - 1] == transfers + more[..|more| - 1];
      ReceivedGrows(transfers, more[..|more| - 1], latest, later, floor);
    } else if |transfers| > 0 {
      ReceivedGrows(transfers[..|transfers| - 1], [], latest, later, floor);
      assert transfers + more == transfers;
      assert transfers[..|transfers| - 1] + [] == transfers[..|transfers| - 1];
    } else {
      assert transfers + more == [];
    }
  }

  /** Extending the chain, with the transfers so far still canonical, revokes neither verdict. */
  lemma ExtensionKeepsVerdicts(transfers: seq<Transfer>, more: seq<Transfer>, latest: int, later: int,
                               expected: int, t: ThresholdPolicy, c: ConfirmationPolicy)
    requires latest <= later
    ensures var before, after := Decide(Settle(transfers, latest), expected, t, c),
                                 Decide(Settle(transfers + more, later), expected, t, c);
            && (before.confirmed ==> after.confirmed)
            && (before.finalityReached ==> after.finalityReached)
            && (before.detected ==> after.detected || after.confirmed)
  {
    var floors := [None, Some(c.evmBusinessMin), Some(c.evmFinalityMin)];
    forall i | 0 <= i < |floors|
      ensures Total(Settle(transfers, latest), floors[i]) <= Total(Settle(transfers + more, later), floors[i])
    {
      TotalOfTransfers(transfers, latest, floors[i]);
      TotalOfTransfers(transfers + more, later, floors[i]);
      ReceivedGrows(transfers, more, latest, later, floors[i]);
    }
    assert floors[0] == None && floors[1] == Some(c.evmBusinessMin) && floors[2] == Some(c.evmFinalityMin);
  }
}
