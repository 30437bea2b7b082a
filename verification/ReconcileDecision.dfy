/**
 The reconciler's decision for one claimed payment request: which status to
 write and which `reconciliation` object replaces the stored one.
 Times are integer ticks of one nanosecond.
 */
module ReconcileDecision {
  import opened Common

  datatype Status = Pending | Detected | Confirmed | Reorged | Expired | Failed

  datatype Signal = NoSignal | Promote | Demote

  /**
   The fields of `metadata.reconciliation` that later decisions read.  An
   absent object and one without these fields both read as `FRESH`.
   */
  datatype Stability = Stability(
    firstConfirmedAt: Option<int>,
    finalityAt: Option<int>,
    signal: Signal,
    promoteStreak: int,
    demoteStreak: int)

  const FRESH := Stability(None, None, NoSignal, 0, 0)

  const SECOND: int := 1_000_000_000

  /** What observing the chain came to, with the number of settlements that turned orphan. */
  datatype Outcome =
    | ObserveError
    | Unsupported
    | Observed(detected: bool, confirmed: bool, finality: bool, orphaned: nat)

  /** `Execute` refuses a lease duration, a window or a cycle count that is not positive. */
  datatype Command = Command(now: int, leaseDuration: int, window: int, cycles: int)

  datatype Cause = ByExpiry | BySkip | ByOutcome(outcome: Outcome)

  datatype Decision = Decision(target: Status, stability: Stability, cause: Cause)

  predicate Unsettled(status: Status) {
    status == Pending || status == Detected || status == Reorged
  }

  predicate ShouldExpire(status: Status, now: int, expiresAt: int) {
    Unsettled(status) && !(expiresAt > now)
  }

  predicate ShouldSkip(status: Status, state: Stability, now: int, window: int) {
    && status == Confirmed && window > 0
    && state.firstConfirmedAt.Some? && state.finalityAt.Some?
    && !(now < state.firstConfirmedAt.value + window)
  }

  function NextStability(state: Stability, signal: Signal): Stability {
    match signal
    case Promote =>
      state.(promoteStreak := if state.signal == Promote then state.promoteStreak + 1 else 1,
             demoteStreak := 0, signal := Promote)
    case Demote =>
      state.(demoteStreak := if state.signal == Demote then state.demoteStreak + 1 else 1,
             promoteStreak := 0, signal := Demote)
    case NoSignal => state.(promoteStreak := 0, demoteStreak := 0, signal := NoSignal)
  }

  /** The signal an observation gives in a status. */
  function SignalOf(status: Status, confirmed: bool, orphaned: nat): Signal {
    if status == Confirmed && (!confirmed || orphaned > 0) then Demote
    else if confirmed && Unsettled(status) then Promote
    else NoSignal
  }

  /** `buildObservationMetadata`: `reason` says whether a transition reason is set. */
  function BuildObservation(now: int, confirmed: bool, finality: bool, orphaned: nat, state: Stability,
                            status: Status, reason: bool, nextIsConfirmed: bool, nextIsReorged: bool): Stability
  {
    var next := NextStability(state, if reason then NoSignal else SignalOf(status, confirmed, orphaned));
    var first := if next.firstConfirmedAt.None? then Some(now) else next.firstConfirmedAt;
    if nextIsConfirmed then
      next.(firstConfirmedAt := first, finalityAt := if finality then Some(now) else next.finalityAt)
    else if nextIsReorged then
      next.(finalityAt := None)
    else if status == Confirmed && confirmed then
      next.(firstConfirmedAt := first,
            finalityAt := if finality && next.finalityAt.None? then Some(now) else next.finalityAt)
    else next
  }

  /** The status switch of `Execute`. */
  function Target(status: Status, state: Stability, detected: bool, confirmed: bool, orphaned: nat, cycles: int): Status {
    if status == Confirmed && (!confirmed || orphaned > 0) then
      if orphaned > 0 || NextStability(state, Demote).demoteStreak >= cycles then Reorged else status
    else if confirmed && Unsettled(status) then
      if NextStability(state, Promote).promoteStreak >= cycles then Confirmed else status
    else if detected && status == Pending then Detected
    else status
  }

  /** One iteration of the loop in `Execute`, up to the write it asks for. */
  function Decide(status: Status, state: Stability, expiresAt: int, c: Command, outcome: Outcome): Decision {
    if ShouldExpire(status, c.now, expiresAt) then
      Decision(Expired, FRESH, ByExpiry)
    else if ShouldSkip(status, state, c.now, c.window) then
      Decision(status, BuildObservation(c.now, false, false, 0, state, status, false, false, false), BySkip)
    else match outcome
      case ObserveError => Decision(status, FRESH, ByOutcome(outcome))
      case Unsupported => Decision(status, FRESH, ByOutcome(outcome))
      case Observed(detected, confirmed, finality, orphaned) =>
        var target := Target(status, state, detected, confirmed, orphaned, c.cycles);
        Decision(target,
                 BuildObservation(c.now, confirmed, finality, orphaned, state, status, target != status,
                                  target == Confirmed, target == Reorged),
                 ByOutcome(outcome))
  }

  // ------------------------------------------------------------------ claiming

  /** The window the claim query works with: whole seconds, at least one. */
  function WindowSeconds(window: int): (seconds: int)
    ensures if window < SECOND then seconds == 1 else seconds * SECOND <= window < (seconds + 1) * SECOND
  {
    if window / SECOND <= 0 then 1 else window / SECOND
  }

  /** The status and time conditions of the claim query. */
  predicate Due(status: Status, state: Stability, now: int, window: int) {
    || status == Pending || status == Detected
    || ((status == Confirmed || status == Reorged)
        && (state.firstConfirmedAt.None?
            || state.firstConfirmedAt.value + WindowSeconds(window) * SECOND > now))
  }

  /**
   The branch that skips a confirmed request can be reached from a claimed row
   exactly when the observe window is shorter than a second.
   */
  lemma SkipReachability(window: int)
    requires window > 0
    ensures (exists status, state, now :: Due(status, state, now, window) && ShouldSkip(status, state, now, window))
            <==> window < SECOND
  {
    if window < SECOND {
      var state := Stability(Some(0), Some(0), NoSignal, 0, 0);
      assert Due(Confirmed, state, window, window) && ShouldSkip(Confirmed, state, window, window);
    }
    forall status, state, now | Due(status, state, now, window) && ShouldSkip(status, state, now, window)
      ensures window < SECOND
    {
      if window >= SECOND { SkipUnreachable(status, state, now, window); }
    }
  }

  lemma SkipUnreachable(status: Status, state: Stability, now: int, window: int)
    requires Due(status, state, now, window) && window >= SECOND
    ensures !ShouldSkip(status, state, now, window)
  {
    assert WindowSeconds(window) * SECOND <= window;
  }

  /** Which rows are claimed: those waiting for payment always, settled ones while their window lasts, ended ones never. */
  lemma DueExactly(status: Status, state: Stability, now: int, window: int)
    ensures (status == Pending || status == Detected) ==> Due(status, state, now, window)
    ensures (status == Expired || status == Failed) ==> !Due(status, state, now, window)
    ensures (status == Confirmed || status == Reorged) ==>
              (Due(status, state, now, window)
               <==> state.firstConfirmedAt.None? || now < state.firstConfirmedAt.value + WindowSeconds(window) * SECOND)
  {
  }

  // --------------------------------------------------- each decision, both ways

  /** A request waiting for payment whose time is up. */
  predicate Overdue(status: Status, now: int, expiresAt: int) {
    (status == Pending || status == Detected || status == Reorged) && expiresAt <= now
  }

  /** A confirmed and final request whose observe window is over. */
  predicate Settled(status: Status, state: Stability, now: int, window: int) {
    status == Confirmed && window > 0 && state.finalityAt.Some?
    && state.firstConfirmedAt.Some? && state.firstConfirmedAt.value + window <= now
  }

  /** A streak with one more cycle of its signal, or a new one. */
  function OneMore(state: Stability, signal: Signal, streak: int): int {
    if state.signal == signal then streak + 1 else 1
  }

  /** The observation confirms an unsettled request, and enough in a row have. */
  predicate Promotes(status: Status, state: Stability, c: Command, outcome: Outcome) {
    && (status == Pending || status == Detected || status == Reorged)
    && outcome.Observed? && outcome.confirmed && OneMore(state, Promote, state.promoteStreak) >= c.cycles
  }

  /** The observation orphans evidence of a confirmed request, or fails to confirm it, and enough in a row have. */
  predicate Demotes(status: Status, state: Stability, c: Command, outcome: Outcome) {
    && status == Confirmed && outcome.Observed?
    && (outcome.orphaned > 0 || (!outcome.confirmed && OneMore(state, Demote, state.demoteStreak) >= c.cycles))
  }

  /** The observation detects a payment that it does not confirm. */
  predicate Detects(outcome: Outcome) {
    outcome.Observed? && outcome.detected && !outcome.confirmed
  }

  /** When each status is written, by the stored status and streaks and the observation. */
  lemma DecidesExactly(status: Status, state: Stability, expiresAt: int, c: Command, outcome: Outcome)
    ensures var target := Decide(status, state, expiresAt, c, outcome).target;
            var live, settled := !Overdue(status, c.now, expiresAt), Settled(status, state, c.now, c.window);
            var promotes, demotes := Promotes(status, state, c, outcome), Demotes(status, state, c, outcome);
            && (target == Expired <==> status == Expired || !live)
            && (target == Confirmed <==> (live && promotes) || (status == Confirmed && (settled || !demotes)))
            && (target == Reorged <==> (status == Confirmed && !settled && demotes) || (status == Reorged && live && !promotes))
            && (target == Detected <==> live && !promotes && (status == Detected || (status == Pending && Detects(outcome))))
            && (target == Pending <==> status == Pending && live && !promotes && !Detects(outcome))
            && (target == Failed <==> status == Failed)
  {
  }

  /** Which streaks are written: a transition, an error and an expiry clear both, and one signal runs at a time. */
  lemma StoresExactly(status: Status, state: Stability, expiresAt: int, c: Command, outcome: Outcome)
    ensures var d := Decide(status, state, expiresAt, c, outcome);
            var live, settled := !Overdue(status, c.now, expiresAt), Settled(status, state, c.now, c.window);
            var waiting := status == Pending || status == Detected || status == Reorged;
            var up := live && waiting && outcome.Observed? && outcome.confirmed && d.target == status;
            var down := status == Confirmed && (settled || (outcome.Observed? && !outcome.confirmed && d.target == status));
            && d.stability.promoteStreak == (if up then OneMore(state, Promote, state.promoteStreak) else 0)
            && d.stability.demoteStreak == (if down then OneMore(state, Demote, state.demoteStreak) else 0)
            && d.stability.signal == (if up then Promote else if down then Demote else NoSignal)
  {
  }

  /** Which times are written: an expiry, an error and an unsupported chain forget both. */
  lemma TimesExactly(status: Status, state: Stability, expiresAt: int, c: Command, outcome: Outcome)
    ensures var d := Decide(status, state, expiresAt, c, outcome);
            var live, settled := !Overdue(status, c.now, expiresAt), Settled(status, state, c.now, c.window);
            && (!live || (!settled && !outcome.Observed?) ==>
                  d.stability.firstConfirmedAt == None && d.stability.finalityAt == None)
            && (settled ==>
                  d.stability.firstConfirmedAt == state.firstConfirmedAt && d.stability.finalityAt == state.finalityAt)
            && (live && !settled && outcome.Observed? ==>
                  && d.stability.firstConfirmedAt ==
                       (if state.firstConfirmedAt.None? && d.target == Confirmed then Some(c.now)
                        else state.firstConfirmedAt)
                  && d.stability.finalityAt ==
                       (if d.target == Reorged then None
                        else if d.target == Confirmed && outcome.finality then Some(c.now)
                        else state.finalityAt))
  {
  }

  // ------------------------------------------------------------ status graph

  /** The transitions the reconciler can make. */
  predicate Edge(from: Status, to: Status) {
    match from
    case Pending => to == Detected || to == Confirmed || to == Expired
    case Detected => to == Confirmed || to == Expired
    case Confirmed => to == Reorged
    case Reorged => to == Confirmed || to == Expired
    case _ => false
  }

  /** Whatever is observed, a decision stays put or follows an edge. */
  lemma DecisionsFollowGraph(status: Status, state: Stability, expiresAt: int, c: Command, outcome: Outcome)
    ensures var d := Decide(status, state, expiresAt, c, outcome);
            d.target == status || Edge(status, d.target)
  {
  }

  /**
   Finality is recorded only after a confirmation, nothing is recorded before
   the first one, and at most one streak runs, the one its signal names.
   */
  predicate WellShaped(status: Status, state: Stability) {
    && (state.finalityAt.Some? ==> state.firstConfirmedAt.Some?)
    && (status == Pending || status == Detected ==> state.firstConfirmedAt.None?)
    && (status == Reorged ==> state.finalityAt.None?)
    && state.promoteStreak >= 0 && state.demoteStreak >= 0
    && (state.signal == Promote <==> state.promoteStreak > 0)
    && (state.signal == Demote <==> state.demoteStreak > 0)
  }

  lemma DecisionsKeepShape(status: Status, state: Stability, expiresAt: int, c: Command, outcome: Outcome)
    requires WellShaped(status, state)
    ensures var d := Decide(status, state, expiresAt, c, outcome); WellShaped(d.target, d.stability)
  {
    if outcome.Observed? {
      ObservedKeepsShape(status, state, c, outcome);
    }
  }

  lemma ObservedKeepsShape(status: Status, state: Stability, c: Command, outcome: Outcome)
    requires outcome.Observed? && WellShaped(status, state)
    ensures var target := Target(status, state, outcome.detected, outcome.confirmed, outcome.orphaned, c.cycles);
            WellShaped(target, BuildObservation(c.now, outcome.confirmed, outcome.finality, outcome.orphaned, state,
                                                status, target != status, target == Confirmed, target == Reorged))
  {
    var reason := Target(status, state, outcome.detected, outcome.confirmed, outcome.orphaned, c.cycles) != status;
    NextKeepsShape(state, if reason then NoSignal else SignalOf(status, outcome.confirmed, outcome.orphaned));
  }

  lemma NextKeepsShape(state: Stability, signal: Signal)
    requires state.promoteStreak >= 0 && state.demoteStreak >= 0
    requires state.signal == Promote <==> state.promoteStreak > 0
    requires state.signal == Demote <==> state.demoteStreak > 0
    ensures var next := NextStability(state, signal);
            && next.promoteStreak >= 0 && next.demoteStreak >= 0
            && (next.signal == Promote <==> next.promoteStreak > 0)
            && (next.signal == Demote <==> next.demoteStreak > 0)
            && next.firstConfirmedAt == state.firstConfirmedAt && next.finalityAt == state.finalityAt
  {
  }

  /**
   A cycle on a due confirmed request keeps the time of its first confirmation
   exactly when it is an observation; a failed or unsupported one forgets it.
   */
  lemma ConfirmationKeptExactly(state: Stability, expiresAt: int, c: Command, outcome: Outcome)
    requires c.window >= SECOND && Due(Confirmed, state, c.now, c.window) && state.firstConfirmedAt.Some?
    ensures Decide(Confirmed, state, expiresAt, c, outcome).stability.firstConfirmedAt == state.firstConfirmedAt
            <==> outcome.Observed?
  {
    SkipUnreachable(Confirmed, state, c.now, c.window);
  }

  /** The first confirmation's time is kept by every later observation, and set by every confirming one. */
  lemma FirstConfirmationKept(status: Status, state: Stability, expiresAt: int, c: Command, outcome: Outcome)
    requires outcome.Observed? && !ShouldExpire(status, c.now, expiresAt)
    ensures var d := Decide(status, state, expiresAt, c, outcome);
            && (state.firstConfirmedAt.Some? ==> d.stability.firstConfirmedAt == state.firstConfirmedAt)
            && (d.target == Confirmed && status != Confirmed ==>
                  d.stability.firstConfirmedAt.Some? && (outcome.finality ==> d.stability.finalityAt == Some(c.now)))
            && (d.target == Reorged ==> d.stability.finalityAt.None?)
  {
  }
}
