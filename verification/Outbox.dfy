/**
 The webhook outbox as atomic steps on one event: claim with a lease, heartbeat
 renewals, send, mark, and the operator's requeue and cancel.  A step whose
 guard fails changes nothing.
 */
module Outbox {
  import opened Common
  import opened Claims

  type Worker = string

  datatype Delivery = Pending | Delivered | Failed

  datatype Row = Row(
    delivery: Delivery,
    destinationBlank: bool,
    attempts: int,
    maxAttempts: int,
    nextAttemptAt: int,
    leaseOwner: Option<Worker>,
    leaseUntil: Option<int>)

  // --------------------------------------------------- guarded updates of a row

  predicate Claimable(row: Row, now: int) {
    && row.delivery == Pending && !row.destinationBlank
    && row.nextAttemptAt <= now
    && (row.leaseUntil.None? || row.leaseUntil.value <= now)
  }

  function Leased(row: Row, worker: Worker, until: int): Row {
    row.(leaseOwner := Some(worker), leaseUntil := Some(until))
  }

  /** The guard the three marking statements share. */
  predicate MayMark(row: Row, worker: Worker) {
    row.delivery == Pending && (row.leaseOwner.None? || row.leaseOwner == Some(worker))
  }

  function MarkedDelivered(row: Row): Row {
    row.(delivery := Delivered, leaseOwner := None, leaseUntil := None)
  }

  function MarkedRetry(row: Row, attempts: int, nextAttemptAt: int): Row {
    row.(attempts := attempts, nextAttemptAt := nextAttemptAt, leaseOwner := None, leaseUntil := None)
  }

  function MarkedFailed(row: Row, attempts: int): Row {
    row.(delivery := Failed, attempts := attempts, leaseOwner := None, leaseUntil := None)
  }

  predicate MayRenew(row: Row, worker: Worker) {
    row.delivery == Pending && row.leaseOwner == Some(worker)
  }

  function Renewed(row: Row, until: int): Row {
    row.(leaseUntil := Some(until))
  }

  predicate MayRequeue(row: Row) {
    row.delivery == Failed
  }

  function Requeued(row: Row, at: int): Row {
    row.(delivery := Pending, attempts := 0, nextAttemptAt := at, leaseOwner := None, leaseUntil := None)
  }

  predicate MayCancel(row: Row) {
    row.delivery == Pending || row.delivery == Failed
  }

  function Cancelled(row: Row): Row {
    row.(delivery := Failed, leaseOwner := None, leaseUntil := None)
  }

  /** A retry budget of zero or less leaves the row's own limit in force. */
  function EffectiveMax(rowMaxAttempts: int, retryBudget: int): (effective: int)
    ensures effective <= rowMaxAttempts
    ensures retryBudget > 0 ==> effective <= retryBudget + 1
    ensures effective == rowMaxAttempts || (retryBudget > 0 && effective == retryBudget + 1)
  {
    if retryBudget > 0 && retryBudget + 1 < rowMaxAttempts then retryBudget + 1 else rowMaxAttempts
  }

  // --------------------------------------------------------------- interleaving

  /** What a dispatcher read when it claimed, and whether it has sent. */
  datatype Flight = Flight(attempts: int, maxAttempts: int, sent: bool)

  /**
   `sends` counts deliveries attempted since the event was created or last
   requeued; `overlaps` counts the claims that found a dispatcher in flight.
   */
  datatype Cell = Cell(row: Row, flights: map<Worker, Flight>, sends: nat, overlaps: nat)

  datatype Step =
    | Claim(worker: Worker, now: int, until: int)
    | Renew(worker: Worker, until: int)
    | Send(worker: Worker)
    | Mark(worker: Worker, success: bool, retryAt: int)
    | Requeue(at: int)
    | Cancel

  /** An event as the status transition inserts it. */
  function Inserted(maxAttempts: int, destinationBlank: bool, at: int): Cell {
    Cell(Row(Pending, destinationBlank, 0, maxAttempts, at, None, None), map[], 0, 0)
  }

  /** What a claim reads. */
  function FlightOf(row: Row): Flight {
    Flight(row.attempts, row.maxAttempts, false)
  }

  /** The marking logic of one loop iteration. */
  function MarkRow(row: Row, flight: Flight, worker: Worker, success: bool, retryAt: int, retryBudget: int): Row {
    var next := flight.attempts + 1;
    if !MayMark(row, worker) then row
    else if success then MarkedDelivered(row)
    else if next >= EffectiveMax(flight.maxAttempts, retryBudget) then MarkedFailed(row, next)
    else MarkedRetry(row, next, retryAt)
  }

  function Apply(retryBudget: int, cell: Cell, step: Step): Cell {
    match step
    case Claim(w, now, until) =>
      if !Claimable(cell.row, now) then cell else
        cell.(row := Leased(cell.row, w, until),
              flights := cell.flights[w := FlightOf(cell.row)],
              overlaps := cell.overlaps + if cell.flights == map[] then 0 else 1)
    case Renew(w, until) =>
      if !MayRenew(cell.row, w) then cell else cell.(row := Renewed(cell.row, until))
    case Send(w) =>
      if w !in cell.flights || cell.flights[w].sent then cell else
        cell.(flights := cell.flights[w := cell.flights[w].(sent := true)], sends := cell.sends + 1)
    case Mark(w, success, retryAt) =>
      if w !in cell.flights || !cell.flights[w].sent then cell else
        cell.(row := MarkRow(cell.row, cell.flights[w], w, success, retryAt, retryBudget),
              flights := cell.flights - {w})
    case Requeue(at) =>
      if !MayRequeue(cell.row) then cell else cell.(row := Requeued(cell.row, at), sends := 0)
    case Cancel =>
      if !MayCancel(cell.row) then cell else cell.(row := Cancelled(cell.row))
  }

  function Run(retryBudget: int, cell: Cell, steps: seq<Step>): Cell {
    if |steps| == 0 then cell else Apply(retryBudget, Run(retryBudget, cell, steps[..|steps| - 1]), steps[|steps| - 1])
  }

  // ------------------------------------------------ safety over any interleaving

  predicate Safe(cell: Cell, maxAttempts: int) {
    && cell.row.maxAttempts == maxAttempts && cell.row.attempts >= 0
    && (cell.row.delivery == Pending ==> cell.row.attempts < maxAttempts)
    && forall w :: w in cell.flights ==>
         cell.flights[w].maxAttempts == maxAttempts && 0 <= cell.flights[w].attempts < maxAttempts
  }

  lemma ApplyKeepsSafe(retryBudget: int, cell: Cell, step: Step, maxAttempts: int)
    requires maxAttempts > 0 && Safe(cell, maxAttempts)
    ensures Safe(Apply(retryBudget, cell, step), maxAttempts)
  {
  }

  /** Whoever interleaves, a pending event always has attempts left. */
  lemma {:induction false} PendingHasAttemptsLeft(retryBudget: int, maxAttempts: int, blank: bool, at: int, steps: seq<Step>)
    requires maxAttempts > 0
    ensures Safe(Run(retryBudget, Inserted(maxAttempts, blank, at), steps), maxAttempts)
  {
    if |steps| == 0 {
    } else {
      PendingHasAttemptsLeft(retryBudget, maxAttempts, blank, at, steps[..|steps| - 1]);
      ApplyKeepsSafe(retryBudget, Run(retryBudget, Inserted(maxAttempts, blank, at), steps[..|steps| - 1]),
                     steps[|steps| - 1], maxAttempts);
    }
  }

  /** A delivered event stays delivered, and its row is never touched again. */
  lemma {:induction false} DeliveredIsAbsorbing(retryBudget: int, cell: Cell, steps: seq<Step>)
    requires cell.row.delivery == Delivered
    ensures Run(retryBudget, cell, steps).row == cell.row
  {
    if |steps| == 0 {
    } else {
      DeliveredIsAbsorbing(retryBudget, cell, steps[..|steps| - 1]);
    }
  }

  /** Steps that leave a lease running until `until` alone: the holder's own marks and renewals are excluded. */
  predicate Respects(step: Step, owner: Worker, until: int) {
    match step
    case Claim(_, now, _) => now < until
    case Renew(w, _) => w != owner
    case Mark(w, _, _) => w != owner
    case Cancel => false
    case _ => true
  }

  /** While a lease runs, no other dispatcher and no requeue can touch the row; only a cancel can. */
  lemma {:induction false} LeaseProtects(retryBudget: int, cell: Cell, owner: Worker, until: int, steps: seq<Step>)
    requires cell.row.delivery == Pending && cell.row.leaseOwner == Some(owner) && cell.row.leaseUntil == Some(until)
    requires forall i :: 0 <= i < |steps| ==> Respects(steps[i], owner, until)
    ensures Run(retryBudget, cell, steps).row == cell.row
  {
    if |steps| == 0 {
    } else {
      LeaseProtects(retryBudget, cell, owner, until, steps[..|steps| - 1]);
    }
  }

  /** A row leased to `owner` until `until`, and otherwise as it was. */
  predicate HeldAs(after: Row, before: Row, owner: Worker, until: int) {
    && after.delivery == Pending && after.leaseOwner == Some(owner) && after.leaseUntil == Some(until)
    && after == before.(delivery := after.delivery, leaseOwner := after.leaseOwner, leaseUntil := after.leaseUntil)
  }

  /**
   A successful claim takes effect for the time it asked for: whatever others do
   before that, the row stays pending in the claimer's hands, with the attempts
   it was claimed with, and the claimer flies with those attempts.
   */
  lemma ClaimProtects(retryBudget: int, cell: Cell, owner: Worker, now: int, until: int, steps: seq<Step>)
    requires cell.row.delivery == Pending && !cell.row.destinationBlank && cell.row.nextAttemptAt <= now
    requires cell.row.leaseUntil.None? || cell.row.leaseUntil.value <= now
    requires forall i :: 0 <= i < |steps| ==> Respects(steps[i], owner, until)
    ensures var claimed := Apply(retryBudget, cell, Claim(owner, now, until));
            && HeldAs(Run(retryBudget, claimed, steps).row, cell.row, owner, until)
            && owner in claimed.flights
            && claimed.flights[owner] == Flight(cell.row.attempts, cell.row.maxAttempts, false)
  {
    LeaseProtects(retryBudget, Apply(retryBudget, cell, Claim(owner, now, until)), owner, until, steps);
  }

  /** A renewal by the holder moves the end of the lease, and the row stays the holder's until that new end. */
  lemma RenewalProtects(retryBudget: int, cell: Cell, owner: Worker, until: int, steps: seq<Step>)
    requires cell.row.delivery == Pending && cell.row.leaseOwner == Some(owner)
    requires forall i :: 0 <= i < |steps| ==> Respects(steps[i], owner, until)
    ensures HeldAs(Run(retryBudget, Apply(retryBudget, cell, Renew(owner, until)), steps).row, cell.row, owner, until)
  {
    LeaseProtects(retryBudget, Apply(retryBudget, cell, Renew(owner, until)), owner, until, steps);
  }

  /** After a claim or a renewal the row can be claimed again exactly from the end of the lease on. */
  lemma LeaseEnds(before: Row, after: Row, owner: Worker, until: int, now: int)
    requires HeldAs(after, before, owner, until)
    ensures Claimable(after, now) <==> !before.destinationBlank && before.nextAttemptAt <= now && until <= now
  {
  }

  /** Anyone but the holder renews in vain. */
  lemma OthersCannotRenew(retryBudget: int, cell: Cell, w: Worker, until: int)
    requires cell.row.delivery != Pending || cell.row.leaseOwner != Some(w)
    ensures Apply(retryBudget, cell, Renew(w, until)) == cell
  {
  }

  /**
   A successful send marked while the row is pending, and unleased or leased by
   the sender, delivers the event for good: no later step changes the row.
   */
  lemma SuccessIsFinal(retryBudget: int, cell: Cell, w: Worker, retryAt: int, steps: seq<Step>)
    requires w in cell.flights && cell.flights[w].sent && cell.row.delivery == Pending
    requires cell.row.leaseOwner.None? || cell.row.leaseOwner.value == w
    ensures Run(retryBudget, Apply(retryBudget, cell, Mark(w, true, retryAt)), steps).row
         == cell.row.(delivery := Delivered, leaseOwner := None, leaseUntil := None)
  {
    DeliveredIsAbsorbing(retryBudget, Apply(retryBudget, cell, Mark(w, true, retryAt)), steps);
  }

  /** A mark that comes too late, when the row is settled or somebody else's, changes nothing in it. */
  lemma LateMarkIsIgnored(retryBudget: int, cell: Cell, w: Worker, success: bool, retryAt: int)
    requires cell.row.delivery != Pending || (cell.row.leaseOwner.Some? && cell.row.leaseOwner.value != w)
    ensures Apply(retryBudget, cell, Mark(w, success, retryAt)).row == cell.row
  {
  }

  // ------------------------------------------------------------- bounded sends

  /** The dispatchers that have claimed and not sent yet. */
  function Unsent(flights: map<Worker, Flight>): set<Worker> {
    set w | w in flights && !flights[w].sent
  }

  lemma UnsentAfterClaim(flights: map<Worker, Flight>, w: Worker, f: Flight)
    ensures |Unsent(flights[w := f])| <= |Unsent(flights)| + 1
  {
    assert Unsent(flights[w := f]) <= Unsent(flights) + {w};
    Smaller(Unsent(flights[w := f]), Unsent(flights) + {w});
  }

  lemma {:induction false} Smaller(a: set<Worker>, b: set<Worker>)
    requires a <= b
    ensures |a| <= |b|
    decreases |a|
  {
    if a == {} {
    } else {
      var x :| x in a;
      Smaller(a - {x}, b - {x});
    }
  }

  lemma UnsentAfterSend(flights: map<Worker, Flight>, w: Worker)
    requires w in flights && !flights[w].sent
    ensures |Unsent(flights[w := flights[w].(sent := true)])| == |Unsent(flights)| - 1
  {
    assert Unsent(flights[w := flights[w].(sent := true)]) == Unsent(flights) - {w};
  }

  lemma UnsentAfterMark(flights: map<Worker, Flight>, w: Worker)
    requires w in flights && flights[w].sent
    ensures Unsent(flights - {w}) == Unsent(flights)
  {
  }

  /**
   The sends made and those still to come from dispatchers in flight are paid
   for by the attempts a mark will record, and by one full allowance for every
   overlapping claim: a late mark can take the attempts back to what it read.
   */
  predicate Accounted(cell: Cell, effective: int) {
    && (cell.row.leaseOwner.Some? ==> cell.row.delivery == Pending && cell.row.leaseOwner.value in cell.flights)
    && (cell.row.delivery == Pending ==> 0 <= cell.row.attempts < effective)
    && (cell.row.delivery == Pending && cell.flights == map[] ==>
          cell.sends <= effective * cell.overlaps + cell.row.attempts)
    && (forall w :: w in cell.flights ==> Paid(cell, effective, w))
    && cell.sends <= effective * cell.overlaps + effective
  }

  predicate Paid(cell: Cell, effective: int, w: Worker)
    requires w in cell.flights
  {
    && 0 <= cell.flights[w].attempts < effective
    && cell.sends + |Unsent(cell.flights)| <= effective * cell.overlaps + cell.flights[w].attempts + 1
  }

  lemma ClaimKeepsAccount(retryBudget: int, cell: Cell, w: Worker, now: int, until: int, effective: int)
    requires effective > 0 && Accounted(cell, effective) && Claimable(cell.row, now)
    ensures Accounted(Apply(retryBudget, cell, Claim(w, now, until)), effective)
  {
    var after := Apply(retryBudget, cell, Claim(w, now, until));
    UnsentAfterClaim(cell.flights, w, FlightOf(cell.row));
    assert w in after.flights;
    if cell.flights == map[] {
      assert Unsent(cell.flights) == {};
    } else {
      assert effective * (cell.overlaps + 1) == effective * cell.overlaps + effective;
      var v :| v in cell.flights;
      assert Paid(cell, effective, v);
    }
    forall u | u in after.flights
      ensures Paid(after, effective, u)
    {
      if u != w { assert Paid(cell, effective, u); }
    }
  }

  lemma SendKeepsAccount(retryBudget: int, cell: Cell, w: Worker, effective: int)
    requires Accounted(cell, effective) && w in cell.flights && !cell.flights[w].sent
    ensures Accounted(Apply(retryBudget, cell, Send(w)), effective)
  {
    var after := Apply(retryBudget, cell, Send(w));
    UnsentAfterSend(cell.flights, w);
    assert Paid(cell, effective, w) && w in after.flights;
    forall u | u in after.flights
      ensures Paid(after, effective, u)
    {
      assert Paid(cell, effective, u);
    }
  }

  lemma MarkKeepsAccount(retryBudget: int, cell: Cell, w: Worker, success: bool, retryAt: int, maxAttempts: int)
    requires Safe(cell, maxAttempts) && Accounted(cell, EffectiveMax(maxAttempts, retryBudget))
    requires w in cell.flights && cell.flights[w].sent
    ensures Accounted(Apply(retryBudget, cell, Mark(w, success, retryAt)), EffectiveMax(maxAttempts, retryBudget))
  {
    var after, effective := Apply(retryBudget, cell, Mark(w, success, retryAt)), EffectiveMax(maxAttempts, retryBudget);
    UnsentAfterMark(cell.flights, w);
    assert Paid(cell, effective, w);
    forall u | u in after.flights
      ensures Paid(after, effective, u)
    {
      assert Paid(cell, effective, u);
    }
    if after.flights == map[] && cell.row.leaseOwner.Some? {
      assert cell.row.leaseOwner.value !in after.flights;
    }
  }

  lemma ApplyKeepsAccount(retryBudget: int, cell: Cell, step: Step, maxAttempts: int)
    requires maxAttempts > 0 && Safe(cell, maxAttempts)
    requires Accounted(cell, EffectiveMax(maxAttempts, retryBudget))
    ensures Accounted(Apply(retryBudget, cell, step), EffectiveMax(maxAttempts, retryBudget))
  {
    var effective := EffectiveMax(maxAttempts, retryBudget);
    match step
    case Claim(w, now, until) =>
      if Claimable(cell.row, now) { ClaimKeepsAccount(retryBudget, cell, w, now, until, effective); }
    case Send(w) =>
      if w in cell.flights && !cell.flights[w].sent { SendKeepsAccount(retryBudget, cell, w, effective); }
    case Mark(w, success, retryAt) =>
      if w in cell.flights && cell.flights[w].sent {
        MarkKeepsAccount(retryBudget, cell, w, success, retryAt, maxAttempts);
      }
    case _ => OtherKeepsAccount(retryBudget, cell, step, effective);
  }

  lemma OtherKeepsAccount(retryBudget: int, cell: Cell, step: Step, effective: int)
    requires effective > 0 && Accounted(cell, effective) && (step.Renew? || step.Requeue? || step.Cancel?)
    ensures Accounted(Apply(retryBudget, cell, step), effective)
  {
    var after := Apply(retryBudget, cell, step);
    assert effective * cell.overlaps >= 0;
    forall u | u in after.flights
      ensures Paid(after, effective, u)
    {
      assert Paid(cell, effective, u);
    }
  }

  lemma {:induction false} RunKeepsAccount(retryBudget: int, cell: Cell, steps: seq<Step>, maxAttempts: int)
    requires maxAttempts > 0 && Safe(cell, maxAttempts) && Accounted(cell, EffectiveMax(maxAttempts, retryBudget))
    ensures Safe(Run(retryBudget, cell, steps), maxAttempts)
    ensures Accounted(Run(retryBudget, cell, steps), EffectiveMax(maxAttempts, retryBudget))
  {
    if |steps| == 0 {
    } else {
      var front := steps[..|steps| - 1];
      RunKeepsAccount(retryBudget, cell, front, maxAttempts);
      ApplyKeepsSafe(retryBudget, Run(retryBudget, cell, front), steps[|steps| - 1], maxAttempts);
      ApplyKeepsAccount(retryBudget, Run(retryBudget, cell, front), steps[|steps| - 1], maxAttempts);
    }
  }

  lemma InsertedIsAccounted(maxAttempts: int, blank: bool, at: int, effective: int)
    requires 0 < effective <= maxAttempts
    ensures Safe(Inserted(maxAttempts, blank, at), maxAttempts) && Accounted(Inserted(maxAttempts, blank, at), effective)
  {
  }

  /**
   For any interleaving, with lost leases, late marks, dead dispatchers,
   requeues and cancels: since the last requeue at most `effective` sends have
   been made for each overlapping claim of the event's life, and as many once more.
   */
  lemma SendsBoundedByOverlaps(retryBudget: int, maxAttempts: int, blank: bool, at: int, steps: seq<Step>)
    requires maxAttempts > 0
    ensures var cell := Run(retryBudget, Inserted(maxAttempts, blank, at), steps);
            cell.sends <= EffectiveMax(maxAttempts, retryBudget) * (1 + cell.overlaps)
  {
    var start, effective := Inserted(maxAttempts, blank, at), EffectiveMax(maxAttempts, retryBudget);
    InsertedIsAccounted(maxAttempts, blank, at, effective);
    RunKeepsAccount(retryBudget, start, steps, maxAttempts);
    OneMore(effective, Run(retryBudget, start, steps).overlaps);
  }

  lemma OneMore(effective: int, overlaps: nat)
    ensures effective * (1 + overlaps) == effective * overlaps + effective
  {
  }

  /** No lease is lost and no dispatcher dies in flight: claims find nobody in flight. */
  predicate Orderly(cell: Cell, step: Step) {
    step.Claim? && Claimable(cell.row, step.now) ==> cell.flights == map[]
  }

  predicate OrderlyRun(retryBudget: int, cell: Cell, steps: seq<Step>) {
    forall i :: 0 <= i < |steps| ==> Orderly(Run(retryBudget, cell, steps[..i]), steps[i])
  }

  lemma {:induction false} OrderlyRunsDoNotOverlap(retryBudget: int, cell: Cell, steps: seq<Step>)
    requires OrderlyRun(retryBudget, cell, steps)
    ensures Run(retryBudget, cell, steps).overlaps == cell.overlaps
  {
    if |steps| == 0 {
    } else {
      var front := steps[..|steps| - 1];
      forall i | 0 <= i < |front|
        ensures Orderly(Run(retryBudget, cell, front[..i]), front[i])
      {
        assert front[..i] == steps[..i] && front[i] == steps[i];
      }
      OrderlyRunsDoNotOverlap(retryBudget, cell, front);
      assert Orderly(Run(retryBudget, cell, front), steps[|steps| - 1]);
    }
  }

  /**
   With no lease lost and no dispatcher failing between claim and mark, at most
   min(max_attempts, retry_budget + 1) sends happen between requeues; a budget
   of zero does not count.
   */
  lemma SendsBounded(retryBudget: int, maxAttempts: int, blank: bool, at: int, steps: seq<Step>)
    requires maxAttempts > 0 && OrderlyRun(retryBudget, Inserted(maxAttempts, blank, at), steps)
    ensures var sends := Run(retryBudget, Inserted(maxAttempts, blank, at), steps).sends;
            sends <= maxAttempts && (retryBudget > 0 ==> sends <= retryBudget + 1)
  {
    OrderlyRunsDoNotOverlap(retryBudget, Inserted(maxAttempts, blank, at), steps);
    SendsWithoutOverlaps(retryBudget, maxAttempts, blank, at, steps);
  }

  lemma SendsWithoutOverlaps(retryBudget: int, maxAttempts: int, blank: bool, at: int, steps: seq<Step>)
    requires maxAttempts > 0 && Run(retryBudget, Inserted(maxAttempts, blank, at), steps).overlaps == 0
    ensures Run(retryBudget, Inserted(maxAttempts, blank, at), steps).sends <= EffectiveMax(maxAttempts, retryBudget)
  {
    SendsBoundedByOverlaps(retryBudget, maxAttempts, blank, at, steps);
  }

  /**
   A failed send under a held lease uses up one attempt: the event ends exactly
   when none is left, and otherwise can be claimed again from the retry time on.
   */
  lemma FailedSendProgress(retryBudget: int, row: Row, worker: Worker, flight: Flight, retryAt: int)
    requires MayMark(row, worker) && flight.attempts == row.attempts && flight.maxAttempts == row.maxAttempts
    ensures var effective := EffectiveMax(row.maxAttempts, retryBudget);
            var after := MarkRow(row, flight, worker, false, retryAt, retryBudget);
            && after.attempts == row.attempts + 1
            && (after.delivery == Failed <==> effective - after.attempts <= 0)
            && (after.delivery == Pending <==> effective - after.attempts > 0)
            && (forall now :: Claimable(after, now) <==>
                  effective - after.attempts > 0 && !row.destinationBlank && retryAt <= now)
  {
  }

  /**
   A requeue revives exactly the failed events: they are pending with all their
   attempts back, and can be claimed from the given time on.
   */
  lemma RequeueRevives(retryBudget: int, cell: Cell, at: int, now: int)
    ensures var after := Apply(retryBudget, cell, Requeue(at));
            if cell.row.delivery != Failed then after == cell
            else
              && after.row.delivery == Pending && after.row.attempts == 0 && after.sends == 0
              && after.row.maxAttempts == cell.row.maxAttempts && after.flights == cell.flights
              && (Claimable(after.row, now) <==> !cell.row.destinationBlank && at <= now)
  {
  }

  predicate IsRequeue(step: Step) {
    step.Requeue?
  }

  /** Neither claims, marks, renewals nor cancels move a failed event. */
  lemma {:induction false} FailedStaysFailed(retryBudget: int, cell: Cell, steps: seq<Step>)
    requires cell.row.delivery == Failed
    requires forall i :: 0 <= i < |steps| ==> !IsRequeue(steps[i])
    ensures Run(retryBudget, cell, steps).row.delivery == Failed
    ensures Run(retryBudget, cell, steps).row.attempts == cell.row.attempts
  {
    if |steps| == 0 {
    } else {
      FailedStaysFailed(retryBudget, cell, steps[..|steps| - 1]);
      assert !IsRequeue(steps[|steps| - 1]);
    }
  }

  /** Cancelling ends every event but the delivered ones: failed, and leased to nobody. */
  lemma CancelExactly(retryBudget: int, cell: Cell)
    ensures MayCancel(cell.row) <==> cell.row.delivery != Delivered
    ensures var after := Apply(retryBudget, cell, Cancel);
            if cell.row.delivery == Delivered then after == cell
            else after == cell.(row := cell.row.(delivery := Failed, leaseOwner := None, leaseUntil := None))
  {
  }

  /** A cancelled event is failed, and stays so until it is requeued; only a delivered one cannot be cancelled. */
  lemma CancelHolds(retryBudget: int, cell: Cell, steps: seq<Step>, now: int)
    requires cell.row.delivery != Delivered
    requires forall i :: 0 <= i < |steps| ==> !IsRequeue(steps[i])
    ensures var row := Run(retryBudget, Apply(retryBudget, cell, Cancel), steps).row;
            row.delivery == Failed && row.attempts == cell.row.attempts && !Claimable(row, now)
  {
    FailedStaysFailed(retryBudget, Apply(retryBudget, cell, Cancel), steps);
  }

  /** A requeued event has all its attempts back, whatever happened before; a cancelled one stays out of reach. */
  lemma OperatorActions(row: Row, at: int, now: int, worker: Worker)
    ensures Claimable(Requeued(row, at), now) <==> !row.destinationBlank && at <= now
    ensures Requeued(row, at).attempts == 0
    ensures !Claimable(Cancelled(row), now) && !MayMark(Cancelled(row), worker) && !MayRenew(Cancelled(row), worker)
    ensures MayRequeue(Cancelled(row))
  {
  }

  /** The bound needs the lease, and overlaps do cost that much: one lapse doubles the sends of an event allowed one. */
  lemma LapsedLeaseOverruns(v: Worker, w: Worker) returns (steps: seq<Step>)
    requires v != w
    ensures var cell := Run(0, Inserted(1, false, 0), steps);
            cell.overlaps == 1 && cell.sends == EffectiveMax(1, 0) * (1 + cell.overlaps)
  {
    steps := [Claim(v, 0, 10), Send(v), Claim(w, 20, 30), Send(w)];
    var s := Inserted(1, false, 0);
    assert steps[..1][..0] == [] && steps[..2][..1] == steps[..1] && steps[..3][..2] == steps[..2];
    assert Run(0, s, steps[..1]) == Apply(0, s, steps[0]);
    assert Run(0, s, steps[..2]) == Apply(0, Run(0, s, steps[..1]), steps[1]);
    assert Run(0, s, steps[..3]) == Apply(0, Run(0, s, steps[..2]), steps[2]);
    assert v in Run(0, s, steps[..2]).flights;
  }

  // ------------------------------------------------------------ the repository

  type Id = int

  function ClaimableAt(now: int): Row -> bool {
    row => Claimable(row, now)
  }

  function LeaseTo(worker: Worker, until: int): Row -> Row {
    row => Leased(row, worker, until)
  }

  function ReadAll(rows: map<Id, Row>, ids: seq<Id>): (items: seq<(Id, Flight)>)
    requires forall i :: 0 <= i < |ids| ==> ids[i] in rows
    ensures |items| == |ids| && forall i :: 0 <= i < |items| ==> items[i] == (ids[i], FlightOf(rows[ids[i]]))
  {
    seq(|ids|, i requires 0 <= i < |ids| => (ids[i], FlightOf(rows[ids[i]])))
  }

  /** Whatever the dispatchers are doing, this step takes the one row to the other. */
  ghost predicate IsStep(retryBudget: int, before: Row, step: Step, after: Row) {
    forall cell: Cell :: cell.row == before ==> Apply(retryBudget, cell, step).row == after
  }

  /** The same for a mark by a dispatcher that has sent what it claimed. */
  ghost predicate IsMarkStep(retryBudget: int, before: Row, flight: Flight, step: Step, after: Row)
    requires step.Mark?
  {
    forall cell: Cell ::
      cell.row == before && step.worker in cell.flights && cell.flights[step.worker] == flight.(sent := true) ==>
        Apply(retryBudget, cell, step).row == after
  }

  class Repository {
    var rows: map<Id, Row>

    constructor ()
      ensures rows == map[]
    {
      rows := map[];
    }

    method ClaimPendingForDispatch(worker: Worker, now: int, until: int, order: seq<Id>, locked: set<Id>, limit: nat)
      returns (items: seq<(Id, Flight)>)
      requires forall i, j :: 0 <= i < j < |order| ==> order[i] != order[j]
      modifies this
      ensures var taken := Candidates(old(rows), order, locked, ClaimableAt(now), limit);
              && |items| == |taken|
              && (forall i :: 0 <= i < |items| ==>
                    taken[i] in old(rows) && items[i] == (taken[i], FlightOf(old(rows)[taken[i]])))
              && rows == map id | id in old(rows) ::
                           if id in taken then Leased(old(rows)[id], worker, until) else old(rows)[id]
      ensures forall item :: item in items ==>
                item.0 in old(rows) && item.0 in rows
                && IsStep(0, old(rows)[item.0], Claim(worker, now, until), rows[item.0])
    {
      var taken, leased := ClaimRows(rows, order, locked, ClaimableAt(now), LeaseTo(worker, until), limit);
      assert forall i :: 0 <= i < |taken| ==> taken[i] in taken;
      items := ReadAll(rows, taken);
      rows := leased;
    }

    method MarkDelivered(id: Id, worker: Worker) returns (updated: bool)
      modifies this
      ensures updated <==> id in old(rows) && MayMark(old(rows)[id], worker)
      ensures rows == if updated then old(rows)[id := MarkedDelivered(old(rows)[id])] else old(rows)
    {
      updated := id in rows && MayMark(rows[id], worker);
      if updated {
        rows := rows[id := MarkedDelivered(rows[id])];
      }
    }

    method MarkRetry(id: Id, worker: Worker, attempts: int, nextAttemptAt: int) returns (updated: bool)
      modifies this
      ensures updated <==> id in old(rows) && MayMark(old(rows)[id], worker)
      ensures rows == if updated then old(rows)[id := MarkedRetry(old(rows)[id], attempts, nextAttemptAt)] else old(rows)
    {
      updated := id in rows && MayMark(rows[id], worker);
      if updated {
        rows := rows[id := MarkedRetry(rows[id], attempts, nextAttemptAt)];
      }
    }

    method MarkFailed(id: Id, worker: Worker, attempts: int) returns (updated: bool)
      modifies this
      ensures updated <==> id in old(rows) && MayMark(old(rows)[id], worker)
      ensures rows == if updated then old(rows)[id := MarkedFailed(old(rows)[id], attempts)] else old(rows)
    {
      updated := id in rows && MayMark(rows[id], worker);
      if updated {
        rows := rows[id := MarkedFailed(rows[id], attempts)];
      }
    }

    method RenewLease(id: Id, worker: Worker, until: int) returns (updated: bool)
      modifies this
      ensures updated <==> id in old(rows) && MayRenew(old(rows)[id], worker)
      ensures rows == if updated then old(rows)[id := Renewed(old(rows)[id], until)] else old(rows)
      ensures id in old(rows) ==> IsStep(0, old(rows)[id], Renew(worker, until), rows[id])
    {
      updated := id in rows && MayRenew(rows[id], worker);
      if updated {
        rows := rows[id := Renewed(rows[id], until)];
      }
    }

    /** The status the row had before the statement, and whether it was updated. */
    method RequeueFailed(id: Id, at: int) returns (found: Option<Delivery>, updated: bool)
      modifies this
      ensures found == if id in old(rows) then Some(old(rows)[id].delivery) else None
      ensures updated <==> found == Some(Failed)
      ensures rows == if updated then old(rows)[id := Requeued(old(rows)[id], at)] else old(rows)
      ensures id in old(rows) ==> IsStep(0, old(rows)[id], Requeue(at), rows[id])
    {
      found := if id in rows then Some(rows[id].delivery) else None;
      updated := id in rows && MayRequeue(rows[id]);
      if updated {
        rows := rows[id := Requeued(rows[id], at)];
      }
    }

    method CancelEvent(id: Id) returns (found: Option<Delivery>, updated: bool)
      modifies this
      ensures found == if id in old(rows) then Some(old(rows)[id].delivery) else None
      ensures updated <==> found.Some? && found.value != Delivered
      ensures rows == if updated then old(rows)[id := Cancelled(old(rows)[id])] else old(rows)
      ensures id in old(rows) ==> IsStep(0, old(rows)[id], Cancel, rows[id])
    {
      found := if id in rows then Some(rows[id].delivery) else None;
      updated := id in rows && MayCancel(rows[id]);
      if updated {
        rows := rows[id := Cancelled(rows[id])];
      }
    }

    /** One loop iteration after the send: which mark is attempted, and its effect on the row. */
    method MarkAfterSend(id: Id, worker: Worker, flight: Flight, success: bool, retryAt: int, retryBudget: int)
      returns (updated: bool)
      modifies this
      ensures updated <==> id in old(rows) && MayMark(old(rows)[id], worker)
      ensures rows == if id in old(rows)
                      then old(rows)[id := MarkRow(old(rows)[id], flight, worker, success, retryAt, retryBudget)]
                      else old(rows)
      ensures id in old(rows) ==>
                IsMarkStep(retryBudget, old(rows)[id], flight, Mark(worker, success, retryAt), rows[id])
    {
      if success {
        updated := MarkDelivered(id, worker);
        return;
      }
      var nextAttempts := flight.attempts + 1;
      if nextAttempts >= EffectiveMax(flight.maxAttempts, retryBudget) {
        updated := MarkFailed(id, worker, nextAttempts);
        return;
      }
      updated := MarkRetry(id, worker, nextAttempts, retryAt);
    }
  }
}
