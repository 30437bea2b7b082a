/**
 Uninterrupted reconciliation cycles of one request over runs: what a claim
 secures, what one cycle writes, and how many cycles of a kind it takes to
 confirm or to reorg.
 */
module ReconcileCycles {
  import opened Common
  import opened ReconcileDecision
  import opened ReconcileProtocol

  // ------------------------------------------------------------------ one claim

  /** Nobody's lease is running at `now`. */
  predicate Free(row: Row, now: int) {
    row.leaseUntil.None? || row.leaseUntil.value <= now
  }

  /**
   A claim of a due, free row holds it for exactly the lease duration: until
   then nobody else can touch it, and the worker's snapshot stays the row.
   */
  lemma ClaimHolds(config: Config, cell: Cell, worker: Worker, command: Command, steps: seq<Step>)
    requires Due(cell.row.status, cell.row.stability, command.now, command.window) && Free(cell.row, command.now)
    requires forall i :: 0 <= i < |steps| ==> Respects(steps[i], worker, command.now + command.leaseDuration)
    ensures var later := Run(config, Apply(config, cell, Claim(worker, command)), steps);
            && later.row == cell.row.(leaseOwner := Some(worker), leaseUntil := Some(command.now + command.leaseDuration))
            && later.commits == cell.commits && later.events == cell.events
            && worker in later.snapshots
            && later.snapshots[worker] == Snapshot(command, cell.row.status, cell.row.stability, |cell.commits|)
  {
    LeaseProtects(config, Apply(config, cell, Claim(worker, command)), worker, steps);
  }

  /** Another worker can claim the row again exactly when that lease is over. */
  lemma ClaimExcludes(config: Config, cell: Cell, worker: Worker, command: Command, next: Worker, again: Command)
    requires Due(cell.row.status, cell.row.stability, command.now, command.window) && Free(cell.row, command.now)
    requires Due(cell.row.status, cell.row.stability, again.now, again.window) && next != worker
    ensures var claimed := Apply(config, cell, Claim(worker, command));
            Apply(config, claimed, Claim(next, again)).row.leaseOwner == Some(next)
            <==> command.now + command.leaseDuration <= again.now
  {
  }

  // ------------------------------------------------------------------ one cycle

  /** A claim and the write that follows it, with nothing in between. */
  function Cycle(config: Config, cell: Cell, worker: Worker, command: Command, outcome: Outcome): Cell {
    Apply(config, Apply(config, cell, Claim(worker, command)), Write(worker, outcome))
  }

  /** A cycle on a due, free row writes the decision and frees the row again. */
  lemma CycleWrites(config: Config, cell: Cell, worker: Worker, command: Command, outcome: Outcome)
    requires Due(cell.row.status, cell.row.stability, command.now, command.window) && Free(cell.row, command.now)
    ensures var d := Decide(cell.row.status, cell.row.stability, cell.row.terms.expiresAt, command, outcome);
            Cycle(config, cell, worker, command, outcome).row == Row(d.target, d.stability, None, None, cell.row.terms)
  {
  }

  /** An overdue request that is claimed expires, whatever is observed. */
  lemma OverdueExpires(config: Config, cell: Cell, worker: Worker, command: Command, outcome: Outcome)
    requires cell.row.status == Pending || cell.row.status == Detected || cell.row.status == Reorged
    requires Due(cell.row.status, cell.row.stability, command.now, command.window) && Free(cell.row, command.now)
    ensures Cycle(config, cell, worker, command, outcome).row.status == Expired
            <==> cell.row.terms.expiresAt <= command.now
  {
    CycleWrites(config, cell, worker, command, outcome);
    DecidesExactly(cell.row.status, cell.row.stability, cell.row.terms.expiresAt, command, outcome);
  }

  /** A pending request in time becomes detected exactly when a payment is observed that does not confirm it. */
  lemma DetectionIsRecorded(config: Config, cell: Cell, worker: Worker, command: Command, outcome: Outcome)
    requires cell.row.status == Pending && Free(cell.row, command.now) && command.now < cell.row.terms.expiresAt
    ensures Cycle(config, cell, worker, command, outcome).row.status == Detected
            <==> outcome.Observed? && outcome.detected && !outcome.confirmed
  {
    CycleWrites(config, cell, worker, command, outcome);
    DecidesExactly(cell.row.status, cell.row.stability, cell.row.terms.expiresAt, command, outcome);
  }

  /** One observation that orphans evidence reorgs a due confirmed request at once, however many cycles are required. */
  lemma OrphanReorgsAtOnce(config: Config, cell: Cell, worker: Worker, command: Command, outcome: Outcome)
    requires cell.row.status == Confirmed && command.window >= SECOND
    requires Due(cell.row.status, cell.row.stability, command.now, command.window) && Free(cell.row, command.now)
    requires outcome.Observed? && outcome.orphaned > 0
    ensures Cycle(config, cell, worker, command, outcome).row.status == Reorged
  {
    SkipUnreachable(cell.row.status, cell.row.stability, command.now, command.window);
    CycleWrites(config, cell, worker, command, outcome);
    DecidesExactly(cell.row.status, cell.row.stability, cell.row.terms.expiresAt, command, outcome);
  }

  // ---------------------------------------------------------------- many cycles

  /** Uninterrupted cycles by one worker after another, all observing the same. */
  function Rounds(workers: seq<Worker>, commands: seq<Command>, outcome: Outcome): (steps: seq<Step>)
    requires |workers| == |commands|
    ensures |steps| == 2 * |commands|
  {
    if |commands| == 0 then [] else
      Rounds(workers[..|commands| - 1], commands[..|commands| - 1], outcome)
      + [Claim(workers[|commands| - 1], commands[|commands| - 1]), Write(workers[|commands| - 1], outcome)]
  }

  lemma RoundUnfolds(config: Config, cell: Cell, workers: seq<Worker>, commands: seq<Command>, outcome: Outcome)
    requires |workers| == |commands| > 0
    ensures var last := |commands| - 1;
            Run(config, cell, Rounds(workers, commands, outcome))
            == Cycle(config, Run(config, cell, Rounds(workers[..last], commands[..last], outcome)),
                     workers[last], commands[last], outcome)
  {
    var last := |commands| - 1;
    var front, two := Rounds(workers[..last], commands[..last], outcome),
                      [Claim(workers[last], commands[last]), Write(workers[last], outcome)];
    RunConcat(config, cell, front, two);
    assert two[..1][..0] == [];
    var before := Run(config, cell, front);
    assert Run(config, before, two[..1]) == Apply(config, before, two[0]);
  }

  /** How many cycles of a signal are still missing. */
  function Missing(state: Stability, signal: Signal, cycles: int): int {
    var streak := if state.signal != signal then 0 else if signal == Promote then state.promoteStreak else state.demoteStreak;
    if cycles - streak > 1 then cycles - streak else 1
  }

  /** The time a window is counted from: the stored one, or that of the first command. */
  function WindowStart(state: Stability, commands: seq<Command>): int
    requires |commands| > 0
  {
    if state.firstConfirmedAt.Some? then state.firstConfirmedAt.value else commands[0].now
  }

  predicate InTime(start: int, c: Command, cycles: int) {
    c.cycles == cycles && c.window >= SECOND && c.now < start + WindowSeconds(c.window) * SECOND
  }

  /** A free row, and commands that find it due and, while it waits for payment, unexpired. */
  predicate ClaimableThroughout(row: Row, commands: seq<Command>, cycles: int) {
    && row.leaseOwner.None? && row.leaseUntil.None?
    && forall i :: 0 <= i < |commands| ==>
         && commands[i].cycles == cycles && commands[i].window >= SECOND
         && commands[i].now < row.terms.expiresAt
         && Due(row.status, row.stability, commands[i].now, commands[i].window)
  }

  /**
   From any state of an unsettled, unleased request, uninterrupted confirmed
   cycles keep its status and extend its streak until the missing number of
   them is complete, and that cycle confirms it.
   */
  lemma {:induction false} EnoughRoundsConfirm(config: Config, cell: Cell, workers: seq<Worker>, commands: seq<Command>,
                                               outcome: Outcome, cycles: int)
    requires |workers| == |commands| && Unsettled(cell.row.status) && cell.row.stability.promoteStreak >= 0
    requires outcome.Observed? && outcome.confirmed && cycles > 0
    requires ClaimableThroughout(cell.row, commands, cycles)
    requires |commands| <= Missing(cell.row.stability, Promote, cycles)
    ensures var after := Run(config, cell, Rounds(workers, commands, outcome)).row;
            if |commands| == Missing(cell.row.stability, Promote, cycles)
            then after.status == Confirmed
            else after.status == cell.row.status && after.terms == cell.row.terms
                 && after.leaseOwner.None? && after.leaseUntil.None?
                 && after.stability.firstConfirmedAt == cell.row.stability.firstConfirmedAt
                 && after.stability.promoteStreak >= 0
                 && Missing(after.stability, Promote, cycles) == Missing(cell.row.stability, Promote, cycles) - |commands|
  {
    if |commands| == 0 {
    } else {
      var last := |commands| - 1;
      var before := Run(config, cell, Rounds(workers[..last], commands[..last], outcome));
      EnoughRoundsConfirm(config, cell, workers[..last], commands[..last], outcome, cycles);
      RoundUnfolds(config, cell, workers, commands, outcome);
      CycleWrites(config, before, workers[last], commands[last], outcome);
      PromotingCycle(before.row.status, before.row.stability, cell.row.terms.expiresAt, commands[last], outcome);
    }
  }

  /** One confirmed cycle on an unsettled request in time. */
  lemma PromotingCycle(status: Status, state: Stability, expiresAt: int, c: Command, outcome: Outcome)
    requires Unsettled(status) && c.now < expiresAt && outcome.Observed? && outcome.confirmed
    requires state.promoteStreak >= 0 && c.cycles > 0
    ensures var d := Decide(status, state, expiresAt, c, outcome);
            if Missing(state, Promote, c.cycles) == 1 then d.target == Confirmed
            else d.target == status && d.stability.firstConfirmedAt == state.firstConfirmedAt
                 && d.stability.promoteStreak >= 0
                 && Missing(d.stability, Promote, c.cycles) == Missing(state, Promote, c.cycles) - 1
  {
  }

  /**
   From any state of a confirmed, unleased request, uninterrupted cycles that
   neither confirm it nor orphan evidence keep it confirmed until the missing
   number of them is complete, and that cycle reorgs it.
   */
  lemma {:induction false} EnoughRoundsReorg(config: Config, cell: Cell, workers: seq<Worker>, commands: seq<Command>,
                                             outcome: Outcome, cycles: int)
    requires |workers| == |commands| && cell.row.status == Confirmed && cell.row.stability.demoteStreak >= 0
    requires outcome.Observed? && !outcome.confirmed && outcome.orphaned == 0 && cycles > 0
    requires cell.row.leaseOwner.None? && cell.row.leaseUntil.None?
    requires forall i :: 0 <= i < |commands| ==> InTime(WindowStart(cell.row.stability, commands), commands[i], cycles)
    requires |commands| <= Missing(cell.row.stability, Demote, cycles)
    ensures var after := Run(config, cell, Rounds(workers, commands, outcome)).row;
            if |commands| == Missing(cell.row.stability, Demote, cycles)
            then after.status == Reorged
            else after.status == Confirmed && after.leaseOwner.None? && after.leaseUntil.None?
                 && after.stability.demoteStreak >= 0
                 && (if |commands| == 0 then after == cell.row
                     else after.stability.firstConfirmedAt == Some(WindowStart(cell.row.stability, commands)))
                 && Missing(after.stability, Demote, cycles) == Missing(cell.row.stability, Demote, cycles) - |commands|
  {
    if |commands| == 0 {
    } else {
      var last := |commands| - 1;
      var before := Run(config, cell, Rounds(workers[..last], commands[..last], outcome));
      if last > 0 { assert WindowStart(cell.row.stability, commands[..last]) == WindowStart(cell.row.stability, commands); }
      EnoughRoundsReorg(config, cell, workers[..last], commands[..last], outcome, cycles);
      RoundUnfolds(config, cell, workers, commands, outcome);
      assert InTime(WindowStart(cell.row.stability, commands), commands[last], cycles);
      SkipUnreachable(Confirmed, before.row.stability, commands[last].now, commands[last].window);
      CycleWrites(config, before, workers[last], commands[last], outcome);
      DemotingCycle(before.row.stability, before.row.terms.expiresAt, commands[last], outcome);
    }
  }

  /** One unconfirmed cycle without orphans on a confirmed request in its window. */
  lemma DemotingCycle(state: Stability, expiresAt: int, c: Command, outcome: Outcome)
    requires outcome.Observed? && !outcome.confirmed && outcome.orphaned == 0
    requires state.demoteStreak >= 0 && c.cycles > 0 && !ShouldSkip(Confirmed, state, c.now, c.window)
    ensures var d := Decide(Confirmed, state, expiresAt, c, outcome);
            if Missing(state, Demote, c.cycles) == 1 then d.target == Reorged
            else d.target == Confirmed && d.stability.demoteStreak >= 0
                 && d.stability.firstConfirmedAt == (if state.firstConfirmedAt.Some? then state.firstConfirmedAt else Some(c.now))
                 && Missing(d.stability, Demote, c.cycles) == Missing(state, Demote, c.cycles) - 1
  {
  }
}
