/**
 The observe window over whole runs: which commit the stored time of first
 confirmation comes from, and so until when a confirmed request is claimed.
 */
module ReconcileWindow {
  import opened Common
  import opened ReconcileDecision
  import opened ReconcileProtocol
  import opened ReconcileStreaks

  /** A failed or unsupported cycle, or an expiry: it replaces the stored state with an empty one. */
  predicate Forgets(c: Commit) {
    c.cause.ByExpiry? || (c.cause.ByOutcome? && !c.cause.outcome.Observed?)
  }

  /** An observation that leaves the request confirmed. */
  predicate Confirms(c: Commit) {
    c.to == Confirmed && c.cause.ByOutcome? && c.cause.outcome.Observed?
  }

  /** One commit's effect on the time of first confirmation it started from. */
  function Next(before: Option<int>, c: Commit): Option<int> {
    if Forgets(c) then None
    else if before.Some? then before
    else if Confirms(c) then Some(c.now) else None
  }

  // ---------------------------------------------------------- every interleaving

  /** The time of first confirmation, followed through the states the commits were made on. */
  function Lineage(commits: seq<Commit>): Option<int> {
    if |commits| == 0 then None else
      var c := commits[|commits| - 1];
      Next(if c.base < |commits| then Lineage(commits[..c.base]) else None, c)
  }

  /** Row and snapshots hold the times their lineages give. */
  predicate TimesTrue(cell: Cell) {
    && cell.row.stability.firstConfirmedAt == Lineage(cell.commits)
    && forall w :: w in cell.snapshots ==>
         cell.snapshots[w].version <= |cell.commits|
         && cell.snapshots[w].stability.firstConfirmedAt == Lineage(cell.commits[..cell.snapshots[w].version])
  }

  lemma WriteKeepsTimes(config: Config, cell: Cell, worker: Worker, outcome: Outcome)
    requires TimesTrue(cell) && worker in cell.snapshots && Guard(cell.row, cell.snapshots[worker].status, worker)
    ensures TimesTrue(WriteCell(config, cell, worker, outcome))
  {
    var s, c, after := cell.snapshots[worker], CommitOf(cell, worker, outcome), WriteCell(config, cell, worker, outcome);
    assert after.commits == cell.commits + [c];
    assert after.commits[..s.version] == cell.commits[..s.version];
    assert after.row.stability.firstConfirmedAt == Next(s.stability.firstConfirmedAt, c);
    forall w | w in after.snapshots
      ensures after.commits[..after.snapshots[w].version] == cell.commits[..cell.snapshots[w].version]
    {
    }
  }

  /** Over any interleaving, late writes included, the stored time is the one its lineage gives. */
  lemma {:induction false} StoredTimeIsLineage(config: Config, terms: Terms, steps: seq<Step>)
    ensures TimesTrue(Run(config, Created(terms), steps))
  {
    if |steps| == 0 {
    } else {
      var before, step := Run(config, Created(terms), steps[..|steps| - 1]), steps[|steps| - 1];
      StoredTimeIsLineage(config, terms, steps[..|steps| - 1]);
      if step.Claim? {
        assert before.commits[..|before.commits|] == before.commits;
      } else if step.worker in before.snapshots && Guard(before.row, before.snapshots[step.worker].status, step.worker) {
        WriteKeepsTimes(config, before, step.worker, step.outcome);
      }
    }
  }

  // ------------------------------------------------------- uninterrupted writes

  /** The time of the first confirming commit after the last forgetting one. */
  function FirstConfirmation(commits: seq<Commit>): Option<int> {
    if |commits| == 0 then None else Next(FirstConfirmation(commits[..|commits| - 1]), commits[|commits| - 1])
  }

  /** Every commit after the last forgetting one held its lease. */
  predicate HeldSinceForgotten(commits: seq<Commit>) {
    |commits| == 0 || Forgets(commits[|commits| - 1])
    || (commits[|commits| - 1].held && HeldSinceForgotten(commits[..|commits| - 1]))
  }

  /** Commits made under a held lease were made on the state just before them. */
  predicate HeldOnLatest(commits: seq<Commit>) {
    forall k :: 0 <= k < |commits| && commits[k].held ==> commits[k].base == k
  }

  lemma {:induction false} RunKeepsHeldOnLatest(config: Config, terms: Terms, steps: seq<Step>)
    ensures HeldOnLatest(Run(config, Created(terms), steps).commits)
  {
    if |steps| == 0 {
    } else {
      RunKeepsHeldOnLatest(config, terms, steps[..|steps| - 1]);
      RunKeepsOwnerFresh(config, terms, steps[..|steps| - 1]);
    }
  }

  lemma {:induction false} LineageWhenHeld(commits: seq<Commit>)
    requires HeldOnLatest(commits) && HeldSinceForgotten(commits)
    ensures Lineage(commits) == FirstConfirmation(commits)
  {
    if |commits| == 0 || Forgets(commits[|commits| - 1]) {
    } else {
      LineageWhenHeld(commits[..|commits| - 1]);
    }
  }

  /** The stored time is that of the first confirming commit since the last forgetting one. */
  lemma StoredTimeIsFirstConfirmation(config: Config, terms: Terms, steps: seq<Step>)
    requires HeldSinceForgotten(Run(config, Created(terms), steps).commits)
    ensures var cell := Run(config, Created(terms), steps);
            cell.row.stability.firstConfirmedAt == FirstConfirmation(cell.commits)
  {
    StoredTimeIsLineage(config, terms, steps);
    RunKeepsHeldOnLatest(config, terms, steps);
    LineageWhenHeld(Run(config, Created(terms), steps).commits);
  }

  /** Commit `i` confirms the request for the first time, or for the first time since it was forgotten. */
  predicate Opens(commits: seq<Commit>, i: nat) {
    i < |commits| && Confirms(commits[i]) && FirstConfirmation(commits[..i]).None?
  }

  predicate ForgottenSince(commits: seq<Commit>, i: nat) {
    exists j :: i < j < |commits| && Forgets(commits[j])
  }

  /** Which commit the time comes from: the opening one nothing has forgotten since. */
  lemma {:induction false} TimeOfOpening(commits: seq<Commit>, i: nat)
    requires Opens(commits, i)
    ensures if !ForgottenSince(commits, i) then FirstConfirmation(commits) == Some(commits[i].now)
            else FirstConfirmation(commits).None?
                 || exists j :: i < j < |commits| && FirstConfirmation(commits) == Some(commits[j].now)
  {
    var last := |commits| - 1;
    if i == last {
    } else {
      var front := commits[..last];
      assert front[..i] == commits[..i] && front[i] == commits[i];
      TimeOfOpening(front, i);
      ForgottenByFront(commits, i);
      if !ForgottenSince(front, i) && !Forgets(commits[last]) {
      } else if FirstConfirmation(front).Some? && !Forgets(commits[last]) {
        var j :| i < j < last && FirstConfirmation(front) == Some(front[j].now);
        assert FirstConfirmation(commits) == Some(commits[j].now);
      }
    }
  }

  lemma ForgottenByFront(commits: seq<Commit>, i: nat)
    requires i < |commits| - 1
    ensures ForgottenSince(commits, i)
            <==> ForgottenSince(commits[..|commits| - 1], i) || Forgets(commits[|commits| - 1])
  {
    var front := commits[..|commits| - 1];
    assert forall j :: i < j < |front| ==> front[j] == commits[j];
  }

  /** `at` belongs to the window a commit opens. */
  predicate InWindow(c: Commit, at: int, window: int) {
    at < c.now + WindowSeconds(window) * SECOND
  }

  /** The request is due at exactly the times in the window commit `i` opens. */
  ghost predicate DueInWindowOf(row: Row, c: Commit, window: int) {
    forall at :: Due(row.status, row.stability, at, window) <==> InWindow(c, at, window)
  }

  /**
   A request confirmed by commit `i` is due until the window that commit opens
   is over, and no longer, exactly when no failed or unsupported cycle has been
   committed since; after one it is due beyond that window.
   */
  lemma WindowClosesExactly(config: Config, terms: Terms, steps: seq<Step>, i: nat, window: int)
    requires var cell := Run(config, Created(terms), steps);
             && HeldSinceForgotten(cell.commits) && Opens(cell.commits, i)
             && (cell.row.status == Confirmed || cell.row.status == Reorged)
             && forall j :: i < j < |cell.commits| ==> cell.commits[i].now < cell.commits[j].now
    ensures var cell := Run(config, Created(terms), steps);
            && (DueInWindowOf(cell.row, cell.commits[i], window) <==> !ForgottenSince(cell.commits, i))
            && (ForgottenSince(cell.commits, i) ==>
                  Due(cell.row.status, cell.row.stability, cell.commits[i].now + WindowSeconds(window) * SECOND, window))
  {
    var cell := Run(config, Created(terms), steps);
    StoredTimeIsFirstConfirmation(config, terms, steps);
    TimeOfOpening(cell.commits, i);
    if ForgottenSince(cell.commits, i) {
      var at := cell.commits[i].now + WindowSeconds(window) * SECOND;
      assert Due(cell.row.status, cell.row.stability, at, window) && !InWindow(cell.commits[i], at, window);
    }
  }

  // ------------------------------------------------------------ the skipped branch

  /** Every claim of a run uses one window. */
  predicate UsesWindow(steps: seq<Step>, window: int) {
    forall k :: 0 <= k < |steps| && steps[k].Claim? ==> steps[k].command.window == window && steps[k].command.cycles > 0
  }

  /** Some worker of the run has claimed a row that its loop would skip. */
  predicate WouldSkip(config: Config, terms: Terms, steps: seq<Step>, w: Worker) {
    var cell := Run(config, Created(terms), steps);
    w in cell.snapshots
    && ShouldSkip(cell.snapshots[w].status, cell.snapshots[w].stability, cell.snapshots[w].command.now,
                  cell.snapshots[w].command.window)
  }

  /** Runs reach the branch that skips a confirmed request exactly when the observe window is shorter than a second. */
  lemma SkipReachedExactly(config: Config, terms: Terms, window: int, w: Worker)
    requires window > 0
    ensures (exists steps :: UsesWindow(steps, window) && WouldSkip(config, terms, steps, w)) <==> window < SECOND
  {
    if window < SECOND {
      SkipReached(config, terms, window, w);
    } else {
      forall steps | UsesWindow(steps, window)
        ensures !WouldSkip(config, terms, steps, w)
      {
        RunKeepsStreaks(config, terms, steps);
        var cell := Run(config, Created(terms), steps);
        if w in cell.snapshots {
          var s := cell.snapshots[w];
          SkipUnreachable(s.status, s.stability, s.command.now, s.command.window);
        }
      }
    }
  }

  /** One confirmed cycle with finality, then a claim when the short window is over. */
  lemma SkipReached(config: Config, terms: Terms, window: int, w: Worker)
    requires 0 < window < SECOND
    ensures exists steps :: UsesWindow(steps, window) && WouldSkip(config, terms, steps, w)
  {
    var t := terms.expiresAt - 1;
    var steps := [Claim(w, Command(t, 1, window, 1)), Write(w, Observed(true, true, true, 0)),
                  Claim(w, Command(t + window, 1, window, 1))];
    var s := Created(terms);
    assert steps[..1][..0] == [] && steps[..2][..1] == steps[..1];
    assert Run(config, s, steps[..1]) == Apply(config, s, steps[0]);
    var confirmed := Apply(config, Apply(config, s, steps[0]), steps[1]);
    assert Run(config, s, steps[..2]) == confirmed;
    assert confirmed.row == Row(Confirmed, Stability(Some(t), Some(t), NoSignal, 0, 0), None, None, terms);
    assert WouldSkip(config, terms, steps, w);
  }
}
