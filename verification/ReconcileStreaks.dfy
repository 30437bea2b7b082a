/**
 Stability streaks over whole runs: what a promotion or a demotion says about
 the cycles committed before it, and how many confirmed cycles it takes.
 */
module ReconcileStreaks {
  import opened Common
  import opened ReconcileDecision
  import opened ReconcileProtocol

  predicate ConfirmedObservation(c: Commit) {
    c.cause.ByOutcome? && c.cause.outcome.Observed? && c.cause.outcome.confirmed
  }

  predicate UnconfirmedObservation(c: Commit) {
    c.cause.ByOutcome? && c.cause.outcome.Observed? && !c.cause.outcome.confirmed
  }

  /** The last `n` commits are all of one kind. */
  ghost predicate Trailing(commits: seq<Commit>, n: int, kind: Commit -> bool) {
    n <= |commits| && forall i :: |commits| - n <= i < |commits| && 0 <= i ==> kind(commits[i])
  }

  /** The last `n` commits, or all if there are fewer, were made under a held lease. */
  predicate HeldTail(commits: seq<Commit>, n: int) {
    forall i :: |commits| - n <= i < |commits| && 0 <= i ==> commits[i].held
  }

  /** A stored streak counts trailing commits as far back as they held their lease. */
  ghost predicate StreakTrue(commits: seq<Commit>, streak: int, kind: Commit -> bool) {
    streak >= 1 && forall n :: 1 <= n <= streak && HeldTail(commits, n - 1) ==> Trailing(commits, n, kind)
  }

  /** What the stored streaks say about the commits. */
  ghost predicate StreaksTrue(commits: seq<Commit>, s: Stability) {
    && (s.signal == Promote ==> StreakTrue(commits, s.promoteStreak, ConfirmedObservation))
    && (s.signal == Demote ==> StreakTrue(commits, s.demoteStreak, UnconfirmedObservation))
  }

  /** Commit `i` was backed by as many consecutive cycles as it required. */
  ghost predicate Backed(commits: seq<Commit>, i: nat)
    requires i < |commits|
  {
    var c := commits[i];
    && (c.to == Confirmed && c.from != Confirmed ==> Trailing(commits[..i + 1], c.cycles, ConfirmedObservation))
    && (c.from == Confirmed && c.to == Reorged && c.cause.ByOutcome? && c.cause.outcome.Observed? && c.cause.outcome.orphaned == 0 ==>
          Trailing(commits[..i + 1], c.cycles, UnconfirmedObservation))
  }

  /** Commit `i` is backed unless one of the last `cycles - 1` commits, itself included, had lost its lease. */
  ghost predicate BackedIfHeld(commits: seq<Commit>, i: nat)
    requires i < |commits|
  {
    HeldTail(commits[..i + 1], commits[i].cycles - 1) ==> Backed(commits, i)
  }

  predicate AllHeld(commits: seq<Commit>) {
    forall i :: 0 <= i < |commits| ==> commits[i].held
  }

  /** A claim with a window of at least a second and a positive cycle count. */
  predicate WideWindow(step: Step) {
    step.Claim? ==> step.command.window >= SECOND && step.command.cycles > 0
  }

  /** Snapshots were due when claimed, under a wide window. */
  predicate SnapshotsDue(cell: Cell) {
    forall w :: w in cell.snapshots ==>
      var s := cell.snapshots[w];
      s.command.window >= SECOND && s.command.cycles > 0 && Due(s.status, s.stability, s.command.now, s.command.window)
  }

  ghost predicate StreakInvariant(cell: Cell) {
    && OwnerIsFresh(cell) && SnapshotsDue(cell) && StreaksTrue(cell.commits, cell.row.stability)
    && forall i :: 0 <= i < |cell.commits| ==> BackedIfHeld(cell.commits, i)
  }

  lemma TrailingExtends(commits: seq<Commit>, n: int, kind: Commit -> bool, c: Commit)
    requires Trailing(commits, n, kind) && n >= 0 && kind(c)
    ensures Trailing(commits + [c], n + 1, kind)
  {
    var all := commits + [c];
    forall i | |all| - (n + 1) <= i < |all| && 0 <= i
      ensures kind(all[i])
    {
      if i < |commits| { assert kind(commits[i]); }
    }
  }

  lemma HeldTailShrinks(commits: seq<Commit>, n: int, c: Commit)
    requires n >= 1 && HeldTail(commits + [c], n)
    ensures c.held && HeldTail(commits, n - 1)
  {
    var all := commits + [c];
    assert all[|commits|] == c;
    forall i | |commits| - (n - 1) <= i < |commits| && 0 <= i
      ensures commits[i].held
    {
      assert all[i] == commits[i];
    }
  }

  /**
   One more observation of a kind makes a streak one longer, or starts one; it
   can rely on the old streak only if it was made under a held lease.
   */
  lemma NextStreak(commits: seq<Commit>, streak: int, kind: Commit -> bool, c: Commit, next: int)
    requires kind(c) && next >= 1
    requires c.held && next > 1 ==> next == streak + 1 && StreakTrue(commits, streak, kind)
    ensures StreakTrue(commits + [c], next, kind)
  {
    var all := commits + [c];
    forall n | 1 <= n <= next && HeldTail(all, n - 1)
      ensures Trailing(all, n, kind)
    {
      if n > 1 {
        HeldTailShrinks(commits, n - 1, c);
        TrailingExtends(commits, n - 1, kind, c);
      } else {
        TrailingExtends(commits, 0, kind, c);
      }
    }
  }

  /** What the streak after one more observation in a worker's snapshot says. */
  lemma SignalledStreak(cell: Cell, stability: Stability, c: Commit)
    requires StreaksTrue(cell.commits, cell.row.stability)
    requires c.held ==> stability == cell.row.stability
    requires stability.promoteStreak >= 0 && stability.demoteStreak >= 0
    ensures ConfirmedObservation(c) ==>
              StreakTrue(cell.commits + [c], NextStability(stability, Promote).promoteStreak, ConfirmedObservation)
    ensures UnconfirmedObservation(c) ==>
              StreakTrue(cell.commits + [c], NextStability(stability, Demote).demoteStreak, UnconfirmedObservation)
  {
    if ConfirmedObservation(c) {
      NextStreak(cell.commits, stability.promoteStreak, ConfirmedObservation, c,
                 NextStability(stability, Promote).promoteStreak);
    }
    if UnconfirmedObservation(c) {
      NextStreak(cell.commits, stability.demoteStreak, UnconfirmedObservation, c,
                 NextStability(stability, Demote).demoteStreak);
    }
  }

  /** A write, held or not, leaves true streaks, and is backed as far as it and its predecessors were held. */
  lemma WriteKeepsStreaks(config: Config, cell: Cell, worker: Worker, outcome: Outcome)
    requires StreakInvariant(cell) && AllWellShaped(cell) && worker in cell.snapshots
    requires Guard(cell.row, cell.snapshots[worker].status, worker)
    ensures var after := WriteCell(config, cell, worker, outcome);
            && StreaksTrue(after.commits, after.row.stability)
            && |after.commits| == |cell.commits| + 1 && BackedIfHeld(after.commits, |cell.commits|)
  {
    var s := cell.snapshots[worker];
    SkipUnreachable(s.status, s.stability, s.command.now, s.command.window);
    var c, commits' := CommitOf(cell, worker, outcome), WriteCell(config, cell, worker, outcome).commits;
    assert commits' == cell.commits + [c];
    assert commits'[..|cell.commits| + 1] == commits';
    SignalledStreak(cell, s.stability, c);
  }

  lemma ApplyKeepsStreaks(config: Config, cell: Cell, step: Step)
    requires StreakInvariant(cell) && AllWellShaped(cell) && WideWindow(step)
    ensures StreakInvariant(Apply(config, cell, step))
  {
    var cell' := Apply(config, cell, step);
    if |cell'.commits| > |cell.commits| {
      WriteKeepsStreaks(config, cell, step.worker, step.outcome);
      forall i | 0 <= i < |cell'.commits|
        ensures BackedIfHeld(cell'.commits, i)
      {
        if i < |cell.commits| {
          assert cell'.commits[..i + 1] == cell.commits[..i + 1];
          assert BackedIfHeld(cell.commits, i);
        }
      }
    }
  }

  lemma {:induction false} RunKeepsStreaks(config: Config, terms: Terms, steps: seq<Step>)
    requires forall i :: 0 <= i < |steps| ==> WideWindow(steps[i])
    ensures StreakInvariant(Run(config, Created(terms), steps))
  {
    if |steps| == 0 {
    } else {
      var before := Run(config, Created(terms), steps[..|steps| - 1]);
      RunKeepsStreaks(config, terms, steps[..|steps| - 1]);
      RunKeepsShape(config, terms, steps[..|steps| - 1]);
      ApplyKeepsStreaks(config, before, steps[|steps| - 1]);
    }
  }

  /**
   For any interleaving with windows of at least a second: a promotion is the
   last of as many consecutive confirmed observations as it required, and a
   demotion without orphaned evidence the last of as many unconfirmed ones,
   unless one of the last `cycles - 1` commits, the transition included, had
   lost its lease.  Older late writes do not matter.  A failed or unsupported
   cycle is neither kind, so it restarts the count.
   */
  lemma HeldTailBacksTransition(config: Config, terms: Terms, steps: seq<Step>, i: nat)
    requires forall k :: 0 <= k < |steps| ==> WideWindow(steps[k])
    requires i < |Run(config, Created(terms), steps).commits|
    requires var commits := Run(config, Created(terms), steps).commits; HeldTail(commits[..i + 1], commits[i].cycles - 1)
    ensures Backed(Run(config, Created(terms), steps).commits, i)
  {
    RunKeepsStreaks(config, terms, steps);
    assert BackedIfHeld(Run(config, Created(terms), steps).commits, i);
  }

  /** In particular, when every write held its lease every transition is backed. */
  lemma StreaksBackTransitions(config: Config, terms: Terms, steps: seq<Step>)
    requires forall i :: 0 <= i < |steps| ==> WideWindow(steps[i])
    requires AllHeld(Run(config, Created(terms), steps).commits)
    ensures var commits := Run(config, Created(terms), steps).commits;
            forall i :: 0 <= i < |commits| ==> Backed(commits, i)
  {
    var commits := Run(config, Created(terms), steps).commits;
    forall i | 0 <= i < |commits|
      ensures Backed(commits, i)
    {
      HeldTailBacksTransition(config, terms, steps, i);
    }
  }

  // ------------------------------------------------ why the lease condition is there

  /** A run with wide windows whose commit `i`, the only one to have lost its lease, is not backed. */
  ghost predicate WideButUnbacked(config: Config, terms: Terms, steps: seq<Step>, i: nat) {
    var commits := Run(config, Created(terms), steps).commits;
    && (forall k :: 0 <= k < |steps| ==> WideWindow(steps[k]))
    && i < |commits| && (forall k :: 0 <= k < |commits| && k != i ==> commits[k].held)
    && commits[i].cycles == 2 && !Backed(commits, i)
  }

  /**
   One lost lease among the last `cycles - 1` commits is enough: a worker whose
   lease lapsed writes its old snapshot through the vacant lease, and confirms
   a request right after a failed cycle although two confirmed cycles were
   required.
   */
  lemma LapsedLeaseBreaksStreaks(config: Config, a: Worker, b: Worker, c: Worker)
    requires a != b && b != c && a != c
    ensures exists terms, steps, i :: WideButUnbacked(config, terms, steps, i)
  {
    var good, terms := Observed(true, true, false, 0), Terms(1000, false);
    var steps := [Claim(a, Command(0, 10, SECOND, 2)), Write(a, good),
                  Claim(b, Command(100, 10, SECOND, 2)),
                  Claim(c, Command(200, 10, SECOND, 2)), Write(c, ObserveError),
                  Write(b, good)];
    var s2 := FirstConfirmedCycle(config, terms, a);
    var s5 := FailedCycle(config, terms, s2, b, c);
    LateWriteUnbacked(config, terms, s5, b);
    RunSix(config, Created(terms), steps);
    UnbackedRun(config, terms, steps, WriteCell(config, s5, b, good));
  }

  lemma UnbackedRun(config: Config, terms: Terms, steps: seq<Step>, cell: Cell)
    requires Run(config, Created(terms), steps) == cell
    requires forall k :: 0 <= k < |steps| ==> WideWindow(steps[k])
    requires |cell.commits| == 3 && cell.commits[0].held && cell.commits[1].held
    requires cell.commits[2].cycles == 2 && !Backed(cell.commits, 2)
    ensures WideButUnbacked(config, terms, steps, 2)
  {
  }

  const ONE_PROMOTE := Stability(None, None, Promote, 1, 0)

  /** A first confirmed cycle leaves a promote streak of one. */
  lemma FirstConfirmedCycle(config: Config, terms: Terms, a: Worker) returns (cell: Cell)
    requires terms.expiresAt == 1000
    ensures var good := Observed(true, true, false, 0);
            cell == WriteCell(config, ClaimCell(Created(terms), a, Command(0, 10, SECOND, 2)), a, good)
    ensures cell.row == Row(Pending, ONE_PROMOTE, None, None, terms)
    ensures |cell.commits| == 1 && cell.commits[0].held && cell.snapshots == map[]
  {
    cell := WriteCell(config, ClaimCell(Created(terms), a, Command(0, 10, SECOND, 2)), a, Observed(true, true, false, 0));
    assert cell.snapshots.Keys == {};
  }

  /** While `b` sits on a lapsed lease, `c` claims and commits a failed cycle. */
  lemma FailedCycle(config: Config, terms: Terms, start: Cell, b: Worker, c: Worker) returns (cell: Cell)
    requires terms.expiresAt == 1000 && start.row == Row(Pending, ONE_PROMOTE, None, None, terms)
    requires |start.commits| == 1 && start.commits[0].held && start.snapshots == map[] && b != c
    ensures var claimed := ClaimCell(ClaimCell(start, b, Command(100, 10, SECOND, 2)), c, Command(200, 10, SECOND, 2));
            cell == WriteCell(config, claimed, c, ObserveError)
    ensures cell.row == Row(Pending, FRESH, None, None, terms)
    ensures b in cell.snapshots && cell.snapshots[b] == Snapshot(Command(100, 10, SECOND, 2), Pending, ONE_PROMOTE, 1)
    ensures |cell.commits| == 2 && cell.commits[0].held && cell.commits[1].held
    ensures cell.commits[1].cause == ByOutcome(ObserveError)
  {
    var claimed := ClaimCell(ClaimCell(start, b, Command(100, 10, SECOND, 2)), c, Command(200, 10, SECOND, 2));
    cell := WriteCell(config, claimed, c, ObserveError);
  }

  /** The late write promotes on a snapshot from before the failed cycle. */
  lemma LateWriteUnbacked(config: Config, terms: Terms, cell: Cell, b: Worker)
    requires terms.expiresAt == 1000 && cell.row == Row(Pending, FRESH, None, None, terms)
    requires b in cell.snapshots && cell.snapshots[b] == Snapshot(Command(100, 10, SECOND, 2), Pending, ONE_PROMOTE, 1)
    requires |cell.commits| == 2 && cell.commits[1].cause == ByOutcome(ObserveError)
    ensures var commits := WriteCell(config, cell, b, Observed(true, true, false, 0)).commits;
            |commits| == 3 && commits[..2] == cell.commits && commits[2].cycles == 2 && !Backed(commits, 2)
  {
    var good := Observed(true, true, false, 0);
    var commits := WriteCell(config, cell, b, good).commits;
    assert commits == cell.commits + [Commit(Pending, Confirmed, ByOutcome(good), 2, 100, 1, false)];
    assert commits[1] == cell.commits[1] && commits[..3] == commits;
    assert !ConfirmedObservation(commits[1]);
  }

  lemma RunSix(config: Config, cell: Cell, steps: seq<Step>)
    requires |steps| == 6
    ensures Run(config, cell, steps)
         == Apply(config, Apply(config, Apply(config, Apply(config, Apply(config, Apply(config, cell,
              steps[0]), steps[1]), steps[2]), steps[3]), steps[4]), steps[5])
  {
    assert steps[..1][..0] == [] && steps[..2][..1] == steps[..1] && steps[..3][..2] == steps[..2];
    assert steps[..4][..3] == steps[..3] && steps[..5][..4] == steps[..4];
    assert Run(config, cell, steps[..1]) == Apply(config, cell, steps[0]);
    assert Run(config, cell, steps[..2]) == Apply(config, Run(config, cell, steps[..1]), steps[1]);
    assert Run(config, cell, steps[..3]) == Apply(config, Run(config, cell, steps[..2]), steps[2]);
    assert Run(config, cell, steps[..4]) == Apply(config, Run(config, cell, steps[..3]), steps[3]);
    assert Run(config, cell, steps[..5]) == Apply(config, Run(config, cell, steps[..4]), steps[4]);
  }
}
