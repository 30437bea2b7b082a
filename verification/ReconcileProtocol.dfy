/**
 Reconciliation as atomic steps on one payment request: claim with a lease,
 then a compare-and-set write.  Any number of workers interleave, each holding
 the snapshot its claim returned; a step whose guard fails changes nothing.
 */
module ReconcileProtocol {
  import opened Common
  import opened ReconcileDecision

  type Worker = string

  /** What a request keeps from its creation: its expiry, and whether its webhook URL is blank. */
  datatype Terms = Terms(expiresAt: int, webhookUrlBlank: bool)

  datatype Row = Row(
    status: Status,
    stability: Stability,
    leaseOwner: Option<Worker>,
    leaseUntil: Option<int>,
    terms: Terms)

  /** A row of the webhook outbox, by the two statuses its payload carries. */
  datatype Event = Event(previous: Status, current: Status)

  /**
   A write that took effect, made at time `now` on the state left by the first
   `base` commits.  `held` says the writer still owned the lease; the guard also
   lets a write through when nobody does.
   */
  datatype Commit = Commit(from: Status, to: Status, cause: Cause, cycles: int, now: int, base: nat, held: bool)

  /** What a worker keeps between claim and write, and how many commits it had seen. */
  datatype Snapshot = Snapshot(command: Command, status: Status, stability: Stability, version: nat)

  datatype Cell = Cell(row: Row, events: seq<Event>, commits: seq<Commit>, snapshots: map<Worker, Snapshot>)

  datatype Config = Config(outboxEnabled: bool)

  datatype Step =
    | Claim(worker: Worker, command: Command)
    | Write(worker: Worker, outcome: Outcome)

  function Created(terms: Terms): Cell {
    Cell(Row(Pending, FRESH, None, None, terms), [], [], map[])
  }

  predicate Claimable(row: Row, command: Command) {
    && Due(row.status, row.stability, command.now, command.window)
    && (row.leaseUntil.None? || row.leaseUntil.value <= command.now)
  }

  function Leased(row: Row, worker: Worker, command: Command): Row {
    row.(leaseOwner := Some(worker), leaseUntil := Some(command.now + command.leaseDuration))
  }

  /** The guard of the compare-and-set write. */
  predicate Guard(row: Row, current: Status, worker: Worker) {
    row.status == current && (row.leaseOwner.None? || row.leaseOwner == Some(worker))
  }

  function Written(row: Row, next: Status, stability: Stability): Row {
    row.(status := next, stability := stability, leaseOwner := None, leaseUntil := None)
  }

  /** Whether the status changes of a request are announced. */
  predicate Announces(config: Config, terms: Terms) {
    config.outboxEnabled && !terms.webhookUrlBlank
  }

  /** The events one write inserts. */
  function Announced(config: Config, terms: Terms, current: Status, next: Status): seq<Event> {
    if Announces(config, terms) && current != next && next in {Detected, Confirmed, Reorged, Expired}
    then [Event(current, next)] else []
  }

  function ClaimCell(cell: Cell, worker: Worker, command: Command): Cell {
    if !Claimable(cell.row, command) then cell else
      cell.(row := Leased(cell.row, worker, command),
            snapshots := cell.snapshots[worker := Snapshot(command, cell.row.status, cell.row.stability, |cell.commits|)])
  }

  function Decided(cell: Cell, worker: Worker, outcome: Outcome): Decision
    requires worker in cell.snapshots
  {
    var s := cell.snapshots[worker];
    Decide(s.status, s.stability, cell.row.terms.expiresAt, s.command, outcome)
  }

  /** What a write by this worker would add to the commits. */
  function CommitOf(cell: Cell, worker: Worker, outcome: Outcome): Commit
    requires worker in cell.snapshots
  {
    var s, d := cell.snapshots[worker], Decided(cell, worker, outcome);
    Commit(s.status, d.target, d.cause, s.command.cycles, s.command.now, s.version, cell.row.leaseOwner == Some(worker))
  }

  function WriteCell(config: Config, cell: Cell, worker: Worker, outcome: Outcome): Cell {
    if worker !in cell.snapshots then cell else
      var s := cell.snapshots[worker];
      var d := Decided(cell, worker, outcome);
      var done := cell.(snapshots := cell.snapshots - {worker});
      if !Guard(cell.row, s.status, worker) then done else
        done.(row := Written(cell.row, d.target, d.stability),
              events := cell.events + Announced(config, cell.row.terms, s.status, d.target),
              commits := cell.commits + [CommitOf(cell, worker, outcome)])
  }

  function Apply(config: Config, cell: Cell, step: Step): Cell {
    match step
    case Claim(worker, command) => ClaimCell(cell, worker, command)
    case Write(worker, outcome) => WriteCell(config, cell, worker, outcome)
  }

  /** The cell after any list of steps. */
  function Run(config: Config, cell: Cell, steps: seq<Step>): Cell {
    if |steps| == 0 then cell else Apply(config, Run(config, cell, steps[..|steps| - 1]), steps[|steps| - 1])
  }

  lemma {:induction false} RunConcat(config: Config, cell: Cell, a: seq<Step>, b: seq<Step>)
    ensures Run(config, cell, a + b) == Run(config, Run(config, cell, a), b)
  {
    if |b| == 0 {
      assert a + b == a;
    } else {
      assert (a + b)[..|a + b| - 1] == a + b[..|b| - 1];
      RunConcat(config, cell, a, b[..|b| - 1]);
    }
  }

  // ------------------------------------------------------ faithful event log

  /** The status after the first `n` commits. */
  function StatusAfter(commits: seq<Commit>): Status {
    if |commits| == 0 then Pending else commits[|commits| - 1].to
  }

  /** Commits link up from `pending`, each staying put or following an edge. */
  predicate CommitChain(commits: seq<Commit>) {
    forall i :: 0 <= i < |commits| ==>
      && commits[i].from == StatusAfter(commits[..i])
      && (commits[i].to == commits[i].from || Edge(commits[i].from, commits[i].to))
  }

  /** The events of the commits that changed the status, in order. */
  function Changes(commits: seq<Commit>): seq<Event> {
    if |commits| == 0 then [] else
      var c := commits[|commits| - 1];
      Changes(commits[..|commits| - 1]) + (if c.from != c.to then [Event(c.from, c.to)] else [])
  }

  predicate LogInvariant(config: Config, cell: Cell) {
    && CommitChain(cell.commits)
    && cell.row.status == StatusAfter(cell.commits)
    && cell.events == if Announces(config, cell.row.terms) then Changes(cell.commits) else []
  }

  lemma ApplyKeepsLog(config: Config, cell: Cell, step: Step)
    requires LogInvariant(config, cell)
    ensures LogInvariant(config, Apply(config, cell, step))
  {
    if step.Write? && step.worker in cell.snapshots && Guard(cell.row, cell.snapshots[step.worker].status, step.worker) {
      var s, d := cell.snapshots[step.worker], Decided(cell, step.worker, step.outcome);
      DecisionsFollowGraph(s.status, s.stability, cell.row.terms.expiresAt, s.command, step.outcome);
      var commits' := Apply(config, cell, step).commits;
      assert commits'[..|cell.commits|] == cell.commits;
      forall i | 0 <= i < |commits'|
        ensures commits'[i].from == StatusAfter(commits'[..i])
        ensures commits'[i].to == commits'[i].from || Edge(commits'[i].from, commits'[i].to)
      {
        if i < |cell.commits| { assert commits'[..i] == cell.commits[..i]; }
      }
    }
  }

  lemma {:induction false} RunKeepsLog(config: Config, terms: Terms, steps: seq<Step>)
    ensures LogInvariant(config, Run(config, Created(terms), steps))
    ensures Run(config, Created(terms), steps).row.terms == terms
  {
    if |steps| == 0 {
    } else {
      RunKeepsLog(config, terms, steps[..|steps| - 1]);
      ApplyKeepsLog(config, Run(config, Created(terms), steps[..|steps| - 1]), steps[|steps| - 1]);
    }
  }

  /** Events link up from `pending`, along the reconciler's graph. */
  predicate EventChain(events: seq<Event>) {
    forall i :: 0 <= i < |events| ==> Linked(events, i)
  }

  predicate Linked(events: seq<Event>, i: nat)
    requires i < |events|
  {
    && events[i].previous == (if i == 0 then Pending else events[i - 1].current)
    && Edge(events[i].previous, events[i].current)
  }

  function LastStatus(events: seq<Event>): Status {
    if |events| == 0 then Pending else events[|events| - 1].current
  }

  lemma {:induction false} ChangesChain(commits: seq<Commit>)
    requires CommitChain(commits)
    ensures EventChain(Changes(commits)) && LastStatus(Changes(commits)) == StatusAfter(commits)
  {
    if |commits| == 0 {
    } else {
      var front, c := commits[..|commits| - 1], commits[|commits| - 1];
      forall i | 0 <= i < |front|
        ensures front[i].from == StatusAfter(front[..i])
        ensures front[i].to == front[i].from || Edge(front[i].from, front[i].to)
      {
        assert front[..i] == commits[..i] && front[i] == commits[i];
      }
      ChangesChain(front);
      assert c.from == StatusAfter(front);
      if c.from != c.to {
        ExtendsChain(Changes(front), Event(c.from, c.to));
      } else {
        assert Changes(front) + [] == Changes(front);
      }
    }
  }

  lemma ExtendsChain(events: seq<Event>, e: Event)
    requires EventChain(events) && e.previous == LastStatus(events)
    requires Edge(e.previous, e.current)
    ensures EventChain(events + [e]) && LastStatus(events + [e]) == e.current
  {
    var all := events + [e];
    forall i | 0 <= i < |all|
      ensures Linked(all, i)
    {
      if i < |events| { assert Linked(events, i); }
    }
  }

  /**
   For any interleaving, with lapsed leases and old snapshots: when changes are
   announced, a request's events form a chain from `pending` along the status
   graph that ends in the row's status; otherwise there are none.
   */
  lemma FaithfulEventLog(config: Config, terms: Terms, steps: seq<Step>)
    ensures var cell := Run(config, Created(terms), steps);
            if Announces(config, terms)
            then EventChain(cell.events) && LastStatus(cell.events) == cell.row.status
            else cell.events == []
  {
    RunKeepsLog(config, terms, steps);
    ChangesChain(Run(config, Created(terms), steps).commits);
  }

  /** Once expired, a request never changes status again and announces nothing more. */
  lemma {:induction false} ExpiredIsAbsorbing(config: Config, cell: Cell, steps: seq<Step>)
    requires LogInvariant(config, cell) && cell.row.status == Expired
    ensures var later := Run(config, cell, steps);
            LogInvariant(config, later) && later.row.status == Expired && later.events == cell.events
  {
    if |steps| == 0 {
    } else {
      ExpiredIsAbsorbing(config, cell, steps[..|steps| - 1]);
      var before, step := Run(config, cell, steps[..|steps| - 1]), steps[|steps| - 1];
      ApplyKeepsLog(config, before, step);
      if step.Write? && step.worker in before.snapshots {
        var s := before.snapshots[step.worker];
        DecisionsFollowGraph(s.status, s.stability, before.row.terms.expiresAt, s.command, step.outcome);
      }
    }
  }

  // ----------------------------------------------------- what metadata can say

  /** Every stored state is well shaped, and so is every snapshot, old or fresh. */
  predicate AllWellShaped(cell: Cell) {
    && WellShaped(cell.row.status, cell.row.stability)
    && forall w :: w in cell.snapshots ==> WellShaped(cell.snapshots[w].status, cell.snapshots[w].stability)
  }

  /** Over any interleaving, the stored reconciliation state stays well shaped. */
  lemma {:induction false} RunKeepsShape(config: Config, terms: Terms, steps: seq<Step>)
    ensures AllWellShaped(Run(config, Created(terms), steps))
  {
    if |steps| == 0 {
    } else {
      var before, step := Run(config, Created(terms), steps[..|steps| - 1]), steps[|steps| - 1];
      RunKeepsShape(config, terms, steps[..|steps| - 1]);
      if step.Write? && step.worker in before.snapshots {
        var s := before.snapshots[step.worker];
        DecisionsKeepShape(s.status, s.stability, before.row.terms.expiresAt, s.command, step.outcome);
      }
    }
  }

  // -------------------------------------------------------------- the lease

  /** The lease owner's snapshot is the row as it is now. */
  predicate OwnerIsFresh(cell: Cell) {
    cell.row.leaseOwner.Some? ==>
      var w := cell.row.leaseOwner.value;
      && w in cell.snapshots
      && cell.snapshots[w].status == cell.row.status
      && cell.snapshots[w].stability == cell.row.stability
      && cell.snapshots[w].version == |cell.commits|
  }

  lemma {:induction false} RunKeepsOwnerFresh(config: Config, terms: Terms, steps: seq<Step>)
    ensures OwnerIsFresh(Run(config, Created(terms), steps))
  {
    if |steps| == 0 {
    } else {
      RunKeepsOwnerFresh(config, terms, steps[..|steps| - 1]);
    }
  }

  /** Snapshots are no newer than the log, and older than it once the lease is vacant. */
  predicate VersionsLag(cell: Cell) {
    forall w :: w in cell.snapshots ==>
      cell.snapshots[w].version <= |cell.commits|
      && (cell.row.leaseOwner.None? ==> cell.snapshots[w].version < |cell.commits|)
  }

  lemma {:induction false} RunKeepsVersionsLag(config: Config, terms: Terms, steps: seq<Step>)
    ensures VersionsLag(Run(config, Created(terms), steps))
  {
    if |steps| == 0 {
    } else {
      RunKeepsVersionsLag(config, terms, steps[..|steps| - 1]);
    }
  }

  /** A write that passes the guard is made under a held lease exactly when nothing was committed since the claim. */
  lemma HeldMeansUninterrupted(config: Config, terms: Terms, steps: seq<Step>, w: Worker)
    requires w in Run(config, Created(terms), steps).snapshots
    requires var cell := Run(config, Created(terms), steps); Guard(cell.row, cell.snapshots[w].status, w)
    ensures var cell := Run(config, Created(terms), steps);
            cell.row.leaseOwner == Some(w) <==> cell.snapshots[w].version == |cell.commits|
  {
    RunKeepsVersionsLag(config, terms, steps);
    RunKeepsOwnerFresh(config, terms, steps);
  }

  /** A step by another worker, whose claim comes before the lease ends. */
  predicate Respects(step: Step, owner: Worker, until: int) {
    step.worker != owner && (step.Claim? ==> step.command.now < until)
  }

  /**
   Until its lease runs out, nobody can touch an owner's row: its snapshot
   stays fresh whatever the other workers do.
   */
  lemma {:induction false} LeaseProtects(config: Config, cell: Cell, owner: Worker, steps: seq<Step>)
    requires OwnerIsFresh(cell) && cell.row.leaseOwner == Some(owner) && cell.row.leaseUntil.Some?
    requires forall i :: 0 <= i < |steps| ==> Respects(steps[i], owner, cell.row.leaseUntil.value)
    ensures var later := Run(config, cell, steps);
            && OwnerIsFresh(later) && later.row == cell.row
            && later.commits == cell.commits && later.events == cell.events
            && later.snapshots[owner] == cell.snapshots[owner]
  {
    if |steps| == 0 {
    } else {
      LeaseProtects(config, cell, owner, steps[..|steps| - 1]);
    }
  }
}
