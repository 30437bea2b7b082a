/**
 The payment request table: the per-request theorems lifted to tables of any
 size, and the reconciliation repository as methods that update the table in
 place, each of them a step of such a run.
 */
module ReconcileTable {
  import opened Common
  import opened Claims
  import opened ReconcileDecision
  import opened ReconcileProtocol
  import opened ReconcileStreaks
  import opened ReconcileWindow

  type Id = string

  datatype TableStep =
    | Insert(newId: Id, terms: Terms)
    | ClaimBatch(worker: Worker, command: Command, ids: set<Id>)
    | WriteOne(writer: Worker, id: Id, outcome: Outcome)

  type Table = map<Id, Cell>

  /**
   One statement.  The claim takes any set of rows: its limit and the rows it
   skips because they are locked depend on what else is running.
   */
  function ApplyTable(config: Config, table: Table, step: TableStep): Table {
    match step
    case Insert(id, terms) => if id in table then table else table[id := Created(terms)]
    case ClaimBatch(worker, command, ids) =>
      map id | id in table :: if id in ids then ClaimCell(table[id], worker, command) else table[id]
    case WriteOne(worker, id, outcome) =>
      if id in table then table[id := WriteCell(config, table[id], worker, outcome)] else table
  }

  function RunTable(config: Config, steps: seq<TableStep>): Table {
    if |steps| == 0 then map[] else ApplyTable(config, RunTable(config, steps[..|steps| - 1]), steps[|steps| - 1])
  }

  /** What a table step means for one request. */
  function Project(step: TableStep, id: Id): seq<Step> {
    match step
    case Insert(_, _) => []
    case ClaimBatch(worker, command, ids) => if id in ids then [Claim(worker, command)] else []
    case WriteOne(worker, target, outcome) => if id == target then [Write(worker, outcome)] else []
  }

  predicate WideTableStep(step: TableStep) {
    step.ClaimBatch? ==> step.command.window >= SECOND && step.command.cycles > 0
  }

  /** Every row of a table is the result of some run of that row alone, on its own terms. */
  lemma {:induction false} RowsRunAlone(config: Config, steps: seq<TableStep>, id: Id)
    returns (terms: Terms, cellSteps: seq<Step>)
    requires id in RunTable(config, steps)
    ensures RunTable(config, steps)[id] == Run(config, Created(terms), cellSteps)
    ensures (forall i :: 0 <= i < |steps| ==> WideTableStep(steps[i])) ==>
              forall i :: 0 <= i < |cellSteps| ==> WideWindow(cellSteps[i])
  {
    var before, step := RunTable(config, steps[..|steps| - 1]), steps[|steps| - 1];
    if id in before {
      terms, cellSteps := RowsRunAlone(config, steps[..|steps| - 1], id);
      var last := Project(step, id);
      RunConcat(config, Created(terms), cellSteps, last);
      if |last| == 1 { assert Run(config, before[id], last[..0]) == before[id]; }
      cellSteps := cellSteps + last;
    } else {
      terms, cellSteps := step.terms, [];
    }
  }

  /** The event log is faithful for every request of every reachable table, whatever webhook URLs the others have. */
  lemma TableEventLog(config: Config, steps: seq<TableStep>, id: Id)
    requires id in RunTable(config, steps)
    ensures var cell := RunTable(config, steps)[id];
            && OwnerIsFresh(cell)
            && if Announces(config, cell.row.terms)
               then EventChain(cell.events) && LastStatus(cell.events) == cell.row.status
               else cell.events == []
  {
    var terms, cellSteps := RowsRunAlone(config, steps, id);
    FaithfulEventLog(config, terms, cellSteps);
    RunKeepsLog(config, terms, cellSteps);
    RunKeepsOwnerFresh(config, terms, cellSteps);
  }

  /** Streaks back every transition of every request whose last `cycles - 1` commits held their lease. */
  lemma TableStreaks(config: Config, steps: seq<TableStep>, id: Id, i: nat)
    requires forall k :: 0 <= k < |steps| ==> WideTableStep(steps[k])
    requires id in RunTable(config, steps) && i < |RunTable(config, steps)[id].commits|
    requires var commits := RunTable(config, steps)[id].commits; HeldTail(commits[..i + 1], commits[i].cycles - 1)
    ensures Backed(RunTable(config, steps)[id].commits, i)
  {
    var terms, cellSteps := RowsRunAlone(config, steps, id);
    HeldTailBacksTransition(config, terms, cellSteps, i);
  }

  /** Every confirmed request of every reachable table leaves its window exactly when nothing has forgotten its time. */
  lemma TableWindow(config: Config, steps: seq<TableStep>, id: Id, i: nat, window: int)
    requires id in RunTable(config, steps)
    requires var cell := RunTable(config, steps)[id];
             && HeldSinceForgotten(cell.commits) && Opens(cell.commits, i)
             && (cell.row.status == Confirmed || cell.row.status == Reorged)
             && forall j :: i < j < |cell.commits| ==> cell.commits[i].now < cell.commits[j].now
    ensures var cell := RunTable(config, steps)[id];
            DueInWindowOf(cell.row, cell.commits[i], window) <==> !ForgottenSince(cell.commits, i)
  {
    var terms, cellSteps := RowsRunAlone(config, steps, id);
    WindowClosesExactly(config, terms, cellSteps, i, window);
  }

  // ------------------------------------------------------------ the statements

  /** A claimed row as the claim read it. */
  datatype OpenRequest = OpenRequest(id: Id, status: Status, stability: Stability, expiresAt: int)

  function ReadFrom(id: Id, row: Row): OpenRequest {
    OpenRequest(id, row.status, row.stability, row.terms.expiresAt)
  }

  function ReadAll(rows: map<Id, Row>, ids: seq<Id>): (items: seq<OpenRequest>)
    requires forall id :: id in ids ==> id in rows
    ensures |items| == |ids| && forall i :: 0 <= i < |items| ==> items[i] == ReadFrom(ids[i], rows[ids[i]])
  {
    seq(|ids|, i requires 0 <= i < |ids| => ReadFrom(ids[i], rows[ids[i]]))
  }

  function ClaimableBy(command: Command): Row -> bool {
    row => Claimable(row, command)
  }

  function LeaseTo(worker: Worker, command: Command): Row -> Row {
    row => Leased(row, worker, command)
  }

  function RowsOf(table: Table): map<Id, Row> {
    map id | id in table :: table[id].row
  }

  function EventsAt(outbox: map<Id, seq<Event>>, id: Id): seq<Event> {
    if id in outbox then outbox[id] else []
  }

  /** The tables hold what the model's cells hold. */
  predicate Holds(rows: map<Id, Row>, outbox: map<Id, seq<Event>>, table: Table) {
    rows == RowsOf(table) && forall id :: id in table ==> EventsAt(outbox, id) == table[id].events
  }

  /** The worker's snapshot of a row is what its claim read. */
  predicate Remembers(table: Table, worker: Worker, command: Command, item: OpenRequest) {
    && item.id in table && worker in table[item.id].snapshots
    && var s := table[item.id].snapshots[worker];
       && s.command == command && s.status == item.status && s.stability == item.stability
       && item.expiresAt == table[item.id].row.terms.expiresAt
  }

  /** Leasing the rows a claim takes is the claim step for those rows. */
  lemma ClaimIsStep(config: Config, rows: map<Id, Row>, outbox: map<Id, seq<Event>>, table: Table,
                    worker: Worker, command: Command, taken: seq<Id>, after: map<Id, Row>)
    requires Holds(rows, outbox, table)
    requires forall id :: id in taken ==> id in rows && Claimable(rows[id], command)
    requires after == map id | id in rows :: if id in taken then Leased(rows[id], worker, command) else rows[id]
    ensures var table' := ApplyTable(config, table, ClaimBatch(worker, command, set id | id in taken));
            && Holds(after, outbox, table')
            && forall id :: id in taken ==> Remembers(table', worker, command, ReadFrom(id, rows[id]))
  {
    var table' := ApplyTable(config, table, ClaimBatch(worker, command, set id | id in taken));
    assert table'.Keys == after.Keys;
    forall id | id in table'
      ensures table'[id].row == after[id]
    {
      assert rows[id] == table[id].row;
    }
  }

  /** The guarded write a decision asks for is the write step. */
  lemma WriteIsStep(config: Config, rows: map<Id, Row>, outbox: map<Id, seq<Event>>, table: Table,
                    worker: Worker, command: Command, item: OpenRequest, outcome: Outcome)
    requires Holds(rows, outbox, table) && Remembers(table, worker, command, item)
    ensures item.id in rows
    ensures var d := Decide(item.status, item.stability, item.expiresAt, command, outcome);
            var id, cell := item.id, WriteCell(config, table[item.id], worker, outcome);
            if Guard(rows[id], item.status, worker)
            then cell.row == Written(rows[id], d.target, d.stability)
                 && cell.events == EventsAt(outbox, id) + Announced(config, rows[id].terms, item.status, d.target)
            else cell.row == rows[id] && cell.events == EventsAt(outbox, id)
  {
    assert rows[item.id] == table[item.id].row;
  }

  lemma IdsOf(rows: map<Id, Row>, ids: seq<Id>)
    requires forall id :: id in ids ==> id in rows
    ensures (set item | item in ReadAll(rows, ids) :: item.id) == set id | id in ids
  {
    var items := ReadAll(rows, ids);
    forall id | id in ids
      ensures exists item :: item in items && item.id == id
    {
      var i :| 0 <= i < |ids| && ids[i] == id;
      assert items[i] in items;
    }
  }

  class PaymentRequests {
    const config: Config
    var rows: map<Id, Row>
    var outbox: map<Id, seq<Event>>

    constructor (config: Config)
      ensures this.config == config && rows == map[] && outbox == map[]
    {
      this.config := config;
      rows, outbox := map[], map[];
    }

    /** `SELECT ... FOR UPDATE SKIP LOCKED` and the lease update, returning the rows as they were read. */
    method ClaimOpenForReconciliation(worker: Worker, command: Command, order: seq<Id>, locked: set<Id>, limit: nat)
      returns (items: seq<OpenRequest>)
      requires forall i, j :: 0 <= i < j < |order| ==> order[i] != order[j]
      modifies `rows
      ensures var taken := Candidates(old(rows), order, locked, ClaimableBy(command), limit);
              && |items| == |taken|
              && (forall i :: 0 <= i < |items| ==>
                    taken[i] in old(rows) && items[i] == ReadFrom(taken[i], old(rows)[taken[i]]))
              && rows == map id | id in old(rows) ::
                           if id in taken then Leased(old(rows)[id], worker, command) else old(rows)[id]
      ensures forall table: Table :: Holds(old(rows), outbox, table) ==>
                var ids := set item | item in items :: item.id;
                var table' := ApplyTable(config, table, ClaimBatch(worker, command, ids));
                Holds(rows, outbox, table') && forall item :: item in items ==> Remembers(table', worker, command, item)
    {
      ghost var before := rows;
      var taken, leased := ClaimRows(rows, order, locked, ClaimableBy(command), LeaseTo(worker, command), limit);
      items := ReadAll(rows, taken);
      rows := leased;
      forall table: Table | Holds(before, outbox, table)
        ensures var ids := set item | item in items :: item.id;
                var table' := ApplyTable(config, table, ClaimBatch(worker, command, ids));
                Holds(rows, outbox, table') && forall item :: item in items ==> Remembers(table', worker, command, item)
      {
        ClaimIsStep(config, before, outbox, table, worker, command, taken, rows);
        IdsOf(before, taken);
      }
    }

    /** The compare-and-set write with its outbox insert. */
    method TransitionStatusIfCurrent(id: Id, current: Status, next: Status, stability: Stability, worker: Worker)
      returns (updated: bool)
      modifies `rows, `outbox
      ensures updated <==> id in old(rows) && Guard(old(rows)[id], current, worker)
      ensures !updated ==> rows == old(rows) && outbox == old(outbox)
      ensures updated ==>
                && rows == old(rows)[id := Written(old(rows)[id], next, stability)]
                && outbox == old(outbox)[id := EventsAt(old(outbox), id)
                                               + Announced(config, old(rows)[id].terms, current, next)]
    {
      updated := id in rows && Guard(rows[id], current, worker);
      if updated {
        outbox := outbox[id := EventsAt(outbox, id) + Announced(config, rows[id].terms, current, next)];
        rows := rows[id := Written(rows[id], next, stability)];
      }
    }

    /** One iteration of the loop over claimed rows, once the chain has been observed: a write step of the row. */
    method ReconcileRow(item: OpenRequest, command: Command, worker: Worker, outcome: Outcome) returns (updated: bool)
      modifies `rows, `outbox
      ensures forall table: Table :: Holds(old(rows), old(outbox), table) && Remembers(table, worker, command, item) ==>
                Holds(rows, outbox, ApplyTable(config, table, WriteOne(worker, item.id, outcome)))
    {
      ghost var rows0, outbox0 := rows, outbox;
      var d := Decide(item.status, item.stability, item.expiresAt, command, outcome);
      updated := TransitionStatusIfCurrent(item.id, item.status, d.target, d.stability, worker);
      forall table: Table | Holds(rows0, outbox0, table) && Remembers(table, worker, command, item)
        ensures Holds(rows, outbox, ApplyTable(config, table, WriteOne(worker, item.id, outcome)))
      {
        WriteIsStep(config, rows0, outbox0, table, worker, command, item, outcome);
        RowsAfterWrite(table, item.id, WriteCell(config, table[item.id], worker, outcome));
      }
    }
  }

  lemma RowsAfterWrite(table: Table, id: Id, cell: Cell)
    requires id in table
    ensures RowsOf(table[id := cell]) == RowsOf(table)[id := cell.row]
  {
  }
}
