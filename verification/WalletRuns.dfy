/**
 Wallet syncs and creates for one target, interleaved at transaction
 boundaries by any number of workers, over whole runs.
 */
module WalletRuns {
  import opened Common
  import opened WalletSync
  import opened Allocation

  type Worker = string

  /** What the processes compute outside the database. */
  datatype Env = Env(hash: KeyedHash, derive: Derivation)

  /** Where a create has got to; the account was read with the catalog, and may be stale. */
  datatype Phase =
    | Looking(command: Command, account: Id)
    | Allocating(command: Command, account: Id)
    | Replaying(command: Command)

  datatype Reply = Reply(command: Command, result: Result<Resource, CreateError>)

  /** `syncedKey` is the key material of the last successful sync, which the processes derive with. */
  datatype System = System(tables: Tables, syncedKey: Option<Key>, workers: map<Worker, Phase>, replies: seq<Reply>)

  datatype Step =
    | Resync(target: Target, order: seq<Id>)
    | Begin(worker: Worker, command: Command, asset: Asset)
    | LookUp(worker: Worker)
    | Commit(worker: Worker)
    | Reload(worker: Worker)
    | Abandon(worker: Worker)

  function Started(accounts: Accounts, catalog: Catalog): System {
    System(Tables(accounts, catalog, map[], []), None, map[], [])
  }

  function Answer(s: System, worker: Worker, command: Command, result: Result<Resource, CreateError>): System {
    s.(workers := s.workers - {worker}, replies := s.replies + [Reply(command, result)])
  }

  function Apply(env: Env, s: System, step: Step): System {
    match step
    case Resync(target, order) =>
      (match Sync(env.hash, s.tables.accounts, s.tables.catalog, target, order)
       case Err(_) => s
       case Ok(synced) =>
         s.(tables := s.tables.(accounts := synced.accounts, catalog := synced.catalog), syncedKey := Some(target.key)))
    case Begin(w, command, asset) =>
      if w in s.workers || asset !in s.tables.catalog then s
      else s.(workers := s.workers[w := Looking(command, s.tables.catalog[asset])])
    case LookUp(w) =>
      if w !in s.workers || !s.workers[w].Looking? then s else
        var command := s.workers[w].command;
        (match Look(s.tables.records, command.slot, command.requestHash)
         case NotFound => s.(workers := s.workers[w := Allocating(command, s.workers[w].account)])
         case Replay(resource) => Answer(s, w, command, Ok(resource))
         case Conflict => Answer(s, w, command, Err(IdempotencyConflict)))
    case Commit(w) =>
      if w !in s.workers || !s.workers[w].Allocating? || s.syncedKey.None? then s else
        var command := s.workers[w].command;
        (match Allocate(env.derive, s.tables, command, s.workers[w].account, s.syncedKey.value)
         case Created(tables, resource) => Answer(s.(tables := tables), w, command, Ok(resource))
         case RaceLost => s.(workers := s.workers[w := Replaying(command)])
         case Failed(error) => Answer(s, w, command, Err(error)))
    case Reload(w) =>
      if w !in s.workers || !s.workers[w].Replaying? then s else
        var command := s.workers[w].command;
        (match Look(s.tables.records, command.slot, command.requestHash)
         case Replay(resource) => Answer(s, w, command, Ok(resource))
         case _ => Answer(s, w, command, Err(IdempotencyConflict)))
    case Abandon(w) => s.(workers := s.workers - {w})
  }

  function Run(env: Env, s: System, steps: seq<Step>): System {
    if |steps| == 0 then s else Apply(env, Run(env, s, steps[..|steps| - 1]), steps[|steps| - 1])
  }

  // ------------------------------------------------------------------ invariants

  ghost predicate KeyInForce(hash: KeyedHash, accounts: Accounts, key: Key) {
    exists id :: InForce(hash, accounts, key, id)
  }

  /** The keys, the active account and the allocated indices fit together. */
  ghost predicate SoundWallet(hash: KeyedHash, accounts: Accounts, requests: seq<Request>, syncedKey: Option<Key>) {
    && Keyed(hash, accounts) && AtMostOneActive(accounts) && NonNegative(accounts)
    && Allocated(hash, accounts, requests)
    && (syncedKey.Some? ==> KeyInForce(hash, accounts, syncedKey.value))
  }

  /** Every successful reply is the one resource recorded for its slot. */
  predicate Answered(records: map<Slot, Record>, replies: seq<Reply>) {
    forall i :: 0 <= i < |replies| && replies[i].result.Ok? ==>
      var command := replies[i].command;
      command.slot in records && records[command.slot] == Record(command.requestHash, replies[i].result.value)
  }

  predicate LosersHaveRecords(records: map<Slot, Record>, workers: map<Worker, Phase>) {
    forall w :: w in workers && workers[w].Replaying? ==> workers[w].command.slot in records
  }

  /** What holds of the idempotency side alone. */
  predicate SoundReplies(s: System) {
    && Recorded(s.tables.records, s.tables.requests)
    && Answered(s.tables.records, s.replies)
    && LosersHaveRecords(s.tables.records, s.workers)
  }

  ghost predicate Sound(env: Env, s: System) {
    SoundWallet(env.hash, s.tables.accounts, s.tables.requests, s.syncedKey)
  }

  /** Each sync is configured with every secret a stored hash was made with. */
  ghost predicate Orderly(env: Env, s: System, step: Step) {
    step.Resync? ==> Covered(env.hash, s.tables.accounts, Secrets(step.target)) && Lists(step.order, s.tables.accounts)
  }

  ghost predicate OrderlyRun(env: Env, s: System, steps: seq<Step>) {
    forall i :: 0 <= i < |steps| ==> Orderly(env, Run(env, s, steps[..i]), steps[i])
  }

  lemma OrderlyFront(env: Env, s: System, steps: seq<Step>)
    requires |steps| > 0 && OrderlyRun(env, s, steps)
    ensures OrderlyRun(env, s, steps[..|steps| - 1])
    ensures Orderly(env, Run(env, s, steps[..|steps| - 1]), steps[|steps| - 1])
  {
    var front := steps[..|steps| - 1];
    forall i | 0 <= i < |front|
      ensures Orderly(env, Run(env, s, front[..i]), front[i])
    {
      assert front[..i] == steps[..i] && front[i] == steps[i];
    }
  }

  // --------------------------------------------------------- one step keeps them

  lemma ResyncKeepsWallet(env: Env, s: System, target: Target, order: seq<Id>)
    requires KeyInjective(env.hash) && Sound(env, s) && Orderly(env, s, Resync(target, order))
    ensures Sound(env, Apply(env, s, Resync(target, order)))
  {
    var accounts := s.tables.accounts;
    var outcome := Sync(env.hash, accounts, s.tables.catalog, target, order);
    if outcome.Ok? {
      SyncResult(env.hash, accounts, s.tables.catalog, target, order);
      var synced := outcome.value;
      SyncedIsSound(env.hash, accounts, synced.accounts, s.tables.requests, target.key, synced.selection.id);
    }
  }

  lemma SyncedIsSound(hash: KeyedHash, before: Accounts, after: Accounts, requests: seq<Request>, key: Key, id: Id)
    requires NonNegative(before) && Allocated(hash, before, requests)
    requires KeepsAccounts(hash, before, after) && after.Keys == before.Keys + {id}
    requires Keyed(hash, after) && InForce(hash, after, key, id) && (id !in before ==> after[id].nextIndex == 0)
    ensures SoundWallet(hash, after, requests, Some(key))
  {
    KeptAllocations(hash, before, after, requests);
  }

  lemma KeptAllocations(hash: KeyedHash, before: Accounts, after: Accounts, requests: seq<Request>)
    requires Allocated(hash, before, requests) && KeepsAccounts(hash, before, after)
    ensures Allocated(hash, after, requests)
  {
    forall i | 0 <= i < |requests|
      ensures Holds(hash, after[requests[i].account], requests[i].key)
    {
      assert SameKeys(hash, before[requests[i].account], after[requests[i].account]);
    }
  }

  /** An allocation happens on the account in force, so the key it derives with is that account's. */
  lemma CommitKeepsWallet(env: Env, t: Tables, command: Command, account: Id, key: Key)
    requires SoundWallet(env.hash, t.accounts, t.requests, Some(key))
    requires Allocate(env.derive, t, command, account, key).Created?
    ensures var after := Allocate(env.derive, t, command, account, key).tables;
            SoundWallet(env.hash, after.accounts, after.requests, Some(key))
  {
    var after := Allocate(env.derive, t, command, account, key).tables;
    var id :| InForce(env.hash, t.accounts, key, id);
    assert id == account;
    AllocateKeepsRequests(env.hash, env.derive, t, command, account, key);
    forall j | j in t.accounts
      ensures after.accounts[j].active == t.accounts[j].active && SameKeys(env.hash, t.accounts[j], after.accounts[j])
    {
      assert after.accounts[j] == t.accounts[j].(nextIndex := after.accounts[j].nextIndex);
    }
    CountersOnly(env.hash, t.accounts, after.accounts);
    assert InForce(env.hash, after.accounts, key, id);
  }

  lemma CountersOnly(hash: KeyedHash, before: Accounts, after: Accounts)
    requires before.Keys == after.Keys
    requires forall j :: j in before ==> after[j] == before[j].(nextIndex := after[j].nextIndex)
    ensures Keyed(hash, before) ==> Keyed(hash, after)
    ensures AtMostOneActive(before) ==> AtMostOneActive(after)
  {
    if Keyed(hash, before) {
      forall i | i in after
        ensures exists k :: Holds(hash, after[i], k)
      {
        var k :| Holds(hash, before[i], k);
        assert Holds(hash, after[i], k);
      }
      forall i, j, k | i in after && j in after && Holds(hash, after[i], k) && Holds(hash, after[j], k)
        ensures i == j
      {
        assert Holds(hash, before[i], k) && Holds(hash, before[j], k);
      }
    }
  }

  lemma StepKeepsWallet(env: Env, s: System, step: Step)
    requires KeyInjective(env.hash) && Sound(env, s) && Orderly(env, s, step)
    ensures Sound(env, Apply(env, s, step))
  {
    match step
    case Resync(target, order) => ResyncKeepsWallet(env, s, target, order);
    case Commit(w) =>
      if w in s.workers && s.workers[w].Allocating? && s.syncedKey.Some?
         && Allocate(env.derive, s.tables, s.workers[w].command, s.workers[w].account, s.syncedKey.value).Created?
      {
        CommitKeepsWallet(env, s.tables, s.workers[w].command, s.workers[w].account, s.syncedKey.value);
      }
    case _ =>
  }

  lemma AnswerKeepsReplies(s: System, w: Worker, command: Command, result: Result<Resource, CreateError>)
    requires SoundReplies(s)
    requires result.Ok? ==> command.slot in s.tables.records
                            && s.tables.records[command.slot] == Record(command.requestHash, result.value)
    ensures SoundReplies(Answer(s, w, command, result))
  {
  }

  lemma NewRecordKeepsReplies(env: Env, s: System, command: Command, account: Id, key: Key)
    requires SoundReplies(s) && Allocate(env.derive, s.tables, command, account, key).Created?
    ensures SoundReplies(s.(tables := Allocate(env.derive, s.tables, command, account, key).tables))
  {
    AllocateKeepsRecords(env.derive, s.tables, command, account, key);
  }

  lemma CommitKeepsReplies(env: Env, s: System, w: Worker)
    requires SoundReplies(s) && w in s.workers && s.workers[w].Allocating? && s.syncedKey.Some?
    ensures SoundReplies(Apply(env, s, Commit(w)))
  {
    var command, account, key := s.workers[w].command, s.workers[w].account, s.syncedKey.value;
    var attempt := Allocate(env.derive, s.tables, command, account, key);
    if attempt.Created? {
      NewRecordKeepsReplies(env, s, command, account, key);
      AnswerKeepsReplies(s.(tables := attempt.tables), w, command, Ok(attempt.resource));
    } else if attempt.Failed? {
      AnswerKeepsReplies(s, w, command, Err(attempt.error));
    }
  }

  lemma LookKeepsReplies(env: Env, s: System, step: Step)
    requires SoundReplies(s) && (step.LookUp? || step.Reload?)
    ensures SoundReplies(Apply(env, s, step))
  {
    var w := step.worker;
    if w in s.workers {
      var command := s.workers[w].command;
      var look := Look(s.tables.records, command.slot, command.requestHash);
      if look.Replay? {
        AnswerKeepsReplies(s, w, command, Ok(look.resource));
      } else {
        AnswerKeepsReplies(s, w, command, Err(IdempotencyConflict));
      }
    }
  }

  lemma StepKeepsReplies(env: Env, s: System, step: Step)
    requires SoundReplies(s)
    ensures SoundReplies(Apply(env, s, step))
  {
    match step
    case Commit(w) =>
      if w in s.workers && s.workers[w].Allocating? && s.syncedKey.Some? {
        CommitKeepsReplies(env, s, w);
      }
    case LookUp(_) => LookKeepsReplies(env, s, step);
    case Reload(_) => LookKeepsReplies(env, s, step);
    case _ =>
  }

  // ------------------------------------------------------------- over whole runs

  lemma {:induction false} RunIsSound(env: Env, s: System, steps: seq<Step>)
    requires KeyInjective(env.hash) && Sound(env, s) && OrderlyRun(env, s, steps)
    ensures Sound(env, Run(env, s, steps))
  {
    if |steps| == 0 {
    } else {
      OrderlyFront(env, s, steps);
      RunIsSound(env, s, steps[..|steps| - 1]);
      StepKeepsWallet(env, Run(env, s, steps[..|steps| - 1]), steps[|steps| - 1]);
    }
  }

  /** No two committed requests share key material and derivation index, however syncs and creates interleave. */
  lemma NoSlotIsReused(env: Env, accounts: Accounts, catalog: Catalog, steps: seq<Step>)
    requires KeyInjective(env.hash) && Keyed(env.hash, accounts) && AtMostOneActive(accounts) && NonNegative(accounts)
    requires OrderlyRun(env, Started(accounts, catalog), steps)
    ensures NoReuse(Run(env, Started(accounts, catalog), steps).tables.requests)
  {
    var s := Started(accounts, catalog);
    RunIsSound(env, s, steps);
    var t := Run(env, s, steps).tables;
    AllocatedMeansNoReuse(env.hash, t.accounts, t.requests);
  }

  /** After each sync of a run exactly one account is active, and it holds the synced key. */
  lemma OneActiveAfterSync(env: Env, accounts: Accounts, catalog: Catalog, steps: seq<Step>, target: Target, order: seq<Id>)
    returns (id: Id)
    requires KeyInjective(env.hash) && Keyed(env.hash, accounts) && AtMostOneActive(accounts) && NonNegative(accounts)
    requires OrderlyRun(env, Started(accounts, catalog), steps + [Resync(target, order)])
    requires var t := Run(env, Started(accounts, catalog), steps).tables;
             Sync(env.hash, t.accounts, t.catalog, target, order).Ok?
    ensures InForce(env.hash, Run(env, Started(accounts, catalog), steps + [Resync(target, order)]).tables.accounts,
                    target.key, id)
  {
    var s, all := Started(accounts, catalog), steps + [Resync(target, order)];
    assert all[..|all| - 1] == steps;
    RunIsSound(env, s, all);
    assert KeyInForce(env.hash, Run(env, s, all).tables.accounts, target.key);
    id :| InForce(env.hash, Run(env, s, all).tables.accounts, target.key, id);
  }

  lemma {:induction false} RunKeepsReplies(env: Env, s: System, steps: seq<Step>)
    requires SoundReplies(s)
    ensures SoundReplies(Run(env, s, steps))
  {
    if |steps| == 0 {
    } else {
      RunKeepsReplies(env, s, steps[..|steps| - 1]);
      StepKeepsReplies(env, Run(env, s, steps[..|steps| - 1]), steps[|steps| - 1]);
    }
  }

  predicate Agree(a: Reply, b: Reply) {
    a.result.Ok? && b.result.Ok? && a.command.slot == b.command.slot ==>
      a.result == b.result && a.command.requestHash == b.command.requestHash
  }

  predicate CommittedAs(requests: seq<Request>, slot: Slot, resource: Resource) {
    exists j :: 0 <= j < |requests| && requests[j].slot == slot && requests[j].id == resource.id
                && requests[j].index == resource.index && requests[j].address == resource.address
  }

  /**
   Each idempotency slot commits at most one request, every success for the slot
   returns that request's resource, and only to commands with its request hash.
   */
  lemma CreatesAreIdempotent(env: Env, accounts: Accounts, catalog: Catalog, steps: seq<Step>)
    ensures var s := Run(env, Started(accounts, catalog), steps);
            && (forall i, j :: 0 <= i < j < |s.tables.requests| ==> s.tables.requests[i].slot != s.tables.requests[j].slot)
            && (forall i, j :: 0 <= i < |s.replies| && 0 <= j < |s.replies| ==> Agree(s.replies[i], s.replies[j]))
            && (forall i :: 0 <= i < |s.replies| && s.replies[i].result.Ok? ==>
                  CommittedAs(s.tables.requests, s.replies[i].command.slot, s.replies[i].result.value))
  {
    RunKeepsReplies(env, Started(accounts, catalog), steps);
    var s := Run(env, Started(accounts, catalog), steps);
    forall i | 0 <= i < |s.replies| && s.replies[i].result.Ok?
      ensures CommittedAs(s.tables.requests, s.replies[i].command.slot, s.replies[i].result.value)
    {
      assert HasRequest(s.tables.requests, s.replies[i].command.slot);
    }
  }

  /** A create that loses the insert race always finds the winner's record when it reloads. */
  lemma LoserFindsRecord(env: Env, accounts: Accounts, catalog: Catalog, steps: seq<Step>, w: Worker)
    requires w in Run(env, Started(accounts, catalog), steps).workers
    requires Run(env, Started(accounts, catalog), steps).workers[w].Replaying?
    ensures var s := Run(env, Started(accounts, catalog), steps);
            !Look(s.tables.records, s.workers[w].command.slot, s.workers[w].command.requestHash).NotFound?
  {
    RunKeepsReplies(env, Started(accounts, catalog), steps);
  }

  // ------------------------------------------------------- what a retry is told

  /** The step has the worker look its slot up: before allocating, or after losing the insert race. */
  predicate Looks(s: System, step: Step, w: Worker) {
    && w in s.workers
    && if step == LookUp(w) then s.workers[w].Looking? else step == Reload(w) && s.workers[w].Replaying?
  }

  /** One lookup of a recorded slot answers from the record, and touches nothing else. */
  lemma LookupAnswers(env: Env, s: System, step: Step, w: Worker)
    requires Looks(s, step, w) && s.workers[w].command.slot in s.tables.records
    ensures var command := s.workers[w].command;
            var record := s.tables.records[command.slot];
            var after := Apply(env, s, step);
            && after.tables == s.tables && after.workers == s.workers - {w}
            && |after.replies| == |s.replies| + 1 && after.replies[..|s.replies|] == s.replies
            && after.replies[|s.replies|].command == command
            && (after.replies[|s.replies|].result == Ok(record.resource) <==> command.requestHash == record.requestHash)
            && (after.replies[|s.replies|].result == Err(IdempotencyConflict) <==>
                  command.requestHash != record.requestHash)
  {
  }

  /** A lookup that finds nothing goes on to allocate. */
  lemma LookupMisses(env: Env, s: System, w: Worker)
    requires Looks(s, LookUp(w), w) && s.workers[w].command.slot !in s.tables.records
    ensures Apply(env, s, LookUp(w)) ==
            s.(workers := s.workers[w := Allocating(s.workers[w].command, s.workers[w].account)])
  {
  }

  lemma StepKeepsRecord(env: Env, s: System, step: Step, slot: Slot)
    requires slot in s.tables.records
    ensures slot in Apply(env, s, step).tables.records
    ensures Apply(env, s, step).tables.records[slot] == s.tables.records[slot]
  {
  }

  lemma {:induction false} RunKeepsRecord(env: Env, s: System, steps: seq<Step>, more: seq<Step>, slot: Slot)
    requires slot in Run(env, s, steps).tables.records
    ensures slot in Run(env, s, steps + more).tables.records
    ensures Run(env, s, steps + more).tables.records[slot] == Run(env, s, steps).tables.records[slot]
  {
    if |more| == 0 {
      assert steps + more == steps;
    } else {
      var front, last := more[..|more| - 1], more[|more| - 1];
      assert steps + more == steps + front + [last];
      RunKeepsRecord(env, s, steps, front, slot);
      RunSnoc(env, s, steps + front, last);
      StepKeepsRecord(env, Run(env, s, steps + front), last, slot);
    }
  }

  /**
   Once a slot is recorded with a hash and a resource, whatever happens later,
   every create that looks the slot up is told that resource exactly when it
   carries that hash, and that its key was reused exactly when it does not.
   */
  lemma RetriesAreAnswered(env: Env, s: System, steps: seq<Step>, more: seq<Step>, step: Step, w: Worker, slot: Slot,
                           record: Record)
    requires slot in Run(env, s, steps).tables.records && Run(env, s, steps).tables.records[slot] == record
    requires Looks(Run(env, s, steps + more), step, w)
    requires Run(env, s, steps + more).workers[w].command.slot == slot
    ensures var before, after := Run(env, s, steps + more), Run(env, s, steps + more + [step]);
            var command := before.workers[w].command;
            && after.tables == before.tables && w !in after.workers
            && |after.replies| == |before.replies| + 1 && after.replies[..|before.replies|] == before.replies
            && after.replies[|before.replies|].command == command
            && (after.replies[|before.replies|].result == Ok(record.resource) <==> command.requestHash == record.requestHash)
            && (after.replies[|before.replies|].result == Err(IdempotencyConflict) <==>
                  command.requestHash != record.requestHash)
  {
    RunKeepsRecord(env, s, steps, more, slot);
    RunSnoc(env, s, steps + more, step);
    LookupAnswers(env, Run(env, s, steps + more), step, w);
  }

  /** A commit that answers with a resource has just stored it under its slot, with its own request hash. */
  lemma CommitStores(env: Env, s: System, w: Worker)
    requires w in s.workers && s.workers[w].Allocating? && s.syncedKey.Some?
    ensures var Allocating(command, account) := s.workers[w];
            var after := Apply(env, s, Commit(w));
            |after.replies| == |s.replies| + 1 && after.replies[|s.replies|].result.Ok? ==>
              && after.replies == s.replies + [Reply(command, after.replies[|s.replies|].result)]
              && account in s.tables.accounts
              && Stored(env.derive, s.tables, after.tables, command, account, s.syncedKey.value,
                        after.replies[|s.replies|].result.value)
  {
    AllocateStores(env.derive, s.tables, s.workers[w].command, s.workers[w].account, s.syncedKey.value);
  }

  /** Losing the insert race leads to a reload; the allocation failed only because the slot was recorded meanwhile. */
  lemma CommitLosesRace(env: Env, s: System, w: Worker)
    requires w in s.workers && s.workers[w].Allocating? && s.syncedKey.Some?
    ensures var command := s.workers[w].command;
            var after := Apply(env, s, Commit(w));
            w in after.workers ==>
              command.slot in s.tables.records && after == s.(workers := s.workers[w := Replaying(command)])
  {
  }

  // --------------------------------------------------------------- dense indices

  /** Dense, or not opened yet and unused. */
  predicate DenseSoFar(t: Tables, id: Id) {
    if id in t.accounts then Dense(t.accounts, t.requests, id) else IndicesOf(t.requests, id) == []
  }

  lemma ResyncKeepsDense(env: Env, s: System, target: Target, order: seq<Id>, id: Id)
    requires KeyInjective(env.hash) && Sound(env, s) && Orderly(env, s, Resync(target, order))
    requires DenseSoFar(s.tables, id)
    ensures DenseSoFar(Apply(env, s, Resync(target, order)).tables, id)
  {
    if Sync(env.hash, s.tables.accounts, s.tables.catalog, target, order).Ok? {
      SyncResult(env.hash, s.tables.accounts, s.tables.catalog, target, order);
      assert Range(0) == [];
    }
  }

  lemma CommitKeepsDense(env: Env, t: Tables, command: Command, account: Id, key: Key, id: Id)
    requires DenseSoFar(t, id) && Allocate(env.derive, t, command, account, key).Created?
    ensures DenseSoFar(Allocate(env.derive, t, command, account, key).tables, id)
  {
    if id in t.accounts {
      AllocateKeepsDense(env.derive, t, command, account, key, id);
    } else {
      var after := Allocate(env.derive, t, command, account, key).tables.requests;
      assert after[..|after| - 1] == t.requests;
    }
  }

  lemma StepKeepsDense(env: Env, s: System, step: Step, id: Id)
    requires KeyInjective(env.hash) && Sound(env, s) && Orderly(env, s, step) && DenseSoFar(s.tables, id)
    ensures DenseSoFar(Apply(env, s, step).tables, id)
  {
    match step
    case Resync(target, order) => ResyncKeepsDense(env, s, target, order, id);
    case Commit(w) =>
      if w in s.workers && s.workers[w].Allocating? && s.syncedKey.Some?
         && Allocate(env.derive, s.tables, s.workers[w].command, s.workers[w].account, s.syncedKey.value).Created?
      {
        CommitKeepsDense(env, s.tables, s.workers[w].command, s.workers[w].account, s.syncedKey.value, id);
      }
    case _ =>
  }

  lemma {:induction false} RunKeepsDense(env: Env, s: System, steps: seq<Step>, id: Id)
    requires KeyInjective(env.hash) && Sound(env, s) && OrderlyRun(env, s, steps) && DenseSoFar(s.tables, id)
    ensures DenseSoFar(Run(env, s, steps).tables, id)
  {
    if |steps| == 0 {
    } else {
      var front := steps[..|steps| - 1];
      OrderlyFront(env, s, steps);
      RunKeepsDense(env, s, front, id);
      RunIsSound(env, s, front);
      StepKeepsDense(env, Run(env, s, front), steps[|steps| - 1], id);
    }
  }

  /** An account opened or found empty at 0 hands out exactly 0, 1, ..., next index - 1, in commit order. */
  lemma IndicesAreDense(env: Env, accounts: Accounts, catalog: Catalog, steps: seq<Step>, id: Id)
    requires KeyInjective(env.hash) && Keyed(env.hash, accounts) && AtMostOneActive(accounts) && NonNegative(accounts)
    requires OrderlyRun(env, Started(accounts, catalog), steps)
    requires id in accounts ==> accounts[id].nextIndex == 0
    requires id in Run(env, Started(accounts, catalog), steps).tables.accounts
    ensures var t := Run(env, Started(accounts, catalog), steps).tables;
            Dense(t.accounts, t.requests, id)
  {
    assert Range(0) == [];
    RunKeepsDense(env, Started(accounts, catalog), steps, id);
  }

  // ------------------------------------------------------- the conflict branches

  ghost predicate DerivationInjective(derive: Derivation) {
    forall k, scheme, i, k', scheme', i' ::
      derive(k, scheme, i).Some? && derive(k, scheme, i) == derive(k', scheme', i') ==> k == k' && i == i'
  }

  ghost predicate DerivedAddress(derive: Derivation, request: Request) {
    exists scheme :: derive(request.key, scheme, request.index) == Some(request.address)
  }

  ghost predicate Derived(derive: Derivation, requests: seq<Request>) {
    forall i :: 0 <= i < |requests| ==> DerivedAddress(derive, requests[i])
  }

  lemma AllocateKeepsDerived(derive: Derivation, t: Tables, command: Command, account: Id, key: Key)
    requires Derived(derive, t.requests) && Allocate(derive, t, command, account, key).Created?
    ensures Derived(derive, Allocate(derive, t, command, account, key).tables.requests)
  {
    var after := Allocate(derive, t, command, account, key).tables.requests;
    assert DerivedAddress(derive, after[|t.requests|]);
  }

  lemma {:induction false} AddressesAreDerived(env: Env, accounts: Accounts, catalog: Catalog, steps: seq<Step>)
    ensures Derived(env.derive, Run(env, Started(accounts, catalog), steps).tables.requests)
  {
    if |steps| == 0 {
    } else {
      var front, last := steps[..|steps| - 1], steps[|steps| - 1];
      AddressesAreDerived(env, accounts, catalog, front);
      var s := Run(env, Started(accounts, catalog), front);
      if last.Commit? && last.worker in s.workers && s.workers[last.worker].Allocating? && s.syncedKey.Some? {
        var phase := s.workers[last.worker];
        if Allocate(env.derive, s.tables, phase.command, phase.account, s.syncedKey.value).Created? {
          AllocateKeepsDerived(env.derive, s.tables, phase.command, phase.account, s.syncedKey.value);
        }
      }
    }
  }

  /**
   With injective derivation an allocation conflict in a reachable state has one
   cause, a resource ID that is already taken: the index and address
   constraints never fire.
   */
  lemma ConflictMeansIdTaken(env: Env, accounts: Accounts, catalog: Catalog, steps: seq<Step>,
                             command: Command, account: Id, key: Key)
    requires KeyInjective(env.hash) && Keyed(env.hash, accounts) && AtMostOneActive(accounts) && NonNegative(accounts)
    requires DerivationInjective(env.derive) && OrderlyRun(env, Started(accounts, catalog), steps)
    requires Run(env, Started(accounts, catalog), steps).syncedKey == Some(key)
    ensures var t := Run(env, Started(accounts, catalog), steps).tables;
            Allocate(env.derive, t, command, account, key) == Failed(AllocationConflict) ==>
            IdTaken(t.requests, command.resourceId)
  {
    var t := Run(env, Started(accounts, catalog), steps).tables;
    RunIsSound(env, Started(accounts, catalog), steps);
    AddressesAreDerived(env, accounts, catalog, steps);
    if account in t.accounts && t.accounts[account].active {
      NextSlotIsFree(env.hash, t.accounts, t.requests, account);
      if env.derive(key, command.scheme, t.accounts[account].nextIndex).Some? {
        NextAddressIsFree(env, t, command.scheme, account, key);
      }
    }
  }

  lemma NextAddressIsFree(env: Env, t: Tables, scheme: string, account: Id, key: Key)
    requires SoundWallet(env.hash, t.accounts, t.requests, Some(key))
    requires DerivationInjective(env.derive) && Derived(env.derive, t.requests)
    requires account in t.accounts && t.accounts[account].active
    requires env.derive(key, scheme, t.accounts[account].nextIndex).Some?
    ensures !AddressTaken(t.requests, env.derive(key, scheme, t.accounts[account].nextIndex).value)
  {
    forall i: nat | i < |t.requests|
      ensures t.requests[i].address != env.derive(key, scheme, t.accounts[account].nextIndex).value
    {
      assert DerivedAddress(env.derive, t.requests[i]);
      if t.requests[i].key == key {
        SharedKeySharesAccount(env.hash, t, account, key, i);
      }
    }
  }

  lemma SharedKeySharesAccount(hash: KeyedHash, t: Tables, account: Id, key: Key, i: nat)
    requires SoundWallet(hash, t.accounts, t.requests, Some(key)) && i < |t.requests| && t.requests[i].key == key
    requires account in t.accounts && t.accounts[account].active
    ensures t.requests[i].account == account && t.requests[i].index < t.accounts[account].nextIndex
  {
    var id :| InForce(hash, t.accounts, key, id);
  }

  /**
   The configured secrets matter: when the secret of a stored hash is dropped,
   the same key gets a second account whose counter restarts, and every create
   on it conflicts with an address already handed out.
   */
  lemma DroppedSecretStalls(env: Env, key: Key, dropped: Secret, active: Secret, first: Id, second: Id, asset: Asset,
                            w: Worker, command: Command)
    returns (steps: seq<Step>)
    requires env.hash(dropped, key) != env.hash(active, key) && first != second
    requires env.derive(key, command.scheme, 0).Some?
    ensures var accounts := map[first := Account(Some(env.hash(dropped, key)), true, 0)];
            var t := Run(env, Started(accounts, map[asset := first]), steps).tables;
            && first in t.accounts && Holds(env.hash, t.accounts[first], key)
            && second in t.accounts && Holds(env.hash, t.accounts[second], key)
            && t.catalog == map[asset := second]
            && forall c: Command :: c.scheme == command.scheme ==>
                 Allocate(env.derive, t, c, second, key) == Failed(AllocationConflict)
  {
    var resync, begin := Resync(Target(key, dropped, [], second), [first]), Begin(w, command, asset);
    var resync' := Resync(Target(key, active, [], second), [first]);
    steps := [resync, begin, LookUp(w), Commit(w), resync'];
    var s0 := Started(map[first := Account(Some(env.hash(dropped, key)), true, 0)], map[asset := first]);
    RunFive(env, s0, resync, begin, LookUp(w), Commit(w), resync');
    FirstSync(env, key, dropped, first, second, asset);
    var s1 := s0.(syncedKey := Some(key));
    FirstCreate(env, s1, key, first, asset, w, command);
    var s4 := Apply(env, Apply(env, Apply(env, s1, begin), LookUp(w)), Commit(w));
    SecondSync(env, s4, key, dropped, active, first, second, asset);
    StalledTables(env, Apply(env, s4, resync').tables, key, dropped, active, first, second, command.scheme);
  }

  /** Two accounts hold the key, and the new one's first address is already taken. */
  lemma StalledTables(env: Env, t: Tables, key: Key, dropped: Secret, active: Secret, first: Id, second: Id, scheme: string)
    requires first in t.accounts && t.accounts[first].hash == Some(env.hash(dropped, key))
    requires second in t.accounts && t.accounts[second] == Account(Some(env.hash(active, key)), true, 0)
    requires |t.requests| > 0 && env.derive(key, scheme, 0) == Some(t.requests[0].address)
    ensures Holds(env.hash, t.accounts[first], key) && Holds(env.hash, t.accounts[second], key)
    ensures forall c: Command :: c.scheme == scheme ==>
              Allocate(env.derive, t, c, second, key) == Failed(AllocationConflict)
  {
    AddressHeld(env.derive, t, key, scheme, second);
  }

  lemma AddressHeld(derive: Derivation, t: Tables, key: Key, scheme: string, account: Id)
    requires account in t.accounts && t.accounts[account].active && t.accounts[account].nextIndex == 0
    requires |t.requests| > 0 && derive(key, scheme, 0) == Some(t.requests[0].address)
    ensures forall c: Command :: c.scheme == scheme ==>
              Allocate(derive, t, c, account, key) == Failed(AllocationConflict)
  {
    assert AddressTaken(t.requests, t.requests[0].address);
  }

  lemma RunFive(env: Env, s: System, a: Step, b: Step, c: Step, d: Step, e: Step)
    ensures Run(env, s, [a, b, c, d, e]) == Apply(env, Apply(env, Apply(env, Apply(env, Apply(env, s, a), b), c), d), e)
  {
    assert [] + [a] == [a] && [a] + [b] == [a, b] && [a, b] + [c] == [a, b, c];
    assert [a, b, c] + [d] == [a, b, c, d] && [a, b, c, d] + [e] == [a, b, c, d, e];
    RunSnoc(env, s, [], a);
    RunSnoc(env, s, [a], b);
    RunSnoc(env, s, [a, b], c);
    RunSnoc(env, s, [a, b, c], d);
    RunSnoc(env, s, [a, b, c, d], e);
  }

  lemma RunSnoc(env: Env, s: System, steps: seq<Step>, last: Step)
    ensures Run(env, s, steps + [last]) == Apply(env, Run(env, s, steps), last)
  {
    assert (steps + [last])[..|steps|] == steps;
  }

  lemma FirstSync(env: Env, key: Key, secret: Secret, first: Id, second: Id, asset: Asset)
    ensures var accounts := map[first := Account(Some(env.hash(secret, key)), true, 0)];
            var s := Started(accounts, map[asset := first]);
            Apply(env, s, Resync(Target(key, secret, [], second), [first])) == s.(syncedKey := Some(key))
  {
    var accounts: Accounts := map[first := Account(Some(env.hash(secret, key)), true, 0)];
    var catalog: Catalog := map[asset := first];
    var target := Target(key, secret, [], second);
    assert CandidatesOf(env.hash, target) == [env.hash(secret, key)];
    assert Select(env.hash, accounts, target, [first]) == Reused(first);
    assert OnlyActive(accounts, first, env.hash(secret, key)) == accounts;
    assert asset in catalog && catalog[asset] in accounts;
    assert Rebound(accounts, catalog, first) == catalog;
  }

  lemma FirstCreate(env: Env, s: System, key: Key, account: Id, asset: Asset, w: Worker, command: Command)
    requires s.workers == map[] && s.tables.records == map[] && s.tables.requests == []
    requires s.syncedKey == Some(key) && s.tables.catalog == map[asset := account] && env.derive(key, command.scheme, 0).Some?
    requires account in s.tables.accounts && s.tables.accounts[account].active && s.tables.accounts[account].nextIndex == 0
    ensures var after := Apply(env, Apply(env, Apply(env, s, Begin(w, command, asset)), LookUp(w)), Commit(w));
            && after.tables.accounts == s.tables.accounts[account := s.tables.accounts[account].(nextIndex := 1)]
            && after.tables.catalog == s.tables.catalog
            && |after.tables.requests| == 1
            && Some(after.tables.requests[0].address) == env.derive(key, command.scheme, 0)
  {
    assert asset in s.tables.catalog;
    var begun := Apply(env, s, Begin(w, command, asset));
    assert begun.workers == map[w := Looking(command, account)];
    var looked := Apply(env, begun, LookUp(w));
    assert looked.workers[w] == Allocating(command, account);
    assert Allocate(env.derive, looked.tables, command, account, key).Created?;
  }

  lemma SecondSync(env: Env, s: System, key: Key, dropped: Secret, active: Secret, first: Id, second: Id, asset: Asset)
    requires env.hash(dropped, key) != env.hash(active, key) && first != second
    requires s.tables.accounts == map[first := Account(Some(env.hash(dropped, key)), true, 1)]
    requires s.tables.catalog == map[asset := first]
    ensures var after := Apply(env, s, Resync(Target(key, active, [], second), [first]));
            && after.tables.accounts == map[first := Account(Some(env.hash(dropped, key)), false, 1),
                                            second := Account(Some(env.hash(active, key)), true, 0)]
            && after.tables.catalog == map[asset := second]
            && after.tables.requests == s.tables.requests
  {
    var target := Target(key, active, [], second);
    var accounts := s.tables.accounts;
    assert CandidatesOf(env.hash, target) == [env.hash(active, key)];
    assert FirstActive(accounts, [first]) == Some(first);
    assert Historical(accounts, [first], [env.hash(active, key)]) == None;
    assert Select(env.hash, accounts, target, [first]) == Rotated(second);
    var settled := Settled(accounts, Rotated(second), env.hash(active, key)).value;
    assert asset in s.tables.catalog && s.tables.catalog[asset] in settled;
  }
}
