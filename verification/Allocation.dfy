/**
 `Create`: the idempotency lookup, the allocation transaction and the replay
 after a lost race, over the wallet, request and idempotency tables.
 */
module Allocation {
  import opened Common
  import opened WalletSync

  type Address = string

  /** The primary key of an idempotency record. */
  datatype Slot = Slot(principal: string, httpMethod: string, httpPath: string, key: string)

  /** A create command; `body` stands for the fields copied into the resource as they are. */
  datatype Command = Command(slot: Slot, requestHash: string, resourceId: string, scheme: string, body: string)

  datatype Resource = Resource(id: string, index: int, address: Address, body: string)

  datatype Record = Record(requestHash: string, resource: Resource)

  /** A committed row; `key` and `slot` note whose key and which slot it was made with. */
  datatype Request = Request(id: string, account: Id, index: int, address: Address, key: Key, slot: Slot)

  datatype Tables = Tables(
    accounts: Accounts,
    catalog: Catalog,
    records: map<Slot, Record>,
    requests: seq<Request>)

  /** Address derivation from key material; it can fail. */
  type Derivation = (Key, string, int) -> Option<Address>

  datatype CreateError =
    | IdempotencyConflict
    | AccountNotFound
    | AccountInactive
    | DerivationFailed
    | AllocationConflict

  // --------------------------------------------------------------- the statements

  datatype Lookup = NotFound | Replay(resource: Resource) | Conflict

  /** Both idempotency lookups: the one that opens the transaction and the one after a lost race. */
  function Look(records: map<Slot, Record>, slot: Slot, requestHash: string): Lookup {
    if slot !in records then NotFound
    else if records[slot].requestHash != requestHash then Conflict
    else Replay(records[slot].resource)
  }

  /** The unique constraints of a payment request row. */
  predicate SlotTaken(requests: seq<Request>, account: Id, index: int) {
    exists i :: 0 <= i < |requests| && requests[i].account == account && requests[i].index == index
  }

  predicate IdTaken(requests: seq<Request>, id: string) {
    exists i :: 0 <= i < |requests| && requests[i].id == id
  }

  predicate AddressTaken(requests: seq<Request>, address: Address) {
    exists i :: 0 <= i < |requests| && requests[i].address == address
  }

  datatype Attempt =
    | Created(tables: Tables, resource: Resource)
    | RaceLost
    | Failed(error: CreateError)

  /** The transaction after the lookup: lock, derive, insert both rows, bump the index. */
  function Allocate(derive: Derivation, t: Tables, command: Command, account: Id, key: Key): Attempt {
    if account !in t.accounts then Failed(AccountNotFound)
    else if !t.accounts[account].active then Failed(AccountInactive)
    else
      var index := t.accounts[account].nextIndex;
      var derived := derive(key, command.scheme, index);
      if derived.None? then Failed(DerivationFailed)
      else if SlotTaken(t.requests, account, index) || IdTaken(t.requests, command.resourceId)
              || AddressTaken(t.requests, derived.value) then Failed(AllocationConflict)
      else if command.slot in t.records then RaceLost
      else
        var resource := Resource(command.resourceId, index, derived.value, command.body);
        Created(
          t.(accounts := t.accounts[account := t.accounts[account].(nextIndex := index + 1)],
             records := t.records[command.slot := Record(command.requestHash, resource)],
             requests := t.requests + [Request(command.resourceId, account, index, derived.value, key, command.slot)]),
          resource)
  }

  /**
   What a successful create leaves: one more request on the active account, with
   the index the account was at and the address of that index, one more record
   holding the resource that is returned, and the account's next index one up.
   */
  predicate Stored(derive: Derivation, before: Tables, after: Tables, command: Command, account: Id, key: Key,
                   resource: Resource)
    requires account in before.accounts
  {
    && before.accounts[account].active
    && resource.index == before.accounts[account].nextIndex
    && derive(key, command.scheme, resource.index) == Some(resource.address)
    && resource.id == command.resourceId && resource.body == command.body
    && |after.requests| == |before.requests| + 1 && after.requests[..|before.requests|] == before.requests
    && after.requests[|before.requests|] ==
         Request(resource.id, account, resource.index, resource.address, key, command.slot)
    && after.records == before.records[command.slot := Record(command.requestHash, resource)]
    && after.accounts == before.accounts[account := before.accounts[account].(nextIndex := resource.index + 1)]
    && after.catalog == before.catalog
  }

  /** An allocation succeeds exactly when nothing stands in its way, and stores what it returns. */
  lemma AllocateStores(derive: Derivation, t: Tables, command: Command, account: Id, key: Key)
    ensures Allocate(derive, t, command, account, key).Created? <==>
              && account in t.accounts && t.accounts[account].active
              && derive(key, command.scheme, t.accounts[account].nextIndex).Some?
              && command.slot !in t.records
              && forall i :: 0 <= i < |t.requests| ==>
                   && t.requests[i].id != command.resourceId
                   && Some(t.requests[i].address) != derive(key, command.scheme, t.accounts[account].nextIndex)
                   && !(t.requests[i].account == account && t.requests[i].index == t.accounts[account].nextIndex)
    ensures var attempt := Allocate(derive, t, command, account, key);
            attempt.Created? ==> Stored(derive, t, attempt.tables, command, account, key, attempt.resource)
  {
  }

  // ------------------------------------------------------------------ invariants

  /** Every request names an account holding its key, below the account's next index, in increasing order. */
  ghost predicate Allocated(hash: KeyedHash, accounts: Accounts, requests: seq<Request>) {
    && (forall i :: 0 <= i < |requests| ==>
          && requests[i].account in accounts
          && 0 <= requests[i].index < accounts[requests[i].account].nextIndex
          && Holds(hash, accounts[requests[i].account], requests[i].key))
    && (forall i, j :: 0 <= i < j < |requests| && requests[i].account == requests[j].account ==>
          requests[i].index < requests[j].index)
  }

  /** A record and a request of the same slot agree. */
  predicate Describes(record: Record, request: Request) {
    record.resource.id == request.id && record.resource.index == request.index
    && record.resource.address == request.address
  }

  predicate HasRequest(requests: seq<Request>, slot: Slot) {
    exists i :: 0 <= i < |requests| && requests[i].slot == slot
  }

  /** Records and requests correspond one to one through their slot. */
  predicate Recorded(records: map<Slot, Record>, requests: seq<Request>) {
    && (forall i :: 0 <= i < |requests| ==>
          requests[i].slot in records && Describes(records[requests[i].slot], requests[i]))
    && (forall i, j :: 0 <= i < j < |requests| ==> requests[i].slot != requests[j].slot)
    && (forall slot :: slot in records ==> HasRequest(requests, slot))
  }

  predicate NonNegative(accounts: Accounts) {
    forall id :: id in accounts ==> accounts[id].nextIndex >= 0
  }

  /** No two requests use one derivation index of one key. */
  predicate NoReuse(requests: seq<Request>) {
    forall i, j :: 0 <= i < j < |requests| && requests[i].key == requests[j].key ==>
      requests[i].index != requests[j].index
  }

  lemma AllocatedMeansNoReuse(hash: KeyedHash, accounts: Accounts, requests: seq<Request>)
    requires Keyed(hash, accounts) && Allocated(hash, accounts, requests)
    ensures NoReuse(requests)
  {
    forall i, j | 0 <= i < j < |requests| && requests[i].key == requests[j].key
      ensures requests[i].index != requests[j].index
    {
      assert requests[i].account == requests[j].account;
    }
  }

  /** The allocation counter never meets a slot it has already handed out. */
  lemma NextSlotIsFree(hash: KeyedHash, accounts: Accounts, requests: seq<Request>, account: Id)
    requires Allocated(hash, accounts, requests) && account in accounts
    ensures !SlotTaken(requests, account, accounts[account].nextIndex)
  {
  }

  lemma AllocateKeepsRequests(hash: KeyedHash, derive: Derivation, t: Tables, command: Command, account: Id, key: Key)
    requires Allocated(hash, t.accounts, t.requests) && NonNegative(t.accounts)
    requires account in t.accounts && Holds(hash, t.accounts[account], key)
    requires Allocate(derive, t, command, account, key).Created?
    ensures var after := Allocate(derive, t, command, account, key).tables;
            && Allocated(hash, after.accounts, after.requests)
            && NonNegative(after.accounts)
            && after.accounts.Keys == t.accounts.Keys
            && (forall id :: id in t.accounts ==>
                  after.accounts[id] == t.accounts[id].(nextIndex := after.accounts[id].nextIndex))
  {
  }

  lemma RecordedSnoc(records: map<Slot, Record>, requests: seq<Request>, record: Record, request: Request)
    requires Recorded(records, requests)
    requires request.slot !in records && Describes(record, request)
    ensures Recorded(records[request.slot := record], requests + [request])
  {
    var after := requests + [request];
    forall slot | slot in records[request.slot := record]
      ensures HasRequest(after, slot)
    {
      if slot == request.slot {
        assert after[|requests|].slot == slot;
      } else {
        var i :| 0 <= i < |requests| && requests[i].slot == slot;
        assert after[i].slot == slot;
      }
    }
  }

  lemma AllocateKeepsRecords(derive: Derivation, t: Tables, command: Command, account: Id, key: Key)
    requires Recorded(t.records, t.requests)
    requires Allocate(derive, t, command, account, key).Created?
    ensures var after := Allocate(derive, t, command, account, key).tables;
            && Recorded(after.records, after.requests)
            && command.slot !in t.records && after.records == t.records[command.slot := after.records[command.slot]]
  {
    var after := Allocate(derive, t, command, account, key).tables;
    RecordedSnoc(t.records, t.requests, after.records[command.slot], after.requests[|t.requests|]);
  }

  // -------------------------------------------------------------- dense indices

  /** The indices an account handed out, in commit order. */
  function IndicesOf(requests: seq<Request>, account: Id): seq<int> {
    if |requests| == 0 then [] else
      var front := IndicesOf(requests[..|requests| - 1], account);
      var last := requests[|requests| - 1];
      if last.account == account then front + [last.index] else front
  }

  function Range(n: nat): (r: seq<int>)
    ensures |r| == n && forall i :: 0 <= i < n ==> r[i] == i
  {
    seq(n, i => i)
  }

  /** The account's committed indices are exactly 0 up to its next index, each once, in order. */
  predicate Dense(accounts: Accounts, requests: seq<Request>, account: Id) {
    account in accounts && accounts[account].nextIndex >= 0
    && IndicesOf(requests, account) == Range(accounts[account].nextIndex)
  }

  lemma AllocateKeepsDense(derive: Derivation, t: Tables, command: Command, account: Id, key: Key, id: Id)
    requires Dense(t.accounts, t.requests, id)
    requires Allocate(derive, t, command, account, key).Created?
    ensures var after := Allocate(derive, t, command, account, key).tables;
            Dense(after.accounts, after.requests, id)
  {
    var after := Allocate(derive, t, command, account, key).tables;
    assert after.requests[..|after.requests| - 1] == t.requests;
  }
}
