/**
 The wallet, catalog, request and idempotency tables as one store whose
 transactions update rows in place and roll back on error.
 */
module WalletStore {
  import opened Common
  import opened WalletSync
  import opened Allocation

  class Store {
    var accounts: Accounts
    var catalog: Catalog
    var records: map<Slot, Record>
    var requests: seq<Request>

    constructor (accounts: Accounts, catalog: Catalog)
      ensures Snapshot() == Tables(accounts, catalog, map[], [])
    {
      this.accounts, this.catalog, this.records, this.requests := accounts, catalog, map[], [];
    }

    function Snapshot(): Tables
      reads this
    {
      Tables(accounts, catalog, records, requests)
    }

    // ------------------------------------------------------- the sync's statements

    method DeactivateActive(kept: Option<Id>)
      modifies `accounts
      ensures accounts == map id | id in old(accounts) ::
                if kept == Some(id) then old(accounts)[id] else old(accounts)[id].(active := false)
    {
      accounts := map id | id in accounts ::
        if accounts[id].active && kept != Some(id) then accounts[id].(active := false) else accounts[id];
    }

    method UpsertAccountHash(id: Id, hash: Hash)
      requires id in accounts
      modifies `accounts
      ensures accounts == old(accounts)[id := old(accounts)[id].(hash := Some(hash), active := true)]
    {
      accounts := accounts[id := accounts[id].(hash := Some(hash), active := true)];
    }

    method InsertAccount(id: Id, hash: Hash) returns (ok: bool)
      modifies `accounts
      ensures ok <==> id !in old(accounts)
      ensures accounts == if ok then old(accounts)[id := Account(Some(hash), true, 0)] else old(accounts)
    {
      ok := id !in accounts;
      if ok {
        accounts := accounts[id := Account(Some(hash), true, 0)];
      }
    }

    method BindCatalog(id: Id) returns (ok: bool)
      modifies `catalog
      ensures ok <==> Bound(accounts, old(catalog))
      ensures catalog == Rebound(accounts, old(catalog), id)
    {
      ok := exists a :: a in catalog && catalog[a] in accounts;
      catalog := map a | a in catalog :: if catalog[a] in accounts then id else catalog[a];
    }

    /** The hash candidates, collected in order without repeats. */
    method CollectCandidates(hash: KeyedHash, target: Target) returns (candidates: seq<Hash>)
      ensures candidates == CandidatesOf(hash, target)
    {
      candidates := [hash(target.activeSecret, target.key)];
      var legacy := target.legacySecrets;
      for n := 0 to |legacy|
        invariant candidates == Candidates(hash, target.key, target.activeSecret, legacy[..n])
      {
        assert legacy[..n + 1][..n] == legacy[..n];
        var c := hash(legacy[n], target.key);
        if c in candidates {
          continue;
        }
        candidates := candidates + [c];
      }
      assert legacy[..|legacy|] == legacy;
    }

    method SyncWalletAccountTarget(hash: KeyedHash, target: Target, order: seq<Id>)
      returns (result: Result<Selection, SyncError>)
      modifies `accounts, `catalog
      ensures match Sync(hash, old(accounts), old(catalog), target, order)
              case Ok(synced) =>
                && result == Ok(synced.selection)
                && accounts == synced.accounts && catalog == synced.catalog
              case Err(e) => result == Err(e) && accounts == old(accounts) && catalog == old(catalog)
    {
      var savedAccounts, savedCatalog := accounts, catalog;
      var activeHash := hash(target.activeSecret, target.key);
      var candidates := CollectCandidates(hash, target);
      var active := FirstActive(accounts, order);
      var selected: Selection;
      if active.Some? && Matches(accounts[active.value].hash, candidates) {
        UpsertAccountHash(active.value, activeHash);
        DeactivateActive(active);
        selected := Reused(active.value);
        assert accounts == OnlyActive(old(accounts), active.value, activeHash);
      } else {
        var historical := Historical(accounts, order, candidates);
        DeactivateActive(None);
        assert accounts == Deactivated(old(accounts));
        if historical.Some? {
          UpsertAccountHash(historical.value, activeHash);
          selected := Reactivated(historical.value);
          assert accounts == OnlyActive(old(accounts), historical.value, activeHash);
        } else {
          var inserted := InsertAccount(target.freshId, activeHash);
          if !inserted {
            accounts := savedAccounts;
            return Err(DuplicateAccountId);
          }
          selected := Rotated(target.freshId);
        }
      }
      var bound := BindCatalog(selected.id);
      if !bound {
        accounts, catalog := savedAccounts, savedCatalog;
        return Err(NoCatalogRow);
      }
      return Ok(selected);
    }

    // ---------------------------------------------------- the create's statements

    method InsertPaymentRequest(request: Request) returns (ok: bool)
      modifies `requests
      ensures ok <==> !SlotTaken(old(requests), request.account, request.index)
                      && !IdTaken(old(requests), request.id) && !AddressTaken(old(requests), request.address)
      ensures requests == if ok then old(requests) + [request] else old(requests)
    {
      ok := !SlotTaken(requests, request.account, request.index)
            && !IdTaken(requests, request.id) && !AddressTaken(requests, request.address);
      if ok {
        requests := requests + [request];
      }
    }

    method InsertIdempotencyRecord(slot: Slot, record: Record) returns (ok: bool)
      modifies `records
      ensures ok <==> slot !in old(records)
      ensures records == if ok then old(records)[slot := record] else old(records)
    {
      ok := slot !in records;
      if ok {
        records := records[slot := record];
      }
    }

    method BumpNextIndex(id: Id, previous: int) returns (ok: bool)
      modifies `accounts
      ensures ok <==> id in old(accounts) && old(accounts)[id].nextIndex == previous
      ensures accounts == if ok then old(accounts)[id := old(accounts)[id].(nextIndex := previous + 1)] else old(accounts)
    {
      ok := id in accounts && accounts[id].nextIndex == previous;
      if ok {
        accounts := accounts[id := accounts[id].(nextIndex := previous + 1)];
      }
    }

    /** The transaction after the lookup; the index conflict is unreachable under the row lock. */
    method AllocateRequest(derive: Derivation, command: Command, account: Id, key: Key) returns (attempt: Attempt)
      modifies this
      ensures attempt == Allocate(derive, old(Snapshot()), command, account, key)
      ensures Snapshot() == if attempt.Created? then attempt.tables else old(Snapshot())
      ensures attempt.Created? ==>
                && account in old(accounts) && command.slot !in old(records)
                && Stored(derive, old(Snapshot()), Snapshot(), command, account, key, attempt.resource)
    {
      if account !in accounts {
        return Failed(AccountNotFound);
      }
      var wallet := accounts[account];
      if !wallet.active {
        return Failed(AccountInactive);
      }
      var derived := derive(key, command.scheme, wallet.nextIndex);
      if derived.None? {
        return Failed(DerivationFailed);
      }
      var savedRequests := requests;
      var request := Request(command.resourceId, account, wallet.nextIndex, derived.value, key, command.slot);
      var inserted := InsertPaymentRequest(request);
      if !inserted {
        return Failed(AllocationConflict);
      }
      var resource := Resource(command.resourceId, wallet.nextIndex, derived.value, command.body);
      inserted := InsertIdempotencyRecord(command.slot, Record(command.requestHash, resource));
      if !inserted {
        requests := savedRequests;
        return RaceLost;
      }
      var bumped := BumpNextIndex(account, wallet.nextIndex);
      assert bumped;
      return Created(Snapshot(), resource);
    }

    /**
     `Create` run without interruption: it replays a recorded resource, reports a
     reused key, or allocates; the insert race then cannot be lost.
     */
    method Create(derive: Derivation, command: Command, account: Id, key: Key) returns (result: Result<Resource, CreateError>)
      modifies this
      ensures command.slot in old(records) ==>
                && Snapshot() == old(Snapshot())
                && result == if old(records)[command.slot].requestHash == command.requestHash
                             then Ok(old(records)[command.slot].resource) else Err(IdempotencyConflict)
      ensures command.slot !in old(records) ==>
                match result
                case Ok(resource) =>
                  account in old(accounts) && Stored(derive, old(Snapshot()), Snapshot(), command, account, key, resource)
                case Err(error) =>
                  && Allocate(derive, old(Snapshot()), command, account, key) == Failed(error)
                  && Snapshot() == old(Snapshot())
    {
      var look := Look(records, command.slot, command.requestHash);
      if look.Replay? {
        return Ok(look.resource);
      }
      if look.Conflict? {
        return Err(IdempotencyConflict);
      }
      var attempt := AllocateRequest(derive, command, account, key);
      match attempt
      case Created(_, resource) => return Ok(resource);
      case Failed(error) => return Err(error);
      case RaceLost =>
        assert false;
    }
  }
}
