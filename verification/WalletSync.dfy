/**
 The startup sync of one target's wallet accounts: one transaction that picks
 the account holding the configured key material, or opens a new one, makes it
 the only active account, and rebinds the asset catalog to it.
 */
module WalletSync {
  import opened Common

  type Id = string
  type Asset = string
  type Key = string
  type Secret = string
  type Hash = string

  /** The keyed hash of key material, `hash(secret, key)`. */
  type KeyedHash = (Secret, Key) -> Hash

  /** A missing hash is a NULL or blank column. */
  datatype Account = Account(hash: Option<Hash>, active: bool, nextIndex: int)

  type Accounts = map<Id, Account>
  type Catalog = map<Asset, Id>

  /** The configured key material and secrets, and the account ID a rotation would use. */
  datatype Target = Target(key: Key, activeSecret: Secret, legacySecrets: seq<Secret>, freshId: Id)

  datatype SyncError = DuplicateAccountId | NoCatalogRow

  /** Which account the sync settles on, and why. */
  datatype Selection = Reused(id: Id) | Reactivated(id: Id) | Rotated(id: Id)

  // ------------------------------------------------------------ hash candidates

  /** The active hash, then the legacy ones without repeats. */
  function Candidates(hash: KeyedHash, key: Key, active: Secret, legacy: seq<Secret>): (candidates: seq<Hash>) {
    if |legacy| == 0 then [hash(active, key)] else
      var front := Candidates(hash, key, active, legacy[..|legacy| - 1]);
      var c := hash(legacy[|legacy| - 1], key);
      if c in front then front else front + [c]
  }

  function Secrets(target: Target): set<Secret> {
    {target.activeSecret} + set s | s in target.legacySecrets
  }

  function CandidatesOf(hash: KeyedHash, target: Target): seq<Hash> {
    Candidates(hash, target.key, target.activeSecret, target.legacySecrets)
  }

  lemma {:induction false} CandidatesAreHashes(hash: KeyedHash, key: Key, active: Secret, legacy: seq<Secret>)
    ensures hash(active, key) in Candidates(hash, key, active, legacy)
    ensures forall s :: s in legacy ==> hash(s, key) in Candidates(hash, key, active, legacy)
    ensures forall c :: c in Candidates(hash, key, active, legacy) ==>
              exists s :: (s == active || s in legacy) && hash(s, key) == c
  {
    if |legacy| == 0 {
    } else {
      var front := legacy[..|legacy| - 1];
      CandidatesAreHashes(hash, key, active, front);
      assert legacy == front + [legacy[|legacy| - 1]];
    }
  }

  // ------------------------------------------------------------------ selection

  /** The first active row in the order the query returns rows. */
  function FirstActive(accounts: Accounts, order: seq<Id>): (found: Option<Id>)
    ensures match found
            case Some(id) => id in accounts && accounts[id].active
            case None => forall id :: id in order && id in accounts ==> !accounts[id].active
  {
    if |order| == 0 then None
    else if order[0] in accounts && accounts[order[0]].active then Some(order[0])
    else FirstActive(accounts, order[1..])
  }

  /** The first inactive row with the given hash. */
  function FirstInactive(accounts: Accounts, order: seq<Id>, c: Hash): (found: Option<Id>)
    ensures match found
            case Some(id) => id in accounts && !accounts[id].active && accounts[id].hash == Some(c)
            case None => forall id :: id in order && id in accounts && !accounts[id].active ==> accounts[id].hash != Some(c)
  {
    if |order| == 0 then None
    else if order[0] in accounts && !accounts[order[0]].active && accounts[order[0]].hash == Some(c) then Some(order[0])
    else FirstInactive(accounts, order[1..], c)
  }

  function Historical(accounts: Accounts, order: seq<Id>, candidates: seq<Hash>): (found: Option<Id>)
    ensures match found
            case Some(id) => id in accounts && !accounts[id].active
                             && accounts[id].hash.Some? && accounts[id].hash.value in candidates
            case None => forall id :: id in order && id in accounts && !accounts[id].active && accounts[id].hash.Some? ==>
                           accounts[id].hash.value !in candidates
  {
    if |candidates| == 0 then None else
      var found := FirstInactive(accounts, order, candidates[0]);
      if found.Some? then found else Historical(accounts, order, candidates[1..])
  }

  /** An account without a stored hash matches whatever key is configured. */
  predicate Matches(stored: Option<Hash>, candidates: seq<Hash>) {
    stored.None? || stored.value in candidates
  }

  function Select(hash: KeyedHash, accounts: Accounts, target: Target, order: seq<Id>): Selection {
    var candidates := CandidatesOf(hash, target);
    var active := FirstActive(accounts, order);
    if active.Some? && Matches(accounts[active.value].hash, candidates) then Reused(active.value) else
      var historical := Historical(accounts, order, candidates);
      if historical.Some? then Reactivated(historical.value) else Rotated(target.freshId)
  }

  // ---------------------------------------------------------------- the outcome

  function Deactivated(accounts: Accounts): Accounts {
    map id | id in accounts :: accounts[id].(active := false)
  }

  function OnlyActive(accounts: Accounts, id: Id, hash: Hash): Accounts
    requires id in accounts
  {
    Deactivated(accounts)[id := accounts[id].(hash := Some(hash), active := true)]
  }

  function Settled(accounts: Accounts, selection: Selection, activeHash: Hash): Result<Accounts, SyncError>
    requires !selection.Rotated? ==> selection.id in accounts
  {
    match selection
    case Reused(id) => Ok(OnlyActive(accounts, id, activeHash))
    case Reactivated(id) => Ok(OnlyActive(accounts, id, activeHash))
    case Rotated(id) =>
      if id in accounts then Err(DuplicateAccountId)
      else Ok(Deactivated(accounts)[id := Account(Some(activeHash), true, 0)])
  }

  predicate Bound(accounts: Accounts, catalog: Catalog) {
    exists a :: a in catalog && catalog[a] in accounts
  }

  function Rebound(accounts: Accounts, catalog: Catalog, id: Id): Catalog {
    map a | a in catalog :: if catalog[a] in accounts then id else catalog[a]
  }

  datatype Synced = Synced(accounts: Accounts, catalog: Catalog, selection: Selection)

  /** The whole transaction; an error rolls everything back. */
  function Sync(hash: KeyedHash, accounts: Accounts, catalog: Catalog, target: Target, order: seq<Id>)
    : Result<Synced, SyncError>
  {
    var selection := Select(hash, accounts, target, order);
    match Settled(accounts, selection, hash(target.activeSecret, target.key))
    case Err(e) => Err(e)
    case Ok(after) =>
      if !Bound(after, catalog) then Err(NoCatalogRow)
      else Ok(Synced(after, Rebound(after, catalog, selection.id), selection))
  }

  // ---------------------------------------------------- which key an account holds

  /** The stored hash was made from this key, with some secret. */
  ghost predicate Holds(hash: KeyedHash, account: Account, key: Key) {
    account.hash.Some? && exists s :: hash(s, key) == account.hash.value
  }

  ghost predicate KeyInjective(hash: KeyedHash) {
    forall s, k, s', k' :: hash(s, k) == hash(s', k') ==> k == k'
  }

  /** Every account is hashed, and no two hold the same key. */
  ghost predicate Keyed(hash: KeyedHash, accounts: Accounts) {
    && (forall id :: id in accounts ==> exists k :: Holds(hash, accounts[id], k))
    && forall i, j, k ::
         i in accounts && j in accounts && Holds(hash, accounts[i], k) && Holds(hash, accounts[j], k) ==> i == j
  }

  /** Every stored hash was made with one of the given secrets. */
  ghost predicate Covered(hash: KeyedHash, accounts: Accounts, secrets: set<Secret>) {
    forall id :: id in accounts ==> exists s, k :: s in secrets && accounts[id].hash == Some(hash(s, k))
  }

  predicate AtMostOneActive(accounts: Accounts) {
    forall i, j :: i in accounts && j in accounts && accounts[i].active && accounts[j].active ==> i == j
  }

  predicate Lists(order: seq<Id>, accounts: Accounts) {
    forall id :: id in accounts ==> id in order
  }

  lemma HolderIsCandidate(hash: KeyedHash, accounts: Accounts, target: Target, id: Id)
    requires KeyInjective(hash) && Covered(hash, accounts, Secrets(target))
    requires id in accounts && Holds(hash, accounts[id], target.key)
    ensures accounts[id].hash.value in CandidatesOf(hash, target)
  {
    var s, k :| s in Secrets(target) && accounts[id].hash == Some(hash(s, k));
    CandidatesAreHashes(hash, target.key, target.activeSecret, target.legacySecrets);
  }

  lemma CandidateIsHolder(hash: KeyedHash, accounts: Accounts, target: Target, id: Id)
    requires id in accounts && accounts[id].hash.Some? && accounts[id].hash.value in CandidatesOf(hash, target)
    ensures Holds(hash, accounts[id], target.key)
  {
    CandidatesAreHashes(hash, target.key, target.activeSecret, target.legacySecrets);
  }

  /** The sync finds the account holding the configured key whenever there is one, and only then. */
  lemma SelectFindsHolder(hash: KeyedHash, accounts: Accounts, target: Target, order: seq<Id>)
    requires KeyInjective(hash) && Keyed(hash, accounts) && AtMostOneActive(accounts)
    requires Covered(hash, accounts, Secrets(target)) && Lists(order, accounts)
    ensures var selection := Select(hash, accounts, target, order);
            && (!selection.Rotated? ==> selection.id in accounts && Holds(hash, accounts[selection.id], target.key))
            && (selection.Rotated? <==> forall id :: id in accounts ==> !Holds(hash, accounts[id], target.key))
  {
    var selection := Select(hash, accounts, target, order);
    if !selection.Rotated? {
      assert accounts[selection.id].hash.Some? by {
        var k :| Holds(hash, accounts[selection.id], k);
      }
      CandidateIsHolder(hash, accounts, target, selection.id);
    } else {
      forall id | id in accounts
        ensures !Holds(hash, accounts[id], target.key)
      {
        if Holds(hash, accounts[id], target.key) {
          HolderIsCandidate(hash, accounts, target, id);
        }
      }
    }
  }

  /** The stored hash was made from the target's key with one of its secrets. */
  ghost predicate MadeFor(hash: KeyedHash, account: Account, target: Target) {
    account.hash.Some? && exists s :: s in Secrets(target) && hash(s, target.key) == account.hash.value
  }

  lemma CandidateMeansMadeFor(hash: KeyedHash, account: Account, target: Target)
    ensures account.hash.Some? && account.hash.value in CandidatesOf(hash, target) <==> MadeFor(hash, account, target)
  {
    CandidatesAreHashes(hash, target.key, target.activeSecret, target.legacySecrets);
  }

  /**
   Which account is chosen, whatever the table holds: the active one when it has
   no hash yet or one of the configured hashes; else an inactive one with a
   configured hash; else a new one.
   */
  lemma SelectExactly(hash: KeyedHash, accounts: Accounts, target: Target, order: seq<Id>)
    requires AtMostOneActive(accounts) && Lists(order, accounts)
    ensures var selection := Select(hash, accounts, target, order);
            var kept := exists id :: id in accounts && accounts[id].active
                          && (accounts[id].hash.None? || MadeFor(hash, accounts[id], target));
            var known := exists id :: id in accounts && !accounts[id].active && MadeFor(hash, accounts[id], target);
            && (selection.Reused? <==> kept)
            && (selection.Reactivated? <==> !kept && known)
            && (selection.Rotated? <==> !kept && !known)
            && (!selection.Rotated? ==>
                  && selection.id in accounts && accounts[selection.id].active == selection.Reused?
                  && ((selection.Reused? && accounts[selection.id].hash.None?)
                      || MadeFor(hash, accounts[selection.id], target)))
            && (selection.Rotated? ==> selection.id == target.freshId)
  {
    forall id | id in accounts
      ensures accounts[id].hash.Some? && accounts[id].hash.value in CandidatesOf(hash, target)
              <==> MadeFor(hash, accounts[id], target)
    {
      CandidateMeansMadeFor(hash, accounts[id], target);
    }
  }

  /** Exactly one account is active, it holds the configured key, and the catalog leads to it. */
  ghost predicate InForce(hash: KeyedHash, accounts: Accounts, key: Key, id: Id) {
    && id in accounts && accounts[id].active && Holds(hash, accounts[id], key)
    && forall j :: j in accounts && accounts[j].active ==> j == id
  }

  ghost predicate SameKeys(hash: KeyedHash, a: Account, b: Account) {
    forall k :: Holds(hash, a, k) <==> Holds(hash, b, k)
  }

  /** Accounts stay, with their keys and next indices. */
  ghost predicate KeepsAccounts(hash: KeyedHash, before: Accounts, after: Accounts) {
    forall id :: id in before ==>
      id in after && after[id].nextIndex == before[id].nextIndex && SameKeys(hash, before[id], after[id])
  }

  /** What the statements leave: the selected account active under the new hash, the others inactive. */
  lemma SettledRows(accounts: Accounts, selection: Selection, activeHash: Hash)
    requires !selection.Rotated? ==> selection.id in accounts
    requires Settled(accounts, selection, activeHash).Ok?
    ensures var after, id := Settled(accounts, selection, activeHash).value, selection.id;
            && after.Keys == accounts.Keys + {id}
            && after[id] == Account(Some(activeHash), true, if id in accounts then accounts[id].nextIndex else 0)
            && (forall j :: j in accounts && j != id ==> after[j] == accounts[j].(active := false))
            && (id in accounts <==> !selection.Rotated?)
  {
  }

  lemma RehashKeepsKey(hash: KeyedHash, account: Account, after: Account, s: Secret, key: Key)
    requires KeyInjective(hash) && Holds(hash, account, key)
    requires after.hash == Some(hash(s, key))
    ensures SameKeys(hash, account, after)
  {
  }

  /**
   After a successful sync exactly one account is active and it holds the
   configured key, hashed with the active secret; every account keeps its key
   and its next index, and at most one is added, which starts at 0.
   */
  lemma SyncResult(hash: KeyedHash, accounts: Accounts, catalog: Catalog, target: Target, order: seq<Id>)
    requires KeyInjective(hash) && Keyed(hash, accounts) && AtMostOneActive(accounts)
    requires Covered(hash, accounts, Secrets(target)) && Lists(order, accounts)
    requires Sync(hash, accounts, catalog, target, order).Ok?
    ensures var synced := Sync(hash, accounts, catalog, target, order).value;
            var id := synced.selection.id;
            && InForce(hash, synced.accounts, target.key, id)
            && synced.accounts.Keys == accounts.Keys + {id}
            && KeepsAccounts(hash, accounts, synced.accounts)
            && Keyed(hash, synced.accounts)
            && (id !in accounts ==> synced.accounts[id].nextIndex == 0)
            && synced.accounts[id].hash == Some(hash(target.activeSecret, target.key))
            && (forall j :: j in accounts && j != id ==> synced.accounts[j] == accounts[j].(active := false))
  {
    SelectFindsHolder(hash, accounts, target, order);
    var synced := Sync(hash, accounts, catalog, target, order).value;
    SettledRows(accounts, synced.selection, hash(target.activeSecret, target.key));
    SettledKeys(hash, accounts, synced.accounts, target, synced.selection.id);
  }

  /** What the rows a sync leaves say about keys. */
  lemma SettledKeys(hash: KeyedHash, accounts: Accounts, after: Accounts, target: Target, id: Id)
    requires KeyInjective(hash) && Keyed(hash, accounts) && after.Keys == accounts.Keys + {id}
    requires after[id] == Account(Some(hash(target.activeSecret, target.key)), true, after[id].nextIndex)
    requires forall j :: j in accounts && j != id ==> after[j] == accounts[j].(active := false)
    requires if id in accounts then Holds(hash, accounts[id], target.key) && after[id].nextIndex == accounts[id].nextIndex
             else forall j :: j in accounts ==> !Holds(hash, accounts[j], target.key)
    ensures InForce(hash, after, target.key, id) && KeepsAccounts(hash, accounts, after) && Keyed(hash, after)
  {
    assert Holds(hash, after[id], target.key);
    forall j | j in accounts
      ensures SameKeys(hash, accounts[j], after[j])
    {
      if j == id { RehashKeepsKey(hash, accounts[j], after[j], target.activeSecret, target.key); }
    }
    KeyedAfter(hash, accounts, after, target.key, id);
  }

  lemma KeyedAfter(hash: KeyedHash, accounts: Accounts, after: Accounts, key: Key, id: Id)
    requires KeyInjective(hash) && Keyed(hash, accounts) && KeepsAccounts(hash, accounts, after)
    requires after.Keys == accounts.Keys + {id} && Holds(hash, after[id], key)
    requires id !in accounts ==> forall i :: i in accounts ==> !Holds(hash, accounts[i], key)
    ensures Keyed(hash, after)
  {
    forall i | i in after
      ensures exists k :: Holds(hash, after[i], k)
    {
      if i in accounts {
        var k :| Holds(hash, accounts[i], k);
        assert Holds(hash, after[i], k);
      }
    }
    forall i, j, k | i in after && j in after && Holds(hash, after[i], k) && Holds(hash, after[j], k)
      ensures i == j
    {
      if i in accounts { assert Holds(hash, accounts[i], k); }
      if j in accounts { assert Holds(hash, accounts[j], k); }
    }
  }

  /** When a sync fails: the new account's ID is taken, or no asset leads to any of the accounts there would be. */
  lemma SyncFailures(hash: KeyedHash, accounts: Accounts, catalog: Catalog, target: Target, order: seq<Id>)
    ensures var outcome := Sync(hash, accounts, catalog, target, order);
            var selection := Select(hash, accounts, target, order);
            && (outcome == Err(DuplicateAccountId) <==> selection.Rotated? && selection.id in accounts)
            && (outcome == Err(NoCatalogRow) <==>
                  && !(selection.Rotated? && selection.id in accounts)
                  && forall a :: a in catalog ==> catalog[a] !in accounts.Keys + {selection.id})
  {
    var selection := Select(hash, accounts, target, order);
    var settled := Settled(accounts, selection, hash(target.activeSecret, target.key));
    if settled.Ok? {
      SettledRows(accounts, selection, hash(target.activeSecret, target.key));
      assert forall a :: a in catalog ==> (catalog[a] in settled.value <==> catalog[a] in accounts.Keys + {selection.id});
    }
  }

  /** An asset that led to any of the target's accounts leads to the selected one; others are left alone. */
  lemma CatalogFollows(hash: KeyedHash, accounts: Accounts, catalog: Catalog, target: Target, order: seq<Id>)
    requires Sync(hash, accounts, catalog, target, order).Ok?
    ensures var synced := Sync(hash, accounts, catalog, target, order).value;
            && synced.selection.id in synced.accounts
            && synced.catalog.Keys == catalog.Keys
            && (forall a :: a in catalog ==>
                  synced.catalog[a] == if catalog[a] in synced.accounts then synced.selection.id else catalog[a])
            && (exists a :: a in synced.catalog && synced.catalog[a] == synced.selection.id)
  {
    var synced := Sync(hash, accounts, catalog, target, order).value;
    var a :| a in catalog && catalog[a] in synced.accounts;
    assert synced.catalog[a] == synced.selection.id;
  }
}
