/** Syncing chosen genesis accounts into a virgin block-0 database: hashed tables, changesets,
    history index and state root move together. */
module Regenesis {
  import opened Common
  import opened Rows
  import opened Replacements
  import opened DupTable
  import opened HashedState
  import opened Changesets
  import opened History

  type AccountRow = Change<Option<Account>>
  type StorageRow = Change<nat>

  /** What the database says, view by view. */
  datatype Views = Views(
    accounts: map<nat, Account>, codes: map<nat, Code>, storages: Table,
    accountRows: seq<AccountRow>, storageRows: seq<StorageRow>,
    accountIndex: AccountIndex, storageIndex: StorageIndex)

  /** `after` is the sorted union of the unsynced rows of `before` and the replacement rows. */
  ghost predicate AccountRowsReplaced(before: seq<AccountRow>, after: seq<AccountRow>, rs: seq<Replacement>) {
    && StrictlySorted(after)
    && forall c :: c in after <==> (c in before && c.key.address !in Addresses(rs)) || IsAccountRow(rs, c)
  }

  ghost predicate StorageRowsReplaced(before: seq<StorageRow>, after: seq<StorageRow>, rs: seq<Replacement>) {
    && StrictlySorted(after)
    && forall c :: c in after <==> (c in before && c.key.address !in Addresses(rs)) || IsStorageRow(rs, |rs|, c)
  }

  ghost predicate RowsReplaced(before: Views, after: Views, rs: seq<Replacement>) {
    && AccountRowsReplaced(before.accountRows, after.accountRows, rs)
    && StorageRowsReplaced(before.storageRows, after.storageRows, rs)
  }

  ghost predicate IndexReplaced(before: Views, after: Views, rs: seq<Replacement>) {
    && AccountsIndexed(before.accountIndex, rs, |rs|, after.accountIndex)
    && Moved(before.storageIndex, before.storageRows, rs, after.storageIndex)
  }

  ghost predicate StoragesWritten(before: Table, rs: seq<Replacement>, after: Table) {
    forall r :: r in after <==> (r in before && !Hashed(rs, |rs|, r.key)) || NewRow(rs, |rs|, r)
  }

  /** All four views moved from `before` to `after` by the same replacements. */
  ghost predicate Synced(before: Views, after: Views, rs: seq<Replacement>) {
    && AccountsWritten(before.accounts, rs, |rs|, after.accounts)
    && CodesWritten(before.codes, rs, |rs|, after.codes)
    && StoragesWritten(before.storages, rs, after.storages)
    && RowsReplaced(before, after, rs)
    && IndexReplaced(before, after, rs)
  }

  /** The accounts a run is asked to sync. */
  ghost function Wanted(syncValidatorConfig: bool, requested: seq<nat>): set<nat> {
    (set a | a in requested) +
    (if syncValidatorConfig then {0xCCCC_CCCC_0000_0000_0000_0000_0000_0000_0000_0001} else {})
  }

  lemma GenesisIsWellFormed(k: Keccak, alloc: map<nat, GenesisAccount>, rs: seq<Replacement>)
    requires FromGenesis(k, alloc, rs)
    ensures AllWellFormed(k, rs)
  {
  }

  lemma HashesStayDistinct(k: Keccak, rs: seq<Replacement>)
    requires CollisionFree(k) && AllWellFormed(k, rs) && DistinctAddresses(rs)
    ensures DistinctHashes(rs)
  {
  }

  class BlockZeroDatabase {
    const keccak: Keccak
    const storageV2: bool
    /** The trie root of a pair of hashed tables. */
    const stateRoot: (map<nat, Account>, Table) -> nat

    var accounts: map<nat, Account>
    var codes: map<nat, Code>
    var storages: Table
    var accountFile: Option<ChangesetFile<Option<Account>>>
    var storageFile: Option<ChangesetFile<nat>>
    var accountIndex: AccountIndex
    var storageIndex: StorageIndex

    ghost function State(): Views
      reads this
    {
      Views(
        accounts, codes, storages, Present(CellsOf(accountFile)), Present(CellsOf(storageFile)),
        accountIndex, storageIndex)
    }

    /** Both block-0 changesets are strictly sorted by key. */
    ghost predicate Valid()
      reads this
    {
      SortedCells(CellsOf(accountFile)) && SortedCells(CellsOf(storageFile))
    }

    constructor (keccak: Keccak, storageV2: bool, stateRoot: (map<nat, Account>, Table) -> nat)
      ensures Valid() && State() == Views(map[], map[], {}, [], [], map[], map[])
      ensures this.keccak == keccak && this.storageV2 == storageV2 && this.stateRoot == stateRoot
    {
      this.keccak, this.storageV2, this.stateRoot := keccak, storageV2, stateRoot;
      accounts, codes, storages := map[], map[], {};
      accountFile, storageFile := None, None;
      accountIndex, storageIndex := map[], map[];
    }

    method ReplaceHashedTables(rs: seq<Replacement>) returns (root: nat)
      requires CollisionFree(keccak) && AllWellFormed(keccak, rs) && DistinctAddresses(rs)
      modifies this`accounts, this`codes, this`storages
      ensures AccountsWritten(old(accounts), rs, |rs|, accounts)
      ensures CodesWritten(old(codes), rs, |rs|, codes)
      ensures StoragesWritten(old(storages), rs, storages)
      ensures root == stateRoot(accounts, storages)
    {
      HashesStayDistinct(keccak, rs);
      var post := ReplacementPostState(storages, rs);
      root := stateRoot(OverlaidAccounts(accounts, post), OverlaidStorages(storages, post));
      accounts, codes := ReplaceHashedAccounts(accounts, codes, rs);
      storages := ReplaceHashedStorage(storages, rs);
      PostStateIsWhatIsWritten(keccak, rs, old(storages), storages, old(accounts), accounts, post);
    }

    method ReplaceHistory(rs: seq<Replacement>)
      requires Valid() && AllWellFormed(keccak, rs) && DistinctAddresses(rs)
      modifies this`accountFile, this`storageFile, this`accountIndex, this`storageIndex
      ensures Valid()
      ensures RowsReplaced(old(State()), State(), rs)
      ensures IndexReplaced(old(State()), State(), rs)
    {
      hide Present, DroppedKeys, AccountRowsReplaced, StorageRowsReplaced, SortedCells;
      hide Deleted, SlotsIndexed, Moved, AccountsIndexed;
      ghost var before, rows := storageIndex, Present(CellsOf(storageFile));
      var newAccounts, newStorage, oldKeys := RewriteFiles(keccak, accountFile, storageFile, rs);
      accountFile, storageFile := Some(newAccounts), Some(newStorage);
      ghost var pruned;
      accountIndex, storageIndex, pruned := SyncHistory(accountIndex, storageIndex, rs, oldKeys);
      BatchMoves(before, pruned, storageIndex, rs, rows);
    }

    /** The whole account sync of a run: the accounts asked for, each once. */
    method SyncRequested(alloc: map<nat, GenesisAccount>, syncValidatorConfig: bool, requested: seq<nat>)
      returns (r: Result<Option<nat>, SyncError>, ghost rs: seq<Replacement>)
      requires CollisionFree(keccak) && Valid()
      modifies this
      ensures Valid()
      ensures r.Err? || r.value.None? ==> State() == old(State())
      ensures r == Ok(None) <==> requested == [] && !syncValidatorConfig
      ensures requested != [] || syncValidatorConfig ==>
        (r.Ok? <==>
          storageV2 && forall a :: a in Wanted(syncValidatorConfig, requested) ==> Replaceable(keccak, alloc, a))
      ensures r.Ok? && r.value.Some? ==>
        && Addresses(rs) == Wanted(syncValidatorConfig, requested)
        && DistinctAddresses(rs) && AllWellFormed(keccak, rs) && FromGenesis(keccak, alloc, rs)
        && Synced(old(State()), State(), rs)
        && r.value.value == stateRoot(accounts, storages)
    {
      hide Synced, ReplacementFor, WellFormed, Replaceable;
      var addresses := SyncAccounts(syncValidatorConfig, requested);
      r, rs := SyncGenesisAccounts(alloc, addresses);
      NothingRequested(requested, addresses, syncValidatorConfig);
      assert forall a :: a in addresses <==> a in Wanted(syncValidatorConfig, requested);
      if r.Ok? && r.value.Some? {
        ReplacedAddresses(addresses, rs);
        GenesisIsWellFormed(keccak, alloc, rs);
      }
    }

    /** Replaces the given accounts by their genesis definition in every view, or changes nothing.
        The root it returns is the root of the tables it leaves. */
    method SyncGenesisAccounts(alloc: map<nat, GenesisAccount>, addresses: seq<nat>)
      returns (r: Result<Option<nat>, SyncError>, ghost rs: seq<Replacement>)
      requires CollisionFree(keccak) && Valid()
      requires forall i, j :: 0 <= i < j < |addresses| ==> addresses[i] != addresses[j]
      modifies this
      ensures Valid()
      ensures addresses == [] <==> r == Ok(None)
      ensures addresses != [] ==>
        (r.Ok? <==> storageV2 && forall a :: a in addresses ==> Replaceable(keccak, alloc, a))
      ensures addresses != [] && !storageV2 ==> r == Err(NotStorageV2)
      ensures r.Err? && storageV2 ==> exists i :: IsFirstFailure(keccak, alloc, addresses, i, r.error)
      ensures r.Err? || r.value.None? ==> State() == old(State())
      ensures r.Ok? && r.value.Some? ==>
        && |rs| == |addresses| && (forall i :: 0 <= i < |rs| ==> rs[i].address == addresses[i])
        && FromGenesis(keccak, alloc, rs)
        && Synced(old(State()), State(), rs)
        && r.value.value == stateRoot(accounts, storages)
    {
      rs := [];
      if addresses == [] {
        return Ok(None), rs;
      }
      if !storageV2 {
        return Err(NotStorageV2), rs;
      }
      var built := GenesisAccountReplacements(keccak, alloc, addresses);
      if built.Err? {
        return Err(built.error), rs;
      }
      var replacements := built.value;
      rs := replacements;
      GenesisIsWellFormed(keccak, alloc, rs);
      var root := ReplaceHashedTables(replacements);
      ReplaceHistory(replacements);
      r := Ok(Some(root));
    }
  }

  method RewriteFiles(
      k: Keccak, accountFile: Option<ChangesetFile<Option<Account>>>, storageFile: Option<ChangesetFile<nat>>,
      rs: seq<Replacement>)
    returns (newAccounts: ChangesetFile<Option<Account>>, newStorage: ChangesetFile<nat>, oldKeys: seq<Key>)
    requires SortedCells(CellsOf(accountFile)) && SortedCells(CellsOf(storageFile))
    requires AllWellFormed(k, rs) && DistinctAddresses(rs)
    ensures SortedCells(newAccounts.Cells()) && SortedCells(newStorage.Cells())
    ensures AccountRowsReplaced(Present(CellsOf(accountFile)), Present(newAccounts.Cells()), rs)
    ensures StorageRowsReplaced(Present(CellsOf(storageFile)), Present(newStorage.Cells()), rs)
    ensures oldKeys == DroppedKeys(Present(CellsOf(storageFile)), Addresses(rs))
  {
    hide Present, Rewritten, DroppedKeys, SortedCells, NoHoles;
    var accountChanges := AccountChanges(rs);
    var storageChanges := StorageChanges(k, rs);
    var synced := set i | 0 <= i < |rs| :: rs[i].address;
    assert synced == Addresses(rs);
    OwnedAccountRows(rs, accountChanges);
    OwnedStorageRows(rs, storageChanges);
    newAccounts, newStorage, oldKeys :=
      ReplaceBlockZeroChangesets(accountFile, storageFile, synced, accountChanges, storageChanges);
    RewriteMeansReplaced(CellsOf(accountFile), synced, accountChanges, newAccounts.Cells());
    RewriteMeansReplaced(CellsOf(storageFile), synced, storageChanges, newStorage.Cells());
    forall c: AccountRow
      ensures c in Present(newAccounts.Cells()) <==>
        (c in Present(CellsOf(accountFile)) && c.key.address !in Addresses(rs)) || IsAccountRow(rs, c)
    {
      assert c in accountChanges <==> IsAccountRow(rs, c);
    }
  }

  lemma OwnedAccountRows(rs: seq<Replacement>, a: seq<AccountRow>)
    requires forall c :: c in a <==> IsAccountRow(rs, c)
    ensures Owned(a, Addresses(rs))
  {
    forall j | 0 <= j < |a| ensures a[j].key.address in Addresses(rs) {
      assert a[j] in a;
    }
  }

  lemma OwnedStorageRows(rs: seq<Replacement>, s: seq<StorageRow>)
    requires forall c :: c in s <==> IsStorageRow(rs, |rs|, c)
    ensures Owned(s, Addresses(rs))
  {
    forall j | 0 <= j < |s| ensures s[j].key.address in Addresses(rs) {
      assert s[j] in s;
    }
  }

  lemma RewriteMeansReplaced<V>(
      cells: seq<Option<Change<V>>>, synced: set<nat>, repl: seq<Change<V>>, cells': seq<Option<Change<V>>>)
    requires SortedCells(cells) && StrictlySorted(repl) && Owned(repl, synced)
    requires Present(cells') == Rewritten(cells, synced, repl)
    ensures StrictlySorted(Present(cells')) && SortedCells(cells')
    ensures forall c :: c in Present(cells') <==> (c in Present(cells) && c.key.address !in synced) || c in repl
  {
    RewrittenIsTheSortedUnion(cells, synced, repl);
    SortedFromPresent(cells');
    forall c ensures c in Present(cells') <==> (c in Present(cells) && c.key.address !in synced) || c in repl {
      PresentIn(cells, c);
    }
  }

  lemma NothingRequested(requested: seq<nat>, addresses: seq<nat>, syncValidatorConfig: bool)
    requires forall a :: a in addresses <==> a in requested || (syncValidatorConfig && a == VALIDATOR_CONFIG_V2_ADDRESS)
    ensures addresses == [] <==> requested == [] && !syncValidatorConfig
  {
    if addresses != [] {
      assert addresses[0] in addresses;
    }
    if requested != [] {
      assert requested[0] in requested;
    }
    if syncValidatorConfig {
      assert VALIDATOR_CONFIG_V2_ADDRESS in addresses;
    }
  }

  lemma ReplacedAddresses(addresses: seq<nat>, rs: seq<Replacement>)
    requires |rs| == |addresses| && forall i, j :: 0 <= i < j < |addresses| ==> addresses[i] != addresses[j]
    requires forall i :: 0 <= i < |rs| ==> rs[i].address == addresses[i]
    ensures Addresses(rs) == set a | a in addresses
    ensures DistinctAddresses(rs)
  {
  }

  // ---------------------------------------------------------------- the index and the changeset

  lemma RowsOfSynced(before: seq<StorageRow>, after: seq<StorageRow>, rs: seq<Replacement>)
    requires StorageRowsReplaced(before, after, rs)
    ensures RowsAreNewSlots(after, rs)
  {
  }

  /** If the storage index of the synced addresses matched the storage changeset before a sync, it
      does so after it. */
  lemma SyncKeepsIndexMatching(before: Views, after: Views, rs: seq<Replacement>)
    requires RowsReplaced(before, after, rs) && IndexReplaced(before, after, rs)
    requires Indexes(before.storageIndex, before.storageRows, Addresses(rs))
    ensures Indexes(after.storageIndex, after.storageRows, Addresses(rs))
  {
    hide Indexes, Moved;
    RowsOfSynced(before.storageRows, after.storageRows, rs);
    IndexFollowsChangeset(before.storageIndex, after.storageIndex, rs, before.storageRows, after.storageRows);
  }

  // ---------------------------------------------------------------- a second sync

  lemma CodesAreStable(
      k: Keccak, rs: seq<Replacement>, before: map<nat, Code>, after: map<nat, Code>, again: map<nat, Code>)
    requires CollisionFree(k) && AllWellFormed(k, rs)
    requires CodesWritten(before, rs, |rs|, after) && CodesWritten(after, rs, |rs|, again)
    ensures again == after
  {
    forall h | h in again ensures again[h] == after[h] {
      if HasCode(rs, |rs|, h) {
        var i :| 0 <= i < |rs| && rs[i].bytecode == Some((h, again[h]));
        var j :| 0 <= j < |rs| && rs[j].bytecode == Some((h, after[h]));
        assert k.ofCode(after[h]) == k.ofCode(again[h]);
      }
    }
  }

  lemma RowsAreStable(rs: seq<Replacement>, before: Views, after: Views, again: Views)
    requires RowsReplaced(before, after, rs) && RowsReplaced(after, again, rs)
    ensures again.accountRows == after.accountRows && again.storageRows == after.storageRows
  {
    assert forall i :: 0 <= i < |rs| ==> rs[i].address in Addresses(rs);
    StrictlySortedUnique(again.accountRows, after.accountRows);
    StrictlySortedUnique(again.storageRows, after.storageRows);
  }

  lemma TablesAreStable(rs: seq<Replacement>, before: Views, after: Views, again: Views)
    requires AccountsWritten(before.accounts, rs, |rs|, after.accounts)
    requires AccountsWritten(after.accounts, rs, |rs|, again.accounts)
    requires StoragesWritten(before.storages, rs, after.storages) && StoragesWritten(after.storages, rs, again.storages)
    ensures again.accounts == after.accounts && again.storages == after.storages
  {
  }

  lemma IndexIsStable(rs: seq<Replacement>, before: Views, after: Views, again: Views)
    requires IndexReplaced(before, after, rs) && IndexReplaced(after, again, rs)
    requires StorageRowsReplaced(before.storageRows, after.storageRows, rs)
    ensures again.accountIndex == after.accountIndex && again.storageIndex == after.storageIndex
  {
    RowsOfSynced(before.storageRows, after.storageRows, rs);
    assert again.accountIndex == after.accountIndex;
    hide Moved, StorageRowsReplaced;
    MovedTwice(
      before.storageIndex, after.storageIndex, again.storageIndex, rs, before.storageRows, after.storageRows);
  }

  lemma SameReplacements(k: Keccak, alloc: map<nat, GenesisAccount>, rs: seq<Replacement>, rs': seq<Replacement>)
    requires CollisionFree(k) && FromGenesis(k, alloc, rs) && FromGenesis(k, alloc, rs')
    requires |rs| == |rs'| && forall i :: 0 <= i < |rs| ==> rs[i].address == rs'[i].address
    ensures rs == rs'
  {
    forall i | 0 <= i < |rs| ensures rs[i] == rs'[i] {
      ReplacementIsUnique(k, rs[i].address, alloc[rs[i].address], rs[i], rs'[i]);
    }
  }

  /** A second sync of the same accounts from the same genesis, whatever replacements it builds,
      changes nothing in any view. */
  lemma SecondSyncChangesNothing(
      k: Keccak, alloc: map<nat, GenesisAccount>, rs: seq<Replacement>, rs': seq<Replacement>,
      before: Views, after: Views, again: Views)
    requires CollisionFree(k) && FromGenesis(k, alloc, rs) && FromGenesis(k, alloc, rs')
    requires |rs| == |rs'| && forall i :: 0 <= i < |rs| ==> rs[i].address == rs'[i].address
    requires Synced(before, after, rs) && Synced(after, again, rs')
    ensures again == after
  {
    SameReplacements(k, alloc, rs, rs');
    GenesisIsWellFormed(k, alloc, rs);
    hide FromGenesis, AllWellFormed, CodesWritten, IndexReplaced, AccountsWritten, StoragesWritten;
    CodesAreStable(k, rs, before.codes, after.codes, again.codes);
    RowsAreStable(rs, before, after, again);
    TablesAreStable(rs, before, after, again);
    IndexIsStable(rs, before, after, again);
  }
}
