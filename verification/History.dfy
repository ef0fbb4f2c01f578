/** The block-0 history index of the synced accounts. */
module History {
  import opened Common
  import opened Rows
  import opened Replacements
  import opened Changesets

  /** The last shard of a key carries the greatest block number as its bound. */
  datatype AccountShard = AccountShard(address: nat, highest: nat)
  datatype StorageShard = StorageShard(address: nat, slot: nat, highest: nat)

  type AccountIndex = map<AccountShard, seq<nat>>
  type StorageIndex = map<StorageShard, seq<nat>>

  ghost predicate Replaces(rs: seq<Replacement>, n: nat, address: nat) {
    exists i :: 0 <= i < n <= |rs| && rs[i].address == address
  }

  ghost predicate ReplacesSlot(rs: seq<Replacement>, n: nat, address: nat, slot: nat) {
    exists i :: 0 <= i < n <= |rs| && rs[i].address == address && SlotListed(rs[i], slot)
  }

  /** Every replaced account has its block-0 entry; nothing else changed. */
  ghost predicate AccountsIndexed(before: AccountIndex, rs: seq<Replacement>, n: nat, after: AccountIndex) {
    && (forall k :: k in after <==> k in before || (k.highest == U64_MAX && Replaces(rs, n, k.address)))
    && (forall k :: k in after ==>
          after[k] == if k.highest == U64_MAX && Replaces(rs, n, k.address) then [0] else before[k])
  }

  ghost predicate SlotsIndexed(before: StorageIndex, rs: seq<Replacement>, n: nat, after: StorageIndex) {
    && (forall k :: k in after <==> k in before || (k.highest == U64_MAX && ReplacesSlot(rs, n, k.address, k.slot)))
    && (forall k :: k in after ==>
          after[k] == if k.highest == U64_MAX && ReplacesSlot(rs, n, k.address, k.slot) then [0] else before[k])
  }

  ghost predicate Deleted(before: StorageIndex, keys: seq<Key>, after: StorageIndex) {
    && (forall k :: k in after <==> k in before && !(k.highest == U64_MAX && Key(k.address, k.slot) in keys))
    && (forall k :: k in after ==> after[k] == before[k])
  }

  method IndexAccounts(before: AccountIndex, rs: seq<Replacement>) returns (after: AccountIndex)
    ensures AccountsIndexed(before, rs, |rs|, after)
  {
    after := before;
    for n := 0 to |rs|
      invariant AccountsIndexed(before, rs, n, after)
    {
      var shard := AccountShard(rs[n].address, U64_MAX);
      after := after - {shard};
      after := after[shard := [0]];
      assert forall a :: Replaces(rs, n + 1, a) <==> Replaces(rs, n, a) || a == rs[n].address;
    }
  }

  method DeleteSlots(before: StorageIndex, keys: seq<Key>) returns (after: StorageIndex)
    ensures Deleted(before, keys, after)
  {
    after := before;
    for n := 0 to |keys|
      invariant Deleted(before, keys[..n], after)
    {
      assert keys[..n + 1] == keys[..n] + [keys[n]];
      after := after - {StorageShard(keys[n].address, keys[n].slot, U64_MAX)};
    }
    assert keys[..|keys|] == keys;
  }

  ghost predicate Put(k: StorageShard, address: nat, entries: seq<Entry>) {
    k.highest == U64_MAX && k.address == address && exists e :: e in entries && e.slot == k.slot
  }

  ghost predicate SlotsPut(before: StorageIndex, address: nat, entries: seq<Entry>, after: StorageIndex) {
    && (forall k :: k in after <==> k in before || Put(k, address, entries))
    && (forall k :: k in after ==> after[k] == if Put(k, address, entries) then [0] else before[k])
  }

  method PutSlots(before: StorageIndex, address: nat, entries: seq<Entry>) returns (after: StorageIndex)
    ensures SlotsPut(before, address, entries, after)
  {
    after := before;
    for n := 0 to |entries|
      invariant SlotsPut(before, address, entries[..n], after)
    {
      var shard := StorageShard(address, entries[n].slot, U64_MAX);
      after := after[shard := [0]];
      forall k ensures Put(k, address, entries[..n + 1]) <==> Put(k, address, entries[..n]) || k == shard {
        assert entries[..n + 1] == entries[..n] + [entries[n]];
      }
    }
    assert entries[..|entries|] == entries;
  }

  lemma ReplacesSlotStep(rs: seq<Replacement>, n: nat, k: StorageShard)
    requires n < |rs| && k.highest == U64_MAX
    ensures ReplacesSlot(rs, n + 1, k.address, k.slot) <==>
      ReplacesSlot(rs, n, k.address, k.slot) || Put(k, rs[n].address, rs[n].storage)
  {
    hide SlotListed;
    SlotListedMeans(rs[n], k.slot);
    if ReplacesSlot(rs, n + 1, k.address, k.slot) {
      var i :| 0 <= i < n + 1 <= |rs| && rs[i].address == k.address && SlotListed(rs[i], k.slot);
      assert i == n || ReplacesSlot(rs, n, k.address, k.slot);
    }
    if ReplacesSlot(rs, n, k.address, k.slot) {
      var i :| 0 <= i < n <= |rs| && rs[i].address == k.address && SlotListed(rs[i], k.slot);
      assert ReplacesSlot(rs, n + 1, k.address, k.slot);
    }
  }

  lemma SlotListedMeans(r: Replacement, slot: nat)
    ensures SlotListed(r, slot) <==> exists e :: e in r.storage && e.slot == slot
  {
  }

  lemma SlotIndexedStep(
      before: StorageIndex, rs: seq<Replacement>, n: nat, earlier: StorageIndex, after: StorageIndex, k: StorageShard)
    requires n < |rs| && SlotsIndexed(before, rs, n, earlier) && SlotsPut(earlier, rs[n].address, rs[n].storage, after)
    ensures k in after <==> k in before || (k.highest == U64_MAX && ReplacesSlot(rs, n + 1, k.address, k.slot))
    ensures k in after && k.highest == U64_MAX && ReplacesSlot(rs, n + 1, k.address, k.slot) ==> after[k] == [0]
    ensures k in after && !(k.highest == U64_MAX && ReplacesSlot(rs, n + 1, k.address, k.slot)) ==>
      after[k] == before[k]
  {
    if k.highest == U64_MAX {
      ReplacesSlotStep(rs, n, k);
    }
    assert Put(k, rs[n].address, rs[n].storage) ==> k.highest == U64_MAX;
    hide ReplacesSlot, Put;
  }

  lemma SlotsIndexedStep(before: StorageIndex, rs: seq<Replacement>, n: nat, earlier: StorageIndex, after: StorageIndex)
    requires n < |rs| && SlotsIndexed(before, rs, n, earlier) && SlotsPut(earlier, rs[n].address, rs[n].storage, after)
    ensures SlotsIndexed(before, rs, n + 1, after)
  {
    hide SlotsPut, ReplacesSlot;
    forall k: StorageShard
      ensures k in after <==> k in before || (k.highest == U64_MAX && ReplacesSlot(rs, n + 1, k.address, k.slot))
      ensures k in after ==>
        after[k] == if k.highest == U64_MAX && ReplacesSlot(rs, n + 1, k.address, k.slot) then [0] else before[k]
    {
      SlotIndexedStep(before, rs, n, earlier, after, k);
    }
  }

  method IndexSlots(before: StorageIndex, rs: seq<Replacement>) returns (after: StorageIndex)
    ensures SlotsIndexed(before, rs, |rs|, after)
  {
    after := before;
    for n := 0 to |rs|
      invariant SlotsIndexed(before, rs, n, after)
    {
      ghost var earlier := after;
      after := PutSlots(after, rs[n].address, rs[n].storage);
      SlotsIndexedStep(before, rs, n, earlier, after);
    }
  }

  function Identity(k: Key): Key {
    k
  }

  /** The write batch: account entries, then the old storage entries out, then the new ones in. */
  method SyncHistory(accounts: AccountIndex, storages: StorageIndex, rs: seq<Replacement>, oldKeys: seq<Key>)
    returns (accounts': AccountIndex, storages': StorageIndex, ghost pruned: StorageIndex)
    ensures AccountsIndexed(accounts, rs, |rs|, accounts')
    ensures Deleted(storages, oldKeys, pruned)
    ensures SlotsIndexed(pruned, rs, |rs|, storages')
  {
    var keys := SortUnstableByKey(oldKeys, Identity);
    SameElements(oldKeys, keys);
    keys := Dedup(keys, Identity);
    accounts' := IndexAccounts(accounts, rs);
    var rest := DeleteSlots(storages, keys);
    pruned := rest;
    storages' := IndexSlots(rest, rs);
  }

  /** The index of the synced addresses lists exactly the rows of the changeset, at block 0. */
  ghost predicate Indexes(index: StorageIndex, rows: seq<Change<nat>>, synced: set<nat>) {
    forall k: StorageShard :: k.address in synced ==>
      && (k in index <==> k.highest == U64_MAX && HasKey(rows, Key(k.address, k.slot)))
      && (k in index ==> index[k] == [0])
  }

  ghost predicate HasKey(rows: seq<Change<nat>>, key: Key) {
    exists c :: c in rows && c.key == key
  }

  /** The old entry of a synced address whose row is in the old changeset. */
  ghost predicate Outdated(rows: seq<Change<nat>>, rs: seq<Replacement>, k: StorageShard) {
    k.highest == U64_MAX && k.address in Addresses(rs) && HasKey(rows, Key(k.address, k.slot))
  }

  ghost predicate Renewed(rs: seq<Replacement>, k: StorageShard) {
    k.highest == U64_MAX && ReplacesSlot(rs, |rs|, k.address, k.slot)
  }

  /** The index after the sync: the entries of the dropped rows are gone, then every new slot has its
      block-0 entry, and nothing else changed. */
  ghost predicate Moved(before: StorageIndex, rows: seq<Change<nat>>, rs: seq<Replacement>, after: StorageIndex) {
    && (forall k: StorageShard :: k in after <==> (k in before && !Outdated(rows, rs, k)) || Renewed(rs, k))
    && (forall k: StorageShard :: k in after ==> after[k] == if Renewed(rs, k) then [0] else before[k])
  }

  lemma BatchMoves(
      before: StorageIndex, pruned: StorageIndex, after: StorageIndex, rs: seq<Replacement>, rows: seq<Change<nat>>)
    requires Deleted(before, DroppedKeys(rows, Addresses(rs)), pruned) && SlotsIndexed(pruned, rs, |rs|, after)
    ensures Moved(before, rows, rs, after)
  {
    hide DroppedKeys, ReplacesSlot;
    forall k: StorageShard
      ensures k in pruned <==> k in before && !Outdated(rows, rs, k)
    {
      DroppedKeysIn(rows, Addresses(rs), Key(k.address, k.slot));
    }
  }

  /** Whatever the index was, no entry of another address moves. */
  lemma OtherAddressesKeepTheirEntries(
      before: StorageIndex, rows: seq<Change<nat>>, rs: seq<Replacement>, after: StorageIndex, k: StorageShard)
    requires Moved(before, rows, rs, after) && k.address !in Addresses(rs)
    ensures (k in after <==> k in before) && (k in after ==> after[k] == before[k])
  {
  }

  /** The rewritten rows of a synced address are its new slots. */
  ghost predicate RowsAreNewSlots(rows: seq<Change<nat>>, rs: seq<Replacement>) {
    forall c: Change<nat> :: c.key.address in Addresses(rs) ==> (c in rows <==> IsStorageRow(rs, |rs|, c))
  }

  lemma NewRowKeys(rows: seq<Change<nat>>, rs: seq<Replacement>, key: Key)
    requires RowsAreNewSlots(rows, rs) && key.address in Addresses(rs)
    ensures HasKey(rows, key) <==> ReplacesSlot(rs, |rs|, key.address, key.slot)
  {
    if ReplacesSlot(rs, |rs|, key.address, key.slot) {
      assert IsStorageRow(rs, |rs|, Change(key, 0));
    }
  }

  /** Every entry of a synced address is removed with its old row or written again. */
  ghost predicate NoStrayEntry(index: StorageIndex, rows: seq<Change<nat>>, rs: seq<Replacement>) {
    forall k: StorageShard :: k in index && k.address in Addresses(rs) ==> Outdated(rows, rs, k) || Renewed(rs, k)
  }

  /** After the sync the storage-history index of the synced addresses lists exactly the rewritten
      rows if and only if no entry before it was a stray one. */
  lemma IndexMatchesAfterIff(
      before: StorageIndex, after: StorageIndex, rs: seq<Replacement>, rows: seq<Change<nat>>, rows': seq<Change<nat>>)
    requires Moved(before, rows, rs, after) && RowsAreNewSlots(rows', rs)
    ensures Indexes(after, rows', Addresses(rs)) <==> NoStrayEntry(before, rows, rs)
  {
    hide ReplacesSlot, RowsAreNewSlots, HasKey;
    forall k: StorageShard | k.address in Addresses(rs)
      ensures k.highest == U64_MAX && HasKey(rows', Key(k.address, k.slot)) <==> Renewed(rs, k)
    {
      NewRowKeys(rows', rs, Key(k.address, k.slot));
    }
  }

  /** If the index matched the old changeset, it matches the rewritten one afterwards. */
  lemma IndexFollowsChangeset(
      before: StorageIndex, after: StorageIndex, rs: seq<Replacement>, rows: seq<Change<nat>>, rows': seq<Change<nat>>)
    requires Indexes(before, rows, Addresses(rs)) && Moved(before, rows, rs, after) && RowsAreNewSlots(rows', rs)
    ensures Indexes(after, rows', Addresses(rs))
  {
    assert NoStrayEntry(before, rows, rs);
    hide Moved, RowsAreNewSlots, Indexes;
    IndexMatchesAfterIff(before, after, rs, rows, rows');
  }

  /** Moving an index twice by the same replacements is moving it once, whatever it was before. */
  lemma MovedTwice(
      before: StorageIndex, after: StorageIndex, again: StorageIndex,
      rs: seq<Replacement>, rows: seq<Change<nat>>, rows': seq<Change<nat>>)
    requires Moved(before, rows, rs, after) && Moved(after, rows', rs, again) && RowsAreNewSlots(rows', rs)
    ensures again == after
  {
    hide ReplacesSlot, RowsAreNewSlots, HasKey;
    forall k: StorageShard ensures Outdated(rows', rs, k) ==> Renewed(rs, k) {
      if k.address in Addresses(rs) {
        NewRowKeys(rows', rs, Key(k.address, k.slot));
      }
    }
    assert again.Keys == after.Keys;
  }
}
