/** The replacement built from the new genesis for each synced account, and the changeset rows
    that replacement contributes. */
module Replacements {
  import opened Common
  import opened Rows

  const VALIDATOR_CONFIG_V2_ADDRESS: nat := 0xCCCC_CCCC_0000_0000_0000_0000_0000_0000_0000_0001

  type Code = seq<nat>

  datatype SyncError = MissingFromGenesis(address: nat) | InvalidBytecode(account: nat) | NotStorageV2

  /** keccak256 on addresses, slots and code, and the bytecode validity check. */
  datatype Keccak = Keccak(ofAddress: nat -> nat, ofSlot: nat -> nat, ofCode: Code -> nat, validCode: Code -> bool)

  /** The collision-freedom that the hashed tables rest on. */
  ghost predicate CollisionFree(k: Keccak) {
    Injective(k.ofAddress) && Injective(k.ofSlot) && Injective(k.ofCode)
  }

  datatype Account = Account(nonce: nat, balance: nat, codeHash: Option<nat>)

  datatype GenesisAccount = GenesisAccount(
    nonce: Option<nat>, balance: nat, code: Option<Code>, storage: Option<map<nat, nat>>)

  datatype Entry = Entry(slot: nat, value: nat)

  datatype Replacement = Replacement(
    address: nat, hashedAddress: nat, account: Account, bytecode: Option<(nat, Code)>,
    storage: seq<Entry>, hashedStorage: seq<Entry>)

  function SlotKey(e: Entry): Key {
    Key(0, e.slot)
  }

  function AddressKey(a: nat): Key {
    Key(a, 0)
  }

  /** `entries` lists the non-zero slots of `storage`, each once. */
  ghost predicate ListsNonZero(entries: seq<Entry>, storage: map<nat, nat>) {
    && StrictlyBy(entries, SlotKey)
    && forall e :: e in entries <==> e.slot in storage && storage[e.slot] == e.value && e.value != 0
  }

  /** `hashed` lists the same values under hashed slots. */
  ghost predicate HashesSlots(k: Keccak, entries: seq<Entry>, hashed: seq<Entry>) {
    forall h :: h in hashed <==> exists e :: e in entries && h == Entry(k.ofSlot(e.slot), e.value)
  }

  ghost predicate WellFormed(k: Keccak, r: Replacement) {
    && r.hashedAddress == k.ofAddress(r.address)
    && StrictlyBy(r.storage, SlotKey)
    && (forall e :: e in r.storage ==> e.value != 0)
    && HashesSlots(k, r.storage, r.hashedStorage)
    && (Injective(k.ofSlot) ==> StrictlyBy(r.hashedStorage, SlotKey))
    && (r.bytecode.Some? ==> r.bytecode.value.0 == k.ofCode(r.bytecode.value.1))
  }

  ghost predicate ReplacementFor(k: Keccak, address: nat, g: GenesisAccount, r: Replacement) {
    && r.address == address
    && WellFormed(k, r)
    && ListsNonZero(r.storage, if g.storage.Some? then g.storage.value else map[])
    && r.account.nonce == (if g.nonce.Some? then g.nonce.value else 0)
    && r.account.balance == g.balance
    && (g.code.None? ==> r.bytecode.None? && r.account.codeHash.None?)
    && (g.code.Some? ==> r.bytecode == Some((k.ofCode(g.code.value), g.code.value)) &&
                         r.account.codeHash == Some(k.ofCode(g.code.value)))
  }

  /** The genesis account determines its replacement. */
  lemma ReplacementIsUnique(k: Keccak, address: nat, g: GenesisAccount, r: Replacement, r': Replacement)
    requires CollisionFree(k) && ReplacementFor(k, address, g, r) && ReplacementFor(k, address, g, r')
    ensures r == r'
  {
    StrictlyByUnique(r.storage, r'.storage, SlotKey);
    StrictlyByUnique(r.hashedStorage, r'.hashedStorage, SlotKey);
  }

  /** Every replacement is that of its address in the new genesis. */
  ghost predicate FromGenesis(k: Keccak, alloc: map<nat, GenesisAccount>, rs: seq<Replacement>) {
    forall i :: 0 <= i < |rs| ==>
      rs[i].address in alloc && ReplacementFor(k, rs[i].address, alloc[rs[i].address], rs[i])
  }

  ghost predicate DistinctAddresses(rs: seq<Replacement>) {
    forall i, j :: 0 <= i < j < |rs| ==> rs[i].address != rs[j].address
  }

  ghost function Addresses(rs: seq<Replacement>): set<nat> {
    set i | 0 <= i < |rs| :: rs[i].address
  }

  /** The accounts to sync: every requested address, and the validator registry when asked for,
      each once and in increasing order. */
  method SyncAccounts(syncValidatorConfig: bool, requested: seq<nat>) returns (accounts: seq<nat>)
    ensures forall a :: a in accounts <==> a in requested || (syncValidatorConfig && a == VALIDATOR_CONFIG_V2_ADDRESS)
    ensures forall i, j :: 0 <= i < j < |accounts| ==> accounts[i] < accounts[j]
  {
    var all := requested;
    if syncValidatorConfig {
      all := all + [VALIDATOR_CONFIG_V2_ADDRESS];
    }
    var sorted := SortUnstableByKey(all, AddressKey);
    SameElements(all, sorted);
    accounts := Dedup(sorted, AddressKey);
    forall i, j | 0 <= i < j < |accounts| ensures accounts[i] < accounts[j] {
      assert Less(AddressKey(accounts[i]), AddressKey(accounts[j]));
    }
  }

  method GenesisStorageEntries(g: GenesisAccount) returns (entries: seq<Entry>)
    ensures ListsNonZero(entries, if g.storage.Some? then g.storage.value else map[])
  {
    var storage := if g.storage.Some? then g.storage.value else map[];
    var left, unsorted: seq<Entry> := storage.Keys, [];
    while left != {}
      invariant left <= storage.Keys
      invariant forall e :: e in unsorted <==>
        e.slot in storage.Keys - left && storage[e.slot] == e.value && e.value != 0
      invariant DistinctBy(unsorted, SlotKey)
      decreases left
    {
      var slot :| slot in left;
      left := left - {slot};
      if storage[slot] != 0 {
        assert forall i :: 0 <= i < |unsorted| ==> unsorted[i] in unsorted;
        unsorted := unsorted + [Entry(slot, storage[slot])];
      }
    }
    entries := SortUnstableByKey(unsorted, SlotKey);
    SortedDistinctIsStrict(unsorted, entries, SlotKey);
    SameElements(unsorted, entries);
  }

  lemma HashedSlotsDistinct(k: Keccak, entries: seq<Entry>, hashed: seq<Entry>)
    requires Injective(k.ofSlot) && StrictlyBy(entries, SlotKey) && |hashed| == |entries|
    requires forall j :: 0 <= j < |hashed| ==> hashed[j] == Entry(k.ofSlot(entries[j].slot), entries[j].value)
    ensures DistinctBy(hashed, SlotKey)
  {
    forall i, j | 0 <= i < j < |hashed| ensures SlotKey(hashed[i]) != SlotKey(hashed[j]) {
      assert Less(SlotKey(entries[i]), SlotKey(entries[j]));
    }
  }

  method HashSlots(k: Keccak, entries: seq<Entry>) returns (hashed: seq<Entry>)
    ensures HashesSlots(k, entries, hashed)
    ensures SortedBy(hashed, SlotKey)
    ensures Injective(k.ofSlot) && StrictlyBy(entries, SlotKey) ==> StrictlyBy(hashed, SlotKey)
  {
    var unsorted: seq<Entry> := [];
    for i := 0 to |entries|
      invariant |unsorted| == i
      invariant forall j :: 0 <= j < i ==> unsorted[j] == Entry(k.ofSlot(entries[j].slot), entries[j].value)
    {
      unsorted := unsorted + [Entry(k.ofSlot(entries[i].slot), entries[i].value)];
    }
    hashed := SortUnstableByKey(unsorted, SlotKey);
    SameElements(unsorted, hashed);
    if Injective(k.ofSlot) && StrictlyBy(entries, SlotKey) {
      HashedSlotsDistinct(k, entries, unsorted);
      SortedDistinctIsStrict(unsorted, hashed, SlotKey);
    }
  }

  method GenesisAccountReplacement(k: Keccak, address: nat, g: GenesisAccount)
    returns (r: Result<Replacement, SyncError>)
    ensures r.Ok? <==> (g.code.Some? ==> k.validCode(g.code.value))
    ensures r.Ok? ==> ReplacementFor(k, address, g, r.value)
    ensures r.Err? ==> r.error == InvalidBytecode(address)
  {
    var bytecode: Option<(nat, Code)> := None;
    if g.code.Some? {
      if !k.validCode(g.code.value) {
        return Err(InvalidBytecode(address));
      }
      bytecode := Some((k.ofCode(g.code.value), g.code.value));
    }
    var account := Account(
      if g.nonce.Some? then g.nonce.value else 0, g.balance,
      if bytecode.Some? then Some(bytecode.value.0) else None);
    var storage := GenesisStorageEntries(g);
    var hashed := HashSlots(k, storage);
    r := Ok(Replacement(address, k.ofAddress(address), account, bytecode, storage, hashed));
  }

  ghost predicate Replaceable(k: Keccak, alloc: map<nat, GenesisAccount>, address: nat) {
    address in alloc && (alloc[address].code.Some? ==> k.validCode(alloc[address].code.value))
  }

  ghost predicate IsFirstFailure(
      k: Keccak, alloc: map<nat, GenesisAccount>, accounts: seq<nat>, i: nat, error: SyncError) {
    && i < |accounts|
    && !Replaceable(k, alloc, accounts[i])
    && (forall j :: 0 <= j < i ==> Replaceable(k, alloc, accounts[j]))
    && error == if accounts[i] in alloc then InvalidBytecode(accounts[i]) else MissingFromGenesis(accounts[i])
  }

  /** One replacement per account, or the first account that has none. */
  method GenesisAccountReplacements(k: Keccak, alloc: map<nat, GenesisAccount>, accounts: seq<nat>)
    returns (r: Result<seq<Replacement>, SyncError>)
    ensures r.Ok? <==> forall a :: a in accounts ==> Replaceable(k, alloc, a)
    ensures r.Ok? ==> |r.value| == |accounts| && FromGenesis(k, alloc, r.value)
    ensures r.Ok? ==> forall i :: 0 <= i < |accounts| ==> r.value[i].address == accounts[i]
    ensures r.Err? ==> exists i :: IsFirstFailure(k, alloc, accounts, i, r.error)
  {
    var rs: seq<Replacement> := [];
    for i := 0 to |accounts|
      invariant |rs| == i
      invariant forall j :: 0 <= j < i ==> Replaceable(k, alloc, accounts[j])
      invariant FromGenesis(k, alloc, rs) && forall j :: 0 <= j < i ==> rs[j].address == accounts[j]
    {
      if accounts[i] !in alloc {
        assert IsFirstFailure(k, alloc, accounts, i, MissingFromGenesis(accounts[i]));
        return Err(MissingFromGenesis(accounts[i]));
      }
      var one := GenesisAccountReplacement(k, accounts[i], alloc[accounts[i]]);
      if one.Err? {
        assert IsFirstFailure(k, alloc, accounts, i, one.error);
        return Err(one.error);
      }
      rs := rs + [one.value];
    }
    r := Ok(rs);
  }

  ghost predicate IsAccountRow(rs: seq<Replacement>, c: Change<Option<Account>>) {
    exists i :: 0 <= i < |rs| && c == Change(AddressKey(rs[i].address), None)
  }

  /** One "did not exist before" row per replaced account. */
  method AccountChanges(rs: seq<Replacement>) returns (rows: seq<Change<Option<Account>>>)
    requires DistinctAddresses(rs)
    ensures StrictlySorted(rows)
    ensures forall c :: c in rows <==> IsAccountRow(rs, c)
  {
    var unsorted: seq<Change<Option<Account>>> := [];
    for i := 0 to |rs|
      invariant |unsorted| == i
      invariant forall j :: 0 <= j < i ==> unsorted[j] == Change(AddressKey(rs[j].address), None)
    {
      unsorted := unsorted + [Change(AddressKey(rs[i].address), None)];
    }
    var key := (c: Change<Option<Account>>) => c.key;
    rows := SortUnstableByKey(unsorted, key);
    SortedDistinctIsStrict(unsorted, rows, key);
    SameElements(unsorted, rows);
  }

  ghost predicate IsStorageRow(rs: seq<Replacement>, n: nat, c: Change<nat>) {
    c.value == 0 && exists i :: 0 <= i < n <= |rs| && rs[i].address == c.key.address && SlotListed(rs[i], c.key.slot)
  }

  ghost predicate SlotListed(r: Replacement, slot: nat) {
    exists e :: e in r.storage && e.slot == slot
  }

  method OwnStorageChanges(r: Replacement) returns (rows: seq<Change<nat>>)
    requires StrictlyBy(r.storage, SlotKey)
    ensures DistinctBy(rows, (c: Change<nat>) => c.key)
    ensures forall c :: c in rows <==> c.value == 0 && c.key.address == r.address && SlotListed(r, c.key.slot)
  {
    rows := [];
    for i := 0 to |r.storage|
      invariant |rows| == i
      invariant forall j :: 0 <= j < i ==> rows[j] == Change(Key(r.address, r.storage[j].slot), 0)
    {
      rows := rows + [Change(Key(r.address, r.storage[i].slot), 0)];
    }
    forall i, j | 0 <= i < j < |rows| ensures rows[i].key != rows[j].key {
      assert Less(SlotKey(r.storage[i]), SlotKey(r.storage[j]));
    }
    forall c ensures c in rows <==> c.value == 0 && c.key.address == r.address && SlotListed(r, c.key.slot) {
      if c.value == 0 && c.key.address == r.address && SlotListed(r, c.key.slot) {
        var e :| e in r.storage && e.slot == c.key.slot;
        var j :| 0 <= j < |r.storage| && r.storage[j] == e;
        assert rows[j] == c;
      }
    }
  }

  /** One "was zero before" row per non-zero slot of every replaced account. */
  method StorageChanges(k: Keccak, rs: seq<Replacement>) returns (rows: seq<Change<nat>>)
    requires DistinctAddresses(rs)
    requires forall i :: 0 <= i < |rs| ==> WellFormed(k, rs[i])
    ensures StrictlySorted(rows)
    ensures forall c :: c in rows <==> IsStorageRow(rs, |rs|, c)
  {
    var unsorted: seq<Change<nat>> := [];
    var key := (c: Change<nat>) => c.key;
    for i := 0 to |rs|
      invariant DistinctBy(unsorted, key)
      invariant forall c :: c in unsorted <==> IsStorageRow(rs, i, c)
    {
      var own := OwnStorageChanges(rs[i]);
      forall m, n | 0 <= m < |unsorted| && 0 <= n < |own| ensures unsorted[m].key != own[n].key {
        assert unsorted[m] in unsorted && own[n] in own;
      }
      unsorted := unsorted + own;
    }
    rows := SortUnstableByKey(unsorted, key);
    SortedDistinctIsStrict(unsorted, rows, key);
    SameElements(unsorted, rows);
  }
}
