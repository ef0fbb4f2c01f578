/** The hashed tables of a synced account, written row by row, and the in-memory post-state from
    which the new state root is computed beforehand. */
module HashedState {
  import opened Common
  import opened Rows
  import opened Replacements
  import opened DupTable

  /** `HashedPostState`: a present account or slot overrides the table; a zero slot deletes. */
  datatype PostState = PostState(accounts: map<nat, Account>, storages: map<nat, map<nat, nat>>)

  /** The tables the state root is computed over: the old ones seen through the post-state. */
  function OverlaidAccounts(accounts: map<nat, Account>, post: PostState): map<nat, Account> {
    accounts + post.accounts
  }

  function OverlaidStorages(t: Table, post: PostState): Table {
    (set r | r in t && !(r.key in post.storages && r.sub in post.storages[r.key])) +
    (set k, s | k in post.storages && s in post.storages[k] && post.storages[k][s] != 0 ::
       DupRow(k, s, post.storages[k][s]))
  }

  ghost predicate Hashed(rs: seq<Replacement>, n: nat, key: nat) {
    exists i :: 0 <= i < n <= |rs| && rs[i].hashedAddress == key
  }

  lemma HashedStep(rs: seq<Replacement>, n: nat, h: nat)
    requires n < |rs|
    ensures Hashed(rs, n + 1, h) <==> Hashed(rs, n, h) || h == rs[n].hashedAddress
  {
    if Hashed(rs, n + 1, h) {
      var i :| 0 <= i < n + 1 <= |rs| && rs[i].hashedAddress == h;
      assert i == n || Hashed(rs, n, h);
    }
    if Hashed(rs, n, h) {
      var i :| 0 <= i < n <= |rs| && rs[i].hashedAddress == h;
      assert Hashed(rs, n + 1, h);
    }
    if h == rs[n].hashedAddress {
      assert Hashed(rs, n + 1, h);
    }
  }

  ghost predicate NewRow(rs: seq<Replacement>, n: nat, r: DupRow) {
    exists i :: 0 <= i < n <= |rs| && rs[i].hashedAddress == r.key && Entry(r.sub, r.value) in rs[i].hashedStorage
  }

  ghost predicate AllWellFormed(k: Keccak, rs: seq<Replacement>) {
    forall i :: 0 <= i < |rs| ==> WellFormed(k, rs[i])
  }

  // ---------------------------------------------------------------- writing the tables

  /** The accounts of the first `n` replacements are set, every other account is as before. */
  ghost predicate AccountsWritten(
      accounts: map<nat, Account>, rs: seq<Replacement>, n: nat, accounts': map<nat, Account>) {
    && n <= |rs|
    && (forall h :: h in accounts' <==> h in accounts || Hashed(rs, n, h))
    && (forall i :: 0 <= i < n ==> rs[i].hashedAddress in accounts' && accounts'[rs[i].hashedAddress] == rs[i].account)
    && (forall h :: h in accounts && !Hashed(rs, n, h) ==> accounts'[h] == accounts[h])
  }

  ghost predicate HasCode(rs: seq<Replacement>, n: nat, h: nat) {
    exists i :: 0 <= i < n <= |rs| && rs[i].bytecode.Some? && rs[i].bytecode.value.0 == h
  }

  /** The code of the first `n` replacements is stored under its hash, other code is as before. */
  ghost predicate CodesWritten(codes: map<nat, Code>, rs: seq<Replacement>, n: nat, codes': map<nat, Code>) {
    && n <= |rs|
    && (forall h :: h in codes' <==> h in codes || HasCode(rs, n, h))
    && (forall h :: h in codes' && HasCode(rs, n, h) ==>
          exists i :: 0 <= i < n && rs[i].bytecode == Some((h, codes'[h])))
    && (forall h :: h in codes && !HasCode(rs, n, h) ==> codes'[h] == codes[h])
  }

  ghost predicate DistinctHashes(rs: seq<Replacement>) {
    forall i, j :: 0 <= i < j < |rs| ==> rs[i].hashedAddress != rs[j].hashedAddress
  }

  lemma AccountsStep(accounts: map<nat, Account>, rs: seq<Replacement>, n: nat, accounts': map<nat, Account>)
    requires DistinctHashes(rs) && n < |rs| && AccountsWritten(accounts, rs, n, accounts')
    ensures AccountsWritten(accounts, rs, n + 1, accounts'[rs[n].hashedAddress := rs[n].account])
  {
    hide Hashed;
    forall h ensures Hashed(rs, n + 1, h) <==> Hashed(rs, n, h) || h == rs[n].hashedAddress {
      HashedStep(rs, n, h);
    }
  }

  lemma HasCodeStep(rs: seq<Replacement>, n: nat, h: nat)
    requires n < |rs|
    ensures HasCode(rs, n + 1, h) <==> HasCode(rs, n, h) || (rs[n].bytecode.Some? && rs[n].bytecode.value.0 == h)
  {
    if HasCode(rs, n + 1, h) {
      var i :| 0 <= i < n + 1 <= |rs| && rs[i].bytecode.Some? && rs[i].bytecode.value.0 == h;
      assert i == n || HasCode(rs, n, h);
    }
    if HasCode(rs, n, h) {
      var i :| 0 <= i < n <= |rs| && rs[i].bytecode.Some? && rs[i].bytecode.value.0 == h;
      assert HasCode(rs, n + 1, h);
    }
  }

  lemma CodesStep(codes: map<nat, Code>, rs: seq<Replacement>, n: nat, codes': map<nat, Code>)
    requires n < |rs| && CodesWritten(codes, rs, n, codes')
    ensures var b := rs[n].bytecode;
      CodesWritten(codes, rs, n + 1, if b.Some? then codes'[b.value.0 := b.value.1] else codes')
  {
    hide HasCode;
    forall h ensures HasCode(rs, n + 1, h) <==>
      HasCode(rs, n, h) || (rs[n].bytecode.Some? && rs[n].bytecode.value.0 == h)
    {
      HasCodeStep(rs, n, h);
    }
  }

  method ReplaceHashedAccounts(accounts: map<nat, Account>, codes: map<nat, Code>, rs: seq<Replacement>)
    returns (accounts': map<nat, Account>, codes': map<nat, Code>)
    requires DistinctHashes(rs)
    ensures AccountsWritten(accounts, rs, |rs|, accounts')
    ensures CodesWritten(codes, rs, |rs|, codes')
  {
    accounts', codes' := accounts, codes;
    for n := 0 to |rs|
      invariant AccountsWritten(accounts, rs, n, accounts')
      invariant CodesWritten(codes, rs, n, codes')
    {
      CodesStep(codes, rs, n, codes');
      AccountsStep(accounts, rs, n, accounts');
      if rs[n].bytecode.Some? {
        codes' := codes'[rs[n].bytecode.value.0 := rs[n].bytecode.value.1];
      }
      accounts' := accounts'[rs[n].hashedAddress := rs[n].account];
    }
  }

  method UpsertAll(t: Table, key: nat, entries: seq<Entry>) returns (t': Table)
    ensures forall r :: r in t' <==> r in t || (r.key == key && Entry(r.sub, r.value) in entries)
  {
    t' := t;
    for j := 0 to |entries|
      invariant forall r :: r in t' <==> r in t || (r.key == key && Entry(r.sub, r.value) in entries[..j])
    {
      t' := t' + {DupRow(key, entries[j].slot, entries[j].value)};
      assert entries[..j + 1] == entries[..j] + [entries[j]];
    }
  }

  /** Wipes each replaced account's rows and upserts the new ones. */
  method ReplaceHashedStorage(t: Table, rs: seq<Replacement>) returns (t': Table)
    requires DistinctHashes(rs)
    ensures forall r :: r in t' <==> (r in t && !Hashed(rs, |rs|, r.key)) || NewRow(rs, |rs|, r)
  {
    t' := t;
    for n := 0 to |rs|
      invariant forall r :: r in t' <==> (r in t && !Hashed(rs, n, r.key)) || NewRow(rs, n, r)
    {
      t' := DeleteDuplicates(t', rs[n].hashedAddress);
      t' := UpsertAll(t', rs[n].hashedAddress, rs[n].hashedStorage);
      forall r ensures r in t' <==> (r in t && !Hashed(rs, n + 1, r.key)) || NewRow(rs, n + 1, r) {
        assert Hashed(rs, n + 1, r.key) <==> Hashed(rs, n, r.key) || rs[n].hashedAddress == r.key;
        assert NewRow(rs, n + 1, r) <==>
          NewRow(rs, n, r) || (rs[n].hashedAddress == r.key && Entry(r.sub, r.value) in rs[n].hashedStorage);
      }
    }
  }

  // ---------------------------------------------------------------- the post-state

  method CollectSlots(entries: seq<Entry>) returns (m: map<nat, nat>)
    ensures forall s :: s in m <==> exists v :: Entry(s, v) in entries
    ensures forall s :: s in m ==> Entry(s, m[s]) in entries
  {
    m := map[];
    for j := 0 to |entries|
      invariant forall s :: s in m <==> exists v :: Entry(s, v) in entries[..j]
      invariant forall s :: s in m ==> Entry(s, m[s]) in entries[..j]
    {
      assert entries[..j + 1] == entries[..j] + [entries[j]];
      m := m[entries[j].slot := entries[j].value];
    }
  }

  /** `zero_destroyed_account_storage` for one account: each old slot not already set becomes zero. */
  method ZeroOldSlots(t: Table, key: nat, m: map<nat, nat>) returns (m': map<nat, nat>)
    ensures forall s :: s in m' <==> s in m || exists r :: r in t && r.key == key && r.sub == s
    ensures forall s :: s in m' ==> m'[s] == if s in m then m[s] else 0
  {
    var left := RowsAt(t, key);
    m' := m;
    while left != {}
      invariant left <= RowsAt(t, key)
      invariant forall s :: s in m' <==> s in m || exists r :: r in t && r.key == key && r.sub == s && r !in left
      invariant forall s :: s in m' ==> m'[s] == if s in m then m[s] else 0
      decreases left
    {
      var r :| r in left;
      left := left - {r};
      if r.sub !in m' {
        m' := m'[r.sub := 0];
      }
    }
  }

  ghost predicate SlotsFor(t: Table, r: Replacement, m: map<nat, nat>) {
    && (forall s :: s in m <==>
          (exists v :: Entry(s, v) in r.hashedStorage) || exists x :: x in t && x.key == r.hashedAddress && x.sub == s)
    && (forall s :: s in m ==>
          if exists v :: Entry(s, v) in r.hashedStorage then Entry(s, m[s]) in r.hashedStorage else m[s] == 0)
  }

  ghost predicate PostFor(t: Table, rs: seq<Replacement>, n: nat, post: PostState) {
    && n <= |rs|
    && (forall h :: h in post.storages <==> Hashed(rs, n, h))
    && (forall h :: h in post.accounts <==> Hashed(rs, n, h))
    && (forall i :: 0 <= i < n ==> post.accounts[rs[i].hashedAddress] == rs[i].account)
    && (forall i :: 0 <= i < n ==> SlotsFor(t, rs[i], post.storages[rs[i].hashedAddress]))
  }

  lemma HashedAt(rs: seq<Replacement>, n: nat, i: nat)
    requires i < n <= |rs|
    ensures Hashed(rs, n, rs[i].hashedAddress)
  {
  }

  lemma PostStep(t: Table, rs: seq<Replacement>, n: nat, post: PostState, slots: map<nat, nat>)
    requires DistinctHashes(rs) && n < |rs| && PostFor(t, rs, n, post) && SlotsFor(t, rs[n], slots)
    ensures var h := rs[n].hashedAddress;
      PostFor(t, rs, n + 1, PostState(post.accounts[h := rs[n].account], post.storages[h := slots]))
  {
    hide Hashed, SlotsFor;
    var h := rs[n].hashedAddress;
    var accounts, storages := post.accounts[h := rs[n].account], post.storages[h := slots];
    forall g ensures (g in storages <==> Hashed(rs, n + 1, g)) && (g in accounts <==> Hashed(rs, n + 1, g)) {
      HashedStep(rs, n, g);
    }
    forall i | 0 <= i < n + 1
      ensures rs[i].hashedAddress in accounts && accounts[rs[i].hashedAddress] == rs[i].account
      ensures rs[i].hashedAddress in storages && SlotsFor(t, rs[i], storages[rs[i].hashedAddress])
    {
      if i < n {
        HashedAt(rs, n, i);
        assert SlotsFor(t, rs[i], post.storages[rs[i].hashedAddress]);
      }
    }
  }

  method ReplacementPostState(t: Table, rs: seq<Replacement>) returns (post: PostState)
    requires DistinctHashes(rs)
    ensures PostFor(t, rs, |rs|, post)
  {
    post := PostState(map[], map[]);
    assert PostFor(t, rs, 0, post);
    hide PostFor, DistinctHashes;
    for n := 0 to |rs|
      invariant PostFor(t, rs, n, post)
    {
      var own := CollectSlots(rs[n].hashedStorage);
      var slots := ZeroOldSlots(t, rs[n].hashedAddress, own);
      assert SlotsFor(t, rs[n], slots);
      PostStep(t, rs, n, post, slots);
      post := PostState(
        post.accounts[rs[n].hashedAddress := rs[n].account], post.storages[rs[n].hashedAddress := slots]);
    }
  }

  // ---------------------------------------------------------------- the two agree

  /** Hashed slots of one replacement carry one value each, never zero. */
  lemma HashedSlotsAreFunctional(k: Keccak, r: Replacement, s: nat, v: nat, w: nat)
    requires CollisionFree(k) && WellFormed(k, r)
    requires Entry(s, v) in r.hashedStorage && Entry(s, w) in r.hashedStorage
    ensures v == w && v != 0
  {
  }

  lemma OverlaidIn(t: Table, post: PostState, r: DupRow)
    ensures r in OverlaidStorages(t, post) <==>
      if r.key in post.storages && r.sub in post.storages[r.key]
      then post.storages[r.key][r.sub] == r.value && r.value != 0
      else r in t
  {
  }

  lemma SameIndex(rs: seq<Replacement>, i: nat, r: DupRow)
    requires DistinctHashes(rs) && i < |rs| && rs[i].hashedAddress == r.key
    ensures NewRow(rs, |rs|, r) <==> Entry(r.sub, r.value) in rs[i].hashedStorage
  {
    if NewRow(rs, |rs|, r) {
      var j :| 0 <= j < |rs| && rs[j].hashedAddress == r.key && Entry(r.sub, r.value) in rs[j].hashedStorage;
      assert i == j;
    }
  }

  /** In a replaced account exactly the new rows show through. */
  lemma OverlaidReplacedRow(k: Keccak, t: Table, rs: seq<Replacement>, post: PostState, r: DupRow, i: nat)
    requires CollisionFree(k) && i < |rs| && WellFormed(k, rs[i]) && rs[i].hashedAddress == r.key
    requires r.key in post.storages && SlotsFor(t, rs[i], post.storages[r.key])
    ensures r in OverlaidStorages(t, post) <==> Entry(r.sub, r.value) in rs[i].hashedStorage
  {
    OverlaidIn(t, post, r);
    hide OverlaidStorages, CollisionFree, WellFormed;
    var m := post.storages[r.key];
    if Entry(r.sub, r.value) in rs[i].hashedStorage {
      HashedSlotsAreFunctional(k, rs[i], r.sub, r.value, m[r.sub]);
    }
  }

  lemma OverlaidRow(k: Keccak, t: Table, rs: seq<Replacement>, post: PostState, r: DupRow)
    requires CollisionFree(k) && AllWellFormed(k, rs)
    requires DistinctHashes(rs)
    requires PostFor(t, rs, |rs|, post)
    ensures r in OverlaidStorages(t, post) <==> (r in t && !Hashed(rs, |rs|, r.key)) || NewRow(rs, |rs|, r)
  {
    hide OverlaidStorages, CollisionFree, WellFormed, SlotsFor;
    if Hashed(rs, |rs|, r.key) {
      var i :| 0 <= i < |rs| && rs[i].hashedAddress == r.key;
      OverlaidReplacedRow(k, t, rs, post, r, i);
      SameIndex(rs, i, r);
    } else {
      OverlaidIn(t, post, r);
    }
  }

  lemma OverlaidAccountsAreWritten(
      rs: seq<Replacement>, t: Table, accounts: map<nat, Account>, accounts': map<nat, Account>, post: PostState)
    requires PostFor(t, rs, |rs|, post) && AccountsWritten(accounts, rs, |rs|, accounts')
    ensures OverlaidAccounts(accounts, post) == accounts'
  {
    hide SlotsFor;
  }

  /** The state root is computed over exactly the tables that are then written: the zero-expanded
      post-state laid over the old tables is what the two writers leave. */
  lemma PostStateIsWhatIsWritten(
      k: Keccak, rs: seq<Replacement>, t: Table, t': Table,
      accounts: map<nat, Account>, accounts': map<nat, Account>, post: PostState)
    requires CollisionFree(k) && AllWellFormed(k, rs)
    requires DistinctHashes(rs)
    requires PostFor(t, rs, |rs|, post)
    requires forall r :: r in t' <==> (r in t && !Hashed(rs, |rs|, r.key)) || NewRow(rs, |rs|, r)
    requires AccountsWritten(accounts, rs, |rs|, accounts')
    ensures OverlaidStorages(t, post) == t'
    ensures OverlaidAccounts(accounts, post) == accounts'
  {
    hide OverlaidStorages, CollisionFree, AllWellFormed, DistinctHashes, PostFor, AccountsWritten, Hashed, NewRow;
    forall r ensures r in OverlaidStorages(t, post) <==> r in t' {
      OverlaidRow(k, t, rs, post, r);
    }
    OverlaidAccountsAreWritten(rs, t, accounts, accounts', post);
  }
}
