/** A dup-sorted table: under one key, any number of (subkey, value) rows, ordered by subkey.
    Nothing in the table itself keeps two rows from sharing a key and a subkey. */
module DupTable {
  import opened Common

  datatype DupRow = DupRow(key: nat, sub: nat, value: nat)

  type Table = set<DupRow>

  function RowsAt(t: Table, key: nat): Table {
    set r | r in t && r.key == key
  }

  /** `seek_by_key_subkey`: a row of `key` with the least subkey not below `sub`, if any.
      Which one, when several rows share that subkey, is left open. */
  method Seek(t: Table, key: nat, sub: nat) returns (r: Option<DupRow>)
    ensures r.None? ==> forall x :: x in t && x.key == key ==> x.sub < sub
    ensures r.Some? ==> r.value in t && r.value.key == key && sub <= r.value.sub
    ensures r.Some? ==> forall x :: x in t && x.key == key && sub <= x.sub ==> r.value.sub <= x.sub
  {
    var left := RowsAt(t, key);
    r := None;
    while left != {}
      invariant left <= RowsAt(t, key)
      invariant r.Some? ==> r.value in t && r.value.key == key && sub <= r.value.sub
      invariant forall x :: x in t && x.key == key && x !in left && sub <= x.sub ==>
        r.Some? && r.value.sub <= x.sub
      decreases left
    {
      var x :| x in left;
      left := left - {x};
      if sub <= x.sub && (r.None? || x.sub < r.value.sub) {
        r := Some(x);
      }
    }
  }

  /** `seek_exact` then `delete_current_duplicates`: every row of the key goes. */
  method DeleteDuplicates(t: Table, key: nat) returns (r: Table)
    ensures forall x :: x in r <==> x in t && x.key != key
  {
    r := t;
    if RowsAt(t, key) != {} {
      r := t - RowsAt(t, key);
    } else {
      assert forall x :: x in t && x.key == key ==> x in RowsAt(t, key);
    }
  }
}
