/** Contract storage in the execution database, in either of its two layouts, under the overlay. */
module ShadowStorage {
  import opened Common
  import opened DupTable
  import opened OverlayJournal

  datatype Write = Write(slot: nat, value: nat)

  /** The value the last write in the list gives a slot, zero without one. */
  ghost function LastValue(writes: seq<Write>, slot: nat): nat {
    if writes == [] then 0
    else if writes[|writes| - 1].slot == slot then writes[|writes| - 1].value
    else LastValue(writes[..|writes| - 1], slot)
  }

  ghost predicate HasRow(t: Table, key: nat, sub: nat) {
    exists v :: DupRow(key, sub, v) in t
  }

  /** What a seek-then-compare read may return. */
  ghost predicate ReadsAs(t: Table, key: nat, sub: nat, value: nat) {
    if HasRow(t, key, sub) then DupRow(key, sub, value) in t else value == 0
  }

  /** No two rows of the key share a subkey. */
  ghost predicate UniqueAt(t: Table, key: nat) {
    forall r, s :: r in t && s in t && r.key == key && s.key == key && r.sub == s.sub ==> r == s
  }

  /** Seek to the first subkey not below the wanted one, then compare. */
  method ReadRow(t: Table, key: nat, sub: nat) returns (value: nat)
    ensures ReadsAs(t, key, sub, value)
  {
    var entry := Seek(t, key, sub);
    if entry.Some? && entry.value.sub == sub {
      return entry.value.value;
    }
    return 0;
  }

  /** Deletes the row found by seek-then-compare and upserts a non-zero value. */
  method WriteRow(t: Table, key: nat, sub: nat, value: nat) returns (t': Table)
    ensures forall r: DupRow :: r.key != key || r.sub != sub ==> (r in t' <==> r in t)
    ensures UniqueAt(t, key) ==> forall v :: DupRow(key, sub, v) in t' <==> v == value && v != 0
    ensures UniqueAt(t, key) ==> UniqueAt(t', key)
  {
    t' := t;
    var entry := Seek(t, key, sub);
    if entry.Some? && entry.value.sub == sub {
      t' := t' - {entry.value};
    }
    if value != 0 {
      t' := t' + {DupRow(key, sub, value)};
    }
  }

  /** How the layout in use names addresses and slots: plainly, or by their hashes. */
  datatype Layout = Layout(hashed: bool, hashAddress: nat -> nat, hashSlot: nat -> nat) {
    function KeyOf(address: nat): nat {
      if hashed then hashAddress(address) else address
    }

    function SubOf(slot: nat): nat {
      if hashed then hashSlot(slot) else slot
    }
  }

  ghost predicate HashesApart(l: Layout) {
    Injective(l.hashAddress) && Injective(l.hashSlot)
  }

  /** The rows of an address are exactly the non-zero last writes, one row per slot. */
  ghost predicate HoldsWrites(t: Table, l: Layout, address: nat, writes: seq<Write>) {
    && UniqueAt(t, l.KeyOf(address))
    && (forall r :: r in t && r.key == l.KeyOf(address) ==>
          r.value != 0 && exists i :: 0 <= i < |writes| && l.SubOf(writes[i].slot) == r.sub)
    && (forall slot :: ReadsAs(t, l.KeyOf(address), l.SubOf(slot), LastValue(writes, slot)))
  }

  lemma SubOfIsInjective(l: Layout, a: nat, b: nat)
    requires HashesApart(l) && l.SubOf(a) == l.SubOf(b)
    ensures a == b
  {
  }

  lemma KeyOfIsInjective(l: Layout, a: nat, b: nat)
    requires HashesApart(l) && l.KeyOf(a) == l.KeyOf(b)
    ensures a == b
  {
  }

  /** Every slot reads as something. */
  lemma SomeReading(t: Table, key: nat, sub: nat) returns (value: nat)
    ensures ReadsAs(t, key, sub, value)
  {
    if HasRow(t, key, sub) {
      value :| DupRow(key, sub, value) in t;
    } else {
      value := 0;
    }
  }

  lemma NothingHeld(t: Table, l: Layout, address: nat)
    requires forall r :: r in t ==> r.key != l.KeyOf(address)
    ensures HoldsWrites(t, l, address, [])
  {
  }

  lemma HeldIsUnique(t: Table, l: Layout, address: nat, writes: seq<Write>)
    requires HoldsWrites(t, l, address, writes)
    ensures UniqueAt(t, l.KeyOf(address))
  {
  }

  lemma WriteExtends(t: Table, t': Table, l: Layout, address: nat, writes: seq<Write>, w: Write)
    requires HashesApart(l) && HoldsWrites(t, l, address, writes)
    requires forall r: DupRow :: r.key != l.KeyOf(address) || r.sub != l.SubOf(w.slot) ==> (r in t' <==> r in t)
    requires forall v :: DupRow(l.KeyOf(address), l.SubOf(w.slot), v) in t' <==> v == w.value && v != 0
    requires UniqueAt(t', l.KeyOf(address))
    ensures HoldsWrites(t', l, address, writes + [w])
  {
    var all := writes + [w];
    var key := l.KeyOf(address);
    assert all[..|all| - 1] == writes;
    forall slot ensures ReadsAs(t', key, l.SubOf(slot), LastValue(all, slot)) {
      if slot != w.slot {
        if l.SubOf(slot) == l.SubOf(w.slot) {
          SubOfIsInjective(l, slot, w.slot);
        }
        assert LastValue(all, slot) == LastValue(writes, slot);
        assert ReadsAs(t, key, l.SubOf(slot), LastValue(writes, slot));
        assert forall v :: DupRow(key, l.SubOf(slot), v) in t' <==> DupRow(key, l.SubOf(slot), v) in t;
      } else {
        assert LastValue(all, slot) == w.value;
        assert w.value != 0 ==> DupRow(key, l.SubOf(slot), w.value) in t';
      }
    }
    forall r | r in t' && r.key == key
      ensures r.value != 0 && exists i :: 0 <= i < |all| && l.SubOf(all[i].slot) == r.sub
    {
      if r.sub == l.SubOf(w.slot) {
        assert DupRow(key, l.SubOf(w.slot), r.value) == r;
        assert l.SubOf(all[|writes|].slot) == r.sub;
      } else {
        var i :| 0 <= i < |writes| && l.SubOf(writes[i].slot) == r.sub;
        assert all[i] == writes[i];
      }
    }
  }

  /** Both layouts implement the same map: after the same writes they read alike at every slot. */
  lemma LayoutsReadAlike(
      p: Table, q: Table, l: Layout, m: Layout, address: nat, writes: seq<Write>, slot: nat, a: nat, b: nat)
    requires HoldsWrites(p, l, address, writes) && HoldsWrites(q, m, address, writes)
    requires ReadsAs(p, l.KeyOf(address), l.SubOf(slot), a) && ReadsAs(q, m.KeyOf(address), m.SubOf(slot), b)
    ensures a == b == LastValue(writes, slot)
  {
  }

  class DbStorageOverlay {
    const layout: Layout
    var plainTable: Table
    var hashedTable: Table
    var overlay: map<Cell, nat>
    var events: seq<Event>
    var snapshots: seq<Layer>

    ghost function Rows(): Table
      reads this
    {
      if layout.hashed then hashedTable else plainTable
    }

    ghost function View(): Journal
      reads this`overlay, this`events, this`snapshots
    {
      Journal(Layer(overlay, events), snapshots)
    }

    constructor (layout: Layout, plainTable: Table, hashedTable: Table)
      ensures this.layout == layout && this.plainTable == plainTable && this.hashedTable == hashedTable
      ensures View() == EMPTY
    {
      this.layout, this.plainTable, this.hashedTable := layout, plainTable, hashedTable;
      overlay, events, snapshots := map[], [], [];
    }

    // -------------------------------------------------------------- the database

    method ReadDbStorage(address: nat, slot: nat) returns (value: nat)
      ensures ReadsAs(Rows(), layout.KeyOf(address), layout.SubOf(slot), value)
      ensures layout.hashed ==> ReadsAs(hashedTable, layout.hashAddress(address), layout.hashSlot(slot), value)
      ensures !layout.hashed ==> ReadsAs(plainTable, address, slot, value)
    {
      if layout.hashed {
        value := ReadRow(hashedTable, layout.hashAddress(address), layout.hashSlot(slot));
      } else {
        value := ReadRow(plainTable, address, slot);
      }
    }

    method ClearDbStorage(address: nat)
      modifies this`plainTable, this`hashedTable
      ensures forall r :: r in Rows() <==> r in old(Rows()) && r.key != layout.KeyOf(address)
      ensures layout.hashed ==>
        forall r :: r in hashedTable <==> r in old(hashedTable) && r.key != layout.hashAddress(address)
      ensures !layout.hashed ==> forall r :: r in plainTable <==> r in old(plainTable) && r.key != address
      ensures if layout.hashed then plainTable == old(plainTable) else hashedTable == old(hashedTable)
    {
      if layout.hashed {
        hashedTable := DeleteDuplicates(hashedTable, layout.hashAddress(address));
      } else {
        plainTable := DeleteDuplicates(plainTable, address);
      }
    }

    method WriteDbStorage(address: nat, slot: nat, value: nat)
      modifies this`plainTable, this`hashedTable
      ensures forall r: DupRow :: r.key != layout.KeyOf(address) || r.sub != layout.SubOf(slot) ==>
        (r in Rows() <==> r in old(Rows()))
      ensures UniqueAt(old(Rows()), layout.KeyOf(address)) ==>
        && UniqueAt(Rows(), layout.KeyOf(address))
        && forall v :: DupRow(layout.KeyOf(address), layout.SubOf(slot), v) in Rows() <==> v == value && v != 0
      ensures layout.hashed && UniqueAt(old(hashedTable), layout.hashAddress(address)) ==>
        forall v ::
          DupRow(layout.hashAddress(address), layout.hashSlot(slot), v) in hashedTable <==> v == value && v != 0
      ensures !layout.hashed && UniqueAt(old(plainTable), address) ==>
        forall v :: DupRow(address, slot, v) in plainTable <==> v == value && v != 0
      ensures if layout.hashed then plainTable == old(plainTable) else hashedTable == old(hashedTable)
    {
      if layout.hashed {
        hashedTable := WriteRow(hashedTable, layout.hashAddress(address), layout.hashSlot(slot), value);
      } else {
        plainTable := WriteRow(plainTable, address, slot, value);
      }
    }

    /** Clears the registry and writes the given words: whatever was there, the address then holds
        exactly the last non-zero word of each slot, and no other address is touched. */
    method PatchRegistry(address: nat, writes: seq<Write>)
      requires HashesApart(layout)
      modifies this`plainTable, this`hashedTable
      ensures HoldsWrites(Rows(), layout, address, writes)
      ensures forall r: DupRow :: r.key != layout.KeyOf(address) ==> (r in Rows() <==> r in old(Rows()))
      ensures forall other :: other != address ==> layout.KeyOf(other) != layout.KeyOf(address)
      ensures if layout.hashed then plainTable == old(plainTable) else hashedTable == old(hashedTable)
    {
      hide HoldsWrites, HashesApart, LastValue, ReadsAs, UniqueAt;
      ClearDbStorage(address);
      NothingHeld(Rows(), layout, address);
      for i := 0 to |writes|
        invariant HoldsWrites(Rows(), layout, address, writes[..i])
        invariant forall r: DupRow :: r.key != layout.KeyOf(address) ==> (r in Rows() <==> r in old(Rows()))
        invariant if layout.hashed then plainTable == old(plainTable) else hashedTable == old(hashedTable)
      {
        ghost var before := Rows();
        HeldIsUnique(before, layout, address, writes[..i]);
        WriteDbStorage(address, writes[i].slot, writes[i].value);
        WriteExtends(before, Rows(), layout, address, writes[..i], writes[i]);
        assert writes[..i + 1] == writes[..i] + [writes[i]];
      }
      assert writes[..|writes|] == writes;
      forall other | other != address ensures layout.KeyOf(other) != layout.KeyOf(address) {
        if layout.KeyOf(other) == layout.KeyOf(address) {
          KeyOfIsInjective(layout, other, address);
        }
      }
    }

    // -------------------------------------------------------------- the overlay

    /** The overlay value, or what the database reads: what the journal says a load sees. */
    method Sload(address: nat, slot: nat) returns (value: nat)
      ensures exists below ::
        && ReadsAs(Rows(), layout.KeyOf(address), layout.SubOf(slot), below)
        && value == Seen(below, View().top, Cell(address, slot))
      ensures Cell(address, slot) in overlay ==> value == overlay[Cell(address, slot)]
      ensures Cell(address, slot) !in overlay ==> ReadsAs(Rows(), layout.KeyOf(address), layout.SubOf(slot), value)
    {
      if Cell(address, slot) in overlay {
        ghost var below := SomeReading(Rows(), layout.KeyOf(address), layout.SubOf(slot));
        return overlay[Cell(address, slot)];
      }
      value := ReadDbStorage(address, slot);
    }

    method Sstore(address: nat, slot: nat, value: nat)
      modifies this`overlay
      ensures Some(View()) == Step(old(View()), Store(Cell(address, slot), value))
    {
      overlay := overlay[Cell(address, slot) := value];
    }

    method EmitEvent(address: nat, data: nat)
      modifies this`events
      ensures Some(View()) == Step(old(View()), Emit(Event(address, data)))
    {
      events := events + [Event(address, data)];
    }

    method OpenCheckpoint() returns (index: nat)
      modifies this`snapshots
      ensures Some(View()) == Step(old(View()), Checkpoint)
      ensures index + 1 == |snapshots|
    {
      index := |snapshots|;
      snapshots := snapshots + [Layer(overlay, events)];
    }

    /** Panics on a checkpoint that is not the innermost open one. */
    method CommitCheckpoint(index: nat)
      requires index + 1 == |snapshots|
      modifies this`snapshots
      ensures Some(View()) == Step(old(View()), Commit(index))
    {
      snapshots := snapshots[..|snapshots| - 1];
    }

    method RevertCheckpoint(index: nat)
      requires index + 1 == |snapshots|
      modifies this`overlay, this`events, this`snapshots
      ensures Some(View()) == Step(old(View()), Revert(index))
    {
      var layer := snapshots[index];
      assert snapshots[..index] + snapshots[index + 1..] == snapshots[..index];
      snapshots := snapshots[..index] + snapshots[index + 1..];
      overlay, events := layer.overlay, layer.events;
    }
  }
}
