/** Rewriting the block-0 changeset of a static file.

    The slow path streams every old row through a merge with the replacement rows; the fast path
    binary-searches the first row that can belong to a synced address, prunes the tail from there
    and appends a freshly sorted tail.  The source has each of them twice, for accounts and for
    storage; here they are generic in the row's value.
 */
module Changesets {
  import opened Common
  import opened Rows

  /** A static changeset file and the range of rows recorded for block 0.
      A row the cursor cannot read is None. */
  datatype ChangesetFile<+V> = ChangesetFile(rows: seq<Option<Change<V>>>, offset: nat, numChanges: nat) {
    function End(): nat {
      offset + numChanges
    }

    /** `cursor.get_one` */
    function GetOne(row: nat): Option<Change<V>> {
      if row < |rows| then rows[row] else None
    }

    /** The block-0 range as the cursor sees it. */
    ghost function Cells(): (cells: seq<Option<Change<V>>>)
      ensures |cells| == numChanges
      ensures forall i :: 0 <= i < numChanges ==> cells[i] == GetOne(offset + i)
    {
      seq(numChanges, i requires 0 <= i < numChanges => GetOne(offset + i))
    }
  }

  ghost function CellsOf<V>(file: Option<ChangesetFile<V>>): seq<Option<Change<V>>> {
    match file
    case None => []
    case Some(f) => f.Cells()
  }

  // ---------------------------------------------------------------- the intended content

  /** The readable rows. */
  ghost function Present<V>(cells: seq<Option<Change<V>>>): seq<Change<V>> {
    if cells == [] then []
    else if cells[0].None? then Present(cells[1..])
    else [cells[0].value] + Present(cells[1..])
  }

  ghost function Kept<V>(rows: seq<Change<V>>, synced: set<nat>): seq<Change<V>> {
    if rows == [] then []
    else if rows[0].key.address in synced then Kept(rows[1..], synced)
    else [rows[0]] + Kept(rows[1..], synced)
  }

  ghost function DroppedKeys<V>(rows: seq<Change<V>>, synced: set<nat>): seq<Key> {
    if rows == [] then []
    else if rows[0].key.address in synced then [rows[0].key] + DroppedKeys(rows[1..], synced)
    else DroppedKeys(rows[1..], synced)
  }

  ghost function Merge<V>(base: seq<Change<V>>, repl: seq<Change<V>>): seq<Change<V>>
    decreases |base| + |repl|
  {
    if base == [] then repl
    else if repl != [] && Less(repl[0].key, base[0].key) then [repl[0]] + Merge(base, repl[1..])
    else [base[0]] + Merge(base[1..], repl)
  }

  ghost function Rewritten<V>(cells: seq<Option<Change<V>>>, synced: set<nat>, repl: seq<Change<V>>): seq<Change<V>> {
    Merge(Kept(Present(cells), synced), repl)
  }

  /** Replacement rows belong to synced addresses only. */
  ghost predicate Owned<V>(repl: seq<Change<V>>, synced: set<nat>) {
    forall i :: 0 <= i < |repl| ==> repl[i].key.address in synced
  }

  ghost predicate SortedCells<V>(cells: seq<Option<Change<V>>>) {
    forall i, j :: 0 <= i < j < |cells| && cells[i].Some? && cells[j].Some? ==>
      Less(cells[i].value.key, cells[j].value.key)
  }

  ghost predicate NoHoles<V>(cells: seq<Option<Change<V>>>) {
    forall i :: 0 <= i < |cells| ==> cells[i].Some?
  }

  // ---------------------------------------------------------------- lemmas about the parts

  lemma {:induction false} PresentIn<V>(cells: seq<Option<Change<V>>>, x: Change<V>)
    ensures x in Present(cells) <==> Some(x) in cells
  {
    if cells == [] {
    } else {
      PresentIn(cells[1..], x);
      assert cells == [cells[0]] + cells[1..];
    }
  }

  lemma {:induction false} PresentSorted<V>(cells: seq<Option<Change<V>>>)
    requires SortedCells(cells)
    ensures StrictlySorted(Present(cells))
  {
    if cells == [] {
    } else {
      PresentSorted(cells[1..]);
      var rest := Present(cells[1..]);
      forall k | 0 <= k < |rest| && cells[0].Some? ensures Less(cells[0].value.key, rest[k].key) {
        PresentIn(cells[1..], rest[k]);
      }
    }
  }

  lemma {:induction false} SortedFromPresent<V>(cells: seq<Option<Change<V>>>)
    requires StrictlySorted(Present(cells))
    ensures SortedCells(cells)
  {
    if cells == [] {
    } else {
      var rest := Present(cells[1..]);
      assert cells[0].Some? ==> rest == Present(cells)[1..];
      SortedFromPresent(cells[1..]);
      forall j | 1 <= j < |cells| && cells[0].Some? && cells[j].Some?
        ensures Less(cells[0].value.key, cells[j].value.key)
      {
        assert cells[1..][j - 1] == Some(cells[j].value);
        PresentIn(cells[1..], cells[j].value);
        var k :| 0 <= k < |rest| && rest[k] == cells[j].value;
        assert Present(cells)[0] == cells[0].value && Present(cells)[k + 1] == rest[k];
      }
      forall i, j | 1 <= i < j < |cells| && cells[i].Some? && cells[j].Some?
        ensures Less(cells[i].value.key, cells[j].value.key)
      {
        assert cells[1..][i - 1] == cells[i] && cells[1..][j - 1] == cells[j];
      }
    }
  }

  /** Prepending commutes with appending. */
  lemma PrependAppend<T>(x: seq<T>, a: seq<T>, b: seq<T>)
    ensures x + (a + b) == (x + a) + b
  {
  }

  lemma PresentCons<V>(x: Option<Change<V>>, rest: seq<Option<Change<V>>>)
    ensures Present([x] + rest) == (if x.None? then [] else [x.value]) + Present(rest)
  {
    assert ([x] + rest)[1..] == rest;
  }

  lemma KeptCons<V>(x: Change<V>, rest: seq<Change<V>>, synced: set<nat>)
    ensures Kept([x] + rest, synced) == (if x.key.address in synced then [] else [x]) + Kept(rest, synced)
    ensures DroppedKeys([x] + rest, synced) ==
      (if x.key.address in synced then [x.key] else []) + DroppedKeys(rest, synced)
  {
    assert ([x] + rest)[1..] == rest;
  }

  lemma {:induction false} PresentConcat<V>(a: seq<Option<Change<V>>>, b: seq<Option<Change<V>>>)
    ensures Present(a + b) == Present(a) + Present(b)
  {
    if a == [] {
      assert a + b == b;
    } else {
      hide Present;
      var x, rest := a[0], a[1..];
      PresentConcat(rest, b);
      PresentCons(x, rest);
      PresentCons(x, rest + b);
      assert [x] + rest == a;
      PrependAppend([x], rest, b);
      PrependAppend(if x.None? then [] else [x.value], Present(rest), Present(b));
    }
  }

  lemma {:induction false} FilterConcat<V>(a: seq<Change<V>>, b: seq<Change<V>>, synced: set<nat>)
    ensures Kept(a + b, synced) == Kept(a, synced) + Kept(b, synced)
    ensures DroppedKeys(a + b, synced) == DroppedKeys(a, synced) + DroppedKeys(b, synced)
  {
    if a == [] {
      assert a + b == b;
    } else {
      hide Kept, DroppedKeys;
      var x, rest := a[0], a[1..];
      FilterConcat(rest, b, synced);
      KeptCons(x, rest, synced);
      KeptCons(x, rest + b, synced);
      assert [x] + rest == a;
      PrependAppend([x], rest, b);
      PrependAppend(if x.key.address in synced then [] else [x], Kept(rest, synced), Kept(b, synced));
      PrependAppend(
        if x.key.address in synced then [x.key] else [], DroppedKeys(rest, synced), DroppedKeys(b, synced));
    }
  }

  lemma {:induction false} FilterNothing<V>(a: seq<Change<V>>, synced: set<nat>)
    requires forall i :: 0 <= i < |a| ==> a[i].key.address !in synced
    ensures Kept(a, synced) == a && DroppedKeys(a, synced) == []
  {
    if a == [] {
    } else {
      FilterNothing(a[1..], synced);
    }
  }

  lemma {:induction false} KeptIn<V>(rows: seq<Change<V>>, synced: set<nat>, x: Change<V>)
    ensures x in Kept(rows, synced) <==> x in rows && x.key.address !in synced
  {
    if rows == [] {
    } else {
      KeptIn(rows[1..], synced, x);
      assert rows == [rows[0]] + rows[1..];
    }
  }

  lemma {:induction false} KeptSorted<V>(rows: seq<Change<V>>, synced: set<nat>)
    requires StrictlySorted(rows)
    ensures StrictlySorted(Kept(rows, synced))
  {
    if rows == [] {
    } else {
      KeptSorted(rows[1..], synced);
      var rest := Kept(rows[1..], synced);
      forall k | 0 <= k < |rest| ensures Less(rows[0].key, rest[k].key) {
        KeptIn(rows[1..], synced, rest[k]);
      }
    }
  }

  lemma {:induction false} DroppedKeysIn<V>(rows: seq<Change<V>>, synced: set<nat>, k: Key)
    ensures k in DroppedKeys(rows, synced) <==>
      k.address in synced && exists x :: x in rows && x.key == k
  {
    if rows == [] {
    } else {
      DroppedKeysIn(rows[1..], synced, k);
      assert rows == [rows[0]] + rows[1..];
    }
  }

  lemma {:induction false} MergeMultiset<V>(base: seq<Change<V>>, repl: seq<Change<V>>)
    ensures multiset(Merge(base, repl)) == multiset(base) + multiset(repl)
    decreases |base| + |repl|
  {
    if base == [] {
    } else {
      assert base == [base[0]] + base[1..];
      if repl != [] && Less(repl[0].key, base[0].key) {
        assert repl == [repl[0]] + repl[1..];
        MergeMultiset(base, repl[1..]);
      } else {
        MergeMultiset(base[1..], repl);
      }
    }
  }

  lemma MergeIn<V>(base: seq<Change<V>>, repl: seq<Change<V>>, x: Change<V>)
    ensures x in Merge(base, repl) <==> x in base || x in repl
  {
  }

  lemma {:induction false} MergeSorted<V>(base: seq<Change<V>>, repl: seq<Change<V>>)
    requires StrictlySorted(base) && StrictlySorted(repl)
    requires forall i, j :: 0 <= i < |base| && 0 <= j < |repl| ==> base[i].key != repl[j].key
    ensures StrictlySorted(Merge(base, repl))
    decreases |base| + |repl|
  {
    if base == [] {
    } else {
      var takeRepl := repl != [] && Less(repl[0].key, base[0].key);
      var head := if takeRepl then repl[0] else base[0];
      var base', repl' := if takeRepl then base else base[1..], if takeRepl then repl[1..] else repl;
      MergeSorted(base', repl');
      var rest := Merge(base', repl');
      forall k | 0 <= k < |rest| ensures Less(head.key, rest[k].key) {
        MergeIn(base', repl', rest[k]);
      }
    }
  }

  lemma MergeTakesBase<V>(x: Change<V>, rest: seq<Change<V>>, repl: seq<Change<V>>)
    requires repl != [] ==> Less(x.key, repl[0].key)
    ensures Merge([x] + rest, repl) == [x] + Merge(rest, repl)
  {
    assert ([x] + rest)[1..] == rest;
  }

  /** Old rows that precede every replacement pass through the merge untouched. */
  lemma {:induction false} MergeSkipsPrefix<V>(a: seq<Change<V>>, b: seq<Change<V>>, repl: seq<Change<V>>)
    requires AllBefore(a, repl)
    ensures Merge(a + b, repl) == a + Merge(b, repl)
  {
    if a == [] {
      assert a + b == b;
    } else {
      hide Merge;
      var x, rest := a[0], a[1..];
      MergeSkipsPrefix(rest, b, repl);
      MergeTakesBase(x, rest + b, repl);
      assert [x] + rest == a;
      PrependAppend([x], rest, b);
      PrependAppend([x], rest, Merge(b, repl));
    }
  }

  // ---------------------------------------------------------------- what the rewrite means

  /** The rewrite holds exactly the old rows of unsynced addresses and the replacement rows, in
      strictly increasing key order, and no other sequence does. */
  lemma {:induction false} RewrittenIsTheSortedUnion<V>(
      cells: seq<Option<Change<V>>>, synced: set<nat>, repl: seq<Change<V>>)
    requires SortedCells(cells) && StrictlySorted(repl) && Owned(repl, synced)
    ensures var out := Rewritten(cells, synced, repl);
      && StrictlySorted(out)
      && (forall x :: x in out <==> (Some(x) in cells && x.key.address !in synced) || x in repl)
      && forall other: seq<Change<V>> ::
           StrictlySorted(other) && (forall x :: x in other <==> x in out) ==> other == out
  {
    var kept := Kept(Present(cells), synced);
    PresentSorted(cells);
    KeptSorted(Present(cells), synced);
    forall i, j | 0 <= i < |kept| && 0 <= j < |repl| ensures kept[i].key != repl[j].key {
      KeptIn(Present(cells), synced, kept[i]);
    }
    MergeSorted(kept, repl);
    forall x ensures x in Rewritten(cells, synced, repl) <==>
      (Some(x) in cells && x.key.address !in synced) || x in repl
    {
      PresentIn(cells, x);
      KeptIn(Present(cells), synced, x);
      MergeIn(kept, repl, x);
    }
    var out := Rewritten(cells, synced, repl);
    forall other: seq<Change<V>> | StrictlySorted(other) && (forall x :: x in other <==> x in out)
      ensures other == out
    {
      StrictlySortedUnique(other, out);
    }
  }

  ghost function AllPresent<V>(rows: seq<Change<V>>): (cells: seq<Option<Change<V>>>)
    ensures |cells| == |rows| && forall i :: 0 <= i < |rows| ==> cells[i] == Some(rows[i])
  {
    seq(|rows|, i requires 0 <= i < |rows| => Some(rows[i]))
  }

  lemma {:induction false} PresentOfAllPresent<V>(rows: seq<Change<V>>)
    ensures Present(AllPresent(rows)) == rows
  {
    if rows == [] {
    } else {
      PresentOfAllPresent(rows[1..]);
      assert AllPresent(rows)[1..] == AllPresent(rows[1..]);
    }
  }

  /** Rewriting a rewritten changeset with the same replacements changes nothing. */
  lemma {:induction false} RewriteIsIdempotent<V>(
      cells: seq<Option<Change<V>>>, synced: set<nat>, repl: seq<Change<V>>, again: seq<Option<Change<V>>>)
    requires SortedCells(cells) && StrictlySorted(repl) && Owned(repl, synced)
    requires Present(again) == Rewritten(cells, synced, repl)
    ensures Rewritten(again, synced, repl) == Present(again)
  {
    RewrittenIsTheSortedUnion(cells, synced, repl);
    SortedFromPresent(again);
    RewrittenIsTheSortedUnion(again, synced, repl);
    forall x ensures x in Rewritten(again, synced, repl) <==> x in Present(again) {
      PresentIn(again, x);
    }
    StrictlySortedUnique(Rewritten(again, synced, repl), Present(again));
  }

  // ---------------------------------------------------------------- slow path

  lemma ScanStep<V>(cells: seq<Option<Change<V>>>, i: nat, synced: set<nat>)
    requires i < |cells|
    ensures cells[i].None? ==> Present(cells[i..]) == Present(cells[i + 1..])
    ensures cells[i].Some? && cells[i].value.key.address in synced ==>
      && Kept(Present(cells[i..]), synced) == Kept(Present(cells[i + 1..]), synced)
      && DroppedKeys(Present(cells[i..]), synced) == [cells[i].value.key] + DroppedKeys(Present(cells[i + 1..]), synced)
    ensures cells[i].Some? && cells[i].value.key.address !in synced ==>
      && Kept(Present(cells[i..]), synced) == [cells[i].value] + Kept(Present(cells[i + 1..]), synced)
      && DroppedKeys(Present(cells[i..]), synced) == DroppedKeys(Present(cells[i + 1..]), synced)
  {
  }

  lemma ScanEnd<V>(cells: seq<Option<Change<V>>>, synced: set<nat>, repl: seq<Change<V>>)
    ensures var rest := Present(cells[|cells|..]);
      Kept(rest, synced) == [] && DroppedKeys(rest, synced) == [] && Merge(Kept(rest, synced), repl) == repl
  {
  }

  /** Emits the replacements that come before an old row, then the old row. */
  method EmitRow<V>(out: seq<Change<V>>, change: Change<V>, repl: seq<Change<V>>, next: nat, ghost rest: seq<Change<V>>)
    returns (out': seq<Change<V>>, next': nat)
    requires next <= |repl|
    ensures next <= next' <= |repl|
    ensures out' + Merge(rest, repl[next'..]) == out + Merge([change] + rest, repl[next..])
  {
    out', next' := out, next;
    ghost var target := out + Merge([change] + rest, repl[next..]);
    while next' < |repl| && Less(repl[next'].key, change.key)
      invariant next <= next' <= |repl|
      invariant out' + Merge([change] + rest, repl[next'..]) == target
    {
      assert repl[next'..][1..] == repl[next' + 1..];
      out' := out' + [repl[next']];
      next' := next' + 1;
    }
    assert ([change] + rest)[1..] == rest;
    out' := out' + [change];
  }

  /** Streams the old rows through a merge with the replacements, collecting the keys of the
      dropped rows on the way. */
  method StreamRewrite<V>(file: Option<ChangesetFile<V>>, synced: set<nat>, repl: seq<Change<V>>)
    returns (out: seq<Change<V>>, oldKeys: seq<Key>)
    ensures out == Rewritten(CellsOf(file), synced, repl)
    ensures oldKeys == DroppedKeys(Present(CellsOf(file)), synced)
  {
    hide Present, Kept, DroppedKeys, Merge;
    ghost var cells := CellsOf(file);
    ghost var target := Rewritten(cells, synced, repl);
    out, oldKeys := [], [];
    var next := 0;
    assert cells[0..] == cells && repl[0..] == repl;
    if file.Some? {
      var f := file.value;
      for i := 0 to f.numChanges
        invariant next <= |repl|
        invariant out + Merge(Kept(Present(cells[i..]), synced), repl[next..]) == target
        invariant oldKeys + DroppedKeys(Present(cells[i..]), synced) == DroppedKeys(Present(cells), synced)
      {
        var cell := f.GetOne(f.offset + i);
        ScanStep(cells, i, synced);
        if cell.Some? {
          if cell.value.key.address in synced {
            oldKeys := oldKeys + [cell.value.key];
          } else {
            out, next := EmitRow(out, cell.value, repl, next, Kept(Present(cells[i + 1..]), synced));
          }
        }
      }
    }
    ScanEnd(cells, synced, repl[next..]);
    out := EmitRest(out, repl, next);
  }

  method EmitRest<V>(out: seq<Change<V>>, repl: seq<Change<V>>, next: nat) returns (out': seq<Change<V>>)
    requires next <= |repl|
    ensures out' == out + repl[next..]
  {
    out' := out;
    for i := next to |repl|
      invariant out' == out + repl[next..i]
    {
      out' := out' + [repl[i]];
    }
  }

  // ---------------------------------------------------------------- fast path

  /** `t` separates the readable rows of smaller addresses from the others. */
  ghost predicate SplitsAt<V>(cells: seq<Option<Change<V>>>, t: nat, address: nat) {
    t <= |cells| && forall i :: 0 <= i < |cells| && cells[i].Some? ==>
      (i < t <==> cells[i].value.key.address < address)
  }

  /** Binary search for the first row not below (address, slot zero); gives up on a hole. */
  method FindTailStart<V>(file: ChangesetFile<V>, address: nat) returns (r: Option<nat>)
    ensures r.Some? ==> file.offset <= r.value <= file.End()
    ensures r.Some? && SortedCells(file.Cells()) ==> SplitsAt(file.Cells(), r.value - file.offset, address)
    ensures r.None? ==> !NoHoles(file.Cells())
  {
    var low, high := file.offset, file.End();
    ghost var cells := file.Cells();
    while low < high
      invariant file.offset <= low <= high <= file.End()
      invariant SortedCells(cells) ==> forall i :: 0 <= i < low - file.offset && cells[i].Some? ==>
        cells[i].value.key.address < address
      invariant SortedCells(cells) ==> forall i :: high - file.offset <= i < |cells| && cells[i].Some? ==>
        address <= cells[i].value.key.address
    {
      var mid := low + (high - low) / 2;
      var cell := file.GetOne(mid);
      assert cells[mid - file.offset] == cell;
      if cell.None? {
        return None;
      }
      if Less(cell.value.key, Key(address, 0)) {
        low := mid + 1;
      } else {
        high := mid;
      }
    }
    return Some(low);
  }

  datatype TailPlan<+V> = TailPlan(
    rowOffset: nat, rowsToPrune: nat, newNumChanges: nat, appended: seq<Change<V>>, oldKeys: seq<Key>)

  /** What a plan may rely on: `t` rows stay, the readable tail is re-sorted with the replacements. */
  ghost predicate PlanFor<V>(plan: TailPlan<V>, file: ChangesetFile<V>, synced: set<nat>, repl: seq<Change<V>>) {
    var cells := file.Cells();
    && file.End() == |file.rows|
    && plan.rowOffset == file.offset
    && plan.rowsToPrune <= file.numChanges
    && var t := file.numChanges - plan.rowsToPrune;
    && plan.newNumChanges == t + |plan.appended|
    && NoHoles(cells[t..])
    && multiset(plan.appended) == multiset(Kept(Present(cells[t..]), synced)) + multiset(repl)
    && SortedBy(plan.appended, (c: Change<V>) => c.key)
    && plan.oldKeys == DroppedKeys(Present(cells[t..]), synced)
    && exists first :: first in synced && (forall a :: a in synced ==> first <= a) &&
         (SortedCells(cells) ==> SplitsAt(cells, t, first))
  }

  /** Reads the tail, adding the rows to keep to the replacements; gives up on a hole. */
  method CollectTail<V>(f: ChangesetFile<V>, start: nat, synced: set<nat>, repl: seq<Change<V>>)
    returns (ok: bool, appended: seq<Change<V>>, oldKeys: seq<Key>)
    requires f.offset <= start <= f.End()
    ensures ok <==> NoHoles(f.Cells()[start - f.offset..])
    ensures ok ==> appended == repl + Kept(Present(f.Cells()[start - f.offset..]), synced)
    ensures ok ==> oldKeys == DroppedKeys(Present(f.Cells()[start - f.offset..]), synced)
  {
    hide Present, Kept, DroppedKeys;
    ghost var cells := f.Cells();
    ghost var t := start - f.offset;
    ghost var all := repl + Kept(Present(cells[t..]), synced);
    appended, oldKeys := repl, [];
    for row := start to f.End()
      invariant forall i :: t <= i < row - f.offset ==> cells[i].Some?
      invariant appended + Kept(Present(cells[row - f.offset..]), synced) == all
      invariant oldKeys + DroppedKeys(Present(cells[row - f.offset..]), synced) ==
        DroppedKeys(Present(cells[t..]), synced)
    {
      var cell := f.GetOne(row);
      ScanStep(cells, row - f.offset, synced);
      if cell.None? {
        assert cells[t..][row - start].None?;
        return false, [], [];
      }
      if cell.value.key.address in synced {
        PrependAppend(oldKeys, [cell.value.key], DroppedKeys(Present(cells[row - f.offset + 1..]), synced));
        oldKeys := oldKeys + [cell.value.key];
      } else {
        PrependAppend(appended, [cell.value], Kept(Present(cells[row - f.offset + 1..]), synced));
        appended := appended + [cell.value];
      }
    }
    ScanEnd(cells, synced, repl);
    ok := true;
  }

  /** None when there is no file, nothing to sync, rows beyond block 0, or a hole in the way. */
  method TailReplacementPlan<V>(file: Option<ChangesetFile<V>>, synced: set<nat>, repl: seq<Change<V>>)
    returns (plan: Option<TailPlan<V>>)
    ensures plan.Some? ==> file.Some? && PlanFor(plan.value, file.value, synced, repl)
    ensures plan.None? ==>
      file.None? || synced == {} || file.value.End() != |file.value.rows| || !NoHoles(file.value.Cells())
  {
    hide Present, Kept, DroppedKeys;
    if file.None? {
      return None;
    }
    var f := file.value;
    var first := First(synced);
    if first.None? || f.End() != |f.rows| {
      return None;
    }
    var found := FindTailStart(f, first.value);
    if found.None? {
      return None;
    }
    var start := found.value;
    var ok, appended, oldKeys := CollectTail(f, start, synced, repl);
    if !ok {
      return None;
    }
    appended := SortUnstableByKey(appended, (c: Change<V>) => c.key);
    var rowsToPrune := f.End() - start;
    var newNumChanges: nat := f.numChanges - rowsToPrune + |appended|;
    plan := Some(TailPlan(f.offset, rowsToPrune, newNumChanges, appended, oldKeys));
  }

  ghost function AfterTail<V>(file: ChangesetFile<V>, plan: TailPlan<V>): ChangesetFile<V>
    requires plan.rowsToPrune <= |file.rows|
  {
    ChangesetFile(
      file.rows[..|file.rows| - plan.rowsToPrune] + AllPresent(plan.appended), plan.rowOffset, plan.newNumChanges)
  }

  /** Prunes the tail rows, appends the plan's rows one by one and rewrites the recorded range. */
  method ReplaceTail<V>(file: ChangesetFile<V>, plan: TailPlan<V>) returns (r: ChangesetFile<V>)
    requires plan.rowsToPrune <= |file.rows|
    ensures r == AfterTail(file, plan)
  {
    var rows := file.rows;
    if plan.rowsToPrune > 0 {
      rows := rows[..|rows| - plan.rowsToPrune];
    }
    ghost var base := rows;
    for i := 0 to |plan.appended|
      invariant rows == base + AllPresent(plan.appended)[..i]
    {
      rows := rows + [Some(plan.appended[i])];
    }
    r := ChangesetFile(rows, plan.rowOffset, plan.newNumChanges);
  }

  lemma {:induction false} PlanTailIsMerge<V>(
      plan: TailPlan<V>, file: ChangesetFile<V>, synced: set<nat>, repl: seq<Change<V>>)
    requires PlanFor(plan, file, synced, repl)
    requires SortedCells(file.Cells()) && StrictlySorted(repl) && Owned(repl, synced)
    ensures plan.appended == Rewritten(file.Cells()[file.numChanges - plan.rowsToPrune..], synced, repl)
  {
    var tail := file.Cells()[file.numChanges - plan.rowsToPrune..];
    RewrittenIsTheSortedUnion(tail, synced, repl);
    MergeMultiset(Kept(Present(tail), synced), repl);
    SortedPermutationUnique(plan.appended, Rewritten(tail, synced, repl));
  }

  lemma PlanHeadIsUntouched<V>(plan: TailPlan<V>, file: ChangesetFile<V>, synced: set<nat>, repl: seq<Change<V>>)
    requires PlanFor(plan, file, synced, repl)
    requires SortedCells(file.Cells()) && Owned(repl, synced)
    ensures var head := Present(file.Cells()[..file.numChanges - plan.rowsToPrune]);
      Kept(head, synced) == head && DroppedKeys(head, synced) == [] && AllBefore(head, repl)
  {
    var t := file.numChanges - plan.rowsToPrune;
    var cells := file.Cells();
    var first :| first in synced && (forall a :: a in synced ==> first <= a) && SplitsAt(cells, t, first);
    var head := Present(cells[..t]);
    forall i | 0 <= i < |head| ensures head[i].key.address < first {
      PresentIn(cells[..t], head[i]);
      var k :| 0 <= k < t && cells[..t][k] == Some(head[i]);
    }
    FilterNothing(head, synced);
  }

  /** The range after the fast path: the head as it was, then the appended rows. */
  lemma AfterTailCells<V>(plan: TailPlan<V>, file: ChangesetFile<V>, synced: set<nat>, repl: seq<Change<V>>)
    requires PlanFor(plan, file, synced, repl)
    ensures var t, r := file.numChanges - plan.rowsToPrune, AfterTail(file, plan);
      && r.End() == |r.rows|
      && r.Cells() == file.Cells()[..t] + AllPresent(plan.appended)
      && (NoHoles(r.Cells()) <==> NoHoles(file.Cells()))
  {
    hide Present, Kept, DroppedKeys, SortedBy, SplitsAt;
    var t, cells := file.numChanges - plan.rowsToPrune, file.Cells();
    var r := AfterTail(file, plan);
    assert r.Cells() == cells[..t] + AllPresent(plan.appended);
    assert forall i :: 0 <= i < t ==> r.Cells()[i] == cells[i];
    assert forall i :: t <= i < |cells| ==> cells[i] == cells[t..][i - t];
  }

  lemma FastPathRows<V>(plan: TailPlan<V>, file: ChangesetFile<V>, synced: set<nat>, repl: seq<Change<V>>)
    requires PlanFor(plan, file, synced, repl)
    requires SortedCells(file.Cells()) && StrictlySorted(repl) && Owned(repl, synced)
    ensures var head := Present(file.Cells()[..file.numChanges - plan.rowsToPrune]);
      && head + plan.appended == Rewritten(file.Cells(), synced, repl)
      && plan.oldKeys == DroppedKeys(Present(file.Cells()), synced)
  {
    var t, cells := file.numChanges - plan.rowsToPrune, file.Cells();
    var head, tail := Present(cells[..t]), Present(cells[t..]);
    assert cells == cells[..t] + cells[t..];
    PresentConcat(cells[..t], cells[t..]);
    PlanTailIsMerge(plan, file, synced, repl);
    PlanHeadIsUntouched(plan, file, synced, repl);
    assert plan.oldKeys == DroppedKeys(tail, synced);
    hide Present, Kept, DroppedKeys, Merge, PlanFor;
    FilterConcat(head, tail, synced);
    MergeSkipsPrefix(head, Kept(tail, synced), repl);
  }

  /** The fast path leaves exactly the rows and old keys of the streaming rewrite; the recorded
      count is the number of rows really there; and the range is hole-free, hence row for row the
      file streaming would write, exactly when the old range was. */
  lemma {:induction false} FastPathRefinesStreaming<V>(
      plan: TailPlan<V>, file: ChangesetFile<V>, synced: set<nat>, repl: seq<Change<V>>)
    requires PlanFor(plan, file, synced, repl)
    requires SortedCells(file.Cells()) && StrictlySorted(repl) && Owned(repl, synced)
    ensures var r := AfterTail(file, plan);
      && Present(r.Cells()) == Rewritten(file.Cells(), synced, repl)
      && plan.oldKeys == DroppedKeys(Present(file.Cells()), synced)
      && r.End() == |r.rows|
      && (r.Cells() == AllPresent(Rewritten(file.Cells(), synced, repl)) <==> NoHoles(file.Cells()))
  {
    AfterTailCells(plan, file, synced, repl);
    FastPathRows(plan, file, synced, repl);
    var r, head := AfterTail(file, plan), file.Cells()[..file.numChanges - plan.rowsToPrune];
    hide PlanFor, Present, Rewritten, DroppedKeys, NoHoles, SortedCells, StrictlySorted, Owned, AfterTail;
    PresentConcat(head, AllPresent(plan.appended));
    PresentOfAllPresent(plan.appended);
    HoleFreeIffAllPresent(r.Cells());
  }

  const LOW: Change<nat> := Change(Key(1, 0), 0)
  const HIGH: Change<nat> := Change(Key(5, 0), 0)
  const HOLED: ChangesetFile<nat> := ChangesetFile([None, Some(LOW), Some(HIGH)], 0, 3)
  const HOLED_PLAN: TailPlan<nat> := TailPlan(0, 1, 2, [], [Key(5, 0)])

  lemma HoledRows()
    ensures var cells := HOLED.Cells();
      && cells == [None, Some(LOW), Some(HIGH)] && cells[2..] == [Some(HIGH)]
      && Present(cells) == [LOW, HIGH] && Present(cells[2..]) == [HIGH]
  {
    var cells := HOLED.Cells();
    assert cells[1..] == AllPresent([LOW, HIGH]) && cells[2..] == AllPresent([HIGH]);
    PresentOfAllPresent([LOW, HIGH]);
    PresentOfAllPresent([HIGH]);
  }

  lemma HoledRowsFiltered()
    ensures Kept([HIGH], {5}) == [] && DroppedKeys([HIGH], {5}) == [Key(5, 0)]
    ensures Kept([LOW, HIGH], {5}) == [LOW]
  {
    var two, one, none := [LOW, HIGH], [HIGH], [];
    assert two[1..] == one && one[1..] == none;
    assert Kept(none, {5}) == none && DroppedKeys(none, {5}) == [];
  }

  /** A hole below the first synced address goes unnoticed by the search: rows (hole, 1, 5) with
      address 5 synced have a plan, whose file keeps the hole that streaming would close. */
  lemma HoleSurvivesFastPath()
    ensures SortedCells(HOLED.Cells()) && PlanFor(HOLED_PLAN, HOLED, {5}, []) && !NoHoles(HOLED.Cells())
    ensures AfterTail(HOLED, HOLED_PLAN).Cells() == [None, Some(LOW)]
    ensures Rewritten(HOLED.Cells(), {5}, []) == [LOW]
  {
    hide Present, Kept, DroppedKeys;
    HoledRows();
    HoledRowsFiltered();
    assert SplitsAt(HOLED.Cells(), 2, 5);
    assert HOLED.Cells()[0].None?;
    var none: seq<Change<nat>> := [];
    assert [LOW][1..] == none && Merge(none, none) == none;
  }

  lemma {:induction false} HoleFreeIffAllPresent<V>(cells: seq<Option<Change<V>>>)
    ensures NoHoles(cells) <==> cells == AllPresent(Present(cells))
  {
    if cells != [] && cells[0].Some? {
      HoleFreeIffAllPresent(cells[1..]);
      assert cells == [cells[0]] + cells[1..];
      assert AllPresent(Present(cells)) == [cells[0]] + AllPresent(Present(cells[1..]));
      assert NoHoles(cells) <==> NoHoles(cells[1..]);
    } else if cells != [] {
      assert !NoHoles(cells);
    }
  }

  // ---------------------------------------------------------------- both files

  /** Chooses the fast path only when both segments have a plan.  Whatever it chooses, both files
      hold the streaming rewrite and the old storage keys are those of the dropped storage rows. */
  method ReplaceBlockZeroChangesets<A, S>(
      accountFile: Option<ChangesetFile<A>>, storageFile: Option<ChangesetFile<S>>, synced: set<nat>,
      accountChanges: seq<Change<A>>, storageChanges: seq<Change<S>>)
    returns (newAccounts: ChangesetFile<A>, newStorage: ChangesetFile<S>, oldKeys: seq<Key>)
    requires StrictlySorted(accountChanges) && Owned(accountChanges, synced)
    requires StrictlySorted(storageChanges) && Owned(storageChanges, synced)
    requires SortedCells(CellsOf(accountFile)) && SortedCells(CellsOf(storageFile))
    ensures Present(newAccounts.Cells()) == Rewritten(CellsOf(accountFile), synced, accountChanges)
    ensures Present(newStorage.Cells()) == Rewritten(CellsOf(storageFile), synced, storageChanges)
    ensures newAccounts.End() == |newAccounts.rows| && newStorage.End() == |newStorage.rows|
    ensures NoHoles(CellsOf(accountFile)) ==> NoHoles(newAccounts.Cells())
    ensures NoHoles(CellsOf(storageFile)) ==> NoHoles(newStorage.Cells())
    ensures oldKeys == DroppedKeys(Present(CellsOf(storageFile)), synced)
  {
    var accountPlan := TailReplacementPlan(accountFile, synced, accountChanges);
    var storagePlan := TailReplacementPlan(storageFile, synced, storageChanges);
    if accountPlan.Some? && storagePlan.Some? {
      newAccounts := ReplaceTail(accountFile.value, accountPlan.value);
      newStorage := ReplaceTail(storageFile.value, storagePlan.value);
      FastPathRefinesStreaming(accountPlan.value, accountFile.value, synced, accountChanges);
      FastPathRefinesStreaming(storagePlan.value, storageFile.value, synced, storageChanges);
      return newAccounts, newStorage, storagePlan.value.oldKeys;
    }
    var accountRows, _ := StreamRewrite(accountFile, synced, accountChanges);
    var storageRows, dropped := StreamRewrite(storageFile, synced, storageChanges);
    newAccounts := WholeFile(accountRows);
    newStorage := WholeFile(storageRows);
    oldKeys := dropped;
  }

  /** A freshly written segment: block 0 is everything in it. */
  method WholeFile<V>(rows: seq<Change<V>>) returns (f: ChangesetFile<V>)
    ensures f.End() == |f.rows| && f.Cells() == AllPresent(rows) && Present(f.Cells()) == rows
  {
    f := ChangesetFile(seq(|rows|, i requires 0 <= i < |rows| => Some(rows[i])), 0, |rows|);
    PresentOfAllPresent(rows);
    assert f.Cells() == AllPresent(rows);
  }
}
