/** Keyed changeset rows, their order, and the library operations the rewriting code leans on
    (an unstable sort by key, deduplication of a sorted vector, the least element of a tree set).

    An account change is keyed by its address and a storage change by (address, slot).  Both are
    written with one key type: an account row has slot 0, so that comparing keys lexicographically
    is comparing addresses.
 */
module Rows {
  import opened Common

  datatype Key = Key(address: nat, slot: nat)

  datatype Change<+V> = Change(key: Key, value: V)

  predicate Less(a: Key, b: Key) {
    a.address < b.address || (a.address == b.address && a.slot < b.slot)
  }

  ghost predicate StrictlySorted<V>(rows: seq<Change<V>>) {
    forall i, j :: 0 <= i < j < |rows| ==> Less(rows[i].key, rows[j].key)
  }

  /** Everything in `a` comes before everything in `b`. */
  ghost predicate AllBefore<V>(a: seq<Change<V>>, b: seq<Change<V>>) {
    forall i, j :: 0 <= i < |a| && 0 <= j < |b| ==> Less(a[i].key, b[j].key)
  }

  ghost predicate SortedBy<T>(s: seq<T>, key: T -> Key) {
    forall i, j :: 0 <= i < j < |s| ==> !Less(key(s[j]), key(s[i]))
  }

  /** A strictly sorted sequence is determined by the rows it holds. */
  lemma {:induction false} StrictlySortedUnique<V>(a: seq<Change<V>>, b: seq<Change<V>>)
    requires StrictlySorted(a) && StrictlySorted(b)
    requires forall x :: x in a <==> x in b
    ensures a == b
  {
    if a == [] {
      assert forall i :: 0 <= i < |b| ==> b[i] in b;
    } else {
      assert a[0] in b;
      assert b[0] in a;
      assert a[0] == b[0];
      forall x ensures x in a[1..] <==> x in b[1..] {
        if x in a[1..] { assert x in a; }
        if x in b[1..] { assert x in b; }
      }
      StrictlySortedUnique(a[1..], b[1..]);
      HeadAndTail(a, b);
    }
  }

  lemma SamePermutationHead<V>(a: seq<Change<V>>, b: seq<Change<V>>)
    requires SortedBy(a, (c: Change<V>) => c.key) && StrictlySorted(b)
    requires multiset(a) == multiset(b) && |a| == |b| > 0
    ensures a[0] == b[0]
  {
    assert a[0] in multiset(b) && b[0] in multiset(a);
    var i :| 0 <= i < |b| && b[i] == a[0];
    var j :| 0 <= j < |a| && a[j] == b[0];
  }

  lemma TailMultiset<T>(a: seq<T>)
    requires a != []
    ensures multiset(a[1..]) == multiset(a) - multiset{a[0]}
  {
    assert a == [a[0]] + a[1..];
  }

  /** Whatever an unstable sort does with equal keys, it can give only one answer when some
      permutation of the input has strictly increasing keys. */
  lemma {:induction false} SortedPermutationUnique<V>(a: seq<Change<V>>, b: seq<Change<V>>)
    requires SortedBy(a, (c: Change<V>) => c.key) && StrictlySorted(b)
    requires multiset(a) == multiset(b)
    ensures a == b
  {
    assert |multiset(a)| == |a| && |multiset(b)| == |b|;
    if a == [] {
    } else {
      SamePermutationHead(a, b);
      TailMultiset(a);
      TailMultiset(b);
      TailsStaySorted(a, b);
      hide SortedBy, StrictlySorted;
      SortedPermutationUnique(a[1..], b[1..]);
      HeadAndTail(a, b);
    }
  }

  lemma HeadAndTail<T>(a: seq<T>, b: seq<T>)
    requires a != [] && b != [] && a[0] == b[0] && a[1..] == b[1..]
    ensures a == b
  {
    assert a == [a[0]] + a[1..] && b == [b[0]] + b[1..];
  }

  lemma TailsStaySorted<V>(a: seq<Change<V>>, b: seq<Change<V>>)
    requires a != [] && b != [] && SortedBy(a, (c: Change<V>) => c.key) && StrictlySorted(b)
    ensures SortedBy(a[1..], (c: Change<V>) => c.key) && StrictlySorted(b[1..])
  {
  }

  function Insert<T>(r: seq<T>, x: T, key: T -> Key): (q: seq<T>)
    ensures multiset(q) == multiset(r) + multiset{x}
  {
    if r == [] || Less(key(x), key(r[0])) then [x] + r
    else
      assert r == [r[0]] + r[1..];
      [r[0]] + Insert(r[1..], x, key)
  }

  lemma {:induction false} InsertSorted<T>(r: seq<T>, x: T, key: T -> Key)
    requires SortedBy(r, key)
    ensures SortedBy(Insert(r, x, key), key)
  {
    if r != [] && !Less(key(x), key(r[0])) {
      InsertSorted(r[1..], x, key);
      var q := Insert(r[1..], x, key);
      forall k | 0 <= k < |q| ensures !Less(key(q[k]), key(r[0])) {
        assert q[k] in multiset(q);
        assert q[k] == x || q[k] in r[1..];
      }
    }
  }

  ghost predicate DistinctBy<T>(s: seq<T>, key: T -> Key) {
    forall i, j :: 0 <= i < j < |s| ==> key(s[i]) != key(s[j])
  }

  ghost predicate StrictlyBy<T>(s: seq<T>, key: T -> Key) {
    forall i, j :: 0 <= i < j < |s| ==> Less(key(s[i]), key(s[j]))
  }

  /** Elements in strictly increasing key order are determined by which elements there are. */
  lemma {:induction false} StrictlyByUnique<T>(a: seq<T>, b: seq<T>, key: T -> Key)
    requires StrictlyBy(a, key) && StrictlyBy(b, key)
    requires forall x :: x in a <==> x in b
    ensures a == b
  {
    if a == [] {
      assert forall i :: 0 <= i < |b| ==> b[i] in b;
    } else {
      assert a[0] in b && b[0] in a;
      assert a[0] == b[0];
      forall x ensures x in a[1..] <==> x in b[1..] {
        if x in a[1..] { assert x in a; }
        if x in b[1..] { assert x in b; }
      }
      StrictlyByUnique(a[1..], b[1..], key);
      HeadAndTail(a, b);
    }
  }

  lemma {:induction false} DistinctOnce<T>(s: seq<T>, key: T -> Key, x: T)
    requires DistinctBy(s, key)
    ensures multiset(s)[x] <= 1
  {
    if s == [] {
    } else {
      TailMultiset(s);
      DistinctOnce(s[1..], key, x);
      assert s[0] !in s[1..];
    }
  }

  lemma RepeatedTwice<T>(s: seq<T>, i: nat, j: nat)
    requires i < j < |s| && s[i] == s[j]
    ensures multiset(s)[s[i]] >= 2
  {
    assert s == s[..j] + [s[j]] + s[j + 1..];
    assert s[i] == s[..j][i];
  }

  /** Sorting elements with distinct keys makes the keys strictly increase. */
  lemma SortedDistinctIsStrict<T>(s: seq<T>, r: seq<T>, key: T -> Key)
    requires DistinctBy(s, key) && SortedBy(r, key) && multiset(r) == multiset(s)
    ensures StrictlyBy(r, key)
  {
    forall i, j | 0 <= i < j < |r| ensures Less(key(r[i]), key(r[j])) {
      assert r[i] in multiset(s) && r[j] in multiset(s);
      var m :| 0 <= m < |s| && s[m] == r[i];
      var n :| 0 <= n < |s| && s[n] == r[j];
      if r[i] == r[j] {
        RepeatedTwice(r, i, j);
        DistinctOnce(s, key, r[i]);
      }
    }
  }

  lemma SameElements<T>(s: seq<T>, r: seq<T>)
    requires multiset(r) == multiset(s)
    ensures forall x :: x in r <==> x in s
  {
    forall x ensures x in r <==> x in s {
      assert x in multiset(r) <==> x in multiset(s);
    }
  }

  /** `sort_unstable_by_key`: some key-ordered permutation, nothing promised about equal keys. */
  method SortUnstableByKey<T>(s: seq<T>, key: T -> Key) returns (r: seq<T>)
    ensures multiset(r) == multiset(s)
    ensures SortedBy(r, key)
  {
    r := [];
    for i := 0 to |s|
      invariant multiset(r) == multiset(s[..i])
      invariant SortedBy(r, key)
    {
      assert s[..i + 1] == s[..i] + [s[i]];
      InsertSorted(r, s[i], key);
      r := Insert(r, s[i], key);
    }
    assert s[..|s|] == s;
  }

  /** `dedup`: drops every element equal to the one before it. */
  method Dedup<T(==)>(s: seq<T>, key: T -> Key) returns (r: seq<T>)
    requires SortedBy(s, key)
    requires forall x, y :: x in s && y in s && key(x) == key(y) ==> x == y
    ensures forall x :: x in r <==> x in s
    ensures forall i, j :: 0 <= i < j < |r| ==> Less(key(r[i]), key(r[j]))
  {
    r := [];
    for i := 0 to |s|
      invariant forall x :: x in r <==> x in s[..i]
      invariant forall m, n :: 0 <= m < n < |r| ==> Less(key(r[m]), key(r[n]))
      invariant i > 0 ==> r != [] && r[|r| - 1] == s[i - 1]
      invariant i == 0 ==> r == []
    {
      assert s[..i + 1] == s[..i] + [s[i]];
      if i == 0 || s[i] != s[i - 1] {
        r := r + [s[i]];
      }
    }
    assert s[..|s|] == s;
  }

  /** `BTreeSet::first`. */
  method First(s: set<nat>) returns (r: Option<nat>)
    ensures r.None? <==> s == {}
    ensures r.Some? ==> r.value in s && forall x :: x in s ==> r.value <= x
  {
    if s == {} {
      return None;
    }
    var m :| m in s;
    var seen := {m};
    while s - seen != {}
      invariant m in seen && seen <= s
      invariant forall x :: x in seen ==> m <= x
      decreases s - seen
    {
      var x :| x in s - seen;
      if x < m {
        m := x;
      }
      seen := seen + {x};
    }
    assert forall x :: x in s ==> x in seen || x in s - seen;
    r := Some(m);
  }
}
