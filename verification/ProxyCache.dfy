/** The proxy's block cache: blocks by height, heights by hash, lowest heights evicted first. */
module ProxyCache {
  import opened Common
  import opened Rows

  datatype Header = Header(number: nat, fields: nat)
  type Body = seq<nat>
  datatype CachedBlock = CachedBlock(header: Header, body: Option<Body>, hash: nat)
  datatype Index = Index(byNumber: map<nat, CachedBlock>, byHash: map<nat, nat>)
  datatype Insertion = Insertion(number: nat, hash: nat, header: Header, body: Option<Body>)

  // ---------------------------------------------------------------- the transitions

  /** The block stored for an insertion: a header-only refresh of the same block keeps its body,
      a different block at the height never inherits one. */
  ghost function Refreshed(byNumber: map<nat, CachedBlock>, op: Insertion): CachedBlock {
    var inherits := op.body.None? && op.number in byNumber && byNumber[op.number].hash == op.hash;
    CachedBlock(op.header, if inherits then byNumber[op.number].body else op.body, op.hash)
  }

  ghost function Upserted(c: Index, op: Insertion): Index {
    var replaced := op.number in c.byNumber && c.byNumber[op.number].hash != op.hash;
    var byHash := if replaced then c.byHash - {c.byNumber[op.number].hash} else c.byHash;
    Index(c.byNumber[op.number := Refreshed(c.byNumber, op)], byHash[op.hash := op.number])
  }

  ghost predicate IsLeast(n: nat, s: set<nat>) {
    n in s && forall m :: m in s ==> n <= m
  }

  lemma {:induction false} LeastExists(s: set<nat>)
    requires s != {}
    ensures exists n :: IsLeast(n, s)
    decreases s
  {
    var x :| x in s;
    var rest := s - {x};
    if rest == {} {
      assert forall y :: y in s ==> y == x || y in rest;
      assert IsLeast(x, s);
    } else {
      LeastExists(rest);
      var m :| IsLeast(m, rest);
      assert forall y :: y in s ==> y == x || y in rest;
      assert IsLeast(if x < m then x else m, s);
    }
  }

  ghost function Least(s: set<nat>): (n: nat)
    requires s != {}
    ensures IsLeast(n, s)
  {
    LeastExists(s);
    var n :| IsLeast(n, s);
    n
  }

  ghost function WithoutFirst(c: Index): Index
    requires c.byNumber.Keys != {}
  {
    var n := Least(c.byNumber.Keys);
    Index(c.byNumber - {n}, c.byHash - {c.byNumber[n].hash})
  }

  ghost function Evicted(c: Index, capacity: nat): Index
    decreases |c.byNumber.Keys|
  {
    if |c.byNumber.Keys| <= capacity then c
    else
      assert WithoutFirst(c).byNumber.Keys == c.byNumber.Keys - {Least(c.byNumber.Keys)};
      Evicted(WithoutFirst(c), capacity)
  }

  ghost function Run(ops: seq<Insertion>, capacity: nat): Index {
    if ops == [] then Index(map[], map[])
    else Evicted(Upserted(Run(ops[..|ops| - 1], capacity), ops[|ops| - 1]), capacity)
  }

  lemma RunUnfolds(before: seq<Insertion>, op: Insertion, capacity: nat)
    ensures Run(before + [op], capacity) == Evicted(Upserted(Run(before, capacity), op), capacity)
  {
  }

  // ---------------------------------------------------------------- what eviction keeps

  /** `kept` are the `capacity` largest elements of `all`, or all of them. */
  ghost predicate Largest(kept: set<nat>, all: set<nat>, capacity: nat) {
    && kept <= all
    && |kept| == (if |all| <= capacity then |all| else capacity)
    && forall x, y :: x in kept && y in all && y !in kept ==> y < x
  }

  /** The hash index never points at a block with another hash. */
  ghost predicate Sound(c: Index) {
    forall h :: h in c.byHash ==> c.byHash[h] in c.byNumber && c.byNumber[c.byHash[h]].hash == h
  }

  /** Every cached block is found under its hash. */
  ghost predicate Complete(c: Index) {
    forall n :: n in c.byNumber ==> c.byNumber[n].hash in c.byHash && c.byHash[c.byNumber[n].hash] == n
  }

  ghost predicate SubIndex(small: Index, big: Index) {
    forall n :: n in small.byNumber ==> n in big.byNumber && small.byNumber[n] == big.byNumber[n]
  }

  lemma WithoutFirstKeepsIndexes(c: Index)
    requires c.byNumber.Keys != {}
    ensures SubIndex(WithoutFirst(c), c)
    ensures Sound(c) ==> Sound(WithoutFirst(c))
    ensures Sound(c) && Complete(c) ==> Complete(WithoutFirst(c))
  {
  }

  lemma LargestWithoutLeast(kept: set<nat>, all: set<nat>, n: nat, capacity: nat)
    requires IsLeast(n, all) && |all| > capacity && Largest(kept, all - {n}, capacity)
    ensures Largest(kept, all, capacity)
  {
    assert all == (all - {n}) + {n};
  }

  lemma SubIndexTrans(a: Index, b: Index, c: Index)
    requires SubIndex(a, b) && SubIndex(b, c)
    ensures SubIndex(a, c)
  {
  }

  lemma {:induction false} EvictionKeepsTheLargest(c: Index, capacity: nat)
    ensures Largest(Evicted(c, capacity).byNumber.Keys, c.byNumber.Keys, capacity)
    ensures SubIndex(Evicted(c, capacity), c)
    ensures Sound(c) ==> Sound(Evicted(c, capacity))
    ensures Sound(c) && Complete(c) ==> Complete(Evicted(c, capacity))
    decreases |c.byNumber.Keys|
  {
    if |c.byNumber.Keys| <= capacity {
      assert Evicted(c, capacity) == c;
    } else {
      var n, d := Least(c.byNumber.Keys), WithoutFirst(c);
      assert d.byNumber.Keys == c.byNumber.Keys - {n};
      assert Evicted(c, capacity) == Evicted(d, capacity);
      WithoutFirstKeepsIndexes(c);
      hide Sound, Complete, WithoutFirst, Largest, Evicted, SubIndex;
      EvictionKeepsTheLargest(d, capacity);
      SubIndexTrans(Evicted(d, capacity), d, c);
      LargestWithoutLeast(Evicted(d, capacity).byNumber.Keys, c.byNumber.Keys, n, capacity);
    }
  }

  // ---------------------------------------------------------------- runs against the history

  /** The uncapped history: what the last insertions at each height amount to. */
  ghost function History(ops: seq<Insertion>): map<nat, CachedBlock> {
    if ops == [] then map[]
    else
      var before, op := History(ops[..|ops| - 1]), ops[|ops| - 1];
      before[op.number := Refreshed(before, op)]
  }

  /** Adding a new element to the kept ones drops exactly one. */
  lemma OneIsDropped(kept: set<nat>, n: nat, capacity: nat, kept': set<nat>) returns (m: nat)
    requires |kept| == capacity && n !in kept && Largest(kept', kept + {n}, capacity)
    ensures m in kept + {n} && kept' == kept + {n} - {m} && forall x :: x in kept' ==> m < x
  {
    assert |kept + {n}| == capacity + 1;
    var out := kept + {n} - kept';
    assert kept' + out == kept + {n};
    assert |kept' + out| == |kept'| + |out|;
    m :| m in out;
    SingletonOf(out, m);
  }

  lemma LargestAfterInsert(kept: set<nat>, all: set<nat>, capacity: nat, n: nat, kept': set<nat>)
    requires Largest(kept, all, capacity)
    requires Largest(kept', kept + {n}, capacity)
    ensures Largest(kept', all + {n}, capacity)
    ensures n in all && n !in kept ==> n !in kept'
  {
    SubsetSize(kept, all);
    if kept == all {
    } else if n in kept {
      assert kept + {n} == kept && all + {n} == all;
      SubsetSize(kept', kept);
    } else {
      var m := OneIsDropped(kept, n, capacity, kept');
      SubsetSize(all, all + {n});
    }
  }

  lemma SubsetSize(a: set<nat>, b: set<nat>)
    requires a <= b
    ensures |a| <= |b| && (|a| == |b| ==> a == b)
  {
    assert b == a + (b - a);
    assert |b| == |a| + |b - a|;
    if |a| == |b| {
      assert b - a == {};
    }
  }

  lemma SingletonOf(s: set<nat>, m: nat)
    requires m in s && |s| == 1
    ensures s == {m}
  {
    SubsetSize({m}, s);
  }

  ghost predicate AgreesWith(c: Index, history: map<nat, CachedBlock>) {
    forall n :: n in c.byNumber ==> n in history && c.byNumber[n] == history[n]
  }

  lemma InsertKeepsAgreement(c: Index, history: map<nat, CachedBlock>, op: Insertion, after: Index)
    requires AgreesWith(c, history)
    requires SubIndex(after, Upserted(c, op))
    requires op.number in history && op.number !in c.byNumber ==> op.number !in after.byNumber
    ensures AgreesWith(after, history[op.number := Refreshed(history, op)])
  {
  }

  lemma {:induction false} InsertKeepsLargest(c: Index, all: set<nat>, capacity: nat, op: Insertion, after: Index)
    requires Largest(c.byNumber.Keys, all, capacity)
    requires after == Evicted(Upserted(c, op), capacity)
    ensures Largest(after.byNumber.Keys, all + {op.number}, capacity)
    ensures SubIndex(after, Upserted(c, op))
    ensures op.number in all && op.number !in c.byNumber ==> op.number !in after.byNumber
  {
    hide Evicted, SubIndex, Sound, Complete;
    EvictionKeepsTheLargest(Upserted(c, op), capacity);
    assert Upserted(c, op).byNumber.Keys == c.byNumber.Keys + {op.number};
    hide Upserted, Largest;
    LargestAfterInsert(c.byNumber.Keys, all, capacity, op.number, after.byNumber.Keys);
  }

  /** After any insertions, the cache is the uncapped history restricted to the `capacity` largest
      heights ever inserted: an evicted height never comes back, and a height still cached has lost
      nothing to eviction. */
  lemma {:induction false} CacheIsTopOfHistory(ops: seq<Insertion>, capacity: nat)
    ensures Largest(Run(ops, capacity).byNumber.Keys, History(ops).Keys, capacity)
    ensures AgreesWith(Run(ops, capacity), History(ops))
  {
    if ops == [] {
    } else {
      hide Evicted, Upserted, Refreshed, Largest, AgreesWith, SubIndex;
      var before, op := ops[..|ops| - 1], ops[|ops| - 1];
      CacheIsTopOfHistory(before, capacity);
      InsertKeepsLargest(Run(before, capacity), History(before).Keys, capacity, op, Run(ops, capacity));
      InsertKeepsAgreement(Run(before, capacity), History(before), op, Run(ops, capacity));
      assert History(ops).Keys == History(before).Keys + {op.number};
    }
  }

  lemma UpsertKeepsSound(c: Index, op: Insertion)
    requires Sound(c)
    ensures Sound(Upserted(c, op))
  {
  }

  lemma {:induction false} HashIndexIsSound(ops: seq<Insertion>, capacity: nat)
    ensures Sound(Run(ops, capacity))
  {
    if ops == [] {
    } else {
      var before := ops[..|ops| - 1];
      HashIndexIsSound(before, capacity);
      UpsertKeepsSound(Run(before, capacity), ops[|ops| - 1]);
      EvictionKeepsTheLargest(Upserted(Run(before, capacity), ops[|ops| - 1]), capacity);
    }
  }

  /** No hash was inserted at two heights. */
  ghost predicate HashFixesHeight(ops: seq<Insertion>) {
    forall i, j :: 0 <= i < |ops| && 0 <= j < |ops| && ops[i].hash == ops[j].hash ==> ops[i].number == ops[j].number
  }

  ghost predicate InsertedAs(ops: seq<Insertion>, n: nat, block: CachedBlock) {
    exists i :: 0 <= i < |ops| && ops[i].number == n && ops[i].hash == block.hash && ops[i].header == block.header
  }

  /** The latest insertion at height `n` is the one at `i`. */
  ghost predicate LatestAt(ops: seq<Insertion>, n: nat, i: nat) {
    i < |ops| && ops[i].number == n && forall j :: i < j < |ops| ==> ops[j].number != n
  }

  lemma {:induction false} HistoryIsLatest(ops: seq<Insertion>, n: nat) returns (i: nat)
    requires n in History(ops)
    ensures LatestAt(ops, n, i)
    ensures History(ops)[n].hash == ops[i].hash && History(ops)[n].header == ops[i].header
    ensures ops[i].body.Some? ==> History(ops)[n].body == ops[i].body
  {
    var before, op := ops[..|ops| - 1], ops[|ops| - 1];
    if op.number == n {
      i := |ops| - 1;
    } else {
      i := HistoryIsLatest(before, n);
    }
  }

  /** A cached entry carries the hash and header of the latest insertion at its height. */
  lemma CachedEntryIsLatest(ops: seq<Insertion>, capacity: nat, n: nat)
    requires n in Run(ops, capacity).byNumber
    ensures var e := Run(ops, capacity).byNumber[n];
      exists i: nat :: LatestAt(ops, n, i) && e.hash == ops[i].hash && e.header == ops[i].header
  {
    CacheIsTopOfHistory(ops, capacity);
    var i := HistoryIsLatest(ops, n);
  }

  /** If every inserted body is the true body of its hash, so is every body in the history. */
  lemma {:induction false} BodiesStayTrue(ops: seq<Insertion>, trueBody: nat -> Body, n: nat)
    requires forall i :: 0 <= i < |ops| && ops[i].body.Some? ==> ops[i].body.value == trueBody(ops[i].hash)
    requires n in History(ops) && History(ops)[n].body.Some?
    ensures History(ops)[n].body.value == trueBody(History(ops)[n].hash)
  {
    var before, op := ops[..|ops| - 1], ops[|ops| - 1];
    assert forall i :: 0 <= i < |before| ==> before[i] == ops[i];
    if op.number != n || (op.body.None? && n in History(before) && History(before)[n].hash == op.hash) {
      BodiesStayTrue(before, trueBody, n);
    }
  }

  /** Across reorgs, header-only refreshes and evictions, a cached body is the body of its block. */
  lemma CachedBodyIsTrue(ops: seq<Insertion>, capacity: nat, trueBody: nat -> Body, n: nat)
    requires forall i :: 0 <= i < |ops| && ops[i].body.Some? ==> ops[i].body.value == trueBody(ops[i].hash)
    requires n in Run(ops, capacity).byNumber && Run(ops, capacity).byNumber[n].body.Some?
    ensures var e := Run(ops, capacity).byNumber[n]; e.body.value == trueBody(e.hash)
  {
    CacheIsTopOfHistory(ops, capacity);
    BodiesStayTrue(ops, trueBody, n);
  }

  /** The insertion at `i` carries a body for height `n`, and every later one at that height is a
      header-only refresh of the same block. */
  ghost predicate BodyFrom(ops: seq<Insertion>, n: nat, i: nat) {
    && i < |ops| && ops[i].number == n && ops[i].body.Some?
    && forall j :: i < j < |ops| && ops[j].number == n ==> ops[j].hash == ops[i].hash && ops[j].body.None?
  }

  lemma {:induction false} HistoryHas(ops: seq<Insertion>, i: nat)
    requires i < |ops|
    ensures ops[i].number in History(ops)
  {
    if i == |ops| - 1 {
    } else {
      HistoryHas(ops[..|ops| - 1], i);
    }
  }

  /** Where a body comes from, the block of the history is the one it came with. */
  lemma BodyFromSameBlock(ops: seq<Insertion>, n: nat, i: nat)
    requires BodyFrom(ops, n, i)
    ensures n in History(ops) && History(ops)[n].hash == ops[i].hash
  {
    HistoryHas(ops, i);
    var l := HistoryIsLatest(ops, n);
    hide History;
    assert l == i || i < l;
  }

  lemma BodyFromBefore(before: seq<Insertion>, op: Insertion, n: nat, i: nat)
    requires i < |before|
    ensures BodyFrom(before + [op], n, i) <==>
      BodyFrom(before, n, i) && (op.number == n ==> op.hash == before[i].hash && op.body.None?)
  {
    var ops := before + [op];
    assert ops[|before|] == op && forall j :: 0 <= j < |before| ==> ops[j] == before[j];
  }

  lemma HistoryUnfolds(before: seq<Insertion>, op: Insertion)
    ensures History(before + [op]) == History(before)[op.number := Refreshed(History(before), op)]
  {
    assert (before + [op])[..|before|] == before;
  }

  /** In the history a block has exactly the body of the insertion it comes from. */
  lemma {:induction false} HistoryBodyIff(ops: seq<Insertion>, n: nat, b: Body)
    requires n in History(ops)
    ensures History(ops)[n].body == Some(b) <==> exists i: nat :: BodyFrom(ops, n, i) && ops[i].body == Some(b)
  {
    var before, op := ops[..|ops| - 1], ops[|ops| - 1];
    assert before + [op] == ops;
    HistoryUnfolds(before, op);
    if n in History(before) {
      HistoryBodyIff(before, n, b);
    }
    if History(ops)[n].body == Some(b) {
      BodyHasOrigin(before, op, n, b);
    }
    if i: nat :| BodyFrom(ops, n, i) && ops[i].body == Some(b) {
      OriginGivesBody(before, op, n, b, i);
    }
  }

  lemma BodyHasOrigin(before: seq<Insertion>, op: Insertion, n: nat, b: Body)
    requires n in History(before + [op]) && History(before + [op])[n].body == Some(b)
    requires n in History(before) && History(before)[n].body == Some(b) ==>
      exists i: nat :: BodyFrom(before, n, i) && before[i].body == Some(b)
    ensures exists i: nat :: BodyFrom(before + [op], n, i) && (before + [op])[i].body == Some(b)
  {
    var ops := before + [op];
    HistoryUnfolds(before, op);
    hide History;
    if op.number == n && op.body.Some? {
      assert BodyFrom(ops, n, |before|) && ops[|before|].body == Some(b);
    } else {
      var i: nat :| BodyFrom(before, n, i) && before[i].body == Some(b);
      BodyFromSameBlock(before, n, i);
      BodyFromBefore(before, op, n, i);
      assert ops[i] == before[i];
    }
  }

  lemma OriginGivesBody(before: seq<Insertion>, op: Insertion, n: nat, b: Body, i: nat)
    requires BodyFrom(before + [op], n, i) && (before + [op])[i].body == Some(b) && n in History(before + [op])
    requires n in History(before) && (exists k: nat :: BodyFrom(before, n, k) && before[k].body == Some(b)) ==>
      History(before)[n].body == Some(b)
    ensures History(before + [op])[n].body == Some(b)
  {
    HistoryUnfolds(before, op);
    hide History;
    if i < |before| {
      BodyFromBefore(before, op, n, i);
      BodyFromSameBlock(before, n, i);
      assert before[i].body == Some(b);
    }
  }

  /** A cached block has body `b` exactly when `b` came with the latest insertion at its height that
      carried a body and no insertion at that height since then brought another block: a header-only
      refresh keeps the body, a replacement loses it, and nothing else touches it. */
  lemma CachedBodyIff(ops: seq<Insertion>, capacity: nat, n: nat, b: Body)
    requires n in Run(ops, capacity).byNumber
    ensures Run(ops, capacity).byNumber[n].body == Some(b) <==>
      exists i: nat :: BodyFrom(ops, n, i) && ops[i].body == Some(b)
  {
    CacheIsTopOfHistory(ops, capacity);
    HistoryBodyIff(ops, n, b);
    hide Run, History, BodyFrom;
  }

  lemma CachedEntriesWereInserted(ops: seq<Insertion>, capacity: nat)
    ensures forall n :: n in Run(ops, capacity).byNumber ==> InsertedAs(ops, n, Run(ops, capacity).byNumber[n])
  {
    forall n | n in Run(ops, capacity).byNumber ensures InsertedAs(ops, n, Run(ops, capacity).byNumber[n]) {
      CachedEntryIsLatest(ops, capacity, n);
    }
  }

  /** No other height holds a block of the inserted hash. */
  ghost predicate HashFreeElsewhere(c: Index, op: Insertion) {
    forall n :: n in c.byNumber && c.byNumber[n].hash == op.hash ==> n == op.number
  }

  /** At most one entry goes, and its hash with it. */
  lemma OneEviction(c: Index, capacity: nat)
    requires |c.byNumber.Keys| <= capacity + 1
    ensures Evicted(c, capacity) == if |c.byNumber.Keys| <= capacity then c else WithoutFirst(c)
  {
    if |c.byNumber.Keys| > capacity {
      assert WithoutFirst(c).byNumber.Keys == c.byNumber.Keys - {Least(c.byNumber.Keys)};
    }
  }

  lemma UpsertCompleteIff(c: Index, op: Insertion)
    requires Sound(c) && Complete(c)
    ensures Complete(Upserted(c, op)) <==> HashFreeElsewhere(c, op)
  {
    var u := Upserted(c, op);
    if n :| n in c.byNumber && c.byNumber[n].hash == op.hash && n != op.number {
      assert u.byNumber[n].hash == op.hash && u.byHash[op.hash] == op.number;
    }
  }

  /** Evicting one of two heights with one hash leaves the other without its index entry. */
  lemma EvictionKeepsTwinIncomplete(c: Index, op: Insertion, n: nat)
    requires n in c.byNumber && c.byNumber[n].hash == op.hash && n != op.number
    ensures Upserted(c, op).byNumber.Keys != {} && !Complete(WithoutFirst(Upserted(c, op)))
  {
    var u := Upserted(c, op);
    assert op.number in u.byNumber.Keys;
    var d := WithoutFirst(u);
    assert u.byNumber[n].hash == op.hash == u.byNumber[op.number].hash && u.byHash[op.hash] == op.number;
    if Least(u.byNumber.Keys) == n {
      assert op.number in d.byNumber && op.hash !in d.byHash;
    } else {
      assert n in d.byNumber && (op.hash in d.byHash ==> d.byHash[op.hash] == op.number);
    }
  }

  lemma InsertedIsLeastIff(keys: set<nat>, n: nat)
    ensures n == Least(keys + {n}) && n !in keys <==> forall m :: m in keys ==> n < m
  {
    var all := keys + {n};
    assert n in all && IsLeast(Least(all), all);
    if forall m :: m in keys ==> n < m {
      assert Least(all) in keys || Least(all) == n;
    } else {
      var m :| m in keys && m <= n;
      assert m in all;
    }
  }

  /** An insertion is evicted at once exactly when the cache is full of greater heights. */
  lemma EvictedAtOnceIff(c: Index, op: Insertion, capacity: nat)
    requires |c.byNumber.Keys| <= capacity
    ensures op.number !in Evicted(Upserted(c, op), capacity).byNumber <==>
      |c.byNumber.Keys| == capacity && forall n :: n in c.byNumber ==> op.number < n
  {
    var u, keys := Upserted(c, op), c.byNumber.Keys;
    assert u.byNumber.Keys == keys + {op.number};
    OneEviction(u, capacity);
    InsertedIsLeastIff(keys, op.number);
    hide Evicted, Upserted;
    if op.number in keys {
      assert keys + {op.number} == keys;
    } else if |keys| == capacity {
      assert WithoutFirst(u).byNumber.Keys == u.byNumber.Keys - {Least(u.byNumber.Keys)};
    }
  }

  /** Cached with this hash, or left out of a cache full of greater heights. */
  ghost predicate CachedOrTooLow(c: Index, capacity: nat, number: nat, hash: nat) {
    if number in c.byNumber then c.byNumber[number].hash == hash
    else |c.byNumber.Keys| == capacity && forall n :: n in c.byNumber ==> number < n
  }

  /** Whatever the cache held, right after an insertion its block is there unless it is too low. */
  lemma InsertedIsCachedOrTooLow(c: Index, op: Insertion, capacity: nat)
    ensures var after := Evicted(Upserted(c, op), capacity);
      && CachedOrTooLow(after, capacity, op.number, op.hash)
      && (op.number in after.byNumber && op.body.Some? ==> after.byNumber[op.number].body == op.body)
  {
    var u := Upserted(c, op);
    var after := Evicted(u, capacity);
    EvictionKeepsTheLargest(u, capacity);
    assert op.number in u.byNumber.Keys && u.byNumber[op.number].hash == op.hash;
    assert op.body.Some? ==> u.byNumber[op.number].body == op.body;
    SubsetSize(after.byNumber.Keys, u.byNumber.Keys);
    hide Evicted, Upserted, Sound, Complete;
  }

  /** An insertion keeps the two indexes mirrors of each other exactly when no other cached height
      holds a block of its hash. */
  lemma MirrorKeptIff(c: Index, op: Insertion, capacity: nat)
    requires Sound(c) && Complete(c) && |c.byNumber.Keys| <= capacity
    ensures Complete(Evicted(Upserted(c, op), capacity)) <==> HashFreeElsewhere(c, op)
  {
    var u := Upserted(c, op);
    UpsertKeepsSound(c, op);
    UpsertCompleteIff(c, op);
    assert u.byNumber.Keys == c.byNumber.Keys + {op.number};
    OneEviction(u, capacity);
    EvictionKeepsTheLargest(u, capacity);
    if n :| n in c.byNumber && c.byNumber[n].hash == op.hash && n != op.number {
      EvictionKeepsTwinIncomplete(c, op, n);
    }
    hide Evicted, Upserted, Complete, Sound;
  }

  lemma RunFits(ops: seq<Insertion>, capacity: nat)
    ensures |Run(ops, capacity).byNumber.Keys| <= capacity
  {
    CacheIsTopOfHistory(ops, capacity);
  }

  ghost predicate MirroredThroughout(ops: seq<Insertion>, capacity: nat) {
    forall k :: 0 <= k <= |ops| ==> Complete(Run(ops[..k], capacity))
  }

  ghost predicate HashesFreeThroughout(ops: seq<Insertion>, capacity: nat) {
    forall k :: 0 <= k < |ops| ==> HashFreeElsewhere(Run(ops[..k], capacity), ops[k])
  }

  /** The indexes mirror each other throughout a run exactly when no insertion brings a hash that is
      cached at another height at that moment. */
  lemma {:induction false} MirroredThroughoutIff(ops: seq<Insertion>, capacity: nat)
    ensures MirroredThroughout(ops, capacity) <==> HashesFreeThroughout(ops, capacity)
  {
    hide Run, HashFreeElsewhere, Complete, Sound;
    if ops == [] {
      EmptyIsComplete(capacity);
    } else {
      var before, op := ops[..|ops| - 1], ops[|ops| - 1];
      MirroredThroughoutIff(before, capacity);
      assert forall k :: 0 <= k <= |before| ==> before[..k] == ops[..k];
      assert ops[..|ops|] == before + [op] && ops[..|before|] == before;
      if MirroredThroughout(before, capacity) {
        StepMirroredIff(before, op, capacity);
      }
    }
  }

  lemma EmptyIsComplete(capacity: nat)
    ensures MirroredThroughout([], capacity)
  {
    var none: seq<Insertion> := [];
    assert none[..0] == none;
  }

  lemma StepMirroredIff(before: seq<Insertion>, op: Insertion, capacity: nat)
    requires MirroredThroughout(before, capacity)
    ensures Complete(Run(before + [op], capacity)) <==> HashFreeElsewhere(Run(before, capacity), op)
  {
    hide Run, HashFreeElsewhere, Complete, Sound;
    assert before[..|before|] == before;
    RunUnfolds(before, op, capacity);
    HashIndexIsSound(before, capacity);
    RunFits(before, capacity);
    MirrorKeptIff(Run(before, capacity), op, capacity);
  }

  /** When a hash determines its height, the two indexes mirror each other and have one size. */
  lemma IndexesMirror(ops: seq<Insertion>, capacity: nat)
    requires HashFixesHeight(ops)
    ensures var c := Run(ops, capacity);
      Sound(c) && Complete(c) && |c.byHash.Keys| == |c.byNumber.Keys| <= capacity
  {
    forall k | 0 <= k < |ops| ensures HashFreeElsewhere(Run(ops[..k], capacity), ops[k]) {
      FixedHeightIsFree(ops, k, capacity);
    }
    hide Run, HashFreeElsewhere, Complete, Sound;
    MirroredThroughoutIff(ops, capacity);
    assert ops[..|ops|] == ops;
    HashIndexIsSound(ops, capacity);
    RunFits(ops, capacity);
    MirrorSize(Run(ops, capacity));
  }

  lemma FixedHeightIsFree(ops: seq<Insertion>, k: nat, capacity: nat)
    requires HashFixesHeight(ops) && k < |ops|
    ensures HashFreeElsewhere(Run(ops[..k], capacity), ops[k])
  {
    var c := Run(ops[..k], capacity);
    CachedEntriesWereInserted(ops[..k], capacity);
    hide Run;
    forall n | n in c.byNumber && c.byNumber[n].hash == ops[k].hash ensures n == ops[k].number {
      assert InsertedAs(ops[..k], n, c.byNumber[n]);
      var i :| 0 <= i < k && ops[..k][i].number == n && ops[..k][i].hash == ops[k].hash;
      assert ops[i].hash == ops[k].hash;
    }
  }

  lemma MirrorSize(c: Index)
    requires Sound(c) && Complete(c)
    ensures |c.byHash.Keys| == |c.byNumber.Keys|
  {
    InjectiveImage(c.byHash.Keys, c.byNumber.Keys, c);
  }

  lemma {:induction false} InjectiveImage(hs: set<nat>, ns: set<nat>, c: Index)
    requires Sound(c) && Complete(c)
    requires hs <= c.byHash.Keys && ns <= c.byNumber.Keys
    requires forall h :: h in hs ==> c.byHash[h] in ns
    requires forall n :: n in ns ==> c.byNumber[n].hash in hs
    ensures |hs| == |ns|
    decreases hs
  {
    if hs == {} {
      assert ns == {} by {
        if n :| n in ns { assert c.byNumber[n].hash in hs; }
      }
    } else {
      var h :| h in hs;
      InjectiveImage(hs - {h}, ns - {c.byHash[h]}, c);
    }
  }

  /** The mirror is not unconditional: one hash inserted at two heights, then replaced at the lower
      one, leaves the higher block cached but not findable by its hash. */
  lemma MirrorNeedsUniqueHashes()
    ensures var ops := [
        Insertion(1, 7, Header(1, 0), None), Insertion(2, 7, Header(2, 0), None), Insertion(1, 8, Header(1, 1), None)];
      var c := Run(ops, 10);
      2 in c.byNumber && c.byNumber[2].hash == 7 && 7 !in c.byHash
  {
    var a, b := Insertion(1, 7, Header(1, 0), None), Insertion(2, 7, Header(2, 0), None);
    var d := Insertion(1, 8, Header(1, 1), None);
    var one, two, three := [a], [a, b], [a, b, d];
    assert one[..0] == [] && two[..1] == one && three[..2] == two;
    var c1 := Upserted(Index(map[], map[]), a);
    assert c1.byNumber.Keys == {1};
    assert Run(one, 10) == c1;
    var c2 := Upserted(c1, b);
    assert c2.byNumber.Keys == {1, 2};
    assert Run(two, 10) == c2;
    var c3 := Upserted(c2, d);
    assert c3.byNumber.Keys == {1, 2};
    assert Run(three, 10) == c3;
  }

  // ---------------------------------------------------------------- the object

  class BlockCache {
    var byNumber: map<nat, CachedBlock>
    var byHash: map<nat, nat>
    const capacity: nat

    ghost function View(): Index
      reads this
    {
      Index(byNumber, byHash)
    }

    constructor (capacity: nat)
      ensures View() == Run([], capacity) && this.capacity == capacity
    {
      byNumber, byHash := map[], map[];
      this.capacity := capacity;
    }

    method Upsert(number: nat, hash: nat, header: Header, body: Option<Body>)
      modifies this
      ensures View() == Evicted(Upserted(old(View()), Insertion(number, hash, header, body)), capacity)
    {
      if number in byNumber && byNumber[number].hash != hash {
        byHash := byHash - {byNumber[number].hash};
      }
      var kept := body;
      if number in byNumber && byNumber[number].hash == hash && body.None? {
        kept := byNumber[number].body;
      }
      byNumber := byNumber[number := CachedBlock(header, kept, hash)];
      byHash := byHash[hash := number];
      Evict();
    }

    method Evict()
      modifies this
      ensures View() == Evicted(old(View()), capacity)
    {
      while |byNumber.Keys| > capacity
        invariant Evicted(View(), capacity) == Evicted(old(View()), capacity)
        decreases |byNumber.Keys|
      {
        var first := First(byNumber.Keys);
        var n := first.value;
        assert n == Least(byNumber.Keys);
        assert (byNumber - {n}).Keys == byNumber.Keys - {n};
        byNumber, byHash := byNumber - {n}, byHash - {byNumber[n].hash};
      }
    }

    method GetByNumber(number: nat) returns (r: Option<CachedBlock>)
      ensures r == if number in byNumber then Some(byNumber[number]) else None
    {
      r := if number in byNumber then Some(byNumber[number]) else None;
    }

    /** Goes through both indexes; a block it returns has the requested hash. */
    method GetByHash(hash: nat) returns (r: Option<CachedBlock>)
      requires Sound(View())
      ensures r.Some? <==> hash in byHash
      ensures r.Some? ==> byHash[hash] in byNumber && r.value == byNumber[byHash[hash]] && r.value.hash == hash
    {
      if hash in byHash && byHash[hash] in byNumber {
        r := Some(byNumber[byHash[hash]]);
      } else {
        r := None;
      }
    }
  }
}
