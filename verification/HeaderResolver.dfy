/** Answering header requests through the shared cache.

    Every acquisition of the cache lock is preceded by `OtherTasks`: any number of insertions, with
    the evictions they cause, by requests resolved concurrently.
 */
module HeaderResolver {
  import opened Common
  import opened ProxyCache
  import opened HeaderAnswers

  const HEADER_RPC_BATCH_SIZE: nat := 128

  /** An insertion of a block of this world.  Only heights in `side` may get a non-canonical one. */
  predicate Genuine(w: World, side: set<nat>, op: Insertion) {
    && op.hash in w.blocks
    && op.header == w.blocks[op.hash].header && op.number == op.header.number
    && (op.body.Some? ==> op.body.value == w.blocks[op.hash].body)
    && (op.number in side || (op.number in w.canonical && w.canonical[op.number] == op.hash))
  }

  /** Everything cached is a block of this world, and canonical outside `side`. */
  ghost predicate Faithful(w: World, c: Index, side: set<nat>) {
    && Sound(c)
    && forall n :: n in c.byNumber ==>
         Genuine(w, side, Insertion(n, c.byNumber[n].hash, c.byNumber[n].header, c.byNumber[n].body))
  }

  lemma InsertKeepsFaithful(w: World, c: Index, side: set<nat>, op: Insertion, capacity: nat)
    requires Faithful(w, c, side) && Genuine(w, side, op)
    ensures Faithful(w, Evicted(Upserted(c, op), capacity), side)
  {
    UpsertKeepsSound(c, op);
    EvictionKeepsTheLargest(Upserted(c, op), capacity);
    hide Evicted, Sound;
    assert Faithful(w, Upserted(c, op), side);
  }

  lemma SideEntryIsNotFaithful(w: World, c: Index, op: Insertion)
    requires op.number in c.byNumber && c.byNumber[op.number].hash == op.hash
    requires Genuine(w, {op.number}, op) && !Genuine(w, {}, op)
    ensures !Faithful(w, c, {})
  {
    hide Sound;
  }

  lemma SubIndexOfRestIsFaithful(w: World, c: Index, op: Insertion, after: Index)
    requires Faithful(w, c, {}) && Sound(after) && SubIndex(after, Upserted(c, op)) && op.number !in after.byNumber
    ensures Faithful(w, after, {})
  {
    hide Sound;
  }

  /** A fetched block keeps a canonical cache canonical exactly when the block is canonical or the
      cache is full of greater heights.  Blocks fetched by hash need not be canonical. */
  lemma CacheStaysCanonicalIff(w: World, c: Index, op: Insertion, capacity: nat)
    requires Faithful(w, c, {}) && Genuine(w, {op.number}, op) && |c.byNumber.Keys| <= capacity
    ensures Faithful(w, Evicted(Upserted(c, op), capacity), {}) <==>
      Genuine(w, {}, op) || (|c.byNumber.Keys| == capacity && forall n :: n in c.byNumber ==> op.number < n)
  {
    var u := Upserted(c, op);
    var after := Evicted(u, capacity);
    UpsertKeepsSound(c, op);
    EvictionKeepsTheLargest(u, capacity);
    EvictedAtOnceIff(c, op, capacity);
    hide Evicted, Sound, Complete, Largest;
    if Genuine(w, {}, op) {
      InsertKeepsFaithful(w, c, {}, op, capacity);
    } else if op.number in after.byNumber {
      SideEntryIsNotFaithful(w, after, op);
    } else {
      SubIndexOfRestIsFaithful(w, c, op, after);
    }
  }

  method OtherTasks(cache: BlockCache, w: World, side: set<nat>)
    requires Faithful(w, cache.View(), side)
    modifies cache
    ensures Faithful(w, cache.View(), side)
  {
    var rounds: nat := *;
    while rounds > 0
      invariant Faithful(w, cache.View(), side)
    {
      var op: Insertion := *;
      if Genuine(w, side, op) {
        InsertKeepsFaithful(w, cache.View(), side, op, cache.capacity);
        cache.Upsert(op.number, op.hash, op.header, op.body);
      }
      rounds := rounds - 1;
    }
  }

  // ---------------------------------------------------------------- the requested heights

  method RequestedHeaderNumbers(start: nat, request: Request) returns (numbers: seq<nat>)
    ensures numbers == Requested(start, request)
    ensures ListsRequest(start, request, numbers)
  {
    RequestedIsListed(start, request);
    var limit := Cap(request.limit);
    var step := request.skip + 1;
    var current := start;
    numbers := [];
    ghost var target := Requested(start, request);
    hide Progression, Next, At, ListsRequest;
    for i := 0 to limit
      invariant numbers + Progression(current, step, request.rising, limit - i) == target
    {
      ProgressionUnfolds(current, step, request.rising, limit - i);
      numbers := numbers + [current];
      var next := Next(current, step, request.rising);
      if next.None? {
        return;
      }
      current := next.value;
    }
    ProgressionUnfolds(current, step, request.rising, 0);
  }

  // ---------------------------------------------------------------- fetching

  /** The numbers that are not among `cached`, in order. */
  ghost function Absent(numbers: seq<nat>, cached: set<nat>): seq<nat> {
    if numbers == [] then []
    else if numbers[0] in cached then Absent(numbers[1..], cached)
    else [numbers[0]] + Absent(numbers[1..], cached)
  }

  lemma {:induction false} AbsentElements(numbers: seq<nat>, cached: set<nat>)
    ensures forall n :: n in Absent(numbers, cached) <==> n in numbers && n !in cached
    ensures Distinct(numbers) ==> Distinct(Absent(numbers, cached))
  {
    if numbers == [] {
    } else {
      AbsentElements(numbers[1..], cached);
      assert numbers == [numbers[0]] + numbers[1..];
    }
  }

  /** Headers held are the canonical ones. */
  ghost predicate Correct(w: World, headers: map<nat, Header>) {
    ValidWorld(w) && forall n :: n in headers ==> n in w.canonical && headers[n] == HeaderAt(w, n)
  }

  /** Everything before the number at `i` is held, that one is not. */
  ghost predicate FirstGap(numbers: seq<nat>, headers: map<nat, Header>, i: nat) {
    i < |numbers| && numbers[i] !in headers && forall j :: 0 <= j < i ==> numbers[j] in headers
  }

  /** The first number that is not held is unavailable or `down`. */
  ghost predicate Covers(w: World, numbers: seq<nat>, headers: map<nat, Header>, down: set<nat>) {
    forall i: nat :: FirstGap(numbers, headers, i) ==> numbers[i] !in w.canonical || numbers[i] in down
  }

  lemma GapBehindHeld(numbers: seq<nat>, headers: map<nat, Header>, i: nat)
    requires numbers != [] && numbers[0] in headers
    ensures FirstGap(numbers[1..], headers, i) <==> FirstGap(numbers, headers, i + 1)
  {
    assert forall j :: 1 <= j < |numbers| ==> numbers[j] == numbers[1..][j - 1];
  }

  lemma CoversBehindHeld(w: World, numbers: seq<nat>, headers: map<nat, Header>, down: set<nat>)
    requires numbers != [] && numbers[0] in headers
    ensures Covers(w, numbers[1..], headers, down) <==> Covers(w, numbers, headers, down)
  {
    forall i: nat ensures FirstGap(numbers[1..], headers, i) <==> FirstGap(numbers, headers, i + 1) {
      GapBehindHeld(numbers, headers, i);
    }
    assert !FirstGap(numbers, headers, 0);
    if Covers(w, numbers, headers, down) {
      forall i: nat | FirstGap(numbers[1..], headers, i)
        ensures numbers[1..][i] !in w.canonical || numbers[1..][i] in down
      {
        assert FirstGap(numbers, headers, i + 1);
      }
    } else {
      var i: nat :| FirstGap(numbers, headers, i) && numbers[i] in w.canonical && numbers[i] !in down;
      assert FirstGap(numbers[1..], headers, i - 1);
    }
  }

  /** Coverage of the uncached numbers is coverage of all when the cached ones are held. */
  lemma {:induction false} CoversLift(
      w: World, numbers: seq<nat>, cached: set<nat>, headers: map<nat, Header>, down: set<nat>)
    requires Covers(w, Absent(numbers, cached), headers, down)
    requires forall n :: n in numbers && n in cached ==> n in headers
    ensures Covers(w, numbers, headers, down)
  {
    if numbers == [] {
    } else {
      var absent := Absent(numbers, cached);
      if numbers[0] in headers {
        if numbers[0] !in cached {
          CoversBehindHeld(w, absent, headers, down);
        }
        CoversLift(w, numbers[1..], cached, headers, down);
        CoversBehindHeld(w, numbers, headers, down);
      } else {
        assert FirstGap(absent, headers, 0);
      }
    }
  }

  /** Everything before a chunk held, the chunk covered, and nothing after it or a number in it not
      held: all numbers are covered. */
  lemma CoversCut(w: World, all: seq<nat>, at: nat, end: nat, headers: map<nat, Header>, down: set<nat>)
    requires at <= end <= |all|
    requires forall i :: 0 <= i < at ==> all[i] in headers
    requires Covers(w, all[at..end], headers, down)
    requires end == |all| || exists n :: n in all[at..end] && n !in headers
    ensures Covers(w, all, headers, down)
  {
    var chunk := all[at..end];
    assert forall k :: 0 <= k < |chunk| ==> chunk[k] == all[at + k];
    forall i: nat | FirstGap(all, headers, i) ensures all[i] !in w.canonical || all[i] in down {
      assert i < end;
      assert FirstGap(chunk, headers, i - at);
    }
  }

  /** One number of the scan goes to the missing ones unless it is cached. */
  lemma ScanStep(numbers: seq<nat>, i: nat, cached: set<nat>, missing: seq<nat>, all: seq<nat>)
    requires i < |numbers| && missing + Absent(numbers[i..], cached) == all
    ensures (if numbers[i] in cached then missing else missing + [numbers[i]]) + Absent(numbers[i + 1..], cached) == all
  {
    assert numbers[i..][1..] == numbers[i + 1..];
  }

  /** `headers` with the cached ones among `numbers` added. */
  ghost function Taken(c: Index, numbers: seq<nat>, headers: map<nat, Header>): map<nat, Header> {
    headers + map n | n in numbers && n in c.byNumber :: c.byNumber[n].header
  }

  ghost predicate HoldsCanonical(w: World, c: Index, n: nat)
    requires ValidWorld(w)
  {
    n in c.byNumber ==> n in w.canonical && c.byNumber[n].header == HeaderAt(w, n)
  }

  /** Headers taken from the cache are the canonical ones exactly when every requested height that is
      cached holds its canonical header. */
  lemma TakenIsCorrectIff(w: World, c: Index, numbers: seq<nat>, headers: map<nat, Header>)
    requires Correct(w, headers)
    ensures Correct(w, Taken(c, numbers, headers)) <==> forall n :: n in numbers ==> HoldsCanonical(w, c, n)
  {
    var taken := Taken(c, numbers, headers);
    if n :| n in numbers && !HoldsCanonical(w, c, n) {
      assert n in taken && taken[n] == c.byNumber[n].header;
    }
  }

  lemma TakenUnfolds(c: Index, numbers: seq<nat>, i: nat, headers: map<nat, Header>)
    requires i < |numbers|
    ensures Taken(c, numbers[..i + 1], headers) ==
      if numbers[i] in c.byNumber then Taken(c, numbers[..i], headers)[numbers[i] := c.byNumber[numbers[i]].header]
      else Taken(c, numbers[..i], headers)
  {
    assert numbers[..i + 1] == numbers[..i] + [numbers[i]];
  }

  method TakeCachedHeaders(cache: BlockCache, numbers: seq<nat>, headers: map<nat, Header>)
    returns (missing: seq<nat>, headers': map<nat, Header>)
    ensures missing == Absent(numbers, cache.byNumber.Keys)
    ensures headers' == Taken(cache.View(), numbers, headers)
  {
    missing, headers' := [], headers;
    assert Taken(cache.View(), numbers[..0], headers) == headers;
    assert numbers[0..] == numbers;
    hide Absent, Taken;
    for i := 0 to |numbers|
      invariant missing + Absent(numbers[i..], cache.byNumber.Keys) == Absent(numbers, cache.byNumber.Keys)
      invariant headers' == Taken(cache.View(), numbers[..i], headers)
    {
      ScanStep(numbers, i, cache.byNumber.Keys, missing, Absent(numbers, cache.byNumber.Keys));
      TakenUnfolds(cache.View(), numbers, i, headers);
      var cached := cache.GetByNumber(numbers[i]);
      if cached.Some? {
        headers' := headers'[numbers[i] := cached.value.header];
      } else {
        missing := missing + [numbers[i]];
      }
    }
    assert numbers[..|numbers|] == numbers && numbers[|numbers|..] == [];
    AbsentNothing(cache.byNumber.Keys);
  }

  lemma AbsentNothing(cached: set<nat>)
    ensures Absent([], cached) == []
  {
  }

  /** Headers held are those of the world seen so far, and nothing is seen that is not held. */
  ghost predicate Holding(w: World, side: set<nat>, seen: map<nat, nat>, headers: map<nat, Header>) {
    ValidWorld(w) && MayBeSeen(w, side, seen) && seen.Keys <= headers.Keys && Correct(Seeing(w, seen), headers)
  }

  /** What a look at the cache adds to the blocks seen. */
  ghost function Shown(c: Index, side: set<nat>, numbers: seq<nat>): map<nat, nat> {
    map n | n in numbers && n in c.byNumber && n in side :: c.byNumber[n].hash
  }

  lemma CachedIsGenuine(w: World, c: Index, side: set<nat>, n: nat)
    requires Faithful(w, c, side) && n in c.byNumber
    ensures var hash := c.byNumber[n].hash;
      && hash in w.blocks && c.byNumber[n].header == w.blocks[hash].header && w.blocks[hash].header.number == n
      && (n in side || (n in w.canonical && w.canonical[n] == hash))
  {
    hide Sound;
    assert Genuine(w, side, Insertion(n, c.byNumber[n].hash, c.byNumber[n].header, c.byNumber[n].body));
  }

  lemma TakenIsSeen(
      w: World, c: Index, side: set<nat>, seen: map<nat, nat>, numbers: seq<nat>, headers: map<nat, Header>, n: nat)
    requires Faithful(w, c, side) && Holding(w, side, seen, headers) && n in Taken(c, numbers, headers)
    ensures var v := Seeing(w, seen + Shown(c, side, numbers));
      n in v.canonical && v.canonical[n] in v.blocks && Taken(c, numbers, headers)[n] == HeaderAt(v, n)
  {
    var shown := Shown(c, side, numbers);
    if n in numbers && n in c.byNumber {
      CachedIsGenuine(w, c, side, n);
      hide Faithful;
      assert n in side ==> n in shown && shown[n] == c.byNumber[n].hash;
      assert n !in side ==> n !in seen && n !in shown;
      hide Shown;
    } else {
      hide Faithful;
      assert n !in shown && n in headers;
      hide Shown;
    }
  }

  lemma ShownMayBeSeen(w: World, c: Index, side: set<nat>, seen: map<nat, nat>, numbers: seq<nat>)
    requires Faithful(w, c, side) && MayBeSeen(w, side, seen)
    ensures MayBeSeen(w, side, seen + Shown(c, side, numbers))
  {
    hide Faithful;
    forall n | n in Shown(c, side, numbers)
      ensures c.byNumber[n].hash in w.blocks && w.blocks[c.byNumber[n].hash].header.number == n
    {
      CachedIsGenuine(w, c, side, n);
    }
  }

  lemma TakenIsHeld(
      w: World, c: Index, side: set<nat>, seen: map<nat, nat>, numbers: seq<nat>, headers: map<nat, Header>)
    requires Faithful(w, c, side) && Holding(w, side, seen, headers)
    ensures Holding(w, side, seen + Shown(c, side, numbers), Taken(c, numbers, headers))
  {
    var seen', taken := seen + Shown(c, side, numbers), Taken(c, numbers, headers);
    ShownMayBeSeen(w, c, side, seen, numbers);
    SeeingIsValid(w, side, seen');
    var v := Seeing(w, seen');
    assert seen'.Keys <= taken.Keys;
    hide Faithful, Taken, Shown, Seeing, ValidWorld, MayBeSeen;
    forall n | n in taken ensures n in v.canonical && v.canonical[n] in v.blocks && taken[n] == HeaderAt(v, n) {
      TakenIsSeen(w, c, side, seen, numbers, headers, n);
    }
  }

  /** Inserts the canonical block of a height as the endpoint sent it. */
  method CacheCanonical(cache: BlockCache, w: World, side: set<nat>, number: nat) returns (header: Header)
    requires ValidWorld(w) && Faithful(w, cache.View(), side) && number in w.canonical
    modifies cache
    ensures Faithful(w, cache.View(), side)
    ensures header == HeaderAt(w, number)
    ensures CachedOrTooLow(cache.View(), cache.capacity, number, w.canonical[number])
  {
    var hash := w.canonical[number];
    header := w.blocks[hash].header;
    OtherTasks(cache, w, side);
    InsertKeepsFaithful(w, cache.View(), side, Insertion(header.number, hash, header, None), cache.capacity);
    InsertedIsCachedOrTooLow(cache.View(), Insertion(header.number, hash, header, None), cache.capacity);
    cache.Upsert(header.number, hash, header, None);
  }

  /** One request for one header: `None` when there is no such block or the request fails, which it
      may for heights that are `down`. */
  method FetchHeaderByNumber(cache: BlockCache, w: World, side: set<nat>, down: set<nat>, number: nat)
    returns (r: Option<Header>)
    requires ValidWorld(w) && Faithful(w, cache.View(), side)
    modifies cache
    ensures Faithful(w, cache.View(), side)
    ensures r.None? ==> number !in w.canonical || number in down
    ensures r.Some? ==> number in w.canonical && r.value == HeaderAt(w, number)
    ensures r.Some? ==> CachedOrTooLow(cache.View(), cache.capacity, number, w.canonical[number])
  {
    var fails: bool := *;
    if (fails && number in down) || number !in w.canonical {
      return None;
    }
    var header := CacheCanonical(cache, w, side, number);
    r := Some(header);
  }

  /** A batch fails as a whole, or answers each number, possibly after a single retry. */
  method FetchHeaderBatch(cache: BlockCache, w: World, side: set<nat>, down: set<nat>, numbers: seq<nat>)
    returns (r: Option<seq<Header>>)
    requires ValidWorld(w) && Faithful(w, cache.View(), side)
    modifies cache
    ensures Faithful(w, cache.View(), side)
    ensures r.Some? ==> FetchedPrefix(w, numbers, r.value, down)
  {
    var sent: bool := *;
    if !sent {
      return None;
    }
    var headers: seq<Header> := [];
    for i := 0 to |numbers|
      invariant Faithful(w, cache.View(), side)
      invariant |headers| == i
      invariant forall j :: 0 <= j < i ==> numbers[j] in w.canonical && headers[j] == HeaderAt(w, numbers[j])
    {
      var answered: bool := *;
      if answered {
        if numbers[i] !in w.canonical {
          break;
        }
        var header := CacheCanonical(cache, w, side, numbers[i]);
        headers := headers + [header];
      } else {
        var one := FetchHeaderByNumber(cache, w, side, down, numbers[i]);
        if one.None? {
          break;
        }
        headers := headers + [one.value];
      }
    }
    r := Some(headers);
  }

  /** One by one, up to the first header that is unavailable or fails. */
  method FetchSingly(cache: BlockCache, w: World, side: set<nat>, down: set<nat>, numbers: seq<nat>)
    returns (headers: seq<Header>)
    requires ValidWorld(w) && Faithful(w, cache.View(), side)
    modifies cache
    ensures Faithful(w, cache.View(), side)
    ensures FetchedPrefix(w, numbers, headers, down)
  {
    headers := [];
    for i := 0 to |numbers|
      invariant Faithful(w, cache.View(), side)
      invariant |headers| == i
      invariant forall j :: 0 <= j < i ==> numbers[j] in w.canonical && headers[j] == HeaderAt(w, numbers[j])
    {
      var one := FetchHeaderByNumber(cache, w, side, down, numbers[i]);
      if one.None? {
        break;
      }
      headers := headers + [one.value];
    }
  }

  lemma FetchedIsCorrect(
      w: World, numbers: seq<nat>, fetched: seq<Header>, down: set<nat>, headers: map<nat, Header>, i: nat)
    requires FetchedPrefix(w, numbers, fetched, down) && Correct(w, headers) && i < |fetched|
    ensures fetched[i].number == numbers[i]
    ensures Correct(w, headers[numbers[i] := fetched[i]])
  {
  }

  /** Numbers that were not read from the cache are fetched alike in the world seen. */
  lemma FetchedUnseen(
      w: World, side: set<nat>, seen: map<nat, nat>, numbers: seq<nat>, fetched: seq<Header>, down: set<nat>)
    requires FetchedPrefix(w, numbers, fetched, down) && MayBeSeen(w, side, seen)
    requires forall n :: n in numbers ==> n !in seen
    ensures FetchedPrefix(Seeing(w, seen), numbers, fetched, down)
  {
    SeeingIsValid(w, side, seen);
  }

  /** Exactly the first `i` numbers have been added, each a new key. */
  ghost predicate Extended(base: map<nat, Header>, numbers: seq<nat>, i: nat, headers: map<nat, Header>) {
    && i <= |numbers|
    && (forall n :: n in base ==> n in headers)
    && (forall n :: n in headers ==> n in base || n in numbers)
    && (forall j :: 0 <= j < i ==> numbers[j] in headers)
    && (forall j :: i <= j < |numbers| ==> numbers[j] !in headers)
    && |headers.Keys| == |base.Keys| + i
  }

  lemma ExtendedStep(base: map<nat, Header>, numbers: seq<nat>, i: nat, headers: map<nat, Header>, header: Header)
    requires Distinct(numbers) && i < |numbers| && Extended(base, numbers, i, headers)
    ensures Extended(base, numbers, i + 1, headers[numbers[i] := header])
  {
    NewKeyCounts(headers, numbers[i], header);
    assert forall j :: i < j < |numbers| ==> numbers[j] != numbers[i];
    hide Distinct;
  }

  lemma NewKeyCounts(headers: map<nat, Header>, n: nat, header: Header)
    requires n !in headers
    ensures |headers[n := header].Keys| == |headers.Keys| + 1
  {
  }

  method Extend(
      ghost w: World, numbers: seq<nat>, fetched: seq<Header>, ghost down: set<nat>, headers: map<nat, Header>)
    returns (headers': map<nat, Header>)
    requires FetchedPrefix(w, numbers, fetched, down) && Correct(w, headers)
    requires Distinct(numbers) && forall n :: n in numbers ==> n !in headers
    ensures Correct(w, headers') && Covers(w, numbers, headers', down)
    ensures Extended(headers, numbers, |fetched|, headers')
  {
    assert |fetched| <= |numbers|;
    headers' := headers;
    assert Extended(headers, numbers, 0, headers');
    hide Covers, Correct, ValidWorld, FetchedPrefix, Extended, Distinct;
    for i := 0 to |fetched|
      invariant Correct(w, headers')
      invariant Extended(headers, numbers, i, headers')
    {
      FetchedIsCorrect(w, numbers, fetched, down, headers', i);
      ExtendedStep(headers, numbers, i, headers', fetched[i]);
      headers' := headers'[fetched[i].number := fetched[i]];
    }
    ExtendedCovers(w, numbers, fetched, down, headers, headers');
  }

  lemma ExtendedCovers(
      w: World, numbers: seq<nat>, fetched: seq<Header>, down: set<nat>,
      base: map<nat, Header>, headers: map<nat, Header>)
    requires FetchedPrefix(w, numbers, fetched, down) && Extended(base, numbers, |fetched|, headers)
    ensures Covers(w, numbers, headers, down)
  {
    forall i: nat | FirstGap(numbers, headers, i) ensures i == |fetched| {
    }
  }

  /** Fetches what the cache does not have; `cut` when the fetch fell short. */
  method FetchUncached(
      cache: BlockCache, w: World, side: set<nat>, down: set<nat>, ghost seen: map<nat, nat>,
      missing: seq<nat>, held: map<nat, Header>)
    returns (cut: bool, headers: map<nat, Header>)
    requires Faithful(w, cache.View(), side) && Holding(w, side, seen, held)
    requires Distinct(missing) && forall n :: n in missing ==> n !in held
    modifies cache
    ensures Faithful(w, cache.View(), side) && Holding(w, side, seen, headers)
    ensures held.Keys <= headers.Keys && forall n :: n in headers ==> n in held || n in missing
    ensures Covers(Seeing(w, seen), missing, headers, down)
    ensures cut <==> exists n :: n in missing && n !in headers
  {
    assert ValidWorld(w) && MayBeSeen(w, side, seen) && Correct(Seeing(w, seen), held);
    hide Covers, Correct, Faithful, ValidWorld, MayBeSeen, Seeing;
    var fetched;
    var batch := FetchHeaderBatch(cache, w, side, down, missing);
    if batch.Some? {
      fetched := batch.value;
    } else {
      fetched := FetchSingly(cache, w, side, down, missing);
    }
    FetchedUnseen(w, side, seen, missing, fetched, down);
    headers := Extend(Seeing(w, seen), missing, fetched, down, held);
    cut := |headers.Keys| - |held.Keys| < |missing|;
    if cut {
      assert missing[|fetched|] in missing;
    }
  }

  /** One chunk: read the cache again, fetch what is still missing. */
  method FetchChunk(
      cache: BlockCache, w: World, side: set<nat>, down: set<nat>, ghost seen: map<nat, nat>,
      chunk: seq<nat>, headers: map<nat, Header>)
    returns (cut: bool, headers': map<nat, Header>, ghost seen': map<nat, nat>)
    requires Faithful(w, cache.View(), side) && Holding(w, side, seen, headers)
    requires Distinct(chunk) && forall n :: n in chunk ==> n !in headers
    modifies cache
    ensures Faithful(w, cache.View(), side) && Holding(w, side, seen', headers')
    ensures headers.Keys <= headers'.Keys && forall n :: n in headers' ==> n in headers || n in chunk
    ensures Covers(Seeing(w, seen'), chunk, headers', down)
    ensures cut <==> exists n :: n in chunk && n !in headers'
  {
    hide Covers, Holding, Faithful, Absent, Seeing;
    OtherTasks(cache, w, side);
    ghost var cached := cache.byNumber.Keys;
    var missing, held := TakeCachedHeaders(cache, chunk, headers);
    seen' := seen + Shown(cache.View(), side, chunk);
    TakenIsHeld(w, cache.View(), side, seen, chunk, headers);
    AbsentElements(chunk, cached);
    if missing == [] {
      CoversNothing(Seeing(w, seen'), held, down);
      CoversLift(Seeing(w, seen'), chunk, cached, held, down);
      return false, held, seen';
    }
    cut, headers' := FetchUncached(cache, w, side, down, seen', missing, held);
    CoversLift(Seeing(w, seen'), chunk, cached, headers', down);
  }

  /** Headers for `numbers` up to the first one that is unavailable in the world seen or `down`,
      whatever the cache held, lost or gained meanwhile. */
  method FetchHeaders(cache: BlockCache, w: World, side: set<nat>, down: set<nat>, numbers: seq<nat>)
    returns (headers: map<nat, Header>, ghost seen: map<nat, nat>)
    requires ValidWorld(w) && Faithful(w, cache.View(), side) && Distinct(numbers)
    modifies cache
    ensures Faithful(w, cache.View(), side) && Holding(w, side, seen, headers)
    ensures forall n :: n in headers ==> n in numbers
    ensures Covers(Seeing(w, seen), numbers, headers, down)
  {
    assert Holding(w, side, map[], map[]) by { NothingHeld(w, side); }
    hide Covers, Holding, Faithful, Absent, Seeing;
    OtherTasks(cache, w, side);
    ghost var cached := cache.byNumber.Keys;
    var missing, held := TakeCachedHeaders(cache, numbers, map[]);
    TakenIsHeld(w, cache.View(), side, map[], numbers, map[]);
    AbsentElements(numbers, cached);
    headers, seen := FetchMissing(cache, w, side, down, map[] + Shown(cache.View(), side, numbers), missing, held);
    CoversLift(Seeing(w, seen), numbers, cached, headers, down);
  }

  lemma NothingHeld(w: World, side: set<nat>)
    requires ValidWorld(w)
    ensures Holding(w, side, map[], map[])
  {
    SeeingIsValid(w, side, map[]);
  }

  method FetchMissing(
      cache: BlockCache, w: World, side: set<nat>, down: set<nat>, ghost shown: map<nat, nat>,
      missing: seq<nat>, held: map<nat, Header>)
    returns (headers: map<nat, Header>, ghost seen: map<nat, nat>)
    requires Faithful(w, cache.View(), side) && Holding(w, side, shown, held)
    requires Distinct(missing) && forall n :: n in missing ==> n !in held
    modifies cache
    ensures Faithful(w, cache.View(), side) && Holding(w, side, seen, headers)
    ensures held.Keys <= headers.Keys && forall n :: n in headers ==> n in held || n in missing
    ensures Covers(Seeing(w, seen), missing, headers, down)
  {
    hide Covers, Holding, Faithful, Seeing;
    headers, seen := held, shown;
    var at := 0;
    while at < |missing|
      invariant at <= |missing|
      invariant Faithful(w, cache.View(), side) && Holding(w, side, seen, headers)
      invariant held.Keys <= headers.Keys && forall n :: n in headers ==> n in held || n in missing
      invariant forall i :: 0 <= i < at ==> missing[i] in headers
      invariant forall i :: at <= i < |missing| ==> missing[i] !in headers
    {
      var end := if |missing| - at < HEADER_RPC_BATCH_SIZE then |missing| else at + HEADER_RPC_BATCH_SIZE;
      var cut;
      cut, headers, seen := FetchChunk(cache, w, side, down, seen, missing[at..end], headers);
      if cut {
        CoversCut(Seeing(w, seen), missing, at, end, headers, down);
        return;
      }
      assert forall i :: at <= i < end ==> missing[at..end][i - at] == missing[i];
      at := end;
    }
    CoversNothing(Seeing(w, seen), headers, down);
    assert missing[at..at] == [];
    CoversCut(Seeing(w, seen), missing, at, at, headers, down);
  }

  lemma CoversNothing(w: World, headers: map<nat, Header>, down: set<nat>)
    ensures Covers(w, [], headers, down)
  {
  }

  // ---------------------------------------------------------------- the whole request

  method ResolveStartBlock(cache: BlockCache, w: World, side: set<nat>, outage: Outage, start: Start)
    returns (r: Option<(nat, Option<Header>)>)
    requires ValidWorld(w) && Faithful(w, cache.View(), side)
    requires start.ByHash? && start.hash in w.blocks ==>
      var h := w.blocks[start.hash].header; Genuine(w, side, Insertion(h.number, start.hash, h, None))
    modifies cache
    ensures Faithful(w, cache.View(), side)
    ensures r == StartOf(w, start) || (r.None? && start.ByHash? && start.hash in outage.hashes)
    ensures r.Some? && start.ByHash? ==> CachedOrTooLow(cache.View(), cache.capacity, r.value.0, start.hash)
  {
    match start
    case ByNumber(n) => r := Some((n, None));
    case ByHash(h) =>
      OtherTasks(cache, w, side);
      var cached := cache.GetByHash(h);
      if cached.None? {
        // Waiting for an RPC permit: look again before fetching.
        OtherTasks(cache, w, side);
        cached := cache.GetByHash(h);
      }
      if cached.Some? {
        var header := cached.value.header;
        return Some((header.number, Some(header)));
      }
      var fails: bool := *;
      if (fails && h in outage.hashes) || h !in w.blocks {
        return None;
      }
      var header := w.blocks[h].header;
      OtherTasks(cache, w, side);
      InsertKeepsFaithful(w, cache.View(), side, Insertion(header.number, h, header, None), cache.capacity);
      InsertedIsCachedOrTooLow(cache.View(), Insertion(header.number, h, header, None), cache.capacity);
      cache.Upsert(header.number, h, header, None);
      r := Some((header.number, Some(header)));
  }

  /** The header after the first `served` ones, or the start block, is one whose request may fail. */
  ghost predicate StoppedByOutage(w: World, outage: Outage, request: Request, served: nat) {
    match StartOf(w, request.start)
    case None => false
    case Some((n, named)) =>
      || (served == 0 && named.Some? && request.start.hash in outage.hashes)
      || (served < |Requested(n, request)| && Requested(n, request)[served] in outage.heights)
  }

  /** The response, in terms of what the request saw: the cacheless answer in that world, or a prefix
      of it that stops where a request may fail.  Only `side` heights that are read through the cache
      are seen otherwise than they are. */
  ghost predicate Responds(
      w: World, side: set<nat>, outage: Outage, request: Request, seen: map<nat, nat>, headers: seq<Header>) {
    && MayBeSeen(w, side, seen) && (forall n :: n in seen ==> n in ReadThroughCache(w, request))
    && ValidWorld(Seeing(w, seen))
    && headers <= Answer(Seeing(w, seen), request)
    && (headers == Answer(Seeing(w, seen), request) || StoppedByOutage(w, outage, request, |headers|))
  }

  method ServeFrom(
      cache: BlockCache, w: World, side: set<nat>, outage: Outage, request: Request, number: nat, named: Option<Header>)
    returns (headers: seq<Header>, ghost seen: map<nat, nat>)
    requires ValidWorld(w) && Faithful(w, cache.View(), side)
    requires StartOf(w, request.start) == Some((number, named))
    modifies cache
    ensures Faithful(w, cache.View(), side) && Responds(w, side, outage, request, seen, headers)
  {
    var numbers := RequestedHeaderNumbers(number, request);
    ProgressionIsArithmetic(number, request.skip + 1, request.rising, Cap(request.limit));
    var from := if named.Some? && |numbers| > 0 then 1 else 0;
    assert ReadThroughCache(w, request) == numbers[from..];
    hide Covers, Faithful, Answer, StartOf, ReadThroughCache, StoppedByOutage;
    hide Requested, HeldPrefix, ValidWorld, Seeing;
    var available;
    available, seen := FetchHeaders(cache, w, side, outage.heights, numbers[from..]);
    SameRequest(w, seen, outage, request);
    ghost var held := available;
    if named.Some? {
      available := available[number := named.value];
    }
    headers := ServeInOrder(numbers, available);
    ServedIsAnswer(Seeing(w, seen), outage, request, number, named, held);
  }

  /** Holds for every world, capacity, faithful cache content, interference and outage. */
  method ResolveHeaders(cache: BlockCache, w: World, side: set<nat>, outage: Outage, request: Request)
    returns (headers: seq<Header>, ghost seen: map<nat, nat>)
    requires ValidWorld(w) && Faithful(w, cache.View(), side)
    requires request.start.ByHash? && request.start.hash in w.blocks ==>
      var h := w.blocks[request.start.hash].header; Genuine(w, side, Insertion(h.number, request.start.hash, h, None))
    modifies cache
    ensures Faithful(w, cache.View(), side) && Responds(w, side, outage, request, seen, headers)
  {
    var start := ResolveStartBlock(cache, w, side, outage, request.start);
    if start.None? {
      seen := map[];
      SeeingIsValid(w, side, seen);
      return [], seen;
    }
    headers, seen := ServeFrom(cache, w, side, outage, request, start.value.0, start.value.1);
  }

  /** A request that reads no `side` height and meets no outage gets the cacheless answer. */
  lemma UndisturbedResponse(
      w: World, side: set<nat>, outage: Outage, request: Request, seen: map<nat, nat>, headers: seq<Header>)
    requires ValidWorld(w) && Responds(w, side, outage, request, seen, headers)
    requires forall n :: n in ReadThroughCache(w, request) ==> n !in side
    ensures headers <= Answer(w, request)
    ensures headers == Answer(w, request) || StoppedByOutage(w, outage, request, |headers|)
    ensures outage.heights == {} && outage.hashes == {} ==> headers == Answer(w, request)
  {
    assert outage.heights == {} && outage.hashes == {} ==> !StoppedByOutage(w, outage, request, |headers|);
    assert seen == map[];
    assert Seeing(w, seen) == w;
    hide Answer, StoppedByOutage;
  }

  /** What is seen moves neither the start nor the heights read. */
  lemma SameRequest(w: World, seen: map<nat, nat>, outage: Outage, request: Request)
    ensures StartOf(Seeing(w, seen), request.start) == StartOf(w, request.start)
    ensures ReadThroughCache(Seeing(w, seen), request) == ReadThroughCache(w, request)
    ensures forall n :: StoppedByOutage(Seeing(w, seen), outage, request, n) <==> StoppedByOutage(w, outage, request, n)
  {
  }

  lemma ServedNamed(numbers: seq<nat>, n: nat, named: Header, held: map<nat, Header>)
    requires numbers != [] && numbers[0] == n && Distinct(numbers)
    ensures HeldPrefix(numbers, held[n := named]) == [named] + HeldPrefix(numbers[1..], held)
  {
    HeldPrefixDependsOnNumbers(numbers[1..], held, held[n := named]);
  }

  lemma ServedUnnamed(w: World, outage: Outage, request: Request, n: nat, held: map<nat, Header>)
    requires Correct(w, held) && StartOf(w, request.start) == Some((n, None))
    requires Covers(w, ReadThroughCache(w, request), held, outage.heights)
    ensures var served := HeldPrefix(Requested(n, request), held);
      served <= Answer(w, request) && (served == Answer(w, request) || StoppedByOutage(w, outage, request, |served|))
  {
    HeldPrefixIsAvailable(w, ReadThroughCache(w, request), held, outage.heights);
    hide Covers, Correct, AvailablePrefix, Requested, HeldPrefix;
  }

  lemma NamedRequest(w: World, request: Request, n: nat, named: Header)
    requires ValidWorld(w) && StartOf(w, request.start) == Some((n, Some(named))) && Requested(n, request) != []
    ensures Answer(w, request) == [named] + AvailablePrefix(w, Requested(n, request)[1..])
    ensures ReadThroughCache(w, request) == Requested(n, request)[1..]
    ensures Requested(n, request)[0] == n && Distinct(Requested(n, request))
  {
    ProgressionIsArithmetic(n, request.skip + 1, request.rising, Cap(request.limit));
    AtStart(n, request.skip + 1, request.rising);
    hide At, Progression, AvailablePrefix;
  }

  lemma StoppedBehindNamed(w: World, outage: Outage, request: Request, n: nat, named: Header, k: nat)
    requires StartOf(w, request.start) == Some((n, Some(named))) && k + 1 < |Requested(n, request)|
    requires Requested(n, request)[1..][k] in outage.heights
    ensures StoppedByOutage(w, outage, request, k + 1)
  {
    hide Requested;
  }

  lemma ServedBehindNamed(
      w: World, outage: Outage, request: Request, n: nat, named: Header, held: map<nat, Header>)
    requires Correct(w, held) && StartOf(w, request.start) == Some((n, Some(named)))
    requires Covers(w, ReadThroughCache(w, request), held, outage.heights)
    ensures var served := HeldPrefix(Requested(n, request), held[n := named]);
      served <= Answer(w, request) && (served == Answer(w, request) || StoppedByOutage(w, outage, request, |served|))
  {
    var numbers := Requested(n, request);
    if numbers == [] {
    } else {
      hide Covers, AvailablePrefix, Requested, HeldPrefix, Answer, StartOf, ReadThroughCache, StoppedByOutage;
      NamedRequest(w, request, n, named);
      ServedNamed(numbers, n, named, held);
      HeldPrefixIsAvailable(w, numbers[1..], held, outage.heights);
      var served, available := HeldPrefix(numbers[1..], held), AvailablePrefix(w, numbers[1..]);
      assert [named] + served <= [named] + available;
      if served != available {
        StoppedBehindNamed(w, outage, request, n, named, |served|);
      }
    }
  }

  /** Serving the headers held in request order gives a prefix of the answer, and all of it unless
      the next one is down. */
  lemma ServedIsAnswer(
      w: World, outage: Outage, request: Request, n: nat, named: Option<Header>, held: map<nat, Header>)
    requires Correct(w, held) && StartOf(w, request.start) == Some((n, named))
    requires Covers(w, ReadThroughCache(w, request), held, outage.heights)
    ensures var served := HeldPrefix(Requested(n, request), if named.Some? then held[n := named.value] else held);
      served <= Answer(w, request) && (served == Answer(w, request) || StoppedByOutage(w, outage, request, |served|))
  {
    hide Covers, Correct, Answer, ReadThroughCache, StoppedByOutage, Requested, HeldPrefix;
    if named.Some? {
      ServedBehindNamed(w, outage, request, n, named.value, held);
    } else {
      ServedUnnamed(w, outage, request, n, held);
    }
  }

  /** The cache that holds the block of the other branch and nothing else. */
  const SIDE_CACHE := Index(map[5 := CachedBlock(Header(5, 1), None, 2)], map[2 := 5])

  /** That block, once asked for by hash, sits in the cache ... */
  lemma SideBlockIsCached()
    ensures var op := Insertion(5, 2, Header(5, 1), None);
      Genuine(TWO_BRANCHES, {5}, op) && Evicted(Upserted(Index(map[], map[]), op), 10) == SIDE_CACHE
  {
    var u := Upserted(Index(map[], map[]), Insertion(5, 2, Header(5, 1), None));
    assert u.byNumber.Keys == {5};
    assert Evicted(u, 10) == u;
  }

  /** ... which is then not canonical, and the block is taken for its height, where a proxy without a
      cache sends the other header. */
  lemma SideBlockIsTaken()
    ensures Faithful(TWO_BRANCHES, SIDE_CACHE, {5}) && !Faithful(TWO_BRANCHES, SIDE_CACHE, {})
    ensures Shown(SIDE_CACHE, {5}, [5]) == map[5 := 2] && Taken(SIDE_CACHE, [5], map[]) == map[5 := Header(5, 1)]
  {
    SideEntryIsNotFaithful(TWO_BRANCHES, SIDE_CACHE, Insertion(5, 2, Header(5, 1), None));
  }

  /** The longest prefix whose headers are all held. */
  ghost function HeldPrefix(numbers: seq<nat>, held: map<nat, Header>): seq<Header> {
    if numbers == [] || numbers[0] !in held then []
    else [held[numbers[0]]] + HeldPrefix(numbers[1..], held)
  }

  lemma {:induction false} HeldPrefixDependsOnNumbers(numbers: seq<nat>, a: map<nat, Header>, b: map<nat, Header>)
    requires forall n :: n in numbers ==> (n in a <==> n in b) && (n in a ==> a[n] == b[n])
    ensures HeldPrefix(numbers, a) == HeldPrefix(numbers, b)
  {
    if numbers == [] {
    } else {
      HeldPrefixDependsOnNumbers(numbers[1..], a, b);
    }
  }

  lemma {:induction false} HeldPrefixIsAvailable(
      w: World, numbers: seq<nat>, held: map<nat, Header>, down: set<nat>)
    requires Correct(w, held) && Covers(w, numbers, held, down)
    ensures var served, available := HeldPrefix(numbers, held), AvailablePrefix(w, numbers);
      && served <= available
      && (served == available || (|served| < |numbers| && numbers[|served|] in down))
  {
    if numbers == [] {
    } else if numbers[0] in held {
      CoversBehindHeld(w, numbers, held, down);
      HeldPrefixIsAvailable(w, numbers[1..], held, down);
    } else {
      assert FirstGap(numbers, held, 0);
    }
  }

  /** Takes the headers out in request order, up to the first one that is not held. */
  method ServeInOrder(numbers: seq<nat>, held: map<nat, Header>) returns (headers: seq<Header>)
    requires Distinct(numbers)
    ensures headers == HeldPrefix(numbers, held)
  {
    var available := held;
    headers := [];
    assert numbers[0..] == numbers;
    for i := 0 to |numbers|
      invariant headers + HeldPrefix(numbers[i..], available) == HeldPrefix(numbers, held)
    {
      assert numbers[i..][1..] == numbers[i + 1..];
      if numbers[i] !in available {
        break;
      }
      HeldPrefixDependsOnNumbers(numbers[i + 1..], available, available - {numbers[i]});
      headers := headers + [available[numbers[i]]];
      available := available - {numbers[i]};
    }
  }
}
