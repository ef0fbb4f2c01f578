/** What a header request asks for and what a proxy without a cache answers, independent of how the
    answer is put together. */
module HeaderAnswers {
  import opened Common
  import opened ProxyCache

  const MAX_HEADERS_SERVE: nat := 1024

  datatype Block = Block(header: Header, body: Body)

  /** What the RPC endpoint knows: blocks by hash, some of them canonical at their height. */
  datatype World = World(blocks: map<nat, Block>, canonical: map<nat, nat>)

  /** Heights and hashes for which a request of their own may fail in transit. */
  datatype Outage = Outage(heights: set<nat>, hashes: set<nat>)

  ghost predicate ValidWorld(w: World) {
    forall n :: n in w.canonical ==> w.canonical[n] in w.blocks && w.blocks[w.canonical[n]].header.number == n
  }

  function HeaderAt(w: World, n: nat): Header
    requires n in w.canonical && w.canonical[n] in w.blocks
  {
    w.blocks[w.canonical[n]].header
  }

  // ---------------------------------------------------------------- the requested heights

  datatype Start = ByNumber(number: nat) | ByHash(hash: nat)
  datatype Request = Request(start: Start, limit: nat, skip: nat, rising: bool)

  /** The next height, unless it leaves the u64 range. */
  function Next(n: nat, step: nat, rising: bool): Option<nat> {
    if rising then (if n + step <= U64_MAX then Some(n + step) else None)
    else (if step <= n then Some(n - step) else None)
  }

  ghost function Progression(n: nat, step: nat, rising: bool, limit: nat): seq<nat>
    decreases limit
  {
    if limit == 0 then []
    else
      var next := Next(n, step, rising);
      [n] + if next.None? then [] else Progression(next.value, step, rising, limit - 1)
  }

  ghost function At(n: nat, step: nat, rising: bool, i: nat): int {
    if rising then n + i * step else n - i * step
  }

  function Cap(limit: nat): nat {
    if limit < MAX_HEADERS_SERVE then limit else MAX_HEADERS_SERVE
  }

  ghost function Requested(n: nat, request: Request): seq<nat> {
    Progression(n, request.skip + 1, request.rising, Cap(request.limit))
  }

  ghost predicate Distinct(numbers: seq<nat>) {
    forall i, j :: 0 <= i < j < |numbers| ==> numbers[i] != numbers[j]
  }

  lemma AtStep(n: nat, step: nat, rising: bool, i: nat)
    requires Next(n, step, rising).Some?
    ensures At(Next(n, step, rising).value, step, rising, i) == At(n, step, rising, i + 1)
  {
  }

  lemma AtIsInjective(n: nat, step: nat, rising: bool, i: nat, j: nat)
    requires step > 0 && i < j
    ensures At(n, step, rising, i) != At(n, step, rising, j)
  {
  }

  lemma AtStart(n: nat, step: nat, rising: bool)
    ensures At(n, step, rising, 0) == n
    ensures At(n, step, rising, 1) == if rising then n + step else n - step
  {
  }

  /** Height i is start ± i * step, and the list ends only at the limit or at the edge of the u64
      range. */
  ghost predicate Arithmetic(ns: seq<nat>, n: nat, step: nat, rising: bool, limit: nat) {
    && |ns| <= limit && (limit > 0 ==> |ns| > 0)
    && (forall i :: 0 <= i < |ns| ==> ns[i] == At(n, step, rising, i))
    && (|ns| < limit ==> if rising then At(n, step, rising, |ns|) > U64_MAX else At(n, step, rising, |ns|) < 0)
  }

  lemma ArithmeticStep(rest: seq<nat>, n: nat, next: nat, step: nat, rising: bool, limit: nat)
    requires limit > 0 && Next(n, step, rising) == Some(next) && Arithmetic(rest, next, step, rising, limit - 1)
    ensures Arithmetic([n] + rest, n, step, rising, limit)
  {
    hide At, Next;
    var ns := [n] + rest;
    AtStart(n, step, rising);
    AtStep(n, step, rising, |rest|);
    forall i | 1 <= i < |ns| ensures ns[i] == At(n, step, rising, i) {
      AtStep(n, step, rising, i - 1);
    }
  }

  lemma ArithmeticIsDistinct(ns: seq<nat>, n: nat, step: nat, rising: bool, limit: nat)
    requires step > 0 && Arithmetic(ns, n, step, rising, limit)
    ensures Distinct(ns)
  {
    hide At;
    forall i, j | 0 <= i < j < |ns| ensures ns[i] != ns[j] {
      AtIsInjective(n, step, rising, i, j);
    }
  }

  /** The requested heights are that progression, and distinct. */
  lemma {:induction false} ProgressionIsArithmetic(n: nat, step: nat, rising: bool, limit: nat)
    requires step > 0
    ensures Arithmetic(Progression(n, step, rising, limit), n, step, rising, limit)
    ensures Distinct(Progression(n, step, rising, limit))
    decreases limit
  {
    if limit == 0 {
    } else {
      var next := Next(n, step, rising);
      AtStart(n, step, rising);
      if next.Some? {
        ProgressionIsArithmetic(next.value, step, rising, limit - 1);
        ArithmeticStep(Progression(next.value, step, rising, limit - 1), n, next.value, step, rising, limit);
      }
      hide At;
      ArithmeticIsDistinct(Progression(n, step, rising, limit), n, step, rising, limit);
    }
  }

  /** The heights a request lists: start, start ± step, start ± 2 * step, ..., as many as it asks for
      but at most 1024, and fewer only at the edge of the u64 range. */
  ghost predicate ListsRequest(n: nat, request: Request, numbers: seq<nat>) {
    var step := request.skip + 1;
    && |numbers| <= request.limit && |numbers| <= 1024
    && (forall i :: 0 <= i < |numbers| ==> numbers[i] == if request.rising then n + i * step else n - i * step)
    && (|numbers| < request.limit && |numbers| < 1024 ==>
          if request.rising then n + |numbers| * step > 0xFFFF_FFFF_FFFF_FFFF else n - |numbers| * step < 0)
  }

  lemma RequestedIsListed(n: nat, request: Request)
    ensures ListsRequest(n, request, Requested(n, request))
  {
    ProgressionIsArithmetic(n, request.skip + 1, request.rising, Cap(request.limit));
    hide Progression;
  }

  lemma ProgressionUnfolds(n: nat, step: nat, rising: bool, limit: nat)
    ensures var next := Next(n, step, rising);
      Progression(n, step, rising, limit) ==
        if limit == 0 then []
        else if next.None? then [n]
        else [n] + Progression(next.value, step, rising, limit - 1)
  {
  }

  // ---------------------------------------------------------------- the cacheless answer

  ghost function StartOf(w: World, start: Start): Option<(nat, Option<Header>)> {
    match start
    case ByNumber(n) => Some((n, None))
    case ByHash(h) =>
      if h in w.blocks then Some((w.blocks[h].header.number, Some(w.blocks[h].header))) else None
  }

  ghost function AvailablePrefix(w: World, numbers: seq<nat>): seq<Header>
    requires ValidWorld(w)
  {
    if numbers == [] || numbers[0] !in w.canonical then []
    else [HeaderAt(w, numbers[0])] + AvailablePrefix(w, numbers[1..])
  }

  /** The answer of a proxy without a cache. */
  ghost function Answer(w: World, request: Request): seq<Header>
    requires ValidWorld(w)
  {
    match StartOf(w, request.start)
    case None => []
    case Some((n, named)) =>
      var numbers := Requested(n, request);
      if named.Some? && numbers != [] then [named.value] + AvailablePrefix(w, numbers[1..])
      else AvailablePrefix(w, numbers)
  }

  /** Headers of the numbers in order; short only before an unavailable number or one that is `down`. */
  ghost predicate FetchedPrefix(w: World, numbers: seq<nat>, headers: seq<Header>, down: set<nat>) {
    && ValidWorld(w)
    && |headers| <= |numbers|
    && (forall i :: 0 <= i < |headers| ==> numbers[i] in w.canonical && headers[i] == HeaderAt(w, numbers[i]))
    && (|headers| < |numbers| ==> numbers[|headers|] !in w.canonical || numbers[|headers|] in down)
  }

  lemma {:induction false} AvailablePrefixIsLongest(w: World, numbers: seq<nat>)
    requires ValidWorld(w)
    ensures FetchedPrefix(w, numbers, AvailablePrefix(w, numbers), {})
  {
    if numbers != [] && numbers[0] in w.canonical {
      AvailablePrefixIsLongest(w, numbers[1..]);
    }
  }

  /** From the start header if one is named, the headers at start, start ± step, start ± 2 * step, ...
      of the canonical chain: at most 1024 of them, and fewer than asked for only when the next height
      is unavailable or outside the u64 range. */
  ghost predicate IsLongestPrefix(
      w: World, n: nat, named: Option<Header>, request: Request, answer: seq<Header>)
    requires ValidWorld(w)
  {
    var step := request.skip + 1;
    && |answer| <= request.limit && |answer| <= 1024
    && (named.Some? && request.limit > 0 ==> |answer| > 0 && answer[0] == named.value)
    && (forall i :: (if named.Some? then 1 else 0) <= i < |answer| ==>
          var m := At(n, step, request.rising, i); m >= 0 && m in w.canonical && answer[i] == HeaderAt(w, m))
    && (|answer| < request.limit && |answer| < 1024 ==>
          var m := At(n, step, request.rising, |answer|); m < 0 || m > U64_MAX || m !in w.canonical)
  }

  lemma UnnamedIsLongestPrefix(w: World, n: nat, request: Request)
    requires ValidWorld(w)
    ensures IsLongestPrefix(w, n, None, request, AvailablePrefix(w, Requested(n, request)))
  {
    ProgressionIsArithmetic(n, request.skip + 1, request.rising, Cap(request.limit));
    AvailablePrefixIsLongest(w, Requested(n, request));
    hide At, AvailablePrefix, Progression;
  }

  lemma FetchedBehindFirst(w: World, numbers: seq<nat>, rest: seq<Header>)
    requires numbers != [] && FetchedPrefix(w, numbers[1..], rest, {})
    ensures ValidWorld(w) && |rest| < |numbers|
    ensures forall i :: 1 <= i <= |rest| ==> numbers[i] in w.canonical && rest[i - 1] == HeaderAt(w, numbers[i])
    ensures |rest| + 1 < |numbers| ==> numbers[|rest| + 1] !in w.canonical
  {
    assert forall i :: 1 <= i < |numbers| ==> numbers[1..][i - 1] == numbers[i];
  }

  lemma NamedIsLongestPrefix(w: World, n: nat, named: Header, request: Request)
    requires ValidWorld(w) && Requested(n, request) != []
    ensures IsLongestPrefix(
      w, n, Some(named), request, [named] + AvailablePrefix(w, Requested(n, request)[1..]))
  {
    var numbers := Requested(n, request);
    var rest := AvailablePrefix(w, numbers[1..]);
    ProgressionIsArithmetic(n, request.skip + 1, request.rising, Cap(request.limit));
    AvailablePrefixIsLongest(w, numbers[1..]);
    hide At, AvailablePrefix, Progression, FetchedPrefix, Distinct;
    FetchedBehindFirst(w, numbers, rest);
  }

  /** The answer to a request by number or by a known hash; an unknown hash gets none. */
  lemma AnswerIsLongestPrefix(w: World, request: Request)
    requires ValidWorld(w)
    ensures match request.start
      case ByNumber(n) => IsLongestPrefix(w, n, None, request, Answer(w, request))
      case ByHash(h) =>
        if h in w.blocks
        then IsLongestPrefix(w, w.blocks[h].header.number, Some(w.blocks[h].header), request, Answer(w, request))
        else Answer(w, request) == []
  {
    if StartOf(w, request.start).Some? {
      var (n, named) := StartOf(w, request.start).value;
      ProgressionIsArithmetic(n, request.skip + 1, request.rising, Cap(request.limit));
      UnnamedIsLongestPrefix(w, n, request);
      if named.Some? && Requested(n, request) != [] {
        NamedIsLongestPrefix(w, n, named.value, request);
      }
      hide At, AvailablePrefix, Progression;
    }
  }

  /** The heights a request reads through the cache. */
  ghost function ReadThroughCache(w: World, request: Request): seq<nat> {
    match StartOf(w, request.start)
    case None => []
    case Some((n, named)) =>
      var numbers := Requested(n, request);
      if named.Some? && numbers != [] then numbers[1..] else numbers
  }

  lemma ReadHeightsAreDistinct(w: World, request: Request)
    ensures Distinct(ReadThroughCache(w, request))
  {
    if StartOf(w, request.start).Some? {
      ProgressionIsArithmetic(
        StartOf(w, request.start).value.0, request.skip + 1, request.rising, Cap(request.limit));
      hide Progression, At;
    }
  }

  /** A request naming its start by hash reads every other height but its own through the cache, so
      it may start at a block that is not canonical. */
  lemma NamedStartIsNotReadBack(w: World, request: Request)
    requires request.start.ByHash? && request.start.hash in w.blocks
    ensures w.blocks[request.start.hash].header.number !in ReadThroughCache(w, request)
  {
    var n := w.blocks[request.start.hash].header.number;
    ProgressionIsArithmetic(n, request.skip + 1, request.rising, Cap(request.limit));
    AtStart(n, request.skip + 1, request.rising);
    hide At, Progression;
  }

  // ---------------------------------------------------------------- worlds seen through the cache

  /** The blocks read from the cache at `side` heights: each one of this world, at its own height. */
  ghost predicate MayBeSeen(w: World, side: set<nat>, seen: map<nat, nat>) {
    forall n :: n in seen ==> n in side && seen[n] in w.blocks && w.blocks[seen[n]].header.number == n
  }

  /** The world as a request sees it that reads those blocks for canonical. */
  ghost function Seeing(w: World, seen: map<nat, nat>): World {
    World(w.blocks, w.canonical + seen)
  }

  lemma SeeingIsValid(w: World, side: set<nat>, seen: map<nat, nat>)
    requires ValidWorld(w) && MayBeSeen(w, side, seen)
    ensures ValidWorld(Seeing(w, seen))
  {
  }

  /** Up to and including the first unavailable height, every block seen has the canonical header. */
  ghost predicate SeenAsCanonical(w: World, seen: map<nat, nat>, numbers: seq<nat>)
    requires ValidWorld(w) && forall n :: n in seen ==> seen[n] in w.blocks
  {
    numbers == [] ||
    var n := numbers[0];
    && (n in seen ==> n in w.canonical && w.blocks[seen[n]].header == HeaderAt(w, n))
    && (n in w.canonical ==> SeenAsCanonical(w, seen, numbers[1..]))
  }

  lemma {:induction false} PrefixUnmovedIff(w: World, side: set<nat>, seen: map<nat, nat>, numbers: seq<nat>)
    requires ValidWorld(w) && MayBeSeen(w, side, seen) && ValidWorld(Seeing(w, seen))
    ensures AvailablePrefix(Seeing(w, seen), numbers) == AvailablePrefix(w, numbers) <==>
      SeenAsCanonical(w, seen, numbers)
  {
    if numbers == [] {
    } else {
      PrefixUnmovedIff(w, side, seen, numbers[1..]);
      var n, v := numbers[0], Seeing(w, seen);
      var here, there := AvailablePrefix(w, numbers), AvailablePrefix(v, numbers);
      if n in w.canonical {
        assert here[1..] == AvailablePrefix(w, numbers[1..]) && there[1..] == AvailablePrefix(v, numbers[1..]);
        assert here == [here[0]] + here[1..] && there == [there[0]] + there[1..];
      }
    }
  }

  /** The response is the answer of the real world exactly when, up to and including the first
      unavailable height, every block read from the cache had its height's canonical header. */
  lemma AnswerUnmovedIff(w: World, side: set<nat>, seen: map<nat, nat>, request: Request)
    requires ValidWorld(w) && MayBeSeen(w, side, seen) && ValidWorld(Seeing(w, seen))
    ensures Answer(Seeing(w, seen), request) == Answer(w, request) <==>
      SeenAsCanonical(w, seen, ReadThroughCache(w, request))
  {
    var numbers := ReadThroughCache(w, request);
    PrefixUnmovedIff(w, side, seen, numbers);
    hide AvailablePrefix, SeenAsCanonical;
    if StartOf(w, request.start).Some? {
      var (n, named) := StartOf(w, request.start).value;
      if named.Some? && Requested(n, request) != [] {
        var here, there := AvailablePrefix(w, numbers), AvailablePrefix(Seeing(w, seen), numbers);
        assert ([named.value] + here)[1..] == here && ([named.value] + there)[1..] == there;
      }
    } else {
      NothingRead(w, seen);
    }
  }

  lemma NothingRead(w: World, seen: map<nat, nat>)
    requires ValidWorld(w) && forall n :: n in seen ==> seen[n] in w.blocks
    ensures SeenAsCanonical(w, seen, [])
  {
  }

  /** A `side` height in reach of the request at which a block with another header could be cached. */
  ghost predicate RivalAt(w: World, side: set<nat>, numbers: seq<nat>, i: nat, hash: nat)
    requires ValidWorld(w)
  {
    && i < |numbers| && numbers[i] in side
    && (forall j :: 0 <= j < i ==> numbers[j] in w.canonical)
    && hash in w.blocks && w.blocks[hash].header.number == numbers[i]
    && (numbers[i] in w.canonical ==> w.blocks[hash].header != HeaderAt(w, numbers[i]))
  }

  lemma RivalBehindAvailable(w: World, side: set<nat>, numbers: seq<nat>, i: nat, hash: nat)
    requires ValidWorld(w) && numbers != [] && numbers[0] in w.canonical
    ensures RivalAt(w, side, numbers[1..], i, hash) <==> RivalAt(w, side, numbers, i + 1, hash)
  {
    assert forall j :: 1 <= j < |numbers| ==> numbers[j] == numbers[1..][j - 1];
  }

  lemma {:induction false} NoRivalNoEffect(w: World, side: set<nat>, seen: map<nat, nat>, numbers: seq<nat>)
    requires ValidWorld(w) && MayBeSeen(w, side, seen)
    requires forall i, hash :: !RivalAt(w, side, numbers, i, hash)
    ensures SeenAsCanonical(w, seen, numbers)
  {
    if numbers == [] {
    } else {
      var n := numbers[0];
      if n in seen {
        assert !RivalAt(w, side, numbers, 0, seen[n]);
      }
      if n in w.canonical {
        forall i: nat, hash ensures !RivalAt(w, side, numbers[1..], i, hash) {
          RivalBehindAvailable(w, side, numbers, i, hash);
        }
        NoRivalNoEffect(w, side, seen, numbers[1..]);
      }
    }
  }

  lemma {:induction false} RivalHasEffect(w: World, side: set<nat>, numbers: seq<nat>, i: nat, hash: nat)
    requires ValidWorld(w) && Distinct(numbers) && RivalAt(w, side, numbers, i, hash)
    ensures MayBeSeen(w, side, map[numbers[i] := hash]) && !SeenAsCanonical(w, map[numbers[i] := hash], numbers)
  {
    if i == 0 {
    } else {
      RivalBehindAvailable(w, side, numbers, i - 1, hash);
      RivalHasEffect(w, side, numbers[1..], i - 1, hash);
    }
  }

  /** No schedule and no cache content moves the answer exactly when the request reaches no `side`
      height at which a block with another header exists. */
  lemma AnswerNeverMovedIff(w: World, side: set<nat>, request: Request)
    requires ValidWorld(w)
    ensures (forall seen :: MayBeSeen(w, side, seen) ==>
               ValidWorld(Seeing(w, seen)) && Answer(Seeing(w, seen), request) == Answer(w, request)) <==>
      forall i, hash :: !RivalAt(w, side, ReadThroughCache(w, request), i, hash)
  {
    var numbers := ReadThroughCache(w, request);
    hide Answer, ReadThroughCache;
    if forall i, hash :: !RivalAt(w, side, numbers, i, hash) {
      forall seen | MayBeSeen(w, side, seen)
        ensures ValidWorld(Seeing(w, seen)) && Answer(Seeing(w, seen), request) == Answer(w, request)
      {
        SeeingIsValid(w, side, seen);
        NoRivalNoEffect(w, side, seen, numbers);
        AnswerUnmovedIff(w, side, seen, request);
      }
    } else {
      var i: nat, hash :| RivalAt(w, side, numbers, i, hash);
      ReadHeightsAreDistinct(w, request);
      RivalHasEffect(w, side, numbers, i, hash);
      var seen := map[numbers[i] := hash];
      SeeingIsValid(w, side, seen);
      AnswerUnmovedIff(w, side, seen, request);
    }
  }

  /** Asked for one header by number, a proxy without a cache sends the canonical one. */
  lemma AnswerToOne(w: World, n: nat)
    requires ValidWorld(w) && n in w.canonical
    ensures Answer(w, Request(ByNumber(n), 1, 0, true)) == [HeaderAt(w, n)]
  {
    var request := Request(ByNumber(n), 1, 0, true);
    var numbers := Requested(n, request);
    assert Progression(n, 1, true, 1) == [n] by {
      ProgressionUnfolds(n, 1, true, 1);
      if Next(n, 1, true).Some? {
        ProgressionUnfolds(Next(n, 1, true).value, 1, true, 0);
      }
    }
    assert numbers == [n];
    assert AvailablePrefix(w, numbers[1..]) == [];
  }

  /** Two blocks at height 5, the first canonical. */
  const TWO_BRANCHES := World(map[1 := Block(Header(5, 0), []), 2 := Block(Header(5, 1), [])], map[5 := 1])

  /** Seeing the other branch's block at height 5 changes the answer. */
  lemma SideBlockIsServed()
    ensures var request := Request(ByNumber(5), 1, 0, true);
      && ValidWorld(TWO_BRANCHES) && Answer(TWO_BRANCHES, request) == [Header(5, 0)]
      && var v := Seeing(TWO_BRANCHES, map[5 := 2]);
      && ValidWorld(v) && Answer(v, request) == [Header(5, 1)]
  {
    AnswerToOne(TWO_BRANCHES, 5);
    SeeingIsValid(TWO_BRANCHES, {5}, map[5 := 2]);
    AnswerToOne(Seeing(TWO_BRANCHES, map[5 := 2]), 5);
    hide Answer;
  }
}
