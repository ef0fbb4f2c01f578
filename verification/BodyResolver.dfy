/** Answering body requests through the shared cache, up to a count and a soft size limit. */
module BodyResolver {
  import opened Common
  import opened ProxyCache
  import opened HeaderAnswers
  import opened HeaderResolver

  const MAX_BODIES_SERVE: nat := 1024
  const SOFT_BODY_RESPONSE_SIZE_LIMIT: nat := 1024 * 1024
  const USIZE_MAX: nat := U64_MAX

  function SaturatingAdd(a: nat, b: nat): nat {
    if a + b <= USIZE_MAX then a + b else USIZE_MAX
  }

  /** Encoded size of the bodies together; a body is its encoding. */
  ghost function Total(bodies: seq<Body>): nat {
    if bodies == [] then 0 else |bodies[0]| + Total(bodies[1..])
  }

  lemma {:induction false} TotalAppend(bodies: seq<Body>, b: Body)
    ensures Total(bodies + [b]) == Total(bodies) + |b|
  {
    if bodies == [] {
    } else {
      TotalAppend(bodies[1..], b);
      assert (bodies + [b])[1..] == bodies[1..] + [b];
    }
  }

  /** `take(MAX_BODIES_SERVE)` */
  function Considered(hashes: seq<nat>): seq<nat> {
    if |hashes| <= MAX_BODIES_SERVE then hashes else hashes[..MAX_BODIES_SERVE]
  }

  /** The bodies of the first hashes. */
  ghost predicate BodiesOf(w: World, hashes: seq<nat>, bodies: seq<Body>) {
    && |bodies| <= |hashes|
    && forall i :: 0 <= i < |bodies| ==> hashes[i] in w.blocks && bodies[i] == w.blocks[hashes[i]].body
  }

  /** Bodies of a prefix of the hashes, at most 1024 of them, all but the last together below 1 MiB. */
  ghost predicate IsPartial(w: World, hashes: seq<nat>, bodies: seq<Body>) {
    && |bodies| <= 1024 && BodiesOf(w, hashes, bodies)
    && (bodies != [] ==> Total(bodies[..|bodies| - 1]) < 1_048_576)
  }

  /** The response: below 1024 bodies it ends early only at an unknown block or on reaching 1 MiB. */
  ghost predicate IsResponse(w: World, hashes: seq<nat>, bodies: seq<Body>) {
    && IsPartial(w, hashes, bodies)
    && (|bodies| < |hashes| && |bodies| < 1024 ==> hashes[|bodies|] !in w.blocks || Total(bodies) >= 1_048_576)
  }

  lemma {:induction false} TotalMonotone(bodies: seq<Body>, k: nat)
    requires k <= |bodies|
    ensures Total(bodies[..k]) <= Total(bodies)
  {
    if k == 0 {
    } else {
      TotalMonotone(bodies[1..], k - 1);
      assert bodies[..k][1..] == bodies[1..][..k - 1];
    }
  }

  /** A part of the response is a prefix of it. */
  lemma PartialIsPrefix(w: World, hashes: seq<nat>, a: seq<Body>, b: seq<Body>)
    requires IsPartial(w, hashes, a) && IsResponse(w, hashes, b)
    ensures a <= b
  {
    if |b| < |a| {
      assert a[..|a| - 1][..|b|] == b;
      TotalMonotone(a[..|a| - 1], |b|);
    }
  }

  /** The response is determined by the world and the request, not by the cache or the schedule. */
  lemma ResponseIsUnique(w: World, hashes: seq<nat>, a: seq<Body>, b: seq<Body>)
    requires IsResponse(w, hashes, a) && IsResponse(w, hashes, b)
    ensures a == b
  {
    PartialIsPrefix(w, hashes, a, b);
    PartialIsPrefix(w, hashes, b, a);
  }

  /** Every part extends to a response; the empty part shows that every request has one. */
  lemma {:induction false} ResponseExists(w: World, hashes: seq<nat>, partial: seq<Body>) returns (bodies: seq<Body>)
    requires IsPartial(w, hashes, partial)
    ensures IsResponse(w, hashes, bodies) && partial <= bodies
    decreases |hashes| - |partial|
  {
    if |partial| == |hashes| || |partial| == 1024 || hashes[|partial|] !in w.blocks || Total(partial) >= 1_048_576 {
      bodies := partial;
    } else {
      var more := partial + [w.blocks[hashes[|partial|]].body];
      assert more[..|more| - 1] == partial;
      bodies := ResponseExists(w, hashes, more);
    }
  }

  /** A non-empty request whose first block is available gets at least one body, however large. */
  lemma FirstBodyIsServed(w: World, hashes: seq<nat>, bodies: seq<Body>)
    requires IsResponse(w, hashes, bodies) && hashes != [] && hashes[0] in w.blocks
    ensures bodies != [] && bodies[0] == w.blocks[hashes[0]].body
  {
  }

  /** The block is cached with its body, or left out of a cache full of greater heights. */
  ghost predicate CachedWithBody(c: Index, capacity: nat, block: Block, hash: nat) {
    var n := block.header.number;
    CachedOrTooLow(c, capacity, n, hash) && (n in c.byNumber ==> c.byNumber[n].body == Some(block.body))
  }

  method CachedBody(cache: BlockCache, w: World, side: set<nat>, hash: nat) returns (r: Option<Body>)
    requires Faithful(w, cache.View(), side)
    ensures r.Some? ==> hash in w.blocks && r.value == w.blocks[hash].body
    ensures r.Some? ==> CachedWithBody(cache.View(), cache.capacity, w.blocks[hash], hash)
  {
    var block := cache.GetByHash(hash);
    if block.Some? {
      CachedIsGenuine(w, cache.View(), side, cache.byHash[hash]);
      r := block.value.body;
    } else {
      r := None;
    }
  }

  function Fetched(w: World, hash: nat): Insertion
    requires hash in w.blocks
  {
    var block := w.blocks[hash];
    Insertion(block.header.number, hash, block.header, Some(block.body))
  }

  /** Cached, or fetched by hash after a second look at the cache; the fetch may fail for hashes that
      are `down`. */
  method BodyByHash(cache: BlockCache, w: World, side: set<nat>, down: set<nat>, hash: nat)
    returns (r: Option<Body>)
    requires Faithful(w, cache.View(), side)
    requires hash in w.blocks ==> Genuine(w, side, Fetched(w, hash))
    modifies cache
    ensures Faithful(w, cache.View(), side)
    ensures r.None? ==> hash !in w.blocks || hash in down
    ensures r.Some? ==> hash in w.blocks && r.value == w.blocks[hash].body
    ensures r.Some? ==> CachedWithBody(cache.View(), cache.capacity, w.blocks[hash], hash)
  {
    hide Evicted, Upserted, Faithful;
    OtherTasks(cache, w, side);
    r := CachedBody(cache, w, side, hash);
    if r.None? {
      OtherTasks(cache, w, side);
      r := CachedBody(cache, w, side, hash);
    }
    var fails: bool := *;
    if r.Some? || (fails && hash in down) || hash !in w.blocks {
      return;
    }
    var block := w.blocks[hash];
    OtherTasks(cache, w, side);
    InsertKeepsFaithful(w, cache.View(), side, Fetched(w, hash), cache.capacity);
    InsertedIsCachedOrTooLow(cache.View(), Fetched(w, hash), cache.capacity);
    cache.Upsert(block.header.number, hash, block.header, Some(block.body));
    r := Some(block.body);
  }

  lemma BodiesStep(w: World, hs: seq<nat>, bodies: seq<Body>)
    requires BodiesOf(w, hs, bodies) && |bodies| < |hs| && hs[|bodies|] in w.blocks
    ensures BodiesOf(w, hs, bodies + [w.blocks[hs[|bodies|]].body])
  {
  }

  lemma PartialStep(w: World, hashes: seq<nat>, bodies: seq<Body>, body: Body)
    requires IsPartial(w, hashes, bodies) && Total(bodies) < 1_048_576
    requires |bodies| < |hashes| && |bodies| < 1024 && hashes[|bodies|] in w.blocks
    requires body == w.blocks[hashes[|bodies|]].body
    ensures IsPartial(w, hashes, bodies + [body]) && Total(bodies + [body]) == Total(bodies) + |body|
  {
    hide Total, BodiesOf;
    TotalAppend(bodies, body);
    BodiesStep(w, hashes, bodies);
    assert (bodies + [body])[..|bodies + [body]| - 1] == bodies;
  }

  /** Whatever the cache holds and other tasks do, the result is the response, or the part of it
      before a body whose fetch may fail. */
  method ResolveBodies(cache: BlockCache, w: World, side: set<nat>, outage: Outage, hashes: seq<nat>)
    returns (bodies: seq<Body>)
    requires Faithful(w, cache.View(), side)
    requires forall h :: h in hashes && h in w.blocks ==> Genuine(w, side, Fetched(w, h))
    modifies cache
    ensures Faithful(w, cache.View(), side)
    ensures IsPartial(w, hashes, bodies)
    ensures IsResponse(w, hashes, bodies) ||
      (|bodies| < |hashes| && |bodies| < 1024 && hashes[|bodies|] in outage.hashes)
  {
    bodies := [];
    var total := 0;
    var hs := Considered(hashes);
    assert IsPartial(w, hashes, []) && Total([]) == 0;
    hide Faithful, IsPartial, Genuine, Total;
    for i := 0 to |hs|
      invariant Faithful(w, cache.View(), side)
      invariant |bodies| == i && IsPartial(w, hashes, bodies)
      invariant total == Total(bodies) < SOFT_BODY_RESPONSE_SIZE_LIMIT
    {
      var body := BodyByHash(cache, w, side, outage.hashes, hs[i]);
      if body.None? {
        break;
      }
      PartialStep(w, hashes, bodies, body.value);
      total := SaturatingAdd(total, |body.value|);
      bodies := bodies + [body.value];
      if total >= SOFT_BODY_RESPONSE_SIZE_LIMIT {
        break;
      }
    }
  }
}
