/** Listing the epochs at which the network identity changed, by repeated binary search over
    memoised epoch-boundary outcomes. */
module IdentityTransitions {
  import opened Common
  import Epochs

  type Identity = nat

  /** The extra data of a boundary header, as far as it decodes. */
  datatype ExtraData = Empty | Undecodable | Outcome(identity: Identity)

  datatype RpcBlock = RpcBlock(number: nat, extraData: ExtraData)

  datatype Fault =
    | MissingBlock(height: nat)
    | WrongBlock(got: nat, height: nat)
    | EmptyExtraData(height: nat)
    | BadOutcome(height: nat)

  datatype EpochOutcome = EpochOutcome(epoch: nat, identity: Identity)

  datatype Transition = Transition(epoch: nat, oldIdentity: Identity, newIdentity: Identity)

  datatype Response = Response(identity: Identity, transitions: seq<Transition>)

  /** What the endpoint returns for a height, and the epoch length. */
  datatype Source = Source(blocks: map<nat, RpcBlock>, epochLength: nat) {
    /** Last height of an epoch. */
    function Last(epoch: nat): nat
      requires epochLength > 0
    {
      Epochs.Last(epochLength, epoch)
    }
  }

  /** The outcome recorded for an epoch, if its boundary block, the last one of the epoch, is there and
      decodes. */
  ghost function IdentityOf(s: Source, epoch: nat): Option<Identity>
    requires s.epochLength > 0
  {
    var h := (epoch + 1) * s.epochLength - 1;
    if h in s.blocks && s.blocks[h].number == h && s.blocks[h].extraData.Outcome?
    then Some(s.blocks[h].extraData.identity) else None
  }

  ghost predicate Known(s: Source, upTo: nat) {
    s.epochLength > 0 && forall e :: 0 <= e <= upTo ==> IdentityOf(s, e).Some?
  }

  /** Why an epoch has no outcome. */
  ghost predicate Fails(s: Source, epoch: nat, error: Fault)
    requires s.epochLength > 0
  {
    var h := (epoch + 1) * s.epochLength - 1;
    if h !in s.blocks then error == MissingBlock(h)
    else if s.blocks[h].number != h then error == WrongBlock(s.blocks[h].number, h)
    else if s.blocks[h].extraData.Empty? then error == EmptyExtraData(h)
    else s.blocks[h].extraData.Undecodable? && error == BadOutcome(h)
  }

  lemma FailsIffUnknown(s: Source, epoch: nat)
    requires s.epochLength > 0
    ensures IdentityOf(s, epoch).None? <==> exists error :: Fails(s, epoch, error)
  {
    var h := (epoch + 1) * s.epochLength - 1;
    if IdentityOf(s, epoch).None? {
      var error :=
        if h !in s.blocks then MissingBlock(h)
        else if s.blocks[h].number != h then WrongBlock(s.blocks[h].number, h)
        else if s.blocks[h].extraData.Empty? then EmptyExtraData(h)
        else BadOutcome(h);
      assert Fails(s, epoch, error);
    }
  }

  class OutcomeCache {
    const source: Source
    var entries: map<nat, EpochOutcome>

    ghost predicate Valid()
      reads this
    {
      && source.epochLength > 0
      && forall e :: e in entries ==> IdentityOf(source, e) == Some(entries[e].identity) && entries[e].epoch == e
    }

    constructor (source: Source)
      requires source.epochLength > 0
      ensures Valid() && this.source == source
    {
      this.source := source;
      entries := map[];
    }

    /** The outcome of an epoch, fetched at most once. */
    method Get(epoch: nat) returns (r: Result<EpochOutcome, Fault>)
      requires Valid()
      modifies this
      ensures Valid()
      ensures r.Ok? <==> IdentityOf(source, epoch).Some?
      ensures r.Ok? ==> r.value == EpochOutcome(epoch, IdentityOf(source, epoch).value) && epoch in entries
      ensures r.Err? ==> Fails(source, epoch, r.error)
      ensures old(entries).Keys <= entries.Keys <= old(entries).Keys + {epoch}
    {
      if epoch in entries {
        return Ok(entries[epoch]);
      }
      var height := source.Last(epoch);
      if height !in source.blocks {
        return Err(MissingBlock(height));
      }
      var block := source.blocks[height];
      if block.number != height {
        return Err(WrongBlock(block.number, height));
      }
      match block.extraData
      case Empty => r := Err(EmptyExtraData(height));
      case Undecodable => r := Err(BadOutcome(height));
      case Outcome(identity) =>
        var outcome := EpochOutcome(epoch, identity);
        entries := entries[epoch := outcome];
        r := Ok(outcome);
    }
  }

  /** `start` begins a run of the target's identity: it has it and its predecessor has not. */
  ghost predicate RunStart(s: Source, target: EpochOutcome, start: nat)
    requires s.epochLength > 0
  {
    && start <= target.epoch
    && IdentityOf(s, start) == Some(target.identity)
    && (start > 0 ==> IdentityOf(s, start - 1).Some? && IdentityOf(s, start - 1).value != target.identity)
  }

  /** The error of an epoch that has no outcome and is not above the given one. */
  ghost predicate FailsUpTo(s: Source, upTo: nat, error: Fault)
    requires s.epochLength > 0
  {
    exists e: nat :: e <= upTo && Fails(s, e, error)
  }

  /** With every outcome known nothing fails. */
  lemma KnownNeverFails(s: Source, upTo: nat, error: Fault)
    requires Known(s, upTo)
    ensures !FailsUpTo(s, upTo, error)
  {
    forall e: nat | e <= upTo ensures !Fails(s, e, error) {
      FailsIffUnknown(s, e);
    }
  }

  lemma NoneKnown(s: Source, upTo: nat, error: Fault)
    requires s.epochLength > 0 && FailsUpTo(s, upTo, error)
    ensures !Known(s, upTo)
  {
    if Known(s, upTo) {
      KnownNeverFails(s, upTo, error);
    }
  }

  /** What the binary search computes, probe by probe. */
  ghost function Bisect(s: Source, target: EpochOutcome, low: nat, high: nat): nat
    requires s.epochLength > 0 && low <= high
    decreases high - low
  {
    if low == high then low
    else
      var mid := low + (high - low) / 2;
      if IdentityOf(s, mid) == Some(target.identity) then Bisect(s, target, low, mid)
      else Bisect(s, target, mid + 1, high)
  }

  lemma BisectUnfolds(s: Source, target: EpochOutcome, low: nat, high: nat)
    requires s.epochLength > 0 && low < high
    ensures var mid := low + (high - low) / 2;
      Bisect(s, target, low, high) ==
        if IdentityOf(s, mid) == Some(target.identity) then Bisect(s, target, low, mid)
        else Bisect(s, target, mid + 1, high)
  {
  }

  /** Binary search for the start of the run that ends at `target`.  With no assumption on how
      identities repeat, it ends at the start of some run of the same identity. */
  method FindIdentityRunStart(outcomes: OutcomeCache, target: EpochOutcome) returns (r: Result<nat, Fault>)
    requires outcomes.Valid() && IdentityOf(outcomes.source, target.epoch) == Some(target.identity)
    modifies outcomes
    ensures outcomes.Valid()
    ensures r.Ok? ==> RunStart(outcomes.source, target, r.value)
    ensures r.Ok? ==> r.value == Bisect(outcomes.source, target, 0, target.epoch)
    ensures r.Err? ==> FailsUpTo(outcomes.source, target.epoch, r.error)
  {
    hide IdentityOf, Bisect;
    var low: nat, high: nat := 0, target.epoch;
    while low < high
      invariant outcomes.Valid()
      invariant low <= high <= target.epoch
      invariant Bisect(outcomes.source, target, 0, target.epoch) == Bisect(outcomes.source, target, low, high)
      invariant IdentityOf(outcomes.source, high) == Some(target.identity)
      invariant low > 0 ==>
        IdentityOf(outcomes.source, low - 1).Some? && IdentityOf(outcomes.source, low - 1).value != target.identity
    {
      var mid := low + (high - low) / 2;
      BisectUnfolds(outcomes.source, target, low, high);
      var outcome := outcomes.Get(mid);
      if outcome.Err? {
        return Err(outcome.error);
      }
      if outcome.value.identity == target.identity {
        high := mid;
      } else {
        low := mid + 1;
      }
    }
    BisectBounds(outcomes.source, target, low, low);
    r := Ok(low);
  }

  /** Where the run ending at `e` really starts. */
  ghost function TrueStart(s: Source, e: nat): (start: nat)
    requires s.epochLength > 0
    ensures start <= e && IdentityOf(s, start) == IdentityOf(s, e)
    ensures forall m :: start <= m <= e ==> IdentityOf(s, m) == IdentityOf(s, e)
    ensures start > 0 ==> IdentityOf(s, start - 1) != IdentityOf(s, e)
  {
    if e == 0 || IdentityOf(s, e - 1) != IdentityOf(s, e) then e else TrueStart(s, e - 1)
  }

  /** No probe of the search finds the target's identity in an earlier run. */
  ghost predicate HonestProbes(s: Source, target: EpochOutcome, low: nat, high: nat)
    requires s.epochLength > 0 && low <= high
    decreases high - low
  {
    low == high ||
    var mid := low + (high - low) / 2;
    if IdentityOf(s, mid) == Some(target.identity)
    then TrueStart(s, target.epoch) <= mid && HonestProbes(s, target, low, mid)
    else HonestProbes(s, target, mid + 1, high)
  }

  lemma {:induction false} BisectBounds(s: Source, target: EpochOutcome, low: nat, high: nat)
    requires s.epochLength > 0 && low <= high
    ensures low <= Bisect(s, target, low, high) <= high
    decreases high - low
  {
    hide IdentityOf;
    if low < high {
      var mid := low + (high - low) / 2;
      if IdentityOf(s, mid) == Some(target.identity) {
        BisectBounds(s, target, low, mid);
      } else {
        BisectBounds(s, target, mid + 1, high);
      }
    }
  }

  /** The search finds the true start of the run exactly when no probe lands on the same identity in
      an earlier run. */
  lemma {:induction false} BisectIsExactIff(s: Source, target: EpochOutcome, low: nat, high: nat)
    requires s.epochLength > 0 && IdentityOf(s, target.epoch) == Some(target.identity)
    requires low <= TrueStart(s, target.epoch) <= high <= target.epoch
    ensures Bisect(s, target, low, high) == TrueStart(s, target.epoch) <==> HonestProbes(s, target, low, high)
    decreases high - low
  {
    hide IdentityOf;
    if low < high {
      var mid := low + (high - low) / 2;
      if IdentityOf(s, mid) != Some(target.identity) {
        BisectIsExactIff(s, target, mid + 1, high);
      } else if TrueStart(s, target.epoch) <= mid {
        BisectIsExactIff(s, target, low, mid);
      } else {
        BisectBounds(s, target, low, mid);
      }
    }
  }

  /** Equal identities form one contiguous run. */
  ghost predicate Contiguous(s: Source, upTo: nat)
    requires s.epochLength > 0
  {
    forall a, b, c :: 0 <= a <= b <= c <= upTo && IdentityOf(s, a) == IdentityOf(s, c) ==>
      IdentityOf(s, b) == IdentityOf(s, a)
  }

  ghost predicate Changes(s: Source, e: nat)
    requires s.epochLength > 0
  {
    e > 0 && IdentityOf(s, e) != IdentityOf(s, e - 1)
  }

  /** Every change point in 1..=upTo, newest first. */
  ghost function ChangePoints(s: Source, upTo: nat): seq<Transition>
    requires Known(s, upTo)
  {
    if upTo == 0 then []
    else
      (if Changes(s, upTo)
       then [Transition(upTo, IdentityOf(s, upTo - 1).value, IdentityOf(s, upTo).value)]
       else []) + ChangePoints(s, upTo - 1)
  }

  /** `ChangePoints` lists exactly the epochs whose identity differs from the one before. */
  lemma {:induction false} ChangePointsAreAll(s: Source, upTo: nat)
    requires Known(s, upTo)
    ensures forall t :: t in ChangePoints(s, upTo) <==>
      && 0 < t.epoch <= upTo && Changes(s, t.epoch)
      && IdentityOf(s, t.epoch - 1) == Some(t.oldIdentity) && IdentityOf(s, t.epoch) == Some(t.newIdentity)
  {
    if upTo == 0 {
    } else {
      ChangePointsAreAll(s, upTo - 1);
    }
  }

  /** Inside one run there is no change. */
  lemma {:induction false} NoChangeInRun(s: Source, start: nat, upTo: nat)
    requires Known(s, upTo) && start <= upTo
    requires forall e :: start <= e <= upTo ==> IdentityOf(s, e) == IdentityOf(s, upTo)
    ensures ChangePoints(s, upTo) == ChangePoints(s, start)
    decreases upTo
  {
    if start < upTo {
      assert !Changes(s, upTo);
      NoChangeInRun(s, start, upTo - 1);
    }
  }

  /** Contiguous runs leave no earlier run to be misled by. */
  lemma {:induction false} ContiguousProbesAreHonest(s: Source, target: EpochOutcome, upTo: nat, low: nat, high: nat)
    requires s.epochLength > 0 && low <= high <= target.epoch <= upTo && Contiguous(s, upTo)
    requires IdentityOf(s, target.epoch) == Some(target.identity)
    ensures HonestProbes(s, target, low, high)
    decreases high - low
  {
    hide IdentityOf, Contiguous;
    if low < high {
      var mid := low + (high - low) / 2;
      if IdentityOf(s, mid) != Some(target.identity) {
        ContiguousProbesAreHonest(s, target, upTo, mid + 1, high);
      } else {
        ContiguousRun(s, upTo, mid, target.epoch);
        ContiguousProbesAreHonest(s, target, upTo, low, mid);
      }
    }
  }

  lemma ContiguousRun(s: Source, upTo: nat, e: nat, last: nat)
    requires s.epochLength > 0 && Contiguous(s, upTo) && e <= last <= upTo
    requires IdentityOf(s, e) == IdentityOf(s, last)
    ensures TrueStart(s, last) <= e
  {
    hide IdentityOf;
  }

  // ---------------------------------------------------------------- the whole search

  ghost function OutcomeAt(s: Source, e: nat): EpochOutcome
    requires Known(s, e)
  {
    EpochOutcome(e, IdentityOf(s, e).value)
  }

  /** The change points found by searching the run of `e`, then the run below it, and so on. */
  ghost function Found(s: Source, e: nat): seq<Transition>
    requires Known(s, e)
    decreases e
  {
    var start := Bisect(s, OutcomeAt(s, e), 0, e);
    BisectBounds(s, OutcomeAt(s, e), 0, e);
    if start == 0 then []
    else [Transition(start, IdentityOf(s, start - 1).value, IdentityOf(s, start).value)] + Found(s, start - 1)
  }

  /** Without `full` the search stops at the newest. */
  ghost function Newest(ts: seq<Transition>): seq<Transition> {
    if ts == [] then [] else ts[..1]
  }

  /** No probe is misled in the run of `e` nor, one after the other, in the runs below it. */
  ghost predicate HonestSearch(s: Source, e: nat)
    requires Known(s, e)
    decreases e
  {
    && HonestProbes(s, OutcomeAt(s, e), 0, e)
    && (TrueStart(s, e) > 0 ==> HonestSearch(s, TrueStart(s, e) - 1))
  }

  /** The newest change point is where the run of `e` starts. */
  lemma NewestChangeIsRunStart(s: Source, e: nat)
    requires Known(s, e)
    ensures var start := TrueStart(s, e);
      ChangePoints(s, e) ==
        if start == 0 then []
        else
          [Transition(start, IdentityOf(s, start - 1).value, IdentityOf(s, start).value)] + ChangePoints(s, start - 1)
  {
    hide IdentityOf;
    NoChangeInRun(s, TrueStart(s, e), e);
  }

  /** One search reports the newest change point exactly when none of its probes is misled. */
  lemma NewestIsExactIff(s: Source, e: nat)
    requires Known(s, e)
    ensures Newest(Found(s, e)) == Newest(ChangePoints(s, e)) <==> HonestProbes(s, OutcomeAt(s, e), 0, e)
  {
    NewestChangeIsRunStart(s, e);
    BisectIsExactIff(s, OutcomeAt(s, e), 0, e);
    hide IdentityOf, TrueStart, HonestProbes, Bisect, ChangePoints;
  }

  lemma FoundUnfolds(s: Source, e: nat)
    requires Known(s, e)
    ensures var start := Bisect(s, OutcomeAt(s, e), 0, e);
      && start <= e
      && Found(s, e) ==
           if start == 0 then []
           else [Transition(start, IdentityOf(s, start - 1).value, IdentityOf(s, start).value)] + Found(s, start - 1)
  {
    hide IdentityOf, Bisect;
    BisectBounds(s, OutcomeAt(s, e), 0, e);
  }

  lemma SameHead(t: Transition, a: seq<Transition>, b: seq<Transition>)
    ensures [t] + a == [t] + b <==> a == b
  {
    assert ([t] + a)[1..] == a && ([t] + b)[1..] == b;
  }

  /** An honest round finds the newest change point and leaves the rest to the rounds below it. */
  lemma HonestRoundFinds(s: Source, e: nat)
    requires Known(s, e) && HonestProbes(s, OutcomeAt(s, e), 0, e)
    ensures var start := TrueStart(s, e);
      Found(s, e) ==
        if start == 0 then []
        else [Transition(start, IdentityOf(s, start - 1).value, IdentityOf(s, start).value)] + Found(s, start - 1)
  {
    FoundUnfolds(s, e);
    BisectIsExactIff(s, OutcomeAt(s, e), 0, e);
    hide IdentityOf, TrueStart, HonestProbes, Bisect, Found;
  }

  /** One round is exact exactly when its probes are honest and the rounds below it are exact. */
  lemma RoundIsExactIff(s: Source, e: nat)
    requires Known(s, e)
    ensures var start := TrueStart(s, e);
      Found(s, e) == ChangePoints(s, e) <==>
        && HonestProbes(s, OutcomeAt(s, e), 0, e)
        && (start > 0 ==> Found(s, start - 1) == ChangePoints(s, start - 1))
  {
    hide IdentityOf, TrueStart, HonestProbes, Bisect, ChangePoints, Found, OutcomeAt, Newest;
    var start := TrueStart(s, e);
    if HonestProbes(s, OutcomeAt(s, e), 0, e) {
      HonestRoundFinds(s, e);
      NewestChangeIsRunStart(s, e);
      if start > 0 {
        SameHead(
          Transition(start, IdentityOf(s, start - 1).value, IdentityOf(s, start).value),
          Found(s, start - 1), ChangePoints(s, start - 1));
      }
    } else {
      NewestIsExactIff(s, e);
    }
  }

  /** The full search lists every change point, and nothing else, exactly when no probe of any of its
      rounds is misled. */
  lemma {:induction false} SearchIsExactIff(s: Source, e: nat)
    requires Known(s, e)
    ensures Found(s, e) == ChangePoints(s, e) <==> HonestSearch(s, e)
    decreases e
  {
    RoundIsExactIff(s, e);
    hide IdentityOf, TrueStart, HonestProbes, ChangePoints, Found;
    if TrueStart(s, e) > 0 {
      SearchIsExactIff(s, TrueStart(s, e) - 1);
    }
  }

  /** Contiguous runs leave nothing to be misled by in any round. */
  lemma {:induction false} ContiguousSearchIsHonest(s: Source, upTo: nat, e: nat)
    requires Known(s, upTo) && Contiguous(s, upTo) && e <= upTo
    ensures HonestSearch(s, e)
    decreases e
  {
    ContiguousProbesAreHonest(s, OutcomeAt(s, e), upTo, 0, e);
    hide IdentityOf, TrueStart, HonestProbes, Contiguous;
    if TrueStart(s, e) > 0 {
      ContiguousSearchIsHonest(s, upTo, TrueStart(s, e) - 1);
    }
  }

  /** When identities do not come back, the search is exact. */
  lemma ContiguousSearchIsExact(s: Source, e: nat)
    requires Known(s, e) && Contiguous(s, e)
    ensures Found(s, e) == ChangePoints(s, e)
  {
    ContiguousSearchIsHonest(s, e, e);
    SearchIsExactIff(s, e);
  }

  /** A source whose epochs 0, 1, 2, ... carry the given identities. */
  ghost function Recorded(ids: seq<Identity>): Source {
    Source(map e | 0 <= e < |ids| :: RpcBlock(e, Outcome(ids[e])), 1)
  }

  lemma RecordedIdentity(ids: seq<Identity>, e: nat)
    ensures IdentityOf(Recorded(ids), e) == if e < |ids| then Some(ids[e]) else None
  {
  }

  /** With epoch length 10 the outcomes of epochs 0 and 1 are read at heights 9 and 19. */
  lemma BoundaryHeightsAreRead()
    ensures var s := Source(map[9 := RpcBlock(9, Outcome(7)), 19 := RpcBlock(19, Outcome(8))], 10);
      Known(s, 1) && Found(s, 1) == [Transition(1, 7, 8)]
  {
    var s := Source(map[9 := RpcBlock(9, Outcome(7)), 19 := RpcBlock(19, Outcome(8))], 10);
    assert IdentityOf(s, 0) == Some(7) && IdentityOf(s, 1) == Some(8);
    BisectUnfolds(s, EpochOutcome(1, 8), 0, 1);
    BisectBounds(s, EpochOutcome(1, 8), 1, 1);
    BisectBounds(s, EpochOutcome(0, 7), 0, 0);
    hide IdentityOf, Bisect;
    FoundUnfolds(s, 1);
    FoundUnfolds(s, 0);
  }

  const RETURNING: seq<Identity> := [7, 7, 7, 8, 7]

  lemma ReturningIdentities()
    ensures var s := Recorded(RETURNING);
      && s.epochLength > 0 && Known(s, 4)
      && IdentityOf(s, 0) == IdentityOf(s, 1) == IdentityOf(s, 2) == Some(7)
      && IdentityOf(s, 3) == Some(8) && IdentityOf(s, 4) == Some(7)
  {
    hide IdentityOf;
    forall e | 0 <= e <= 4 ensures IdentityOf(Recorded(RETURNING), e).Some? {
      RecordedIdentity(RETURNING, e);
    }
    RecordedIdentity(RETURNING, 0);
    RecordedIdentity(RETURNING, 1);
    RecordedIdentity(RETURNING, 2);
    RecordedIdentity(RETURNING, 3);
    RecordedIdentity(RETURNING, 4);
  }

  lemma ReturningBisect()
    ensures Bisect(Recorded(RETURNING), EpochOutcome(4, 7), 0, 4) == 0
  {
    var s := Recorded(RETURNING);
    ReturningIdentities();
    hide IdentityOf, Bisect, Known, Recorded;
    BisectUnfolds(s, EpochOutcome(4, 7), 0, 4);
    BisectUnfolds(s, EpochOutcome(4, 7), 0, 2);
    BisectUnfolds(s, EpochOutcome(4, 7), 0, 1);
    BisectBounds(s, EpochOutcome(4, 7), 0, 0);
  }

  /** An identity that comes back hides every change: the search from epoch 4 probes epoch 2, finds
      the same identity there, ends at epoch 0 and reports none of the two changes. */
  lemma ReturningIdentityIsMissed()
    ensures var s := Recorded(RETURNING);
      && Known(s, 4) && Found(s, 4) == []
      && ChangePoints(s, 4) == [Transition(4, 8, 7), Transition(3, 7, 8)]
  {
    var s := Recorded(RETURNING);
    ReturningIdentities();
    ReturningBisect();
    hide IdentityOf, Bisect, Recorded;
    FoundUnfolds(s, 4);
    assert ChangePoints(s, 2) == [] by { NoChangeInRun(s, 0, 2); }
    assert ChangePoints(s, 3) == [Transition(3, 7, 8)] + ChangePoints(s, 2);
  }

  const FOUND_AGAIN: seq<Identity> := [7, 8, 7, 7, 7]

  lemma FoundAgainIdentities()
    ensures var s := Recorded(FOUND_AGAIN);
      && s.epochLength > 0 && Known(s, 4) && Known(s, 1)
      && IdentityOf(s, 0) == IdentityOf(s, 2) == IdentityOf(s, 3) == IdentityOf(s, 4) == Some(7)
      && IdentityOf(s, 1) == Some(8)
  {
    hide IdentityOf;
    forall e | 0 <= e <= 4 ensures IdentityOf(Recorded(FOUND_AGAIN), e).Some? {
      RecordedIdentity(FOUND_AGAIN, e);
    }
    RecordedIdentity(FOUND_AGAIN, 0);
    RecordedIdentity(FOUND_AGAIN, 1);
    RecordedIdentity(FOUND_AGAIN, 2);
    RecordedIdentity(FOUND_AGAIN, 3);
    RecordedIdentity(FOUND_AGAIN, 4);
  }

  lemma FoundAgainBisect()
    ensures Bisect(Recorded(FOUND_AGAIN), EpochOutcome(4, 7), 0, 4) == 2
    ensures Bisect(Recorded(FOUND_AGAIN), EpochOutcome(1, 8), 0, 1) == 1
  {
    var s := Recorded(FOUND_AGAIN);
    FoundAgainIdentities();
    hide IdentityOf, Bisect, Known, Recorded;
    BisectUnfolds(s, EpochOutcome(4, 7), 0, 4);
    BisectUnfolds(s, EpochOutcome(4, 7), 0, 2);
    BisectBounds(s, EpochOutcome(4, 7), 2, 2);
    BisectUnfolds(s, EpochOutcome(1, 8), 0, 1);
    BisectBounds(s, EpochOutcome(1, 8), 1, 1);
  }

  lemma BrokenRun(s: Source, upTo: nat, a: nat, b: nat, c: nat)
    requires s.epochLength > 0 && a <= b <= c <= upTo
    requires IdentityOf(s, a) == IdentityOf(s, c) && IdentityOf(s, b) != IdentityOf(s, a)
    ensures !Contiguous(s, upTo)
  {
    hide IdentityOf;
  }

  /** An identity that comes back need not mislead: probing epochs 2 and 1 finds both changes. */
  lemma ReturningIdentityMayBeFound()
    ensures var s := Recorded(FOUND_AGAIN);
      Known(s, 4) && !Contiguous(s, 4) && Found(s, 4) == [Transition(2, 8, 7), Transition(1, 7, 8)]
  {
    var s := Recorded(FOUND_AGAIN);
    FoundAgainIdentities();
    FoundAgainBisect();
    hide IdentityOf, Bisect, Recorded, Found, Contiguous;
    BrokenRun(s, 4, 0, 1, 2);
    FoundUnfolds(s, 4);
    FoundUnfolds(s, 1);
    BisectBounds(s, OutcomeAt(s, 0), 0, 0);
    FoundUnfolds(s, 0);
  }

  // ---------------------------------------------------------------- the method

  /** Strictly older, real, and linked: what holds of the reported list without any assumption. */
  ghost predicate Chained(s: Source, ts: seq<Transition>)
    requires s.epochLength > 0
  {
    && (forall i :: 0 <= i < |ts| ==>
          && Changes(s, ts[i].epoch)
          && IdentityOf(s, ts[i].epoch - 1) == Some(ts[i].oldIdentity)
          && IdentityOf(s, ts[i].epoch) == Some(ts[i].newIdentity))
    && (forall i :: 0 <= i < |ts| - 1 ==> ts[i + 1].epoch < ts[i].epoch && ts[i + 1].newIdentity == ts[i].oldIdentity)
  }

  /** The newest transition reported is that of the reported identity, the next search starts just
      below the oldest one. */
  ghost predicate Linked(ts: seq<Transition>, identity: Identity, active: nat, current: EpochOutcome) {
    if ts == [] then current == EpochOutcome(active, identity)
    else
      && ts[0].newIdentity == identity && ts[0].epoch <= active
      && ts[|ts| - 1].epoch == current.epoch + 1 && ts[|ts| - 1].oldIdentity == current.identity
  }

  /** What is reported when every outcome is known. */
  ghost predicate Reports(s: Source, active: nat, full: bool, ts: seq<Transition>) {
    Known(s, active) ==> ts == if full then Found(s, active) else Newest(Found(s, active))
  }

  ghost predicate FoundSoFar(s: Source, active: nat, current: nat, ts: seq<Transition>) {
    Known(s, active) ==> current <= active && ts + Found(s, current) == Found(s, active)
  }

  lemma SearchBegins(s: Source, first: EpochOutcome)
    requires s.epochLength > 0
    ensures Chained(s, []) && Linked([], first.identity, first.epoch, first)
    ensures FoundSoFar(s, first.epoch, first.epoch, [])
  {
  }

  lemma LinkedFromTop(ts: seq<Transition>, identity: Identity, active: nat, current: EpochOutcome)
    requires Linked(ts, identity, active, current)
    ensures ts != [] ==> ts[0].newIdentity == identity && ts[0].epoch <= active
  {
  }

  lemma FoundStep(s: Source, active: nat, current: EpochOutcome, t: Transition, ts: seq<Transition>)
    requires s.epochLength > 0 && current.epoch <= active && FoundSoFar(s, active, current.epoch, ts)
    requires IdentityOf(s, current.epoch) == Some(current.identity)
    requires 0 < t.epoch == Bisect(s, current, 0, current.epoch) && IdentityOf(s, t.epoch) == Some(t.newIdentity)
    requires IdentityOf(s, t.epoch - 1) == Some(t.oldIdentity)
    ensures FoundSoFar(s, active, t.epoch - 1, ts + [t])
    ensures ts == [] ==> Reports(s, active, false, [t])
  {
    hide IdentityOf, Bisect;
    if Known(s, active) {
      BisectBounds(s, current, 0, current.epoch);
      assert Found(s, current.epoch) == [t] + Found(s, t.epoch - 1);
      assert ts + ([t] + Found(s, t.epoch - 1)) == (ts + [t]) + Found(s, t.epoch - 1);
    }
  }

  lemma FoundAll(s: Source, active: nat, current: EpochOutcome, full: bool, ts: seq<Transition>)
    requires s.epochLength > 0 && current.epoch <= active && FoundSoFar(s, active, current.epoch, ts)
    requires IdentityOf(s, current.epoch) == Some(current.identity) && Bisect(s, current, 0, current.epoch) == 0
    requires !full ==> ts == []
    ensures Reports(s, active, full, ts)
  {
    hide IdentityOf, Bisect;
    if Known(s, active) {
      assert Found(s, current.epoch) == [];
    }
  }

  /** A transition found below the ones so far. */
  ghost predicate NextBelow(s: Source, current: EpochOutcome, t: Transition)
    requires s.epochLength > 0
  {
    && 0 < t.epoch == Bisect(s, current, 0, current.epoch)
    && t.newIdentity == current.identity && RunStart(s, current, t.epoch)
    && IdentityOf(s, t.epoch - 1) == Some(t.oldIdentity)
  }

  lemma ExtendChained(s: Source, ts: seq<Transition>, t: Transition)
    requires s.epochLength > 0 && Chained(s, ts) && Changes(s, t.epoch)
    requires IdentityOf(s, t.epoch - 1) == Some(t.oldIdentity) && IdentityOf(s, t.epoch) == Some(t.newIdentity)
    requires ts != [] ==> t.epoch < ts[|ts| - 1].epoch && t.newIdentity == ts[|ts| - 1].oldIdentity
    ensures Chained(s, ts + [t])
  {
    hide IdentityOf, Changes;
    var more := ts + [t];
    assert forall i :: 0 <= i < |ts| ==> more[i] == ts[i];
  }

  lemma ExtendChain(
      s: Source, ts: seq<Transition>, identity: Identity, active: nat, current: EpochOutcome, t: Transition)
    requires s.epochLength > 0 && Chained(s, ts) && Linked(ts, identity, active, current) && current.epoch <= active
    requires NextBelow(s, current, t)
    ensures t.epoch <= current.epoch && IdentityOf(s, t.epoch) == Some(t.newIdentity)
    ensures Chained(s, ts + [t]) && Linked(ts + [t], identity, active, EpochOutcome(t.epoch - 1, t.oldIdentity))
  {
    hide IdentityOf, Bisect, Chained;
    ExtendChained(s, ts, t);
    assert ts != [] ==> (ts + [t])[0] == ts[0];
  }

  /** What the reported transitions are: real change points, linked from the active outcome down, and
      those of `Found` when every outcome is known. */
  ghost predicate Listed(s: Source, active: EpochOutcome, full: bool, ts: seq<Transition>)
    requires s.epochLength > 0
  {
    && Chained(s, ts)
    && (ts != [] ==> ts[0].newIdentity == active.identity && ts[0].epoch <= active.epoch)
    && (!full ==> |ts| <= 1)
    && Reports(s, active.epoch, full, ts)
  }

  /** Where the search stands: the transitions so far and the outcome to search below. */
  ghost predicate Progress(s: Source, active: EpochOutcome, current: EpochOutcome, ts: seq<Transition>)
    requires s.epochLength > 0
  {
    && current.epoch <= active.epoch && IdentityOf(s, current.epoch) == Some(current.identity)
    && Chained(s, ts) && Linked(ts, active.identity, active.epoch, current)
    && FoundSoFar(s, active.epoch, current.epoch, ts)
  }

  lemma ProgressStep(s: Source, active: EpochOutcome, current: EpochOutcome, ts: seq<Transition>, t: Transition)
    requires s.epochLength > 0 && Progress(s, active, current, ts) && NextBelow(s, current, t)
    ensures t.epoch <= current.epoch && Progress(s, active, EpochOutcome(t.epoch - 1, t.oldIdentity), ts + [t])
    ensures ts == [] ==> Listed(s, active, false, [t])
  {
    hide IdentityOf, Bisect, Chained, FoundSoFar, Linked, Reports;
    ExtendChain(s, ts, active.identity, active.epoch, current, t);
    FoundStep(s, active.epoch, current, t, ts);
    LinkedFromTop(ts + [t], active.identity, active.epoch, EpochOutcome(t.epoch - 1, t.oldIdentity));
    assert ts == [] ==> ts + [t] == [t];
  }

  lemma ProgressEnds(s: Source, active: EpochOutcome, current: EpochOutcome, full: bool, ts: seq<Transition>)
    requires s.epochLength > 0 && Progress(s, active, current, ts)
    requires Bisect(s, current, 0, current.epoch) == 0 && (!full ==> ts == [])
    ensures Listed(s, active, full, ts)
  {
    hide IdentityOf, Bisect, Chained, FoundSoFar, Linked, Reports;
    FoundAll(s, active.epoch, current, full, ts);
    LinkedFromTop(ts, active.identity, active.epoch, current);
  }

  /** One round: the next older transition, or none. */
  method NextTransition(outcomes: OutcomeCache, current: EpochOutcome) returns (r: Result<Option<Transition>, Fault>)
    requires outcomes.Valid() && IdentityOf(outcomes.source, current.epoch) == Some(current.identity)
    modifies outcomes
    ensures outcomes.Valid()
    ensures r.Err? ==> FailsUpTo(outcomes.source, current.epoch, r.error)
    ensures r.Ok? && r.value.None? ==> Bisect(outcomes.source, current, 0, current.epoch) == 0
    ensures r.Ok? && r.value.Some? ==>
      NextBelow(outcomes.source, current, r.value.value)
  {
    hide IdentityOf, Bisect;
    var start := FindIdentityRunStart(outcomes, current);
    if start.Err? {
      return Err(start.error);
    }
    if start.value == 0 {
      return Ok(None);
    }
    // Both outcomes were probed by the search or are the target's own, so neither can fail.
    var previous := outcomes.Get(start.value - 1);
    var transition := outcomes.Get(start.value);
    r := Ok(Some(Transition(start.value, previous.value.identity, transition.value.identity)));
  }

  /** Round after round below the active outcome, or one round only. */
  method ListTransitions(outcomes: OutcomeCache, active: EpochOutcome, full: bool)
    returns (r: Result<seq<Transition>, Fault>)
    requires outcomes.Valid() && IdentityOf(outcomes.source, active.epoch) == Some(active.identity)
    modifies outcomes
    ensures outcomes.Valid()
    ensures r.Err? ==> FailsUpTo(outcomes.source, active.epoch, r.error)
    ensures r.Ok? ==> Listed(outcomes.source, active, full, r.value)
  {
    ghost var s := outcomes.source;
    var current := active;
    var transitions: seq<Transition> := [];
    SearchBegins(s, active);
    assert Progress(s, active, current, transitions);
    hide Bisect, NextBelow, Listed, Fails;
    while current.epoch != 0
      invariant outcomes.Valid() && Progress(s, active, current, transitions)
      invariant !full ==> transitions == []
      decreases current.epoch
    {
      hide IdentityOf, Chained, Linked, FoundSoFar;
      var next := NextTransition(outcomes, current);
      if next.Err? {
        return Err(next.error);
      }
      if next.value.None? {
        ProgressEnds(s, active, current, full, transitions);
        return Ok(transitions);
      }
      var t := next.value.value;
      ProgressStep(s, active, current, transitions, t);
      assert transitions == [] ==> transitions + [t] == [t];
      transitions := transitions + [t];
      if !full {
        return Ok(transitions);
      }
      current := EpochOutcome(t.epoch - 1, t.oldIdentity);
    }
    BisectBounds(s, current, 0, 0);
    ProgressEnds(s, active, current, full, transitions);
    r := Ok(transitions);
  }

  /** Reports the identity of the outcome active at `startEpoch` and its changes, newest first. */
  method SearchTransitions(s: Source, startEpoch: nat, full: bool) returns (r: Result<Response, Fault>)
    requires s.epochLength > 0
    ensures var active := if startEpoch == 0 then 0 else startEpoch - 1;
      && (Known(s, active) ==> r.Ok?)
      && (r.Err? ==> FailsUpTo(s, active, r.error))
      && (r.Ok? ==>
            && IdentityOf(s, active) == Some(r.value.identity)
            && Listed(s, EpochOutcome(active, r.value.identity), full, r.value.transitions))
  {
    hide IdentityOf, Known, Listed;
    var active := if startEpoch == 0 then 0 else startEpoch - 1;
    var outcomes := new OutcomeCache(s);
    var first := outcomes.Get(active);
    if first.Err? {
      assert FailsUpTo(s, active, first.error);
      NoneKnown(s, active, first.error);
      return Err(first.error);
    }
    var transitions := ListTransitions(outcomes, first.value, full);
    if transitions.Err? {
      NoneKnown(s, active, transitions.error);
      return Err(transitions.error);
    }
    r := Ok(Response(first.value.identity, transitions.value));
  }
}
