/** The hardfork schedule: written into a genesis config, read back, and queried by time. */
module Hardforks {
  import opened Common


  /** Number of variants, from Genesis (0) to T14 (18), in activation order. */
  const VARIANTS: nat := 19

  type Fork = f: nat | f < VARIANTS witness 0
  const GENESIS: Fork := 0

  type Timestamp = t: nat | t <= U64_MAX witness 0

  /** Fields of the genesis config that Tempo knows; the rest is `Foreign`. */
  datatype Field = ForkTime(fork: Fork) | EpochLength | GeneralGasLimit | RecoveryFactory | Foreign(name: string)

  datatype Json = Null | Number(n: nat) | Address(a: nat) | Other

  type Config = map<Field, Json>

  // ---------------------------------------------------------------- command line

  datatype HardforkArgs = HardforkArgs(hardfork: Option<Fork>, explicit: map<Fork, Timestamp>) {
    /** An explicit flag wins; otherwise forks after the latest one asked for are disabled. */
    function Time(fork: Fork): Option<Timestamp> {
      if fork == GENESIS then Some(0)
      else if fork in explicit then Some(explicit[fork])
      else if hardfork.Some? && fork > hardfork.value then None
      else Some(0)
    }

    function Value(fork: Fork): Json {
      match Time(fork)
      case None => Null
      case Some(t) => Number(t)
    }

    /** Writes every post-genesis fork, null when disabled, and nothing else. */
    method WriteTo(config: Config) returns (config': Config)
      ensures Written(this, config, config')
      ensures WritesSchedule(this, config')
    {
      config' := config;
      for f := 1 to VARIANTS
        invariant forall k :: k in config' <==> k in config || (k.ForkTime? && 0 < k.fork < f)
        invariant forall k :: k in config' ==>
          config'[k] == if k.ForkTime? && 0 < k.fork < f then Value(k.fork) else config[k]
      {
        config' := config'[ForkTime(f) := Value(f)];
      }
      WrittenWritesSchedule(this, config, config');
    }
  }

  // ---------------------------------------------------------------- genesis

  predicate WellFormed(field: Field, value: Json) {
    match field
    case ForkTime(f) => f == GENESIS || value.Null? || (value.Number? && value.n <= U64_MAX)
    case EpochLength => value.Null? || (value.Number? && 0 < value.n <= U64_MAX)
    case GeneralGasLimit => value.Null? || (value.Number? && value.n <= U64_MAX)
    case RecoveryFactory => value.Null? || value.Address?
    case Foreign(_) => true
  }

  predicate Deserializes(config: Config) {
    forall k :: k in config ==> WellFormed(k, config[k])
  }

  /** Fork time read back from the config; one malformed known field resets every field. */
  function ReadTime(config: Config, fork: Fork): Option<nat> {
    if fork == GENESIS then Some(0)
    else if Deserializes(config) && ForkTime(fork) in config && config[ForkTime(fork)].Number?
    then Some(config[ForkTime(fork)].n) else None
  }

  ghost predicate Written(args: HardforkArgs, config: Config, config': Config) {
    && (forall k :: k in config' <==> k in config || (k.ForkTime? && k.fork != GENESIS))
    && (forall k :: k in config' ==>
          config'[k] == if k.ForkTime? && k.fork != GENESIS then args.Value(k.fork) else config[k])
  }

  ghost predicate OthersWellFormed(config: Config) {
    forall k :: k in config && !(k.ForkTime? && k.fork != GENESIS) ==> WellFormed(k, config[k])
  }

  /** Reading back what was written gives every fork its activation exactly when the other known
      fields are well-formed, or no fork was enabled in the first place. */
  lemma RoundTripIff(args: HardforkArgs, config: Config, config': Config)
    requires Written(args, config, config')
    ensures (forall f: Fork :: ReadTime(config', f) == args.Time(f)) <==>
      OthersWellFormed(config) || forall f: Fork :: f != GENESIS ==> args.Time(f).None?
  {
  }

  /** Each fork is written with its explicit time; without one it is null when it comes after the
      fork asked for, and zero otherwise. */
  ghost predicate WritesSchedule(args: HardforkArgs, config': Config) {
    forall f: Fork :: f != GENESIS ==>
      && ForkTime(f) in config'
      && (f in args.explicit ==> config'[ForkTime(f)] == Number(args.explicit[f]))
      && (f !in args.explicit && args.hardfork.Some? && f > args.hardfork.value ==> config'[ForkTime(f)] == Null)
      && (f !in args.explicit && (args.hardfork.None? || f <= args.hardfork.value) ==>
            config'[ForkTime(f)] == Number(0))
  }

  lemma WrittenWritesSchedule(args: HardforkArgs, config: Config, config': Config)
    requires Written(args, config, config')
    ensures WritesSchedule(args, config')
  {
    forall f: Fork | f != GENESIS ensures ForkTime(f) in config' && config'[ForkTime(f)] == args.Value(f) {
    }
  }

  /** A field Tempo knows that does not deserialize. */
  ghost predicate Malformed(config: Config, field: Field)
  {
    && field in config && config[field] != Null
    && match field
       case ForkTime(f) => f != GENESIS && (!config[field].Number? || config[field].n > 0xFFFF_FFFF_FFFF_FFFF)
       case EpochLength => !config[field].Number? || config[field].n == 0 || config[field].n > 0xFFFF_FFFF_FFFF_FFFF
       case GeneralGasLimit => !config[field].Number? || config[field].n > 0xFFFF_FFFF_FFFF_FFFF
       case RecoveryFactory => !config[field].Address?
       case Foreign(_) => false
  }

  /** A fork is active from its time in the config on, unless some known field is malformed: then no
      fork after Genesis ever is. */
  lemma ConfigIsFollowed(config: Config, f: Fork, time: nat)
    requires f != GENESIS
    ensures Active(FromGenesis(config), f, time) <==>
      && (forall field :: !Malformed(config, field))
      && ForkTime(f) in config && config[ForkTime(f)].Number? && config[ForkTime(f)].n <= time
  {
    assert Deserializes(config) <==> forall field :: !Malformed(config, field) by {
      forall field: Field | field in config ensures WellFormed(field, config[field]) <==> !Malformed(config, field) {
      }
      if !Deserializes(config) {
        var field :| field in config && !WellFormed(field, config[field]);
        assert Malformed(config, field);
      }
    }
  }

  /** With a zero epoch length in the config, the default arguments enable every fork at genesis and
      every fork reads back as never. */
  lemma MalformedFieldResetsSchedule(config': Config, f: Fork)
    requires Written(HardforkArgs(None, map[]), map[EpochLength := Number(0)], config') && f != GENESIS
    ensures HardforkArgs(None, map[]).Time(f) == Some(0) && ReadTime(config', f).None?
  {
    assert EpochLength in config' && !WellFormed(EpochLength, config'[EpochLength]);
  }

  // ---------------------------------------------------------------- queries

  /** With well-formed other fields, the chain spec activates each fork when the arguments say so. */
  lemma WrittenScheduleIsFollowed(args: HardforkArgs, config: Config, config': Config, f: Fork, time: nat)
    requires Written(args, config, config') && OthersWellFormed(config)
    ensures Active(FromGenesis(config'), f, time) <==> args.Time(f).Some? && args.Time(f).value <= time
  {
  }

  /** With only a fork asked for, that fork is the active one at every time. */
  lemma RequestedForkIsLatest(args: HardforkArgs, config: Config, config': Config, f: Fork, time: nat)
    requires Written(args, config, config') && OthersWellFormed(config)
    requires args.hardfork == Some(f) && args.explicit == map[]
    ensures IsLatest(FromGenesis(config'), time, f)
  {
    forall g: Fork ensures Active(FromGenesis(config'), g, time) <==> g <= f {
      UnflaggedForkIsFollowed(args, config, config', g, time);
    }
  }

  /** An explicit time is followed exactly, whatever fork is asked for. */
  lemma ExplicitTimeIsFollowed(args: HardforkArgs, config: Config, config': Config, f: Fork, time: nat)
    requires Written(args, config, config') && OthersWellFormed(config)
    requires f != GENESIS && f in args.explicit
    ensures Active(FromGenesis(config'), f, time) <==> args.explicit[f] <= time
  {
    WrittenScheduleIsFollowed(args, config, config', f, time);
  }

  /** Without an explicit time a fork is active from genesis on, unless it comes after the fork asked
      for: then it never is. */
  lemma UnflaggedForkIsFollowed(args: HardforkArgs, config: Config, config': Config, f: Fork, time: nat)
    requires Written(args, config, config') && OthersWellFormed(config)
    requires f !in args.explicit
    ensures Active(FromGenesis(config'), f, time) <==>
      f == GENESIS || args.hardfork.None? || f <= args.hardfork.value
  {
    WrittenScheduleIsFollowed(args, config, config', f, time);
  }

  /** The activations of a chain spec: every fork with a time. */
  type Schedule = map<Fork, nat>

  function FromGenesis(config: Config): (s: Schedule)
    ensures GENESIS in s && s[GENESIS] == 0
  {
    map f: Fork | 0 <= f < VARIANTS && ReadTime(config, f).Some? :: ReadTime(config, f).value
  }

  predicate Active(s: Schedule, fork: Fork, time: nat) {
    fork in s && s[fork] <= time
  }

  /** The latest fork active at a time, Genesis when none is. */
  ghost predicate IsLatest(s: Schedule, time: nat, fork: Fork) {
    (Active(s, fork, time) || fork == GENESIS) && forall g: Fork :: g > fork ==> !Active(s, g, time)
  }

  method HardforkAt(s: Schedule, time: nat) returns (fork: Fork)
    ensures IsLatest(s, time, fork)
  {
    var i := VARIANTS;
    while i > 0
      invariant 0 <= i <= VARIANTS
      invariant forall g: Fork :: g >= i ==> !Active(s, g, time)
    {
      i := i - 1;
      if Active(s, i, time) {
        return i;
      }
    }
    return GENESIS;
  }

  /** The active hardfork never goes back, whatever the schedule. */
  lemma HardforkIsMonotone(s: Schedule, a: nat, b: nat, f: Fork, g: Fork)
    requires a <= b && IsLatest(s, a, f) && IsLatest(s, b, g)
    ensures f <= g
  {
    assert Active(s, f, a) ==> Active(s, f, b);
  }

  /** Genesis is scheduled at zero, and every scheduled fork has its predecessors scheduled no later. */
  ghost predicate Ordered(s: Schedule) {
    GENESIS in s && s[GENESIS] == 0 &&
    forall f: Fork, g: Fork :: f < g && g in s ==> f in s && s[f] <= s[g]
  }

  /** Being at or past a fork and that fork being active are the same thing at all times exactly
      when activations are ordered. */
  lemma ActivityAgreesIffOrdered(s: Schedule)
    ensures (forall f: Fork, g: Fork, t: nat :: IsLatest(s, t, g) ==> (Active(s, f, t) <==> f <= g)) <==> Ordered(s)
  {
    if Ordered(s) {
      forall f: Fork, g: Fork, t: nat | IsLatest(s, t, g) ensures Active(s, f, t) <==> f <= g {
        if f < g && Active(s, g, t) {
          assert f in s && s[f] <= s[g];
        }
      }
    }
    if forall f: Fork, g: Fork, t: nat :: IsLatest(s, t, g) ==> (Active(s, f, t) <==> f <= g) {
      var g0 := LatestExists(s, 0, VARIANTS);
      assert Active(s, GENESIS, 0);
      forall f: Fork, g: Fork | f < g && g in s ensures f in s && s[f] <= s[g] {
        var h := LatestExists(s, s[g], VARIANTS);
        assert Active(s, g, s[g]);
        assert Active(s, f, s[g]);
      }
    }
  }

  /** With fork 2 scheduled but not fork 1, the chain is past fork 1 without fork 1 being active. */
  lemma UnorderedScheduleDisagrees()
    ensures var s: Schedule := map[GENESIS := 0, 2 := 5];
      !Ordered(s) && IsLatest(s, 5, 2) && !Active(s, 1, 5)
  {
    var s: Schedule := map[GENESIS := 0, 2 := 5];
    var one: Fork, two: Fork := 1, 2;
    assert one < two && two in s && one !in s;
  }

  lemma {:induction false} LatestExists(s: Schedule, t: nat, n: nat) returns (g: Fork)
    requires n <= VARIANTS && forall f: Fork :: f >= n ==> !Active(s, f, t)
    ensures IsLatest(s, t, g)
    decreases n
  {
    if n == 0 {
      g := GENESIS;
    } else if Active(s, n - 1, t) {
      g := n - 1;
    } else {
      g := LatestExists(s, t, n - 1);
    }
  }
}
