/** The shadow-fork storage overlay: writes and events kept in memory over an untouched database,
    with nested checkpoints that are committed or reverted. */
module OverlayJournal {
  import opened Common

  datatype Cell = Cell(address: nat, slot: nat)
  datatype Event = Event(address: nat, data: nat)

  datatype Op =
    | Load(cell: Cell)
    | Store(cell: Cell, value: nat)
    | Emit(event: Event)
    | Checkpoint
    | Commit(index: nat)
    | Revert(index: nat)

  datatype Layer = Layer(overlay: map<Cell, nat>, events: seq<Event>)
  datatype Journal = Journal(top: Layer, snapshots: seq<Layer>)

  const EMPTY: Journal := Journal(Layer(map[], []), [])

  predicate Plain(op: Op) {
    op.Load? || op.Store? || op.Emit?
  }

  /** What a load sees: the overlay first, the database value below it. */
  function Seen(below: nat, layer: Layer, cell: Cell): nat {
    if cell in layer.overlay then layer.overlay[cell] else below
  }

  function Effect(layer: Layer, op: Op): Layer {
    match op
    case Store(cell, value) => layer.(overlay := layer.overlay[cell := value])
    case Emit(event) => layer.(events := layer.events + [event])
    case _ => layer
  }

  /** One operation; None is the panic on a checkpoint that is not the innermost one. */
  function Step(j: Journal, op: Op): Option<Journal> {
    match op
    case Checkpoint => Some(Journal(j.top, j.snapshots + [j.top]))
    case Commit(i) =>
      if i + 1 == |j.snapshots| then Some(Journal(j.top, j.snapshots[..i])) else None
    case Revert(i) =>
      if i + 1 == |j.snapshots| then Some(Journal(j.snapshots[i], j.snapshots[..i])) else None
    case _ => Some(Journal(Effect(j.top, op), j.snapshots))
  }

  ghost function Run(ops: seq<Op>): Option<Journal> {
    if ops == [] then Some(EMPTY)
    else
      var before := Run(ops[..|ops| - 1]);
      if before.None? then None else Step(before.value, ops[|ops| - 1])
  }

  // ---------------------------------------------------------------- brackets, without a machine

  /** How many checkpoints are open, as long as every commit and revert names the innermost. */
  ghost function Depth(ops: seq<Op>): Option<nat> {
    if ops == [] then Some(0)
    else
      var before, op := Depth(ops[..|ops| - 1]), ops[|ops| - 1];
      if before.None? then None
      else match op
        case Checkpoint => Some(before.value + 1)
        case Commit(i) => if i + 1 == before.value then Some(i) else None
        case Revert(i) => if i + 1 == before.value then Some(i) else None
        case _ => before
  }

  /** The trace runs without a panic exactly when it is well-bracketed. */
  lemma {:induction false} RunsIffWellBracketed(ops: seq<Op>)
    ensures Run(ops).Some? <==> Depth(ops).Some?
    ensures Run(ops).Some? ==> |Run(ops).value.snapshots| == Depth(ops).value
  {
    if ops == [] {
    } else {
      RunsIffWellBracketed(ops[..|ops| - 1]);
    }
  }

  /** Checkpoints opened so far less those closed. */
  ghost function Opened(ops: seq<Op>): int {
    if ops == [] then 0
    else
      var op := ops[|ops| - 1];
      Opened(ops[..|ops| - 1]) + if op.Checkpoint? then 1 else if op.Commit? || op.Revert? then -1 else 0
  }

  /** The operation at `p` closes no checkpoint, or names the one opened last and not yet closed. */
  ghost predicate NamesInnermost(ops: seq<Op>, p: nat)
    requires p < |ops|
  {
    ops[p].Commit? || ops[p].Revert? ==> ops[p].index == Opened(ops[..p]) - 1
  }

  /** A trace runs without a panic exactly when every commit and revert names the innermost open
      checkpoint, numbered from zero by how many were open when it was taken. */
  lemma {:induction false} RunsIffInnermostNamed(ops: seq<Op>)
    ensures Run(ops).Some? <==> forall p: nat :: p < |ops| ==> NamesInnermost(ops, p)
    ensures Run(ops).Some? ==> |Run(ops).value.snapshots| == Opened(ops)
  {
    if ops == [] {
    } else {
      var n := |ops| - 1;
      var before := ops[..n];
      RunsIffInnermostNamed(before);
      assert forall p: nat :: p < n ==> before[..p] == ops[..p] && before[p] == ops[p];
      assert forall p: nat :: p < n ==> (NamesInnermost(before, p) <==> NamesInnermost(ops, p));
      assert NamesInnermost(ops, n) <==>
        (ops[n].Commit? || ops[n].Revert? ==> ops[n].index == Opened(before) - 1);
    }
  }

  lemma {:induction false} PrefixesAreWellBracketed(ops: seq<Op>, m: nat)
    requires Depth(ops).Some? && m <= |ops|
    ensures Depth(ops[..m]).Some?
    decreases |ops|
  {
    if m == |ops| {
      assert ops[..m] == ops;
    } else {
      PrefixesAreWellBracketed(ops[..|ops| - 1], m);
      assert ops[..|ops| - 1][..m] == ops[..m];
    }
  }

  ghost function DepthAt(ops: seq<Op>, m: nat): nat
    requires Depth(ops).Some? && m <= |ops|
  {
    PrefixesAreWellBracketed(ops, m);
    Depth(ops[..m]).value
  }

  /** The checkpoint at `c` is still open just before position `n`. */
  ghost predicate OpenAt(ops: seq<Op>, c: nat, n: nat)
    requires Depth(ops).Some?
  {
    && c < n <= |ops| && ops[c].Checkpoint?
    && forall m :: c < m <= n ==> DepthAt(ops, m) > DepthAt(ops, c)
  }

  /** The checkpoint at `c` is reverted by the operation at `r`. */
  ghost predicate RevertedBracket(ops: seq<Op>, c: nat, r: nat)
    requires Depth(ops).Some?
  {
    r < |ops| && OpenAt(ops, c, r) && ops[r].Revert? && DepthAt(ops, c) == ops[r].index
  }

  /** A plain operation outside every reverted bracket. */
  ghost predicate Survives(ops: seq<Op>, p: nat)
    requires Depth(ops).Some?
  {
    p < |ops| && Plain(ops[p]) && forall c: nat, r: nat :: RevertedBracket(ops, c, r) ==> !(c < p < r)
  }

  // ---------------------------------------------------------------- the surviving operations

  /** Positions of surviving operations and of open checkpoints, innermost last. */
  datatype Shape = Shape(kept: seq<nat>, opens: seq<nat>)

  ghost function Below(kept: seq<nat>, bound: nat): seq<nat> {
    if kept == [] || kept[|kept| - 1] < bound then kept else Below(kept[..|kept| - 1], bound)
  }

  /** The shape after the operation at position `n`. */
  ghost function Reshaped(s: Shape, op: Op, n: nat): Shape {
    match op
    case Checkpoint => Shape(s.kept, s.opens + [n])
    case Commit(_) => if s.opens == [] then s else Shape(s.kept, s.opens[..|s.opens| - 1])
    case Revert(_) =>
      if s.opens == [] then s
      else Shape(Below(s.kept, s.opens[|s.opens| - 1]), s.opens[..|s.opens| - 1])
    case _ => Shape(s.kept + [n], s.opens)
  }

  ghost function ShapeOf(ops: seq<Op>): Shape {
    if ops == [] then Shape([], []) else Reshaped(ShapeOf(ops[..|ops| - 1]), ops[|ops| - 1], |ops| - 1)
  }

  ghost predicate Increasing(s: seq<nat>) {
    forall i, j :: 0 <= i < j < |s| ==> s[i] < s[j]
  }

  lemma {:induction false} BelowIsPrefix(kept: seq<nat>, bound: nat)
    requires Increasing(kept)
    ensures |Below(kept, bound)| <= |kept| && Below(kept, bound) == kept[..|Below(kept, bound)|]
    ensures forall p :: p in Below(kept, bound) <==> p in kept && p < bound
    ensures Increasing(Below(kept, bound))
  {
    if kept != [] && kept[|kept| - 1] >= bound {
      BelowIsPrefix(kept[..|kept| - 1], bound);
      assert kept == kept[..|kept| - 1] + [kept[|kept| - 1]];
    }
  }

  /** The operations at the given positions. */
  ghost function Picked(ops: seq<Op>, at: seq<nat>): (r: seq<Op>)
    ensures |r| == |at|
  {
    seq(|at|, i requires 0 <= i < |at| => if at[i] < |ops| then ops[at[i]] else Checkpoint)
  }

  lemma PickedFromPrefix(ops: seq<Op>, n: nat, at: seq<nat>)
    requires n <= |ops| && forall i :: 0 <= i < |at| ==> at[i] < n
    ensures Picked(ops[..n], at) == Picked(ops, at)
  {
  }

  /** The layer after a straight run of plain operations from nothing. */
  ghost function Replay(ops: seq<Op>): Layer {
    if ops == [] then EMPTY.top else Effect(Replay(ops[..|ops| - 1]), ops[|ops| - 1])
  }

  lemma {:induction false} BelowBelow(kept: seq<nat>, a: nat, b: nat)
    requires a <= b
    ensures Below(Below(kept, b), a) == Below(kept, a)
  {
    if kept != [] && kept[|kept| - 1] >= b {
      BelowBelow(kept[..|kept| - 1], a, b);
    }
  }

  lemma ReshapedIsOrdered(s: Shape, op: Op, n: nat)
    requires Ordered(s, n)
    ensures Ordered(Reshaped(s, op, n), n + 1)
  {
    if op.Revert? && s.opens != [] {
      BelowIsPrefix(s.kept, s.opens[|s.opens| - 1]);
    }
  }

  /** Shapes are made of positions in the trace, in order. */
  lemma {:induction false} ShapeIsOrdered(ops: seq<Op>)
    ensures Ordered(ShapeOf(ops), |ops|)
  {
    if ops == [] {
    } else {
      var n := |ops| - 1;
      hide Ordered, Reshaped;
      ShapeIsOrdered(ops[..n]);
      ReshapedIsOrdered(ShapeOf(ops[..n]), ops[n], n);
    }
  }

  ghost function Survivors(ops: seq<Op>): seq<Op> {
    Picked(ops, ShapeOf(ops).kept)
  }

  // ---------------------------------------------------------------- the machine follows the shape

  /** The top layer replays the survivors; each snapshot replays those before its checkpoint. */
  ghost predicate Matches(ops: seq<Op>, s: Shape, j: Journal) {
    && |s.opens| == |j.snapshots|
    && j.top == Replay(Picked(ops, s.kept))
    && forall i :: 0 <= i < |s.opens| ==> j.snapshots[i] == Replay(Picked(ops, Below(s.kept, s.opens[i])))
  }

  ghost predicate Ordered(s: Shape, n: nat) {
    && Increasing(s.kept) && (forall i :: 0 <= i < |s.kept| ==> s.kept[i] < n)
    && Increasing(s.opens) && (forall i :: 0 <= i < |s.opens| ==> s.opens[i] < n)
  }

  lemma MatchesLonger(ops: seq<Op>, n: nat, s: Shape, j: Journal)
    requires n <= |ops| && Ordered(s, n) && Matches(ops[..n], s, j)
    ensures Matches(ops, s, j)
  {
    hide Picked, Replay;
    PickedFromPrefix(ops, n, s.kept);
    forall i | 0 <= i < |s.opens|
      ensures Picked(ops, Below(s.kept, s.opens[i])) == Picked(ops[..n], Below(s.kept, s.opens[i]))
    {
      BelowIsPrefix(s.kept, s.opens[i]);
      PickedFromPrefix(ops, n, Below(s.kept, s.opens[i]));
    }
  }

  lemma ReplayStep(ops: seq<Op>, kept: seq<nat>, n: nat)
    requires n < |ops|
    ensures Replay(Picked(ops, kept + [n])) == Effect(Replay(Picked(ops, kept)), ops[n])
  {
    var picked := Picked(ops, kept + [n]);
    assert picked[..|kept|] == Picked(ops, kept);
  }

  lemma MatchesPlain(ops: seq<Op>, n: nat, s: Shape, j: Journal)
    requires n < |ops| && Ordered(s, n) && Matches(ops, s, j)
    ensures Matches(ops, Shape(s.kept + [n], s.opens), Journal(Effect(j.top, ops[n]), j.snapshots))
  {
    ReplayStep(ops, s.kept, n);
    hide Picked, Replay;
    forall i | 0 <= i < |s.opens| ensures Below(s.kept + [n], s.opens[i]) == Below(s.kept, s.opens[i]) {
      assert (s.kept + [n])[..|s.kept|] == s.kept;
    }
  }

  lemma MatchesCheckpoint(ops: seq<Op>, n: nat, s: Shape, j: Journal)
    requires Ordered(s, n) && Matches(ops, s, j)
    ensures Matches(ops, Shape(s.kept, s.opens + [n]), Journal(j.top, j.snapshots + [j.top]))
  {
  }

  lemma MatchesRevert(ops: seq<Op>, n: nat, s: Shape, j: Journal)
    requires Ordered(s, n) && Matches(ops, s, j) && s.opens != []
    ensures var i := |s.opens| - 1;
      Matches(ops, Shape(Below(s.kept, s.opens[i]), s.opens[..i]), Journal(j.snapshots[i], j.snapshots[..i]))
  {
    hide Picked, Replay;
    var last := s.opens[|s.opens| - 1];
    forall i | 0 <= i < |s.opens| - 1 ensures Below(Below(s.kept, last), s.opens[i]) == Below(s.kept, s.opens[i]) {
      BelowBelow(s.kept, s.opens[i], last);
    }
  }

  lemma MatchesCommit(ops: seq<Op>, s: Shape, j: Journal)
    requires Matches(ops, s, j) && s.opens != []
    ensures var i := |s.opens| - 1;
      Matches(ops, Shape(s.kept, s.opens[..i]), Journal(j.top, j.snapshots[..i]))
  {
  }

  lemma MatchesNothing()
    ensures Matches([], ShapeOf([]), EMPTY)
  {
  }

  lemma MatchesStep(ops: seq<Op>, n: nat, s: Shape, j: Journal)
    requires n < |ops| && Ordered(s, n) && Matches(ops[..n], s, j) && Step(j, ops[n]).Some?
    ensures Matches(ops, Reshaped(s, ops[n], n), Step(j, ops[n]).value)
  {
    assert |s.opens| == |j.snapshots|;
    hide Matches, Ordered;
    MatchesLonger(ops, n, s, j);
    match ops[n]
    case Checkpoint => MatchesCheckpoint(ops, n, s, j);
    case Commit(_) => MatchesCommit(ops, s, j);
    case Revert(_) => MatchesRevert(ops, n, s, j);
    case _ => MatchesPlain(ops, n, s, j);
  }

  /** Overlay and events are those of a straight run of the surviving operations, and every open
      checkpoint holds the straight run of the survivors before it. */
  lemma {:induction false} JournalIsReplayOfSurvivors(ops: seq<Op>)
    requires Run(ops).Some?
    ensures Matches(ops, ShapeOf(ops), Run(ops).value)
  {
    if ops == [] {
      MatchesNothing();
    } else {
      var n := |ops| - 1;
      hide Matches, Ordered, Reshaped, Step;
      JournalIsReplayOfSurvivors(ops[..n]);
      ShapeIsOrdered(ops[..n]);
      MatchesStep(ops, n, ShapeOf(ops[..n]), Run(ops[..n]).value);
    }
  }

  // ---------------------------------------------------------------- who survives

  lemma DepthOfPrefix(ops: seq<Op>, n: nat, m: nat)
    requires Depth(ops).Some? && m <= n <= |ops|
    ensures Depth(ops[..n]).Some? && DepthAt(ops[..n], m) == DepthAt(ops, m)
  {
    PrefixesAreWellBracketed(ops, n);
    assert ops[..n][..m] == ops[..m];
  }

  lemma OpenInPrefix(ops: seq<Op>, n: nat, c: nat, k: nat)
    requires Depth(ops).Some? && k <= n <= |ops|
    ensures Depth(ops[..n]).Some? && (OpenAt(ops[..n], c, k) <==> OpenAt(ops, c, k))
  {
    PrefixesAreWellBracketed(ops, n);
    hide Depth;
    if c < k {
      forall m | c <= m <= k ensures DepthAt(ops[..n], m) == DepthAt(ops, m) {
        DepthOfPrefix(ops, n, m);
      }
    }
  }

  lemma BracketInPrefix(ops: seq<Op>, n: nat, c: nat, r: nat)
    requires Depth(ops).Some? && r < n <= |ops|
    ensures Depth(ops[..n]).Some? && (RevertedBracket(ops[..n], c, r) <==> RevertedBracket(ops, c, r))
  {
    OpenInPrefix(ops, n, c, r);
    hide Depth;
    if c < r {
      DepthOfPrefix(ops, n, c);
    }
  }

  /** The open checkpoints of a shape are the open checkpoints of the trace, one per depth. */
  ghost predicate OpensAreOpen(ops: seq<Op>, opens: seq<nat>)
    requires Depth(ops).Some?
  {
    && |opens| == Depth(ops).value
    && forall i :: 0 <= i < |opens| ==> OpenAt(ops, opens[i], |ops|) && DepthAt(ops, opens[i]) == i
  }

  /** A checkpoint open before the last operation is open after it unless that operation closes it. */
  lemma StaysOpen(ops: seq<Op>, c: nat)
    requires Depth(ops).Some? && ops != []
    requires var n := |ops| - 1; Depth(ops[..n]).Some? && OpenAt(ops[..n], c, n)
    requires DepthAt(ops[..|ops| - 1], c) < Depth(ops).value
    ensures OpenAt(ops, c, |ops|) && DepthAt(ops, c) == DepthAt(ops[..|ops| - 1], c)
  {
    var n := |ops| - 1;
    DepthAtEnd(ops);
    OpenInPrefix(ops, n, c, n);
    DepthOfPrefix(ops, n, c);
    hide Depth, DepthAt;
    forall m | c < m <= |ops| ensures DepthAt(ops, m) > DepthAt(ops, c) {
    }
  }

  lemma DepthAtEnd(ops: seq<Op>)
    requires Depth(ops).Some?
    ensures DepthAt(ops, |ops|) == Depth(ops).value
  {
    assert ops[..|ops|] == ops;
  }

  /** What the last operation does to the depth and to the open checkpoints of the shape. */
  lemma LastOpens(ops: seq<Op>, s: Shape)
    requires ops != [] && Depth(ops).Some? && Depth(ops[..|ops| - 1]).Some?
    requires |s.opens| == Depth(ops[..|ops| - 1]).value
    ensures var n := |ops| - 1; var opens := Reshaped(s, ops[n], n).opens;
      && |opens| == Depth(ops).value
      && opens == if ops[n].Checkpoint? then s.opens + [n] else s.opens[..|opens|]
  {
  }

  lemma NewCheckpointIsOpen(ops: seq<Op>)
    requires ops != [] && Depth(ops).Some? && ops[|ops| - 1].Checkpoint?
    ensures OpenAt(ops, |ops| - 1, |ops|) && DepthAt(ops, |ops| - 1) + 1 == Depth(ops).value
  {
    assert ops[..|ops|] == ops;
  }

  lemma {:induction false} ShapeOpensAreOpen(ops: seq<Op>)
    requires Depth(ops).Some?
    ensures OpensAreOpen(ops, ShapeOf(ops).opens)
  {
    if ops == [] {
    } else {
      var n := |ops| - 1;
      var pre, s := ops[..n], ShapeOf(ops[..n]);
      PrefixesAreWellBracketed(ops, n);
      ShapeOpensAreOpen(pre);
      LastOpens(ops, s);
      var opens := ShapeOf(ops).opens;
      if ops[n].Checkpoint? {
        NewCheckpointIsOpen(ops);
      }
      hide Depth, DepthAt, OpenAt, Reshaped;
      forall i | 0 <= i < |opens| && i < |s.opens| ensures OpenAt(ops, opens[i], |ops|) && DepthAt(ops, opens[i]) == i {
        StaysOpen(ops, opens[i]);
      }
    }
  }

  /** Only one open checkpoint sits at a given depth. */
  lemma OpenIsUnique(ops: seq<Op>, a: nat, b: nat, n: nat)
    requires Depth(ops).Some? && OpenAt(ops, a, n) && OpenAt(ops, b, n) && DepthAt(ops, a) == DepthAt(ops, b)
    ensures a == b
  {
  }

  /** Reverting closes exactly the bracket of the innermost open checkpoint. */
  lemma LastRevert(ops: seq<Op>, c: nat)
    requires Depth(ops).Some? && ops != [] && ops[|ops| - 1].Revert?
    ensures var n := |ops| - 1; var opens := ShapeOf(ops[..n]).opens;
      && opens != [] && (RevertedBracket(ops, c, n) <==> c == opens[|opens| - 1])
      && opens[|opens| - 1] < n && ops[opens[|opens| - 1]].Checkpoint?
  {
    var n := |ops| - 1;
    var pre := ops[..n];
    var opens := ShapeOf(pre).opens;
    ShapeOpensAreOpen(pre);
    var last := opens[|opens| - 1];
    OpenInPrefix(ops, n, last, n);
    DepthOfPrefix(ops, n, last);
    if RevertedBracket(ops, c, n) {
      OpenIsUnique(ops, c, last, n);
    }
  }

  lemma ReshapedKeeps(s: Shape, op: Op, n: nat, p: nat)
    requires Ordered(s, n)
    ensures p in Reshaped(s, op, n).kept <==>
      if Plain(op) then p in s.kept || p == n
      else p in s.kept && (op.Revert? && s.opens != [] ==> p < s.opens[|s.opens| - 1])
  {
    if op.Revert? && s.opens != [] {
      BelowIsPrefix(s.kept, s.opens[|s.opens| - 1]);
    }
  }

  /** What the shape keeps is what survives: plain operations outside every reverted bracket. */
  lemma {:induction false} ShapeKeepsSurvivors(ops: seq<Op>, p: nat)
    requires Depth(ops).Some?
    ensures p in ShapeOf(ops).kept <==> Survives(ops, p)
  {
    if ops == [] {
    } else {
      var n := |ops| - 1;
      var pre, s := ops[..n], ShapeOf(ops[..n]);
      PrefixesAreWellBracketed(ops, n);
      ShapeIsOrdered(pre);
      ReshapedKeeps(s, ops[n], n, p);
      ShapeKeepsSurvivors(pre, p);
      SurvivesInPrefix(ops, p);
      OnlyPositionsSurvive(ops, p);
      OnlyPositionsSurvive(pre, p);
      if ops[n].Revert? {
        LastRevert(ops, 0);
      }
      hide Depth, OpenAt, DepthAt, Survives, Reshaped, Ordered, RevertedBracket;
      if !ops[n].Revert? {
        NoBracket(ops, n);
      } else {
        forall c: nat ensures RevertedBracket(ops, c, n) <==> c == s.opens[|s.opens| - 1] {
          LastRevert(ops, c);
        }
        assert RevertedBracket(ops, s.opens[|s.opens| - 1], n);
      }
    }
  }

  lemma NoBracket(ops: seq<Op>, n: nat)
    requires Depth(ops).Some? && n < |ops| && !ops[n].Revert?
    ensures forall c: nat :: !RevertedBracket(ops, c, n)
  {
  }

  lemma OnlyPositionsSurvive(ops: seq<Op>, p: nat)
    requires Depth(ops).Some?
    ensures Survives(ops, p) ==> p < |ops| && Plain(ops[p])
  {
  }

  lemma BracketBounds(ops: seq<Op>)
    requires Depth(ops).Some?
    ensures forall c: nat, r: nat :: RevertedBracket(ops, c, r) ==> c < r < |ops| && ops[r].Revert?
  {
  }

  /** The last operation can only add itself or, as a revert, take its bracket away. */
  lemma SurvivesInPrefix(ops: seq<Op>, p: nat)
    requires Depth(ops).Some? && ops != []
    ensures var n := |ops| - 1;
      && Depth(ops[..n]).Some?
      && (p < n ==>
            (Survives(ops, p) <==> Survives(ops[..n], p) && forall c: nat :: RevertedBracket(ops, c, n) ==> p <= c))
      && (p == n ==> (Survives(ops, p) <==> Plain(ops[n])))
  {
    var n := |ops| - 1;
    PrefixesAreWellBracketed(ops, n);
    BracketBounds(ops);
    hide Depth, OpenAt, DepthAt, RevertedBracket;
    if p < n {
      EarlierSurvives(ops, p);
    }
  }

  lemma EarlierSurvives(ops: seq<Op>, p: nat)
    requires p + 1 < |ops| && Depth(ops).Some? && Depth(ops[..|ops| - 1]).Some?
    ensures var n := |ops| - 1;
      Survives(ops, p) <==> Survives(ops[..n], p) && forall c: nat :: RevertedBracket(ops, c, n) ==> p <= c
  {
    var n := |ops| - 1;
    BracketBounds(ops);
    BracketBounds(ops[..n]);
    hide Depth, OpenAt, DepthAt, RevertedBracket;
    forall c: nat, r: nat | r < n ensures RevertedBracket(ops[..n], c, r) <==> RevertedBracket(ops, c, r) {
      BracketInPrefix(ops, n, c, r);
    }
  }

  // ---------------------------------------------------------------- the same trace without brackets

  lemma HasElement(s: seq<nat>)
    requires s != []
    ensures exists x :: x in s
  {
    assert s[0] in s;
  }

  lemma {:induction false} IncreasingUnique(a: seq<nat>, b: seq<nat>)
    requires Increasing(a) && Increasing(b) && forall x :: x in a <==> x in b
    ensures a == b
  {
    if a == [] {
      if b != [] {
        HasElement(b);
      }
    } else {
      var m := |a| - 1;
      assert a[m] in b;
      var n := |b| - 1;
      assert b[n] in a;
      assert a[m] == b[n];
      forall x ensures x in a[..m] <==> x in b[..n] {
        assert x in a[..m] <==> x in a && x != a[m];
        assert x in b[..n] <==> x in b && x != b[n];
      }
      IncreasingUnique(a[..m], b[..n]);
      assert a == a[..m] + [a[m]] && b == b[..n] + [b[n]];
    }
  }

  /** Before a surviving operation, the same operations have survived by then as survive in the end. */
  lemma {:induction false} SurvivorsOfPrefix(ops: seq<Op>, p: nat)
    requires Depth(ops).Some? && Survives(ops, p)
    ensures ShapeOf(ops[..p]).kept == Below(ShapeOf(ops).kept, p)
  {
    PrefixesAreWellBracketed(ops, p);
    ShapeIsOrdered(ops);
    ShapeIsOrdered(ops[..p]);
    BelowIsPrefix(ShapeOf(ops).kept, p);
    forall q: nat ensures q in ShapeOf(ops[..p]).kept <==> q in Below(ShapeOf(ops).kept, p) {
      ShapeKeepsSurvivors(ops, q);
      ShapeKeepsSurvivors(ops[..p], q);
      SurvivesBefore(ops, p, q);
    }
    IncreasingUnique(ShapeOf(ops[..p]).kept, Below(ShapeOf(ops).kept, p));
  }

  lemma SurvivesBefore(ops: seq<Op>, p: nat, q: nat)
    requires Depth(ops).Some? && Survives(ops, p)
    ensures Depth(ops[..p]).Some? && (Survives(ops[..p], q) <==> Survives(ops, q) && q < p)
  {
    PrefixesAreWellBracketed(ops, p);
    forall c: nat, r: nat | r < p ensures RevertedBracket(ops[..p], c, r) <==> RevertedBracket(ops, c, r) {
      BracketInPrefix(ops, p, c, r);
    }
    hide Depth, OpenAt;
    if q < p && Plain(ops[q]) && Survives(ops[..p], q) {
      forall c: nat, r: nat | RevertedBracket(ops, c, r) ensures !(c < q < r) {
        assert !(c < p < r);
      }
    }
  }

  /** Plain operations alone never touch the snapshots. */
  lemma {:induction false} PlainRun(ops: seq<Op>)
    requires forall i :: 0 <= i < |ops| ==> Plain(ops[i])
    ensures Run(ops) == Some(Journal(Replay(ops), []))
  {
    if ops == [] {
    } else {
      PlainRun(ops[..|ops| - 1]);
    }
  }

  lemma SurvivorsArePlain(ops: seq<Op>)
    requires Depth(ops).Some?
    ensures forall i :: 0 <= i < |Survivors(ops)| ==> Plain(Survivors(ops)[i])
  {
    var kept := ShapeOf(ops).kept;
    forall i | 0 <= i < |kept| ensures Plain(Survivors(ops)[i]) {
      ShapeKeepsSurvivors(ops, kept[i]);
      assert kept[i] in kept;
    }
  }

  /** The final overlay and events are those of the trace with every reverted bracket deleted, and
      the checkpoints and commits around the rest deleted too. */
  lemma {:induction false} RevertedBracketsVanish(ops: seq<Op>)
    requires Run(ops).Some?
    ensures Run(Survivors(ops)) == Some(Journal(Run(ops).value.top, []))
  {
    RunsIffWellBracketed(ops);
    SurvivorsArePlain(ops);
    PlainRun(Survivors(ops));
    JournalIsReplayOfSurvivors(ops);
  }

  /** What is on top just before a surviving operation: the survivors before it, replayed. */
  lemma TopBeforeSurvivor(ops: seq<Op>, k: nat)
    requires Run(ops).Some? && k < |ShapeOf(ops).kept|
    ensures var kept := ShapeOf(ops).kept;
      && kept[k] < |ops| && Run(ops[..kept[k]]).Some?
      && Run(ops[..kept[k]]).value.top == Replay(Picked(ops, kept[..k]))
  {
    var kept := ShapeOf(ops).kept;
    var p := kept[k];
    RunsIffWellBracketed(ops);
    ShapeIsOrdered(ops);
    ShapeKeepsSurvivors(ops, p);
    assert p in kept;
    PrefixesAreWellBracketed(ops, p);
    RunsIffWellBracketed(ops[..p]);
    JournalIsReplayOfSurvivors(ops[..p]);
    SurvivorsOfPrefix(ops, p);
    BelowAt(kept, k);
    hide Run, Depth, ShapeOf, Survives, Below, Picked, Replay;
    PickedFromPrefix(ops, p, kept[..k]);
  }

  /** A load outside every reverted bracket saw what it sees in the trace without them. */
  lemma SurvivingLoadsAgree(db: Cell -> nat, ops: seq<Op>, k: nat)
    requires Run(ops).Some? && k < |Survivors(ops)| && Survivors(ops)[k].Load?
    ensures var p, cell := ShapeOf(ops).kept[k], Survivors(ops)[k].cell;
      && p < |ops| && ops[p] == Load(cell)
      && Run(ops[..p]).Some? && Run(Survivors(ops)[..k]).Some?
      && Seen(db(cell), Run(ops[..p]).value.top, cell) == Seen(db(cell), Run(Survivors(ops)[..k]).value.top, cell)
  {
    var kept := ShapeOf(ops).kept;
    TopBeforeSurvivor(ops, k);
    RunsIffWellBracketed(ops);
    SurvivorsArePlain(ops);
    PlainRun(Survivors(ops)[..k]);
    assert Survivors(ops)[..k] == Picked(ops, kept[..k]);
    hide Run, Depth, ShapeOf, Replay;
  }

  lemma {:induction false} BelowAt(kept: seq<nat>, k: nat)
    requires Increasing(kept) && k < |kept|
    ensures Below(kept, kept[k]) == kept[..k]
    decreases |kept|
  {
    var n := |kept| - 1;
    if k < n {
      BelowAt(kept[..n], k);
      assert kept[..n][..k] == kept[..k];
    }
  }

  // ---------------------------------------------------------------- what stores and events do

  ghost predicate StoresTo(op: Op, cell: Cell) {
    op.Store? && op.cell == cell
  }

  /** The operation at `i` is the last store to the cell. */
  ghost predicate LastStoreTo(ops: seq<Op>, cell: Cell, i: nat) {
    i < |ops| && StoresTo(ops[i], cell) && forall j :: i < j < |ops| ==> !StoresTo(ops[j], cell)
  }

  /** A straight run leaves in each cell what was stored there last. */
  lemma {:induction false} ReplayStores(ops: seq<Op>, cell: Cell)
    ensures cell !in Replay(ops).overlay ==> forall i :: 0 <= i < |ops| ==> !StoresTo(ops[i], cell)
    ensures cell in Replay(ops).overlay ==>
      exists i: nat :: LastStoreTo(ops, cell, i) && Replay(ops).overlay[cell] == ops[i].value
  {
    if ops == [] {
    } else {
      var n := |ops| - 1;
      ReplayStores(ops[..n], cell);
      if StoresTo(ops[n], cell) {
        assert LastStoreTo(ops, cell, n);
      } else if cell in Replay(ops).overlay {
        var i: nat :| LastStoreTo(ops[..n], cell, i) && Replay(ops[..n]).overlay[cell] == ops[..n][i].value;
        assert LastStoreTo(ops, cell, i);
      }
    }
  }

  /** The surviving store to the cell that no surviving store to it follows. */
  ghost predicate LastSurvivingStore(ops: seq<Op>, cell: Cell, p: nat)
    requires Depth(ops).Some?
  {
    && Survives(ops, p) && StoresTo(ops[p], cell)
    && forall q: nat :: Survives(ops, q) && StoresTo(ops[q], cell) ==> q <= p
  }

  /** Positions of survivors and the operations picked there. */
  lemma SurvivorAt(ops: seq<Op>, i: nat)
    requires Depth(ops).Some? && i < |ShapeOf(ops).kept|
    ensures var p := ShapeOf(ops).kept[i]; p < |ops| && Survives(ops, p) && Survivors(ops)[i] == ops[p]
  {
    var kept := ShapeOf(ops).kept;
    assert kept[i] in kept;
    ShapeKeepsSurvivors(ops, kept[i]);
    hide ShapeOf, Depth;
  }

  lemma SurvivorIndex(ops: seq<Op>, p: nat) returns (i: nat)
    requires Depth(ops).Some? && Survives(ops, p)
    ensures i < |ShapeOf(ops).kept| && ShapeOf(ops).kept[i] == p && Survivors(ops)[i] == ops[p]
  {
    ShapeKeepsSurvivors(ops, p);
    i :| 0 <= i < |ShapeOf(ops).kept| && ShapeOf(ops).kept[i] == p;
    SurvivorAt(ops, i);
  }

  lemma LastOfSurvivors(ops: seq<Op>, cell: Cell, i: nat)
    requires Depth(ops).Some? && LastStoreTo(Survivors(ops), cell, i)
    ensures i < |ShapeOf(ops).kept| && LastSurvivingStore(ops, cell, ShapeOf(ops).kept[i])
  {
    ShapeIsOrdered(ops);
    SurvivorAt(ops, i);
    var kept := ShapeOf(ops).kept;
    hide ShapeOf, Depth, Survives;
    forall q: nat | Survives(ops, q) && StoresTo(ops[q], cell) ensures q <= kept[i] {
      var j := SurvivorIndex(ops, q);
      assert Survivors(ops)[j] == ops[q];
    }
  }

  /** After every trace that runs, a load of a cell sees the value of the last surviving store to it,
      or the database value when no store to it survives. */
  lemma LoadSeesLastSurvivingStore(below: nat, ops: seq<Op>, cell: Cell)
    requires Run(ops).Some?
    ensures Depth(ops).Some?
    ensures var seen := Seen(below, Run(ops).value.top, cell);
      || (exists p: nat :: LastSurvivingStore(ops, cell, p) && seen == ops[p].value)
      || ((forall p: nat :: Survives(ops, p) ==> !StoresTo(ops[p], cell)) && seen == below)
  {
    RunsIffWellBracketed(ops);
    JournalIsReplayOfSurvivors(ops);
    ReplayStores(Survivors(ops), cell);
    hide Run, Depth, Survives, ShapeOf, Replay, Picked;
    if cell in Run(ops).value.top.overlay {
      var i: nat :| LastStoreTo(Survivors(ops), cell, i) &&
        Replay(Survivors(ops)).overlay[cell] == Survivors(ops)[i].value;
      LastOfSurvivors(ops, cell, i);
      SurvivorAt(ops, i);
      assert LastSurvivingStore(ops, cell, ShapeOf(ops).kept[i]);
    } else {
      forall p: nat | Survives(ops, p) ensures !StoresTo(ops[p], cell) {
        var i := SurvivorIndex(ops, p);
        assert !StoresTo(Survivors(ops)[i], cell);
      }
    }
  }

  /** `at` lists the positions of the events of a straight run. */
  ghost predicate ListsEmits(ops: seq<Op>, at: seq<nat>, events: seq<Event>) {
    && Increasing(at)
    && (forall p: nat :: p in at <==> p < |ops| && ops[p].Emit?)
    && |events| == |at|
    && forall i :: 0 <= i < |at| ==> at[i] < |ops| && ops[at[i]] == Emit(events[i])
  }

  lemma ListsEmitsStep(ops: seq<Op>, n: nat, at: seq<nat>, events: seq<Event>)
    requires n + 1 == |ops| && ListsEmits(ops[..n], at, events)
    ensures ops[n].Emit? ==> ListsEmits(ops, at + [n], events + [ops[n].event])
    ensures !ops[n].Emit? ==> ListsEmits(ops, at, events)
  {
    assert forall i :: 0 <= i < |at| ==> at[i] in at;
    assert forall p: nat :: p < n ==> ops[p] == ops[..n][p];
  }

  lemma {:induction false} ReplayEvents(ops: seq<Op>) returns (at: seq<nat>)
    ensures ListsEmits(ops, at, Replay(ops).events)
  {
    if ops == [] {
      at := [];
    } else {
      var n := |ops| - 1;
      at := ReplayEvents(ops[..n]);
      ListsEmitsStep(ops, n, at, Replay(ops[..n]).events);
      hide ListsEmits;
      if ops[n].Emit? {
        at := at + [n];
      }
    }
  }

  /** After every trace that runs, the events are those of the surviving emissions, in order. */
  lemma EventsAreSurvivingEmits(ops: seq<Op>) returns (at: seq<nat>)
    requires Run(ops).Some?
    ensures Depth(ops).Some? && Increasing(at)
    ensures forall p: nat :: p in at <==> Survives(ops, p) && ops[p].Emit?
    ensures var events := Run(ops).value.top.events;
      |events| == |at| && forall i :: 0 <= i < |at| ==> at[i] < |ops| && ops[at[i]] == Emit(events[i])
  {
    RunsIffWellBracketed(ops);
    JournalIsReplayOfSurvivors(ops);
    ShapeIsOrdered(ops);
    var kept := ShapeOf(ops).kept;
    var inner := ReplayEvents(Survivors(ops));
    assert forall i :: 0 <= i < |inner| ==> inner[i] in inner;
    at := seq(|inner|, i requires 0 <= i < |inner| => kept[inner[i]]);
    hide Run, Depth, Survives, ShapeOf, Replay, Picked;
    forall i | 0 <= i < |at| ensures at[i] < |ops| && Survives(ops, at[i]) && ops[at[i]] == Survivors(ops)[inner[i]] {
      SurvivorAt(ops, inner[i]);
    }
    forall p: nat ensures p in at <==> Survives(ops, p) && ops[p].Emit? {
      if Survives(ops, p) && ops[p].Emit? {
        var k := SurvivorIndex(ops, p);
        assert k in inner;
        var i :| 0 <= i < |inner| && inner[i] == k;
        assert at[i] == p;
      }
    }
  }
}
