/** The ABI surface of an interface together with everything it inherits. */
module AbiClosure {
  import opened Common

  datatype Surface = Surface(functions: set<string>, errors: set<string>, events: set<string>)

  datatype Kind = Function | Error | Event

  predicate In(s: Surface, kind: Kind, signature: string) {
    match kind
    case Function => signature in s.functions
    case Error => signature in s.errors
    case Event => signature in s.events
  }

  function Extend(a: Surface, b: Surface): (r: Surface)
    ensures forall kind, signature :: In(r, kind, signature) <==> In(a, kind, signature) || In(b, kind, signature)
  {
    Surface(a.functions + b.functions, a.errors + b.errors, a.events + b.events)
  }

  datatype InterfaceSpec = InterfaceSpec(name: string, surface: Surface, inherits: seq<string>)

  datatype AbiError = Cycle(path: seq<string>) | UnknownParent(child: string, parent: string)

  /** Specs are filed under their own names. */
  ghost predicate Named(all: map<string, InterfaceSpec>) {
    forall n :: n in all ==> all[n].name == n
  }

  // ---------------------------------------------------------------- inheritance as a relation

  ghost predicate Inherits(all: map<string, InterfaceSpec>, child: InterfaceSpec, parent: InterfaceSpec) {
    exists j :: 0 <= j < |child.inherits| && child.inherits[j] in all && all[child.inherits[j]] == parent
  }

  /** A chain of inheritance starting at `spec`. */
  ghost predicate Walk(all: map<string, InterfaceSpec>, spec: InterfaceSpec, w: seq<InterfaceSpec>) {
    w != [] && w[0] == spec && forall i :: 0 <= i < |w| - 1 ==> Inherits(all, w[i], w[i + 1])
  }

  ghost function Last(w: seq<InterfaceSpec>): InterfaceSpec
    requires w != []
  {
    w[|w| - 1]
  }

  ghost function Names(w: seq<InterfaceSpec>): seq<string> {
    seq(|w|, i requires 0 <= i < |w| => w[i].name)
  }

  ghost predicate Reaches(all: map<string, InterfaceSpec>, spec: InterfaceSpec, t: InterfaceSpec) {
    exists w :: Walk(all, spec, w) && Last(w) == t
  }

  /** The walk ends in the reported fault: at a name already on the stack or earlier in the walk, or
      at a spec with an unknown parent. */
  ghost predicate Explains(all: map<string, InterfaceSpec>, visiting: seq<string>, w: seq<InterfaceSpec>, e: AbiError)
    requires w != []
  {
    match e
    case Cycle(path) => path == visiting + Names(w) && Last(w).name in path[..|path| - 1]
    case UnknownParent(child, parent) => Last(w).name == child && parent in Last(w).inherits && parent !in all
  }

  ghost predicate Faulty(all: map<string, InterfaceSpec>, visiting: seq<string>, spec: InterfaceSpec) {
    exists w, e :: Walk(all, spec, w) && Explains(all, visiting, w, e)
  }

  lemma WalkFromParent(all: map<string, InterfaceSpec>, spec: InterfaceSpec, j: nat, w: seq<InterfaceSpec>)
    requires j < |spec.inherits| && spec.inherits[j] in all && Walk(all, all[spec.inherits[j]], w)
    ensures Walk(all, spec, [spec] + w) && Last([spec] + w) == Last(w)
  {
  }

  lemma WalkTail(all: map<string, InterfaceSpec>, spec: InterfaceSpec, w: seq<InterfaceSpec>) returns (j: nat)
    requires Walk(all, spec, w) && |w| > 1
    ensures j < |spec.inherits| && spec.inherits[j] in all && Walk(all, all[spec.inherits[j]], w[1..])
    ensures Last(w[1..]) == Last(w)
  {
    assert Inherits(all, w[0], w[1]);
    j :| 0 <= j < |spec.inherits| && spec.inherits[j] in all && all[spec.inherits[j]] == w[1];
    var v := w[1..];
    forall i | 0 <= i < |v| - 1 ensures Inherits(all, v[i], v[i + 1]) {
      assert v[i] == w[i + 1] && v[i + 1] == w[i + 2];
    }
  }

  lemma FaultFromParent(
      all: map<string, InterfaceSpec>, visiting: seq<string>, spec: InterfaceSpec, j: nat,
      w: seq<InterfaceSpec>, e: AbiError)
    requires j < |spec.inherits| && spec.inherits[j] in all && Walk(all, all[spec.inherits[j]], w)
    requires Explains(all, visiting + [spec.name], w, e)
    ensures Walk(all, spec, [spec] + w) && Explains(all, visiting, [spec] + w, e)
  {
  }

  /** A spec whose name is new and whose parents are known and faultless has no fault. */
  lemma NoFault(all: map<string, InterfaceSpec>, visiting: seq<string>, spec: InterfaceSpec)
    requires spec.name !in visiting
    requires forall j :: 0 <= j < |spec.inherits| ==>
      spec.inherits[j] in all && !Faulty(all, visiting + [spec.name], all[spec.inherits[j]])
    ensures !Faulty(all, visiting, spec)
  {
    forall w, e | Walk(all, spec, w) ensures !Explains(all, visiting, w, e) {
      if |w| == 1 {
        assert (visiting + Names(w))[..|visiting|] == visiting;
      } else {
        var j := WalkTail(all, spec, w);
        assert visiting + [spec.name] + Names(w[1..]) == visiting + Names(w);
        assert !Explains(all, visiting + [spec.name], w[1..], e);
      }
    }
  }

  /** What is inherited is what the parents reach. */
  lemma ReachesStep(all: map<string, InterfaceSpec>, spec: InterfaceSpec, t: InterfaceSpec)
    ensures Reaches(all, spec, t) <==> t == spec || ReachesVia(all, spec, |spec.inherits|, t)
  {
    if t == spec {
      assert Walk(all, spec, [spec]) && Last([spec]) == t;
    } else if Reaches(all, spec, t) {
      var w :| Walk(all, spec, w) && Last(w) == t;
      var j := WalkTail(all, spec, w);
    }
    if ReachesVia(all, spec, |spec.inherits|, t) {
      var j :| 0 <= j < |spec.inherits| && spec.inherits[j] in all && Reaches(all, all[spec.inherits[j]], t);
      var w :| Walk(all, all[spec.inherits[j]], w) && Last(w) == t;
      WalkFromParent(all, spec, j, w);
    }
  }

  /** `t` is reached through one of the first `n` parents. */
  ghost predicate ReachesVia(all: map<string, InterfaceSpec>, spec: InterfaceSpec, n: nat, t: InterfaceSpec) {
    exists j :: 0 <= j < n <= |spec.inherits| && spec.inherits[j] in all && Reaches(all, all[spec.inherits[j]], t)
  }

  ghost predicate CollectsVia(all: map<string, InterfaceSpec>, spec: InterfaceSpec, n: nat, s: Surface) {
    forall kind, signature :: In(s, kind, signature) <==>
      In(spec.surface, kind, signature) || exists t :: ReachesVia(all, spec, n, t) && In(t.surface, kind, signature)
  }

  /** The union of surfaces over everything reached, the spec itself included. */
  ghost predicate Collects(all: map<string, InterfaceSpec>, spec: InterfaceSpec, s: Surface) {
    forall kind, signature :: In(s, kind, signature) <==>
      exists t :: Reaches(all, spec, t) && In(t.surface, kind, signature)
  }

  /** Functions, errors and events are each the union over everything reached. */
  lemma CollectsMeans(all: map<string, InterfaceSpec>, spec: InterfaceSpec, s: Surface)
    requires Collects(all, spec, s)
    ensures forall g :: g in s.functions <==> exists t :: Reaches(all, spec, t) && g in t.surface.functions
    ensures forall g :: g in s.errors <==> exists t :: Reaches(all, spec, t) && g in t.surface.errors
    ensures forall g :: g in s.events <==> exists t :: Reaches(all, spec, t) && g in t.surface.events
  {
    hide Reaches;
    forall g ensures g in s.functions <==> exists t :: Reaches(all, spec, t) && g in t.surface.functions {
      assert In(s, Function, g) <==> g in s.functions;
      assert forall t: InterfaceSpec :: In(t.surface, Function, g) <==> g in t.surface.functions;
    }
    forall g ensures g in s.errors <==> exists t :: Reaches(all, spec, t) && g in t.surface.errors {
      assert In(s, Error, g) <==> g in s.errors;
      assert forall t: InterfaceSpec :: In(t.surface, Error, g) <==> g in t.surface.errors;
    }
    forall g ensures g in s.events <==> exists t :: Reaches(all, spec, t) && g in t.surface.events {
      assert In(s, Event, g) <==> g in s.events;
      assert forall t: InterfaceSpec :: In(t.surface, Event, g) <==> g in t.surface.events;
    }
  }

  lemma CollectsStep(all: map<string, InterfaceSpec>, spec: InterfaceSpec, n: nat, s: Surface, p: Surface)
    requires n < |spec.inherits| && spec.inherits[n] in all
    requires CollectsVia(all, spec, n, s) && Collects(all, all[spec.inherits[n]], p)
    ensures CollectsVia(all, spec, n + 1, Extend(s, p))
  {
  }

  lemma CollectsAll(all: map<string, InterfaceSpec>, spec: InterfaceSpec, s: Surface)
    requires CollectsVia(all, spec, |spec.inherits|, s)
    ensures Collects(all, spec, s)
  {
    forall t ensures Reaches(all, spec, t) <==> t == spec || ReachesVia(all, spec, |spec.inherits|, t) {
      ReachesStep(all, spec, t);
    }
  }

  /** The names not on the stack; each level of the recursion takes one away. */
  ghost function NotVisiting(all: map<string, InterfaceSpec>, spec: InterfaceSpec, visiting: seq<string>): set<string> {
    all.Keys + {spec.name} - set n | n in visiting
  }

  lemma VisitingGrows(
      all: map<string, InterfaceSpec>, spec: InterfaceSpec, parent: InterfaceSpec, visiting: seq<string>)
    requires spec.name !in visiting && parent.name in all
    ensures NotVisiting(all, parent, visiting + [spec.name]) < NotVisiting(all, spec, visiting)
  {
    assert spec.name in visiting + [spec.name];
    assert spec.name in NotVisiting(all, spec, visiting);
    assert spec.name !in NotVisiting(all, parent, visiting + [spec.name]);
  }

  /** Walks the inheritance graph depth first with the names under way on a stack.  It terminates on
      every graph, succeeds exactly when no walk closes a cycle or meets an unknown parent, and then
      restores the stack and returns the union over everything reached, diamonds included.  On
      failure the error describes a real walk. */
  method SurfaceForSpec(spec: InterfaceSpec, all: map<string, InterfaceSpec>, visiting: seq<string>)
    returns (r: Result<Surface, AbiError>, visiting': seq<string>)
    requires Named(all)
    ensures r.Ok? <==> !Faulty(all, visiting, spec)
    ensures r.Ok? ==> visiting' == visiting && Collects(all, spec, r.value)
    ensures r.Err? ==> exists w :: Walk(all, spec, w) && Explains(all, visiting, w, r.error)
    decreases NotVisiting(all, spec, visiting)
  {
    hide Collects, CollectsVia, Faulty;
    visiting' := visiting;
    if spec.name in visiting {
      r := Err(Cycle(visiting + [spec.name]));
      SelfFault(all, visiting, spec, r.error);
      return;
    }
    visiting' := visiting' + [spec.name];
    var surface := spec.surface;
    CollectsNothingYet(all, spec);
    for i := 0 to |spec.inherits|
      invariant visiting' == visiting + [spec.name]
      invariant CollectsVia(all, spec, i, surface)
      invariant forall j :: 0 <= j < i ==>
        spec.inherits[j] in all && !Faulty(all, visiting + [spec.name], all[spec.inherits[j]])
    {
      var parent := spec.inherits[i];
      if parent !in all {
        r := Err(UnknownParent(spec.name, parent));
        SelfFault(all, visiting, spec, r.error);
        return;
      }
      VisitingGrows(all, spec, all[parent], visiting);
      var inherited;
      inherited, visiting' := SurfaceForSpec(all[parent], all, visiting');
      if inherited.Err? {
        r := Err(inherited.error);
        ghost var w :| Walk(all, all[parent], w) && Explains(all, visiting + [spec.name], w, r.error);
        FaultFromParent(all, visiting, spec, i, w, r.error);
        FaultyBy(all, visiting, spec, [spec] + w, r.error);
        return;
      }
      CollectsStep(all, spec, i, surface, inherited.value);
      surface := Extend(surface, inherited.value);
    }
    visiting' := visiting'[..|visiting'| - 1];
    CollectsAll(all, spec, surface);
    NoFault(all, visiting, spec);
    r := Ok(surface);
  }

  lemma FaultyBy(
      all: map<string, InterfaceSpec>, visiting: seq<string>, spec: InterfaceSpec, w: seq<InterfaceSpec>, e: AbiError)
    requires Walk(all, spec, w) && Explains(all, visiting, w, e)
    ensures Faulty(all, visiting, spec)
  {
  }

  lemma SelfFault(all: map<string, InterfaceSpec>, visiting: seq<string>, spec: InterfaceSpec, e: AbiError)
    requires if e.Cycle? then e.path == visiting + [spec.name] && spec.name in visiting
             else e.child == spec.name && e.parent in spec.inherits && e.parent !in all
    ensures Walk(all, spec, [spec]) && Explains(all, visiting, [spec], e) && Faulty(all, visiting, spec)
  {
    assert Names([spec]) == [spec.name];
    assert (visiting + [spec.name])[..|visiting|] == visiting;
    FaultyBy(all, visiting, spec, [spec], e);
  }

  lemma CollectsNothingYet(all: map<string, InterfaceSpec>, spec: InterfaceSpec)
    ensures CollectsVia(all, spec, 0, spec.surface)
  {
  }

  ghost predicate RepeatsName(all: map<string, InterfaceSpec>, spec: InterfaceSpec, w: seq<InterfaceSpec>) {
    Walk(all, spec, w) && exists i, j :: 0 <= i < j < |w| && w[i].name == w[j].name
  }

  ghost predicate HasUnknownParent(all: map<string, InterfaceSpec>, t: InterfaceSpec) {
    exists parent :: parent in t.inherits && parent !in all
  }

  ghost predicate CyclicOrUnknown(all: map<string, InterfaceSpec>, spec: InterfaceSpec) {
    (exists w :: RepeatsName(all, spec, w)) || exists t :: Reaches(all, spec, t) && HasUnknownParent(all, t)
  }

  lemma CycleRepeats(w: seq<InterfaceSpec>) returns (i: nat)
    requires w != [] && Last(w).name in Names(w)[..|w| - 1]
    ensures i + 1 < |w| && w[i].name == Last(w).name
  {
    i :| 0 <= i < |w| - 1 && Names(w)[i] == Last(w).name;
  }

  lemma FaultIsReal(all: map<string, InterfaceSpec>, spec: InterfaceSpec, w: seq<InterfaceSpec>, e: AbiError)
    requires Walk(all, spec, w) && Explains(all, [], w, e)
    ensures CyclicOrUnknown(all, spec)
  {
    hide Inherits;
    if e.Cycle? {
      assert [] + Names(w) == Names(w);
      hide Names;
      var i := CycleRepeats(w);
      assert RepeatsName(all, spec, w);
    } else {
      assert Reaches(all, spec, Last(w)) && HasUnknownParent(all, Last(w));
    }
  }

  lemma WalkPrefix(all: map<string, InterfaceSpec>, spec: InterfaceSpec, w: seq<InterfaceSpec>, n: nat)
    requires Walk(all, spec, w) && 0 < n <= |w|
    ensures Walk(all, spec, w[..n])
  {
  }

  lemma RepeatExplains(all: map<string, InterfaceSpec>, w: seq<InterfaceSpec>, i: nat)
    requires i + 1 < |w| && w[i].name == Last(w).name
    ensures Explains(all, [], w, Cycle(Names(w)))
  {
    var path := Names(w);
    assert [] + path == path;
    assert path[..|path| - 1][i] == w[i].name;
  }

  lemma RepeatIsFault(all: map<string, InterfaceSpec>, spec: InterfaceSpec, w: seq<InterfaceSpec>, i: nat, j: nat)
    requires Walk(all, spec, w) && i < j < |w| && w[i].name == w[j].name
    ensures Faulty(all, [], spec)
  {
    var v := w[..j + 1];
    WalkPrefix(all, spec, w, j + 1);
    assert v[i] == w[i] && Last(v) == w[j];
    hide Inherits, Walk, Explains;
    RepeatExplains(all, v, i);
    FaultyBy(all, [], spec, v, Cycle(Names(v)));
  }

  /** From an empty stack, a fault is an inheritance cycle or an unknown parent within reach. */
  lemma FaultyIffCyclicOrUnknown(all: map<string, InterfaceSpec>, spec: InterfaceSpec)
    ensures Faulty(all, [], spec) <==> CyclicOrUnknown(all, spec)
  {
    hide Explains;
    if Faulty(all, [], spec) {
      var w: seq<InterfaceSpec>, e :| Walk(all, spec, w) && Explains(all, [], w, e);
      FaultIsReal(all, spec, w, e);
    }
    if w: seq<InterfaceSpec> :| RepeatsName(all, spec, w) {
      var i, j :| 0 <= i < j < |w| && w[i].name == w[j].name;
      RepeatIsFault(all, spec, w, i, j);
    }
    if t :| Reaches(all, spec, t) && HasUnknownParent(all, t) {
      UnknownIsFault(all, spec, t);
    }
  }

  lemma UnknownIsFault(all: map<string, InterfaceSpec>, spec: InterfaceSpec, t: InterfaceSpec)
    requires Reaches(all, spec, t) && HasUnknownParent(all, t)
    ensures Faulty(all, [], spec)
  {
    var w :| Walk(all, spec, w) && Last(w) == t;
    var parent :| parent in t.inherits && parent !in all;
    FaultyBy(all, [], spec, w, UnknownParent(t.name, parent));
  }
}
