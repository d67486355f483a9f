/** The FIPS module's finite state model: guarded lookup, the default model, and the
    validator with its depth-first search. */
module FsmModel {
  import opened Wrappers

  datatype State = PowerOff | PowerOn | SelfTest | CryptoOfficerMode | UserMode | ErrorState | Zeroization

  const STATE_COUNT := 7

  /** The `repr(u8)` discriminant. */
  function Idx(s: State): (r: nat)
    ensures r < STATE_COUNT
  {
    match s
    case PowerOff => 0
    case PowerOn => 1
    case SelfTest => 2
    case CryptoOfficerMode => 3
    case UserMode => 4
    case ErrorState => 5
    case Zeroization => 6
  }

  const ALL_STATES: seq<State> :=
    [PowerOff, PowerOn, SelfTest, CryptoOfficerMode, UserMode, ErrorState, Zeroization]

  lemma AllStatesComplete(s: State)
    ensures ALL_STATES[Idx(s)] == s
  {
  }

  datatype Transition = Transition(from: State, to: State, event: string, guard: Option<string>)

  datatype Model = Model(transitions: seq<Transition>, initial: State)

  predicate Fires(t: Transition, from: State, event: string) {
    t.from == from && t.event == event
  }

  /** The first transition declared for a state and an event. */
  function FindEdge(ts: seq<Transition>, from: State, event: string): (r: Option<Transition>)
    ensures r.Some? ==> r.value in ts && Fires(r.value, from, event)
    ensures r.None? ==> forall i :: 0 <= i < |ts| ==> !Fires(ts[i], from, event)
  {
    if ts == [] then None
    else if Fires(ts[0], from, event) then Some(ts[0])
    else FindEdge(ts[1..], from, event)
  }

  datatype TransitionError =
    | NoSuchTransition(from: State, event: string)
    | GuardFailed(from: State, to: State, event: string, guard: string)

  /** `FsmModel::transition`. */
  function Step(m: Model, current: State, event: string, guard: string -> bool): Result<State, TransitionError> {
    match FindEdge(m.transitions, current, event)
    case None => Err(NoSuchTransition(current, event))
    case Some(t) =>
      if t.guard.Some? && !guard(t.guard.value) then Err(GuardFailed(current, t.to, event, t.guard.value))
      else Ok(t.to)
  }

  // ----- the rules --------------------------------------------------------------------

  predicate Edge(m: Model, a: State, b: State) {
    exists i :: 0 <= i < |m.transitions| && m.transitions[i].from == a && m.transitions[i].to == b
  }

  ghost predicate IsPath(m: Model, path: seq<State>) {
    && path != [] && path[0] == m.initial
    && forall i :: 0 <= i < |path| - 1 ==> Edge(m, path[i], path[i + 1])
  }

  ghost predicate Reachable(m: Model, s: State) {
    exists path: seq<State> :: IsPath(m, path) && path[|path| - 1] == s
  }

  predicate Ambiguous(m: Model, from: State, event: string) {
    exists i, j :: 0 <= i < j < |m.transitions| && Fires(m.transitions[i], from, event) && Fires(m.transitions[j], from, event)
  }

  datatype Violation =
    | Unreachable(s: State)
    | Dead(s: State)
    | NoSelfTest
    | BypassesSelfTest(to: State)
    | BadErrorExit(to: State)
    | DirectShutdown(from: State)
    | Duplicate(from: State, event: string)

  /** What each violation means. */
  ghost predicate Violates(m: Model, v: Violation) {
    match v
    case Unreachable(s) => !Reachable(m, s)
    case Dead(s) => s != PowerOff && forall b: State :: !Edge(m, s, b)
    case NoSelfTest => !Edge(m, PowerOn, SelfTest)
    case BypassesSelfTest(to) => to != SelfTest && Edge(m, PowerOn, to)
    case BadErrorExit(to) => to != Zeroization && to != PowerOff && Edge(m, ErrorState, to)
    case DirectShutdown(from) => (from == CryptoOfficerMode || from == UserMode) && Edge(m, from, PowerOff)
    case Duplicate(from, event) => Ambiguous(m, from, event)
  }

  ghost predicate WellFormed(m: Model) {
    forall v: Violation :: !Violates(m, v)
  }

  // ----- reachability -------------------------------------------------------------------

  lemma ReachableInitial(m: Model)
    ensures Reachable(m, m.initial)
  {
    assert IsPath(m, [m.initial]);
  }

  lemma ReachableStep(m: Model, a: State, b: State)
    requires Reachable(m, a) && Edge(m, a, b)
    ensures Reachable(m, b)
  {
    hide Edge;
    var path: seq<State> :| IsPath(m, path) && path[|path| - 1] == a;
    var longer := path + [b];
    forall i | 0 <= i < |longer| - 1
      ensures Edge(m, longer[i], longer[i + 1])
    {
      assert i < |path| - 1 ==> longer[i] == path[i] && longer[i + 1] == path[i + 1];
    }
    assert IsPath(m, longer) && longer[|longer| - 1] == b;
  }

  /** A set that holds the initial state and is closed under edges holds every
      reachable state. */
  lemma {:induction false} ClosedPath(m: Model, closed: set<State>, path: seq<State>, k: nat)
    requires m.initial in closed && IsPath(m, path) && k < |path|
    requires forall a: State, b: State :: a in closed && Edge(m, a, b) ==> b in closed
    ensures path[k] in closed
    decreases k
  {
    hide Edge;
    if k > 0 {
      ClosedPath(m, closed, path, k - 1);
      assert Edge(m, path[k - 1], path[k]);
    }
  }

  lemma ClosedReachable(m: Model, closed: set<State>, s: State)
    requires m.initial in closed && Reachable(m, s)
    requires forall a: State, b: State :: a in closed && Edge(m, a, b) ==> b in closed
    ensures s in closed
  {
    hide Edge;
    var path: seq<State> :| IsPath(m, path) && path[|path| - 1] == s;
    ClosedPath(m, closed, path, |path| - 1);
  }

  // ----- the validator ------------------------------------------------------------------

  ghost predicate IsAdjacency(m: Model, adjacency: seq<seq<State>>) {
    |adjacency| == STATE_COUNT && forall a: State, b: State :: b in adjacency[Idx(a)] <==> Edge(m, a, b)
  }

  method BuildAdjacency(m: Model) returns (adjacency: array<seq<State>>)
    ensures fresh(adjacency) && IsAdjacency(m, adjacency[..])
  {
    adjacency := new seq<State>[STATE_COUNT](_ => []);
    var i := 0;
    while i < |m.transitions|
      invariant 0 <= i <= |m.transitions| && adjacency.Length == STATE_COUNT
      invariant forall a: State, b: State :: b in adjacency[Idx(a)] <==> EdgeBefore(m, a, b, i)
    {
      var t := m.transitions[i];
      assert forall a: State :: Idx(a) == Idx(t.from) ==> a == t.from;
      adjacency[Idx(t.from)] := adjacency[Idx(t.from)] + [t.to];
      i := i + 1;
    }
  }

  predicate EdgeBefore(m: Model, a: State, b: State, n: nat)
    requires n <= |m.transitions|
  {
    exists i :: 0 <= i < n && m.transitions[i].from == a && m.transitions[i].to == b
  }

  /** What the search knows: `open` are the states still on the stack. */
  ghost predicate SearchInvariant(m: Model, seen: set<State>, open: set<State>) {
    && m.initial in seen && open <= seen
    && (forall s: State :: s in seen ==> Reachable(m, s))
    && (forall a: State, b: State :: a in seen && a !in open && Edge(m, a, b) ==> b in seen)
  }

  lemma SeeNext(m: Model, seen: set<State>, open: set<State>, state: State, next: State)
    requires SearchInvariant(m, seen, open) && state in seen && Edge(m, state, next)
    ensures SearchInvariant(m, seen + {next}, open + {next})
  {
    hide Edge, Reachable;
    ReachableStep(m, state, next);
  }

  lemma Close(m: Model, seen: set<State>, open: set<State>, state: State)
    requires SearchInvariant(m, seen, open + {state}) && forall b: State :: Edge(m, state, b) ==> b in seen
    ensures SearchInvariant(m, seen, open)
  {
    hide Edge, Reachable;
  }

  ghost predicate Marks(visited: seq<bool>, seen: set<State>) {
    |visited| == STATE_COUNT && forall s: State :: visited[Idx(s)] <==> s in seen
  }

  lemma MarkOne(visited: seq<bool>, seen: set<State>, s: State)
    requires Marks(visited, seen)
    ensures Marks(visited[Idx(s) := true], seen + {s})
  {
  }

  ghost function Elements(stack: seq<State>): set<State> {
    set s | s in stack
  }

  lemma ElementsPush(stack: seq<State>, s: State)
    ensures Elements(stack + [s]) == Elements(stack) + {s}
  {
  }

  /** The inner loop: push every target not visited yet. */
  method Expand(m: Model, state: State, targets: seq<State>, visited: array<bool>, todo: seq<State>, ghost before: set<State>)
    returns (stack: seq<State>, ghost seen: set<State>)
    requires forall b: State :: b in targets <==> Edge(m, state, b)
    requires Marks(visited[..], before) && state in before && SearchInvariant(m, before, Elements(todo) + {state})
    modifies visited
    ensures Marks(visited[..], seen) && SearchInvariant(m, seen, Elements(stack))
    ensures before < seen || (before == seen && stack == todo)
  {
    hide Edge, SearchInvariant, Elements;
    stack, seen := todo, before;
    var k := 0;
    while k < |targets|
      invariant 0 <= k <= |targets|
      invariant Marks(visited[..], seen) && state in seen && SearchInvariant(m, seen, Elements(stack) + {state})
      invariant forall j :: 0 <= j < k ==> targets[j] in seen
      invariant before < seen || (before == seen && stack == todo)
    {
      var next := targets[k];
      assert next in targets;
      if !visited[Idx(next)] {
        SeeNext(m, seen, Elements(stack) + {state}, state, next);
        ElementsPush(stack, next);
        assert Elements(stack) + {state} + {next} == Elements(stack + [next]) + {state};
        MarkOne(visited[..], seen, next);
        visited[Idx(next)] := true;
        stack, seen := stack + [next], seen + {next};
      }
      k := k + 1;
    }
    Close(m, seen, Elements(stack), state);
  }

  /** Depth-first search from the initial state. */
  method Search(m: Model) returns (visited: array<bool>)
    ensures fresh(visited) && visited.Length == STATE_COUNT
    ensures forall s: State :: visited[Idx(s)] <==> Reachable(m, s)
  {
    hide Edge, Reachable, SearchInvariant, Elements;
    var adjacency := BuildAdjacency(m);
    var targets := adjacency[..];
    visited := new bool[STATE_COUNT](_ => false);
    var stack := [m.initial];
    ghost var seen: set<State> := {};
    assert Marks(visited[..], seen);
    MarkOne(visited[..], seen, m.initial);
    visited[Idx(m.initial)] := true;
    seen := seen + {m.initial};
    SearchStarts(m, stack);
    while stack != []
      invariant Marks(visited[..], seen) && SearchInvariant(m, seen, Elements(stack))
      decreases AllSet() - seen, |stack|
    {
      var state, rest := stack[|stack| - 1], stack[..|stack| - 1];
      assert stack == rest + [state];
      ElementsPush(rest, state);
      OpenSeen(m, seen, Elements(stack), state);
      ghost var before := seen;
      stack, seen := Expand(m, state, targets[Idx(state)], visited, rest, seen);
      AllSetHolds(seen);
    }
    SearchEnds(m, seen, stack);
  }

  ghost function AllSet(): set<State> {
    set s | s in ALL_STATES
  }

  lemma AllSetHolds(seen: set<State>)
    ensures seen <= AllSet()
  {
    forall s | s in seen
      ensures s in AllSet()
    {
      AllStatesComplete(s);
    }
  }

  lemma SearchStarts(m: Model, stack: seq<State>)
    requires stack == [m.initial]
    ensures SearchInvariant(m, {} + {m.initial}, Elements(stack))
  {
    hide Edge, Reachable;
    ReachableInitial(m);
  }

  lemma OpenSeen(m: Model, seen: set<State>, open: set<State>, state: State)
    requires SearchInvariant(m, seen, open) && state in open
    ensures state in seen
  {
  }

  lemma SearchEnds(m: Model, seen: set<State>, stack: seq<State>)
    requires SearchInvariant(m, seen, Elements(stack)) && stack == []
    ensures forall s: State :: s in seen <==> Reachable(m, s)
  {
    hide Edge, Reachable;
    forall s: State | Reachable(m, s)
      ensures s in seen
    {
      ClosedReachable(m, seen, s);
    }
  }

  /** Unreachable and dead states. */
  method CheckStates(m: Model) returns (out: seq<Violation>)
    ensures forall v: Violation :: v in out <==> (v.Unreachable? || v.Dead?) && Violates(m, v)
  {
    hide Edge, Reachable;
    var visited := Search(m);
    var adjacency := BuildAdjacency(m);
    var marks, targets := visited[..], adjacency[..];
    out := [];
    var i := 0;
    while i < |ALL_STATES|
      invariant 0 <= i <= |ALL_STATES|
      invariant forall v: Violation :: v in out <==> (v.Unreachable? || v.Dead?) && Idx(v.s) < i && Violates(m, v)
    {
      var s := ALL_STATES[i];
      assert Idx(s) == i && forall t: State :: Idx(t) == i ==> t == s;
      var found: seq<Violation> := [];
      if !marks[Idx(s)] {
        found := found + [Unreachable(s)];
      }
      if s != PowerOff && targets[Idx(s)] == [] {
        found := found + [Dead(s)];
      }
      DeadMeaning(m, targets, s);
      out := out + found;
      i := i + 1;
    }
    assert forall t: State :: Idx(t) < i;
  }

  lemma DeadMeaning(m: Model, adjacency: seq<seq<State>>, s: State)
    requires IsAdjacency(m, adjacency)
    ensures adjacency[Idx(s)] == [] <==> forall b: State :: !Edge(m, s, b)
  {
    hide Edge;
    assert forall b: State :: b in adjacency[Idx(s)] <==> Edge(m, s, b);
    if adjacency[Idx(s)] != [] {
      assert adjacency[Idx(s)][0] in adjacency[Idx(s)];
    }
  }

  type Rule = Transition -> Option<Violation>

  /** The violations that single transitions cause under one rule. */
  method CheckEach(m: Model, rule: Rule) returns (out: seq<Violation>)
    ensures forall v: Violation :: v in out <==> exists k :: 0 <= k < |m.transitions| && rule(m.transitions[k]) == Some(v)
  {
    out := [];
    var i := 0;
    while i < |m.transitions|
      invariant 0 <= i <= |m.transitions|
      invariant forall v: Violation :: v in out <==> exists k :: 0 <= k < i && rule(m.transitions[k]) == Some(v)
    {
      var r := rule(m.transitions[i]);
      if r.Some? {
        out := out + [r.value];
      }
      i := i + 1;
    }
  }

  function PowerOnRule(t: Transition): Option<Violation> {
    if t.from == PowerOn && t.to != SelfTest then Some(BypassesSelfTest(t.to)) else None
  }

  function ErrorRule(t: Transition): Option<Violation> {
    if t.from == ErrorState && t.to != Zeroization && t.to != PowerOff then Some(BadErrorExit(t.to)) else None
  }

  function ShutdownRule(t: Transition): Option<Violation> {
    if (t.from == CryptoOfficerMode || t.from == UserMode) && t.to == PowerOff then Some(DirectShutdown(t.from)) else None
  }

  method CheckExits(m: Model) returns (out: seq<Violation>)
    ensures forall v: Violation ::
              v in out <==> (v.NoSelfTest? || v.BypassesSelfTest? || v.BadErrorExit? || v.DirectShutdown?) && Violates(m, v)
  {
    var a := CheckEach(m, PowerOnRule);
    var b := CheckEach(m, ErrorRule);
    var c := CheckEach(m, ShutdownRule);
    var none: seq<Violation> := if Edge(m, PowerOn, SelfTest) then [] else [NoSelfTest];
    out := none + a + b + c;
  }

  /** Repeated (state, event) pairs. */
  method CheckDuplicates(m: Model) returns (out: seq<Violation>)
    ensures forall v: Violation :: v in out <==> v.Duplicate? && Violates(m, v)
  {
    out := [];
    var seen: set<(State, string)> := {};
    var i := 0;
    while i < |m.transitions|
      invariant 0 <= i <= |m.transitions|
      invariant forall f: State, e: string :: (f, e) in seen <==> exists k :: 0 <= k < i && Fires(m.transitions[k], f, e)
      invariant forall v: Violation :: v in out <==> v.Duplicate? && AmbiguousBefore(m, v.from, v.event, i)
    {
      var t := m.transitions[i];
      if (t.from, t.event) in seen {
        out := out + [Duplicate(t.from, t.event)];
      }
      ghost var before := seen;
      seen := seen + {(t.from, t.event)};
      assert forall f: State, e: string :: Fires(t, f, e) <==> f == t.from && e == t.event;
      i := i + 1;
    }
  }

  predicate AmbiguousBefore(m: Model, from: State, event: string, n: nat)
    requires n <= |m.transitions|
  {
    exists i, j :: 0 <= i < j < n && Fires(m.transitions[i], from, event) && Fires(m.transitions[j], from, event)
  }

  /** `validate_fsm`: reports exactly the violations there are. */
  method ValidateFsm(m: Model) returns (out: seq<Violation>)
    ensures forall v: Violation :: v in out <==> Violates(m, v)
    ensures out == [] <==> WellFormed(m)
  {
    hide Violates;
    var a := CheckStates(m);
    var b := CheckExits(m);
    var c := CheckDuplicates(m);
    out := a + b + c;
    if out != [] {
      assert out[0] in out;
    }
  }

  // ----- order does not matter ------------------------------------------------------------

  /** In a model without ambiguous pairs, the order of the transition list never
      changes what an event does. */
  lemma ReorderingIrrelevant(m: Model, n: Model, current: State, event: string, guard: string -> bool)
    requires WellFormed(m) && multiset(m.transitions) == multiset(n.transitions)
    ensures Step(m, current, event, guard) == Step(n, current, event, guard)
  {
    hide FindEdge, Fires, Ambiguous;
    var x, y := FindEdge(m.transitions, current, event), FindEdge(n.transitions, current, event);
    assert !Violates(m, Duplicate(current, event));
    if x.Some? {
      assert x.value in multiset(m.transitions);
      FindsMember(n.transitions, current, event, x.value);
    }
    if y.Some? {
      assert y.value in multiset(n.transitions);
      FindsMember(m.transitions, current, event, y.value);
    }
    if x.Some? && y.Some? {
      assert y.value in multiset(n.transitions);
      OnlyOneFires(m, current, event, x.value, y.value);
    }
  }

  /** In a model without ambiguous pairs: an event leads somewhere exactly along an edge of the
      current state whose guard, if any, holds; it is unknown exactly when no edge answers to it;
      and it is refused exactly when the guard of the edge fails. */
  lemma StepMeaning(m: Model, current: State, event: string, guard: string -> bool, to: State)
    requires WellFormed(m)
    ensures Step(m, current, event, guard) == Ok(to) <==>
            exists t :: t in m.transitions && Fires(t, current, event) && t.to == to && (t.guard.Some? ==> guard(t.guard.value))
    ensures Step(m, current, event, guard) == Err(NoSuchTransition(current, event)) <==>
            forall t :: t in m.transitions ==> !Fires(t, current, event)
    ensures forall g :: Step(m, current, event, guard) == Err(GuardFailed(current, to, event, g)) <==>
              exists t :: t in m.transitions && Fires(t, current, event) && t.to == to && t.guard == Some(g) && !guard(g)
  {
    hide FindEdge, Fires;
    assert !Violates(m, Duplicate(current, event));
    var edge := FindEdge(m.transitions, current, event);
    forall t | t in m.transitions && Fires(t, current, event) ensures edge == Some(t) {
      FindsMember(m.transitions, current, event, t);
      OnlyOneFires(m, current, event, t, edge.value);
    }
    if edge.None? {
      forall t | t in m.transitions ensures !Fires(t, current, event) {
      }
    }
  }

  lemma OnlyOneFires(m: Model, from: State, event: string, t: Transition, u: Transition)
    requires !Ambiguous(m, from, event) && t in m.transitions && u in m.transitions
    requires Fires(t, from, event) && Fires(u, from, event)
    ensures t == u
  {
    hide Fires;
    var i :| 0 <= i < |m.transitions| && m.transitions[i] == t;
    var j :| 0 <= j < |m.transitions| && m.transitions[j] == u;
  }

  lemma FindsMember(ts: seq<Transition>, from: State, event: string, t: Transition)
    requires t in ts && Fires(t, from, event)
    ensures FindEdge(ts, from, event).Some?
  {
    var i :| 0 <= i < |ts| && ts[i] == t;
  }
}
