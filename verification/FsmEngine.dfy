/**
  The engine step of a flat machine (src/runtime/fsm.ts): the machine is lifted to a tree whose states
  are all leaves at the root, and state names are read as paths through that tree.
*/
module FsmEngine {
  import opened Wrappers
  import opened Text

  datatype Transition = Transition(from: string, on: Option<string>, to: string)

  datatype Fsm = Fsm(initial: string, states: seq<string>, transitions: seq<Transition>)

  const ANY_STATE := "*"

  // ---------------------------------------------------------------------------------------------
  // Validation
  // ---------------------------------------------------------------------------------------------

  datatype FsmError = BadInitial | BadFrom(index: nat) | BadTo(index: nat)

  /** Initial state and both ends of every transition are declared; `*` stands for any source. */
  predicate IsValidFsm(fsm: Fsm) {
    && fsm.initial in fsm.states
    && forall i | 0 <= i < |fsm.transitions| ::
         && (fsm.transitions[i].from == ANY_STATE || fsm.transitions[i].from in fsm.states)
         && fsm.transitions[i].to in fsm.states
  }

  method ValidateFsm(fsm: Fsm) returns (errors: seq<FsmError>)
    ensures errors == [] <==> IsValidFsm(fsm)
    ensures forall i | 0 <= i < |fsm.transitions| ::
        && (BadFrom(i) in errors <==> fsm.transitions[i].from != ANY_STATE && fsm.transitions[i].from !in fsm.states)
        && (BadTo(i) in errors <==> fsm.transitions[i].to !in fsm.states)
  {
    errors := if fsm.initial in fsm.states then [] else [BadInitial];
    for i := 0 to |fsm.transitions|
      invariant errors == [] <==>
          fsm.initial in fsm.states && forall k | 0 <= k < i ::
            && (fsm.transitions[k].from == ANY_STATE || fsm.transitions[k].from in fsm.states)
            && fsm.transitions[k].to in fsm.states
      invariant forall k | 0 <= k < |fsm.transitions| ::
          && (BadFrom(k) in errors <==>
                k < i && fsm.transitions[k].from != ANY_STATE && fsm.transitions[k].from !in fsm.states)
          && (BadTo(k) in errors <==> k < i && fsm.transitions[k].to !in fsm.states)
    {
      var t := fsm.transitions[i];
      if t.from != ANY_STATE && t.from !in fsm.states { errors := errors + [BadFrom(i)]; }
      if t.to !in fsm.states { errors := errors + [BadTo(i)]; }
    }
  }

  // ---------------------------------------------------------------------------------------------
  // Stepping
  // ---------------------------------------------------------------------------------------------

  /** The path is the active leaf or lies above it. */
  predicate IsActive(leaf: string, path: string) {
    leaf == path || StartsWith(leaf, path + "/")
  }

  /** In a flat tree a path leads somewhere only if it is a single declared segment. */
  predicate Resolves(fsm: Fsm, path: string) {
    '/' !in path && path in fsm.states
  }

  /** How many leading segments two paths share. */
  function Shared(a: seq<string>, b: seq<string>): (n: nat)
    ensures n <= |a| && n <= |b| && a[..n] == b[..n]
  {
    if a == [] || b == [] || a[0] != b[0] then 0
    else
      var n := Shared(a[1..], b[1..]);
      assert a[..n + 1] == [a[0]] + a[1..][..n] && b[..n + 1] == [b[0]] + b[1..][..n];
      n + 1
  }

  /** The least common ancestor of two paths, `""` for the root. */
  function Lcca(a: string, b: string): string {
    var segments := Split(a, '/');
    Join(segments[..Shared(segments, Split(b, '/'))], "/")
  }

  /** Leaving a scope exits the leaf when the leaf lies in it. */
  predicate Exits(leaf: string, scope: string) {
    scope == "" || leaf == scope || StartsWith(leaf, scope + "/")
  }

  predicate IsEnabled(t: Transition, current: string, event: string) {
    t.on == Some(event) && (t.from == ANY_STATE || IsActive(current, t.from))
  }

  /** The next configuration: what of the old one is not exited, and the leaves the target is entered at. */
  function Fire(fsm: Fsm, t: Transition, current: string): set<string> {
    var scope := if t.from == ANY_STATE then "" else Lcca(t.from, t.to);
    (if Exits(current, scope) then {} else {current}) + (if Resolves(fsm, t.to) then {t.to} else {})
  }

  /** The first enabled transition, in document order. */
  function FirstEnabled(ts: seq<Transition>, current: string, event: string): (r: Option<nat>)
    ensures r.Some? ==> r.value < |ts| && IsEnabled(ts[r.value], current, event)
    ensures r.Some? ==> forall i | 0 <= i < r.value :: !IsEnabled(ts[i], current, event)
    ensures r.None? ==> forall i | 0 <= i < |ts| :: !IsEnabled(ts[i], current, event)
  {
    if ts == [] then None
    else if IsEnabled(ts[0], current, event) then Some(0)
    else
      match FirstEnabled(ts[1..], current, event)
      case None => None
      case Some(i) => Some(i + 1)
  }

  /** The next configuration and the transition taken; no enabled transition means to stay. */
  method Step(fsm: Fsm, current: string, event: string) returns (next: set<string>, transitioned: bool, via: Option<nat>)
    ensures via == FirstEnabled(fsm.transitions, current, event)
    ensures next == if via.Some? then Fire(fsm, fsm.transitions[via.value], current) else {current}
    ensures transitioned <==> next != {current}
  {
    for i := 0 to |fsm.transitions|
      invariant forall k | 0 <= k < i :: !IsEnabled(fsm.transitions[k], current, event)
    {
      var t := fsm.transitions[i];
      if t.on != Some(event) { continue; }
      if !(t.from == ANY_STATE || IsActive(current, t.from)) { continue; }
      next := Fire(fsm, t, current);
      return next, next != {current}, Some(i);
    }
    return {current}, false, None;
  }

  lemma {:induction false} JoinPrefix(parts: seq<string>, n: nat)
    requires 0 < n < |parts|
    ensures StartsWith(Join(parts, "/"), Join(parts[..n], "/") + "/")
    decreases n
  {
    if n > 1 {
      JoinPrefix(parts[1..], n - 1);
      assert parts[1..][..n - 1] == parts[..n][1..];
    } else {
      assert parts[..1] == [parts[0]];
    }
  }

  /** Whatever the shapes of the names, firing a transition always exits the active leaf. */
  lemma {:induction false} FiringExits(t: Transition, current: string)
    requires t.from != ANY_STATE && IsActive(current, t.from)
    ensures Exits(current, Lcca(t.from, t.to))
  {
    var segments := Split(t.from, '/');
    var n := Shared(segments, Split(t.to, '/'));
    var scope := Lcca(t.from, t.to);
    JoinSplit(t.from, '/');
    if n == |segments| {
      assert segments[..n] == segments;
    } else if n > 0 {
      JoinPrefix(segments, n);
      assert StartsWith(t.from, scope + "/");
      if current != t.from {
        assert current[..|t.from| + 1] == t.from + "/";
        assert current[..|scope| + 1] == scope + "/";
      }
    }
  }

  /** A fired transition leaves exactly its target when the name is a single segment, and nothing otherwise. */
  lemma {:induction false} FireLands(fsm: Fsm, t: Transition, current: string)
    requires IsValidFsm(fsm) && t in fsm.transitions && (t.from == ANY_STATE || IsActive(current, t.from))
    ensures Fire(fsm, t, current) == if '/' in t.to then {} else {t.to}
  {
    hide Lcca, IsActive;
    if t.from != ANY_STATE { FiringExits(t, current); }
  }
}
