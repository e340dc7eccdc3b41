/**
  Running compiled packs (src/runtime/loop/driver.ts, src/runtime/loop/gate_dispatch.ts): a stack of
  machines, the parent below and one nested flow per open sub-flow, each in one state.
*/
module FlowRuns {
  import opened Wrappers
  import opened FsmEngine
  import opened CompileV2

  // ---------------------------------------------------------------------------------------------
  // One advance
  // ---------------------------------------------------------------------------------------------

  /** The state after an event; `None` where the driver throws because nothing moved. */
  function TransitionOn(fsm: Fsm, state: string, event: string): Option<string> {
    match FirstEnabled(fsm.transitions, state, event)
    case None => None
    case Some(i) =>
      var next := Fire(fsm, fsm.transitions[i], state);
      if next == {state} then None
      else if next == {} then Some("")
      else if state in next then Some(state)
      else Some(fsm.transitions[i].to)
  }

  method Transition(fsm: Fsm, state: string, event: string) returns (next: Option<string>)
    ensures next == TransitionOn(fsm, state, event)
  {
    hide Lcca, IsActive;
    var config, transitioned, via := Step(fsm, state, event);
    if !transitioned { return None; }
    if config == {} { return Some(""); }
    return Some(if state in config then state else fsm.transitions[via.value].to);
  }

  /**
    Where an advance ends, for any machine that passes validation: at the target of the first enabled
    transition if that is a new state with a one-segment name, at the empty string if the name has a
    slash, and nowhere if the transition leads back to where it started.
  */
  lemma {:induction false} AdvanceLands(fsm: Fsm, state: string, event: string)
    requires IsValidFsm(fsm)
    ensures var first := FirstEnabled(fsm.transitions, state, event);
      TransitionOn(fsm, state, event) ==
        if first.None? then None
        else
          var to := fsm.transitions[first.value].to;
          if '/' in to then Some("") else if to == state then None else Some(to)
  {
    hide Fire;
    var first := FirstEnabled(fsm.transitions, state, event);
    if first.Some? {
      FireLands(fsm, fsm.transitions[first.value], state);
    }
  }

  /** The driver loses its state exactly when the first enabled transition leads to a name with a slash. */
  lemma {:induction false} LandsOnTargetIff(fsm: Fsm, state: string, event: string)
    requires IsValidFsm(fsm) && TransitionOn(fsm, state, event).Some?
    ensures var to := fsm.transitions[FirstEnabled(fsm.transitions, state, event).value].to;
      && to in fsm.states
      && (TransitionOn(fsm, state, event) == Some(to) <==> '/' !in to)
  {
    hide Fire;
    AdvanceLands(fsm, state, event);
  }

  /** A two-state machine that compiles, and whose only advance ends in no state at all. */
  lemma SlashLosesTheState()
    ensures var def := FsmDef("a", [("a", Executor("done", "go")), ("b/c", Terminal(true))],
                              [FsmEngine.Transition("a", Some("go"), "b/c")]);
            && IsCompilable(def, map[]) && IsRecord(def.states)
            && TransitionOn(ToFsm(def), "a", "go") == Some("") && "" !in ToFsm(def).states
  {
    hide Fire;
    var def := FsmDef("a", [("a", Executor("done", "go")), ("b/c", Terminal(true))],
                      [FsmEngine.Transition("a", Some("go"), "b/c")]);
    var fsm := ToFsm(def);
    assert fsm.states == ["a", "b/c"];
    assert def.transitions[0].on == Some("go");
    assert IsEnabled(fsm.transitions[0], "a", "go");
    assert "b/c"[1] == '/';
    AdvanceLands(fsm, "a", "go");
  }

  /**
    Routing is checked for the whole machine, not per state, so a compiled driver can still stop: here
    the gate's own event is routed, but only from another state.
  */
  lemma GlobalRoutingMissesDeadEnd()
    ensures var def := FsmDef("a", [("a", Gate("g", "go", Block)), ("b", Terminal(true))],
                              [FsmEngine.Transition("b", Some("go"), "a")]);
            && IsCompilable(def, map["g" := "true"]) && IsRecord(def.states)
            && TransitionOn(ToFsm(def), "a", "go") == None
  {
    var def := FsmDef("a", [("a", Gate("g", "go", Block)), ("b", Terminal(true))],
                      [FsmEngine.Transition("b", Some("go"), "a")]);
    var fsm := ToFsm(def);
    assert fsm.states == ["a", "b"];
    assert def.transitions[0].on == Some("go");
    assert !IsActive("a", "b");
    assert !IsEnabled(fsm.transitions[0], "a", "go");
  }

  /** A machine that compiles and whose executor's own event leads back to where it started. */
  lemma SelfLoopStopsTheDriver()
    ensures var def := FsmDef("a", [("a", Executor("done", "go"))], [FsmEngine.Transition("a", Some("go"), "a")]);
            && IsCompilable(def, map[]) && IsRecord(def.states)
            && TransitionOn(ToFsm(def), "a", "go") == None
  {
    hide Fire;
    var def := FsmDef("a", [("a", Executor("done", "go"))], [FsmEngine.Transition("a", Some("go"), "a")]);
    var fsm := ToFsm(def);
    assert fsm.states == ["a"];
    assert def.transitions[0].on == Some("go");
    assert IsEnabled(fsm.transitions[0], "a", "go");
    AdvanceLands(fsm, "a", "go");
  }

  /** The state has a way out on the event: the first enabled transition leads to another state. */
  predicate HasWayOut(fsm: Fsm, state: string, event: string) {
    exists i | 0 <= i < |fsm.transitions| ::
      && IsEnabled(fsm.transitions[i], state, event)
      && (forall j | 0 <= j < i :: !IsEnabled(fsm.transitions[j], state, event))
      && (fsm.transitions[i].to != state || '/' in state)
  }

  /** The driver advances on an event exactly when the state has a way out on it. */
  lemma {:induction false} AdvancesIff(fsm: Fsm, state: string, event: string)
    requires IsValidFsm(fsm)
    ensures TransitionOn(fsm, state, event).Some? <==> HasWayOut(fsm, state, event)
  {
    hide Fire, IsEnabled;
    AdvanceLands(fsm, state, event);
  }

  // ---------------------------------------------------------------------------------------------
  // Runs
  // ---------------------------------------------------------------------------------------------

  /** One open machine: the parent, or the named flow, in a state. */
  datatype Frame = Frame(flow: Option<string>, state: string)

  datatype Move =
    | Advance(event: string)  // the driver fires an event, its own or an observed one
    | EnterFlow               // the active state is a sub-flow: its nested machine starts
    | FinishFlow              // the active machine is in a terminal state: back to the one that opened it

  predicate HasMachine(c: CompiledPack, flow: Option<string>) {
    match flow
    case None => true
    case Some(name) => c.flows.Some? && name in c.flows.value
  }

  function MachineOf(c: CompiledPack, flow: Option<string>): Machine
    requires HasMachine(c, flow)
  {
    match flow
    case None => c.machine
    case Some(name) => c.flows.value[name]
  }

  /** Everything the metadata refers to is there. */
  predicate RefersSafely(c: CompiledPack, meta: StateMeta, guardExprs: map<string, string>) {
    && (meta.kind.GateKind? ==> meta.guard.Some? && meta.guard.value in guardExprs && meta.emits.Some?)
    && (meta.kind.DecisionKind? ==>
          forall i | 0 <= i < |meta.branches| && meta.branches[i].Guarded? :: meta.branches[i].guard in guardExprs)
    && (meta.kind.ExecutorKind? ==> meta.emits.Some?)
    && (meta.kind.SubFlowKind? ==> meta.flow.Some? && meta.emits.Some? && HasMachine(c, meta.flow))
  }

  /** The frame is one the driver can work with. */
  predicate IsSafe(c: CompiledPack, f: Frame) {
    && HasMachine(c, f.flow)
    && var m := MachineOf(c, f.flow);
       && m.fsm.Some? && f.state in m.fsm.value.states && f.state in m.meta
       && RefersSafely(c, m.meta[f.state], m.guardExprs)
  }

  /** One move of the stack; `None` when the move is not possible there. */
  function Apply(c: CompiledPack, stack: seq<Frame>, move: Move): Option<seq<Frame>> {
    if stack == [] || !HasMachine(c, stack[|stack| - 1].flow) then None
    else
      var top := stack[|stack| - 1];
      var m := MachineOf(c, top.flow);
      if m.fsm.None? then None
      else
        match move
        case Advance(event) =>
          (match TransitionOn(m.fsm.value, top.state, event)
           case None => None
           case Some(next) => Some(stack[..|stack| - 1] + [Frame(top.flow, next)]))
        case EnterFlow =>
          if top.state in m.meta && m.meta[top.state].kind.SubFlowKind? && m.meta[top.state].flow.Some?
             && HasMachine(c, m.meta[top.state].flow) && MachineOf(c, m.meta[top.state].flow).fsm.Some?
          then
            Some(stack + [Frame(m.meta[top.state].flow, MachineOf(c, m.meta[top.state].flow).fsm.value.initial)])
          else None
        case FinishFlow =>
          if |stack| > 1 && top.state in m.meta && m.meta[top.state].kind.TerminalKind?
          then Some(stack[..|stack| - 1]) else None
  }

  /** The stack after a run of moves, if every one of them was possible. */
  function Run(c: CompiledPack, stack: seq<Frame>, moves: seq<Move>): Option<seq<Frame>>
    decreases |moves|
  {
    if moves == [] then Some(stack)
    else
      match Apply(c, stack, moves[0])
      case None => None
      case Some(next) => Run(c, next, moves[1..])
  }

  /** No transition leads to a name with a slash. */
  ghost predicate HasPlainTargets(p: PackV2) {
    && (p.fsm.Some? ==> PlainTargets(p.fsm.value))
    && (p.flows.Some? ==> forall i | 0 <= i < |p.flows.value| :: PlainTargets(p.flows.value[i].1))
  }

  predicate PlainTargets(def: FsmDef) {
    forall i | 0 <= i < |def.transitions| :: '/' !in def.transitions[i].to
  }

  ghost predicate AllSafe(c: CompiledPack, stack: seq<Frame>) {
    stack != [] && forall i | 0 <= i < |stack| :: IsSafe(c, stack[i])
  }

  /** The frame's machine is there and runs, but its state is the empty string and not declared. */
  predicate IsLost(c: CompiledPack, f: Frame) {
    && f.state == "" && HasMachine(c, f.flow)
    && MachineOf(c, f.flow).fsm.Some? && "" !in MachineOf(c, f.flow).fsm.value.states
  }

  /** Every frame is safe, except that the active one may have lost its state. */
  ghost predicate SafeOrLost(c: CompiledPack, stack: seq<Frame>) {
    && stack != []
    && (forall i | 0 <= i < |stack| - 1 :: IsSafe(c, stack[i]))
    && (IsSafe(c, stack[|stack| - 1]) || IsLost(c, stack[|stack| - 1]))
  }

  /** The definition a frame's machine was compiled from. */
  ghost predicate IsDefinition(p: PackV2, flow: Option<string>, def: FsmDef) {
    match flow
    case None => p.fsm == Some(def)
    case Some(name) => p.flows.Some? && (name, def) in p.flows.value
  }

  lemma DefinitionOf(p: PackV2, c: CompiledPack, flow: Option<string>) returns (def: FsmDef, automated: seq<string>)
    requires IsCompilablePack(p) && IsCompiled(c, p)
    requires HasMachine(c, flow) && MachineOf(c, flow).fsm.Some?
    ensures IsDefinition(p, flow, def) && IsCompilable(def, p.guards)
    ensures IsMachineOf(MachineOf(c, flow), def, automated, p.guards)
    ensures p.flows.Some? ==> c.flows.Some? && FlowsResolve(def, c.flows.value.Keys)
    ensures HasPlainTargets(p) ==> PlainTargets(def)
  {
    hide IsCompilable, IsMachineOf, FlowsResolve, PlainTargets;
    match flow {
      case None =>
        def, automated := p.fsm.value, p.automated;
      case Some(name) =>
        var i :| 0 <= i < |p.flows.value| && p.flows.value[i].0 == name;
        def, automated := p.flows.value[i].1, [];
    }
  }

  /** A declared state of a compiled machine is safe, whatever machine it is and however it was reached. */
  lemma {:induction false} DeclaredIsSafe(p: PackV2, c: CompiledPack, flow: Option<string>, state: string)
    requires IsPack(p) && IsCompilablePack(p) && IsCompiled(c, p) && p.flows.Some?
    requires HasMachine(c, flow) && MachineOf(c, flow).fsm.Some? && state in MachineOf(c, flow).fsm.value.states
    ensures IsSafe(c, Frame(flow, state))
  {
    hide IsCompiled, IsCompilablePack, IsValidFsm, HasPlainTargets, RefersSafely, MetaOf, GuardsOf, EmittedBy, DistinctEmits;
    var def, automated := DefinitionOf(p, c, flow);
    var i :| 0 <= i < |def.states| && Keys(def.states)[i] == state;
    assert GuardsOf(def.states[i].1) <= p.guards.Keys;
    assert MachineOf(c, flow).meta[def.states[i].0] == MetaOf(def.states[i].1, def.states[i].0 in automated);
    MetaRefersSafely(c, def.states[i].1, def.states[i].0 in automated, p.guards);
  }

  lemma MetaRefersSafely(c: CompiledPack, s: State, automated: bool, guards: map<string, string>)
    requires GuardsOf(s) <= guards.Keys
    requires s.SubFlow? ==> c.flows.Some? && s.flow in c.flows.value
    ensures RefersSafely(c, MetaOf(s, automated), guards)
  {
    if s.Decision? {
      forall k | 0 <= k < |s.branches| && s.branches[k].Guarded? ensures s.branches[k].guard in guards {
        assert s.branches[k].guard in GuardsOf(s);
      }
    }
  }

  lemma LostHasNoMeta(p: PackV2, c: CompiledPack, f: Frame)
    requires IsPack(p) && IsCompilablePack(p) && IsCompiled(c, p) && IsLost(c, f)
    ensures f.state !in MachineOf(c, f.flow).meta
  {
    hide IsCompilablePack, IsCompiled, IsCompilable;
    var def, automated := DefinitionOf(p, c, f.flow);
  }

  lemma AdvanceKeepsSafe(p: PackV2, c: CompiledPack, top: Frame, event: string)
    requires IsPack(p) && IsCompilablePack(p) && IsCompiled(c, p) && p.flows.Some?
    requires HasMachine(c, top.flow) && MachineOf(c, top.flow).fsm.Some?
    requires TransitionOn(MachineOf(c, top.flow).fsm.value, top.state, event).Some?
    ensures var next := Frame(top.flow, TransitionOn(MachineOf(c, top.flow).fsm.value, top.state, event).value);
      && (IsSafe(c, next) || IsLost(c, next))
      && (HasPlainTargets(p) ==> IsSafe(c, next))
  {
    hide IsCompiled, IsCompilablePack, HasPlainTargets, TransitionOn, RefersSafely;
    var fsm := MachineOf(c, top.flow).fsm.value;
    var def, _ := DefinitionOf(p, c, top.flow);
    AdvanceLands(fsm, top.state, event);
    var next := TransitionOn(fsm, top.state, event).value;
    if next in fsm.states {
      DeclaredIsSafe(p, c, top.flow, next);
    }
  }

  lemma {:induction false} MoveKeepsSafe(p: PackV2, c: CompiledPack, stack: seq<Frame>, move: Move)
    requires IsPack(p) && IsCompilablePack(p) && IsCompiled(c, p) && p.flows.Some?
    requires SafeOrLost(c, stack) && Apply(c, stack, move).Some?
    ensures SafeOrLost(c, Apply(c, stack, move).value)
    ensures HasPlainTargets(p) && AllSafe(c, stack) ==> AllSafe(c, Apply(c, stack, move).value)
  {
    hide IsCompiled, IsCompilablePack, HasPlainTargets, TransitionOn, RefersSafely;
    var top := stack[|stack| - 1];
    var m := MachineOf(c, top.flow);
    var next := Apply(c, stack, move).value;
    if IsLost(c, top) { LostHasNoMeta(p, c, top); }
    match move {
      case Advance(event) =>
        AdvanceKeepsSafe(p, c, top, event);
      case EnterFlow =>
        var flow := m.meta[top.state].flow;
        var _, _ := DefinitionOf(p, c, flow);
        DeclaredIsSafe(p, c, flow, next[|next| - 1].state);
      case FinishFlow =>
    }
  }

  /**
    Compiled packs never go wrong: in every run of the parent, through any stack of nested flows, every
    open frame stands in a declared state with metadata, every gate and decision guard has its
    expression, and every sub-flow has its machine. Only the active frame can be without a state, and
    with no slash in any target it never is.
  */
  lemma {:induction false} CompiledRunsAreSafe(p: PackV2, c: CompiledPack, stack: seq<Frame>, moves: seq<Move>)
    requires IsPack(p) && IsCompilablePack(p) && IsCompiled(c, p) && p.flows.Some?
    requires SafeOrLost(c, stack) && Run(c, stack, moves).Some?
    ensures SafeOrLost(c, Run(c, stack, moves).value)
    ensures HasPlainTargets(p) && AllSafe(c, stack) ==> AllSafe(c, Run(c, stack, moves).value)
    decreases |moves|
  {
    hide IsCompiled, IsCompilablePack, HasPlainTargets, AllSafe, SafeOrLost, Apply;
    if moves != [] {
      MoveKeepsSafe(p, c, stack, moves[0]);
      CompiledRunsAreSafe(p, c, Apply(c, stack, moves[0]).value, moves[1..]);
    }
  }

  /** The parent starts in its declared initial state, so the guarantee covers every run from there. */
  lemma {:induction false} RunsFromTheStartAreSafe(p: PackV2, c: CompiledPack, moves: seq<Move>)
    requires IsPack(p) && IsCompilablePack(p) && IsCompiled(c, p) && p.flows.Some? && p.fsm.Some?
    requires Run(c, [Frame(None, p.fsm.value.initial)], moves).Some?
    ensures SafeOrLost(c, Run(c, [Frame(None, p.fsm.value.initial)], moves).value)
    ensures HasPlainTargets(p) ==> AllSafe(c, Run(c, [Frame(None, p.fsm.value.initial)], moves).value)
  {
    hide IsSafe, Run, HasPlainTargets;
    var _, _ := DefinitionOf(p, c, None);
    DeclaredIsSafe(p, c, None, p.fsm.value.initial);
    CompiledRunsAreSafe(p, c, [Frame(None, p.fsm.value.initial)], moves);
  }

  /** Entering a sub-flow never fails: wherever a run stands in one, the nested machine is there to start. */
  lemma {:induction false} SubFlowsAlwaysOpen(p: PackV2, c: CompiledPack, stack: seq<Frame>)
    requires IsPack(p) && IsCompilablePack(p) && IsCompiled(c, p) && p.flows.Some?
    requires stack != [] && IsSafe(c, stack[|stack| - 1])
    requires MachineOf(c, stack[|stack| - 1].flow).meta[stack[|stack| - 1].state].kind.SubFlowKind?
    ensures Apply(c, stack, EnterFlow).Some?
  {
    hide IsCompiled, IsCompilablePack, IsPack;
    var top := stack[|stack| - 1];
    assert IsSafe(c, top);
    FlowHasFsm(p, c, MachineOf(c, top.flow).meta[top.state].flow.value);
  }

  lemma FlowHasFsm(p: PackV2, c: CompiledPack, name: string)
    requires IsCompiled(c, p) && p.flows.Some? && name in c.flows.value
    ensures c.flows.value[name].fsm.Some?
  {
    var i :| 0 <= i < |p.flows.value| && p.flows.value[i].0 == name;
  }
}
