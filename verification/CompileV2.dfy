/** Lowering a pack's state machine and its nested flows (src/packs/compile_v2.ts). */
module CompileV2 {
  import opened Wrappers
  import opened FsmEngine

  /** A branch of a decision; the last resort has no guard. */
  datatype Branch = Guarded(guard: string, emits: string) | Otherwise(emits: string)

  datatype FailAction = Warn | Block | Halt

  datatype State =
    | Executor(completion: string, emits: string)
    | Gate(guard: string, onPassEmits: string, onFail: FailAction)
    | Decision(branches: seq<Branch>)
    | SubFlow(flow: string, emits: string)
    | Terminal(shipped: bool)

  /** A named record, in the order its keys were written. */
  type Named<T> = seq<(string, T)>

  datatype FsmDef = FsmDef(initial: string, states: Named<State>, transitions: seq<Transition>)

  datatype PackV2 = PackV2(
    name: string,
    fsm: Option<FsmDef>,
    automated: seq<string>,
    flows: Option<Named<FsmDef>>,
    guards: map<string, string>)

  datatype Kind = ExecutorKind | GateKind | DecisionKind | SubFlowKind | TerminalKind

  /** What the driver reads about a state. */
  datatype StateMeta = StateMeta(
    kind: Kind,
    automated: bool,
    completion: Option<string>,
    emits: Option<string>,
    guard: Option<string>,
    onFail: Option<FailAction>,
    branches: seq<Branch>,
    flow: Option<string>,
    shipped: Option<bool>)

  /** One compiled machine. A pack without behaviour has no machine and no metadata. */
  datatype Machine = Machine(fsm: Option<Fsm>, meta: map<string, StateMeta>, guardExprs: map<string, string>)

  /** The parent machine and the registry that it and every nested machine share. */
  datatype CompiledPack = CompiledPack(machine: Machine, flows: Option<map<string, Machine>>)

  datatype CompileError =
    | InvalidFsm(errors: seq<FsmError>)
    | DuplicateBranchEmit(state: string, emits: string)
    | UnroutedEvents(events: set<string>)
    | UnresolvedGuard(guard: string)
    | UnresolvedFlow(state: string, flow: string)

  function Keys<T>(record: Named<T>): (keys: seq<string>)
    ensures |keys| == |record| && forall i | 0 <= i < |keys| :: keys[i] == record[i].0
  {
    seq(|record|, i requires 0 <= i < |record| => record[i].0)
  }

  /** Record keys are unique. */
  predicate IsRecord<T>(record: Named<T>) {
    forall i, j | 0 <= i < j < |record| :: record[i].0 != record[j].0
  }

  predicate IsPack(p: PackV2) {
    && (p.fsm.Some? ==> IsRecord(p.fsm.value.states))
    && (p.flows.Some? ==>
          && IsRecord(p.flows.value)
          && forall i | 0 <= i < |p.flows.value| :: IsRecord(p.flows.value[i].1.states))
  }

  function ToFsm(def: FsmDef): Fsm {
    Fsm(def.initial, Keys(def.states), def.transitions)
  }

  function MetaOf(s: State, automated: bool): StateMeta {
    match s
    case Executor(completion, emits) =>
      StateMeta(ExecutorKind, automated, Some(completion), Some(emits), None, None, [], None, None)
    case Gate(guard, onPassEmits, onFail) =>
      StateMeta(GateKind, automated, None, Some(onPassEmits), Some(guard), Some(onFail), [], None, None)
    case Decision(branches) =>
      StateMeta(DecisionKind, automated, None, None, None, None, branches, None, None)
    case SubFlow(flow, emits) =>
      StateMeta(SubFlowKind, automated, None, Some(emits), None, None, [], Some(flow), None)
    case Terminal(shipped) =>
      StateMeta(TerminalKind, automated, None, None, None, None, [], None, Some(shipped))
  }

  /** The events a state may emit. */
  function EmittedBy(s: State): set<string> {
    match s
    case Executor(_, emits) => {emits}
    case Gate(_, onPassEmits, _) => {onPassEmits}
    case Decision(branches) => set i | 0 <= i < |branches| :: branches[i].emits
    case SubFlow(_, emits) => {emits}
    case Terminal(_) => {}
  }

  function GuardsOf(s: State): set<string> {
    match s
    case Gate(guard, _, _) => {guard}
    case Decision(branches) => set i | 0 <= i < |branches| && branches[i].Guarded? :: branches[i].guard
    case _ => {}
  }

  predicate DistinctEmits(branches: seq<Branch>) {
    forall i, j | 0 <= i < j < |branches| :: branches[i].emits != branches[j].emits
  }

  /** Some transition, from whatever state, is routed by the event. */
  predicate IsRouted(event: string, transitions: seq<Transition>) {
    exists i | 0 <= i < |transitions| :: transitions[i].on == Some(event)
  }

  /** What `compileMachine` demands of one machine. */
  ghost predicate IsCompilable(def: FsmDef, guards: map<string, string>) {
    && IsValidFsm(ToFsm(def))
    && forall i | 0 <= i < |def.states| ::
         && (def.states[i].1.Decision? ==> DistinctEmits(def.states[i].1.branches))
         && (forall e | e in EmittedBy(def.states[i].1) :: IsRouted(e, def.transitions))
         && GuardsOf(def.states[i].1) <= guards.Keys
  }

  /** The machine that is built: metadata for exactly the declared states. */
  ghost predicate IsMachineOf(m: Machine, def: FsmDef, automated: seq<string>, guards: map<string, string>) {
    && m.fsm == Some(ToFsm(def))
    && m.guardExprs == guards
    && m.meta.Keys == (set i | 0 <= i < |def.states| :: def.states[i].0)
    && forall i | 0 <= i < |def.states| ::
         def.states[i].0 in m.meta && m.meta[def.states[i].0] == MetaOf(def.states[i].1, def.states[i].0 in automated)
  }

  method AssertDistinctBranchEmits(state: string, branches: seq<Branch>) returns (error: Option<CompileError>)
    ensures error.None? <==> DistinctEmits(branches)
  {
    var seen: set<string> := {};
    for i := 0 to |branches|
      invariant DistinctEmits(branches[..i])
      invariant forall e :: e in seen <==> exists k | 0 <= k < i :: branches[k].emits == e
    {
      if branches[i].emits in seen {
        return Some(DuplicateBranchEmit(state, branches[i].emits));
      }
      seen := seen + {branches[i].emits};
    }
    assert branches[..|branches|] == branches;
    return None;
  }

  /** The metadata loop: fills the record and collects every event the driver may emit. */
  method CollectMeta(def: FsmDef, automated: seq<string>)
      returns (error: Option<CompileError>, meta: map<string, StateMeta>, emitted: set<string>)
    requires IsRecord(def.states)
    ensures error.None? <==>
        forall i | 0 <= i < |def.states| :: def.states[i].1.Decision? ==> DistinctEmits(def.states[i].1.branches)
    ensures error.None? ==>
        && meta.Keys == (set i | 0 <= i < |def.states| :: def.states[i].0)
        && (forall i | 0 <= i < |def.states| ::
              def.states[i].0 in meta && meta[def.states[i].0] == MetaOf(def.states[i].1, def.states[i].0 in automated))
        && emitted == (set i, e | 0 <= i < |def.states| && e in EmittedBy(def.states[i].1) :: e)
  {
    hide DistinctEmits, MetaOf;
    meta, emitted := map[], {};
    for n := 0 to |def.states|
      invariant forall i | 0 <= i < n :: def.states[i].1.Decision? ==> DistinctEmits(def.states[i].1.branches)
      invariant meta.Keys == (set i | 0 <= i < n :: def.states[i].0)
      invariant forall i | 0 <= i < n ::
          def.states[i].0 in meta && meta[def.states[i].0] == MetaOf(def.states[i].1, def.states[i].0 in automated)
      invariant emitted == (set i, e | 0 <= i < n && e in EmittedBy(def.states[i].1) :: e)
    {
      var (name, s) := def.states[n];
      if s.Decision? {
        error := AssertDistinctBranchEmits(name, s.branches);
        if error.Some? { return; }
      }
      meta := meta[name := MetaOf(s, name in automated)];
      emitted := emitted + EmittedBy(s);
    }
    error := None;
  }

  /** Every guard named by a gate or a branch must be in the registry. */
  method CheckGuards(def: FsmDef, guards: map<string, string>) returns (error: Option<CompileError>)
    ensures error.None? <==> forall i | 0 <= i < |def.states| :: GuardsOf(def.states[i].1) <= guards.Keys
  {
    for n := 0 to |def.states|
      invariant forall i | 0 <= i < n :: GuardsOf(def.states[i].1) <= guards.Keys
    {
      var missing := GuardsOf(def.states[n].1) - guards.Keys;
      assert forall g | g in GuardsOf(def.states[n].1) && g !in guards.Keys :: g in missing;
      if missing != {} {
        var ref :| ref in missing;
        return Some(UnresolvedGuard(ref));
      }
    }
    return None;
  }

  method CompileMachine(fsm: Option<FsmDef>, automated: seq<string>, guards: map<string, string>)
      returns (r: Result<Machine, CompileError>)
    requires fsm.Some? ==> IsRecord(fsm.value.states)
    ensures fsm.None? ==> r == Ok(Machine(None, map[], map[]))
    ensures fsm.Some? ==> (r.Ok? <==> IsCompilable(fsm.value, guards))
    ensures fsm.Some? && r.Ok? ==> IsMachineOf(r.value, fsm.value, automated, guards)
  {
    hide DistinctEmits, MetaOf, IsValidFsm, EmittedBy, GuardsOf, IsRouted;
    if fsm.None? { return Ok(Machine(None, map[], map[])); }
    var def := fsm.value;
    var errors := ValidateFsm(ToFsm(def));
    if errors != [] { return Err(InvalidFsm(errors)); }
    var duplicate, meta, emitted := CollectMeta(def, automated);
    if duplicate.Some? { return Err(duplicate.value); }
    var unrouted := set e | e in emitted && !IsRouted(e, def.transitions);
    if unrouted != {} {
      ghost var e :| e in unrouted;
      return Err(UnroutedEvents(unrouted));
    }
    forall i, e | 0 <= i < |def.states| && e in EmittedBy(def.states[i].1) ensures IsRouted(e, def.transitions) {
      assert e in emitted && e !in unrouted;
    }
    var unresolved := CheckGuards(def, guards);
    if unresolved.Some? { return Err(unresolved.value); }
    return Ok(Machine(Some(ToFsm(def)), meta, guards));
  }

  /** Every sub-flow of the machine names a registered flow. */
  predicate FlowsResolve(def: FsmDef, registered: set<string>) {
    forall i | 0 <= i < |def.states| :: def.states[i].1.SubFlow? ==> def.states[i].1.flow in registered
  }

  method CheckFlows(def: FsmDef, registered: set<string>) returns (error: Option<CompileError>)
    ensures error.None? <==> FlowsResolve(def, registered)
  {
    for n := 0 to |def.states|
      invariant forall i | 0 <= i < n :: def.states[i].1.SubFlow? ==> def.states[i].1.flow in registered
    {
      var (name, s) := def.states[n];
      if s.SubFlow? && s.flow !in registered { return Some(UnresolvedFlow(name, s.flow)); }
    }
    return None;
  }

  /** What a compilable pack with a registry satisfies. */
  ghost predicate IsCompilablePack(p: PackV2) {
    && (p.fsm.Some? ==> IsCompilable(p.fsm.value, p.guards))
    && (p.flows.Some? ==>
          var registered := set i | 0 <= i < |p.flows.value| :: p.flows.value[i].0;
          && (forall i | 0 <= i < |p.flows.value| :: IsCompilable(p.flows.value[i].1, p.guards))
          && (p.fsm.Some? ==> FlowsResolve(p.fsm.value, registered))
          && (forall i | 0 <= i < |p.flows.value| :: FlowsResolve(p.flows.value[i].1, registered)))
  }

  ghost predicate IsCompiled(c: CompiledPack, p: PackV2) {
    && (p.fsm.None? ==> c.machine == Machine(None, map[], map[]))
    && (p.fsm.Some? ==> IsMachineOf(c.machine, p.fsm.value, p.automated, p.guards))
    && (c.flows.Some? <==> p.flows.Some?)
    && (p.flows.Some? ==>
          && c.flows.value.Keys == (set i | 0 <= i < |p.flows.value| :: p.flows.value[i].0)
          && forall i | 0 <= i < |p.flows.value| ::
               && p.flows.value[i].0 in c.flows.value
               && IsMachineOf(c.flows.value[p.flows.value[i].0], p.flows.value[i].1, [], p.guards))
  }

  /** The nested machines, one by one. */
  method CompileFlows(flows: Named<FsmDef>, guards: map<string, string>)
      returns (r: Result<map<string, Machine>, CompileError>)
    requires IsRecord(flows) && forall i | 0 <= i < |flows| :: IsRecord(flows[i].1.states)
    ensures r.Ok? <==> forall i | 0 <= i < |flows| :: IsCompilable(flows[i].1, guards)
    ensures r.Ok? ==>
        && r.value.Keys == (set i | 0 <= i < |flows| :: flows[i].0)
        && forall i | 0 <= i < |flows| :: flows[i].0 in r.value && IsMachineOf(r.value[flows[i].0], flows[i].1, [], guards)
  {
    hide IsCompilable, IsMachineOf;
    var machines: map<string, Machine> := map[];
    for n := 0 to |flows|
      invariant forall i | 0 <= i < n :: IsCompilable(flows[i].1, guards)
      invariant machines.Keys == (set i | 0 <= i < n :: flows[i].0)
      invariant forall i | 0 <= i < n ::
          flows[i].0 in machines && IsMachineOf(machines[flows[i].0], flows[i].1, [], guards)
    {
      var compiled := CompileMachine(Some(flows[n].1), [], guards);
      if compiled.Err? { return Err(compiled.error); }
      machines := machines[flows[n].0 := compiled.value];
    }
    return Ok(machines);
  }

  method CompilePackV2(p: PackV2) returns (r: Result<CompiledPack, CompileError>)
    requires IsPack(p)
    ensures r.Ok? <==> IsCompilablePack(p)
    ensures r.Ok? ==> IsCompiled(r.value, p)
  {
    hide IsCompilable, IsMachineOf, FlowsResolve;
    var machine := CompileMachine(p.fsm, p.automated, p.guards);
    if machine.Err? { return Err(machine.error); }
    if p.flows.None? { return Ok(CompiledPack(machine.value, None)); }
    var flows := p.flows.value;
    var compiled := CompileFlows(flows, p.guards);
    if compiled.Err? { return Err(compiled.error); }
    var registered := compiled.value.Keys;
    if p.fsm.Some? {
      var error := CheckFlows(p.fsm.value, registered);
      if error.Some? { return Err(error.value); }
    }
    for n := 0 to |flows|
      invariant forall i | 0 <= i < n :: FlowsResolve(flows[i].1, registered)
    {
      var error := CheckFlows(flows[n].1, registered);
      if error.Some? { return Err(error.value); }
    }
    return Ok(CompiledPack(machine.value, Some(compiled.value)));
  }
}
