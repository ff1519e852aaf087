/** The FSM model and its compile step (tools/yaml2c/fsm_codegen.py, the reader half). */
module Fsm {
  import opened Wrappers
  import opened Names
  import opened Words
  import T = Tokenizer

  const COUNT_MAX := 65535
  const EXPRESSION_MAX := 256

  datatype Operand = OBool(b: bool) | OInt(i: int64) | OReal(r: real) | OExpression(text: string)

  datatype SignalValue = SignalValue(name: string, operand: Operand)

  datatype Level = Info | Warning | Error

  datatype Severity = SevWarning | SevError | SevCritical

  datatype Event =
    | CanRxEvent | SignalChanged | TimerExpired | StateEntered | StateExited | FaultRaised | PowerModeChanged

  datatype VariableType = BooleanType | IntegerType | FloatType

  datatype Body =
    | SendMessage(iface: string, message: string, values: seq<SignalValue>)
    | SetSignal(signal: string, operand: Operand)
    | SetVariable(variable: string, operand: Operand)
    | StartTimer(timer: string, duration: Option<nat>, again: Option<bool>)
    | StopTimer(timer: string)
    | ResetTimer(timer: string)
    | Log(level: Level, message: string)
    | RaiseFault(code: string, severity: Severity)
    | Goto(target: string, targetIndex: nat)

  datatype Action = Action(line: nat, body: Body)

  datatype Transition = Transition(
    event: Event, iface: Option<string>, message: Option<string>, signal: Option<string>, timer: Option<string>,
    guard: Option<string>, actions: seq<Action>, target: string, targetIndex: nat)

  datatype State = State(name: string, entry: seq<Action>, exit: seq<Action>, transitions: seq<Transition>)

  datatype VariableDef = VariableDef(name: string, kind: VariableType, default: Option<Operand>)

  datatype TimerDef = TimerDef(name: string, duration: nat, again: bool, autoStart: bool)

  datatype Machine = Machine(
    name: string, description: Option<string>, initial: string, initialIndex: nat,
    variables: seq<VariableDef>, timers: seq<TimerDef>, states: seq<State>)

  datatype Binding = Binding(alias: string, physical: string)

  datatype Override = Override(name: string, operand: Operand)

  datatype CanRx = CanRx(iface: string, canId: Option<nat>, message: Option<string>)

  datatype Subscriptions = Subscriptions(
    canRx: seq<CanRx>, hasCanRx: bool, signals: seq<string>, hasSignals: bool, timers: bool, hasTimers: bool,
    faults: bool, hasFaults: bool, powerMode: bool, hasPowerMode: bool)

  datatype Instance = Instance(
    id: string, machine: string, machineIndex: nat, enabled: bool,
    bindings: seq<Binding>, overrides: seq<Override>, subscriptions: Subscriptions)

  datatype SetModel = SetModel(machines: seq<Machine>, instances: seq<Instance>)

  datatype FsmError =
    | DuplicateName | UndeclaredVariable | UndeclaredTimer | UnknownInitial | UnknownTarget | UnknownMachine | TooMany
    | NoSignalValues | BadExpression

  // ---------------------------------------------------------------------------
  // What compiling a document means
  // ---------------------------------------------------------------------------

  /** list.index: the first position of a name. */
  function IndexOf(names: seq<string>, name: string): (i: Option<nat>)
    ensures i.None? <==> name !in names
    ensures i.Some? ==> i.value < |names| && names[i.value] == name && name !in names[..i.value]
  {
    if names == [] then None
    else if names[0] == name then Some(0)
    else match IndexOf(names[1..], name)
         case None => None
         case Some(k) => assert names[..k + 1] == [names[0]] + names[1..][..k]; Some(k + 1)
  }

  function StateNames(states: seq<State>): seq<string> {
    seq(|states|, i requires 0 <= i < |states| => states[i].name)
  }

  function VariableNames(vs: seq<VariableDef>): seq<string> {
    seq(|vs|, i requires 0 <= i < |vs| => vs[i].name)
  }

  function TimerNames(ts: seq<TimerDef>): seq<string> {
    seq(|ts|, i requires 0 <= i < |ts| => ts[i].name)
  }

  function MachineNames(ms: seq<Machine>): seq<string> {
    seq(|ms|, i requires 0 <= i < |ms| => ms[i].name)
  }

  function InstanceIds(ins: seq<Instance>): seq<string> {
    seq(|ins|, i requires 0 <= i < |ins| => ins[i].id)
  }

  /** The index a reference gets; 0 only stands in for a reference that does not resolve. */
  function Lookup(names: seq<string>, name: string): nat {
    match IndexOf(names, name) case None => 0 case Some(i) => i
  }

  /** A text that is short enough, in bytes, and an expression. */
  predicate ExpressionValid(text: string) {
    Utf8Length(text) <= EXPRESSION_MAX && T.IsExpression(text)
  }

  predicate OperandValid(o: Operand) { o.OExpression? ==> ExpressionValid(o.text) }

  predicate GuardValid(guard: Option<string>) { guard.Some? ==> ExpressionValid(guard.value) }

  predicate DefaultValid(v: VariableDef) { v.default.Some? ==> OperandValid(v.default.value) }

  /** Declared variable and timer, valid expressions, and at least one value to send. */
  predicate ActionDeclared(variables: seq<string>, timers: seq<string>, a: Action) {
    match a.body
    case SendMessage(_, _, values) => values != [] && forall v | v in values :: OperandValid(v.operand)
    case SetSignal(_, o) => OperandValid(o)
    case SetVariable(v, o) => v in variables && OperandValid(o)
    case StartTimer(t, _, _) => t in timers
    case StopTimer(t) => t in timers
    case ResetTimer(t) => t in timers
    case _ => true
  }

  predicate ActionsDeclared(variables: seq<string>, timers: seq<string>, acts: seq<Action>) {
    forall a | a in acts :: ActionDeclared(variables, timers, a)
  }

  predicate StateDeclared(variables: seq<string>, timers: seq<string>, s: State) {
    && ActionsDeclared(variables, timers, s.entry)
    && ActionsDeclared(variables, timers, s.exit)
    && forall t | t in s.transitions :: GuardValid(t.guard) && ActionsDeclared(variables, timers, t.actions)
  }

  predicate ActionResolves(names: seq<string>, a: Action) { a.body.Goto? ==> a.body.target in names }

  predicate ActionsResolve(names: seq<string>, acts: seq<Action>) {
    forall a | a in acts :: ActionResolves(names, a)
  }

  predicate TransitionResolves(names: seq<string>, t: Transition) {
    t.target in names && ActionsResolve(names, t.actions)
  }

  predicate StateResolves(names: seq<string>, s: State) {
    && ActionsResolve(names, s.entry)
    && ActionsResolve(names, s.exit)
    && forall t | t in s.transitions :: TransitionResolves(names, t)
  }

  /** A machine that parses: unique names, declared references, valid expressions, a known initial state. */
  predicate MachineReads(m: Machine) {
    && (forall v | v in m.variables :: DefaultValid(v))
    && Distinct(VariableNames(m.variables)) && Distinct(TimerNames(m.timers)) && Distinct(StateNames(m.states))
    && (forall s | s in m.states :: StateDeclared(VariableNames(m.variables), TimerNames(m.timers), s))
    && m.initial in StateNames(m.states)
  }

  predicate MachineResolves(m: Machine) {
    forall s | s in m.states :: StateResolves(StateNames(m.states), s)
  }

  predicate OverrideReads(m: Machine, o: Override) { o.name in VariableNames(m.variables) && OperandValid(o.operand) }

  predicate InstanceReads(ms: seq<Machine>, inst: Instance) {
    exists m | m in ms :: m.name == inst.machine && forall o | o in inst.overrides :: OverrideReads(m, o)
  }

  predicate Compiles(doc: SetModel) {
    && Distinct(MachineNames(doc.machines))
    && (forall m | m in doc.machines :: MachineReads(m) && MachineResolves(m))
    && Distinct(InstanceIds(doc.instances))
    && (forall inst | inst in doc.instances :: InstanceReads(doc.machines, inst))
    && |doc.machines| <= COUNT_MAX && |doc.instances| <= COUNT_MAX
  }

  function ResolvedAction(names: seq<string>, a: Action): Action {
    if a.body.Goto? then a.(body := a.body.(targetIndex := Lookup(names, a.body.target))) else a
  }

  function ResolvedActions(names: seq<string>, acts: seq<Action>): seq<Action> {
    seq(|acts|, i requires 0 <= i < |acts| => ResolvedAction(names, acts[i]))
  }

  function ResolvedTransition(names: seq<string>, t: Transition): Transition {
    t.(actions := ResolvedActions(names, t.actions), targetIndex := Lookup(names, t.target))
  }

  function ResolvedState(names: seq<string>, s: State): State {
    s.(entry := ResolvedActions(names, s.entry), exit := ResolvedActions(names, s.exit),
       transitions := seq(|s.transitions|, i requires 0 <= i < |s.transitions| => ResolvedTransition(names, s.transitions[i])))
  }

  function ResolvedMachine(m: Machine): Machine {
    var names := StateNames(m.states);
    m.(initialIndex := Lookup(names, m.initial),
       states := seq(|m.states|, i requires 0 <= i < |m.states| => ResolvedState(names, m.states[i])))
  }

  /** The compiled set: the document with every index filled in. */
  function Compiled(doc: SetModel): SetModel {
    SetModel(seq(|doc.machines|, i requires 0 <= i < |doc.machines| => ResolvedMachine(doc.machines[i])),
             seq(|doc.instances|, i requires 0 <= i < |doc.instances| =>
               doc.instances[i].(machineIndex := Lookup(MachineNames(doc.machines), doc.instances[i].machine))))
  }

  // ---------------------------------------------------------------------------
  // What compiling leaves alone, and what it fills in
  // ---------------------------------------------------------------------------

  /** The same action but for the index of a transition action. */
  predicate SameAction(a: Action, b: Action) {
    b.line == a.line && if a.body.Goto? then b.body.Goto? && b.body.target == a.body.target else b.body == a.body
  }

  predicate SameActions(acts: seq<Action>, out: seq<Action>) {
    |out| == |acts| && forall k | 0 <= k < |acts| :: SameAction(acts[k], out[k])
  }

  predicate SameTransition(t: Transition, u: Transition) {
    && u.event == t.event && u.iface == t.iface && u.message == t.message && u.signal == t.signal && u.timer == t.timer
    && u.guard == t.guard && u.target == t.target && SameActions(t.actions, u.actions)
  }

  predicate SameState(s: State, u: State) {
    && u.name == s.name && SameActions(s.entry, u.entry) && SameActions(s.exit, u.exit)
    && |u.transitions| == |s.transitions| && forall j | 0 <= j < |s.transitions| :: SameTransition(s.transitions[j], u.transitions[j])
  }

  predicate SameMachine(m: Machine, u: Machine) {
    && u.name == m.name && u.description == m.description && u.initial == m.initial
    && u.variables == m.variables && u.timers == m.timers
    && |u.states| == |m.states| && forall i | 0 <= i < |m.states| :: SameState(m.states[i], u.states[i])
  }

  predicate SameInstance(inst: Instance, u: Instance) {
    && u.id == inst.id && u.machine == inst.machine && u.enabled == inst.enabled
    && u.bindings == inst.bindings && u.overrides == inst.overrides && u.subscriptions == inst.subscriptions
  }

  /** Everything but the indexes is as in the document. */
  predicate SameButIndexes(doc: SetModel, out: SetModel) {
    && |out.machines| == |doc.machines| && |out.instances| == |doc.instances|
    && (forall i | 0 <= i < |doc.machines| :: SameMachine(doc.machines[i], out.machines[i]))
    && forall i | 0 <= i < |doc.instances| :: SameInstance(doc.instances[i], out.instances[i])
  }

  /** An index leads to the one state of that name. */
  predicate LeadsTo(m: Machine, index: nat, target: string) {
    index < |m.states| && forall i | 0 <= i < |m.states| :: m.states[i].name == target <==> i == index
  }

  predicate ActionsLead(m: Machine, acts: seq<Action>) {
    forall k | 0 <= k < |acts| && acts[k].body.Goto? :: LeadsTo(m, acts[k].body.targetIndex, acts[k].body.target)
  }

  predicate TransitionLeads(m: Machine, t: Transition) {
    LeadsTo(m, t.targetIndex, t.target) && ActionsLead(m, t.actions)
  }

  predicate StateLeads(m: Machine, s: State) {
    && ActionsLead(m, s.entry) && ActionsLead(m, s.exit)
    && forall j | 0 <= j < |s.transitions| :: TransitionLeads(m, s.transitions[j])
  }

  predicate MachineLeads(m: Machine) {
    LeadsTo(m, m.initialIndex, m.initial) && forall i | 0 <= i < |m.states| :: StateLeads(m, m.states[i])
  }

  /** An instance's index leads to the one machine of that name. */
  predicate InstanceLeads(ms: seq<Machine>, inst: Instance) {
    inst.machineIndex < |ms| && forall i | 0 <= i < |ms| :: ms[i].name == inst.machine <==> i == inst.machineIndex
  }

  /** Every index of a compiled set leads to what its name says. */
  predicate IndexesLead(out: SetModel) {
    && (forall i | 0 <= i < |out.machines| :: MachineLeads(out.machines[i]))
    && forall i | 0 <= i < |out.instances| :: InstanceLeads(out.machines, out.instances[i])
  }

  lemma StateIsKept(names: seq<string>, s: State)
    ensures SameState(s, ResolvedState(names, s))
  {
    forall j | 0 <= j < |s.transitions| ensures SameTransition(s.transitions[j], ResolvedState(names, s).transitions[j]) {}
  }

  /** Compiling changes nothing but indexes. */
  lemma CompiledKeepsRest(doc: SetModel)
    ensures SameButIndexes(doc, Compiled(doc))
  {
    forall i | 0 <= i < |doc.machines| ensures SameMachine(doc.machines[i], Compiled(doc).machines[i]) {
      var m := doc.machines[i];
      forall k | 0 <= k < |m.states| ensures SameState(m.states[k], ResolvedMachine(m).states[k]) {
        StateIsKept(StateNames(m.states), m.states[k]);
      }
      hide ResolvedState, SameState;
    }
    hide SameMachine, ResolvedMachine;
  }

  lemma LookupLeads(m: Machine, out: Machine, target: string)
    requires Distinct(StateNames(m.states)) && target in StateNames(m.states) && SameMachine(m, out)
    ensures LeadsTo(out, Lookup(StateNames(m.states), target), target)
  {
    var names := StateNames(m.states);
    forall i | 0 <= i < |names| ensures out.states[i].name == names[i] { assert SameState(m.states[i], out.states[i]); }
    hide SameMachine, SameState;
  }

  lemma ActionsLeadOn(m: Machine, out: Machine, acts: seq<Action>)
    requires Distinct(StateNames(m.states)) && ActionsResolve(StateNames(m.states), acts) && SameMachine(m, out)
    ensures ActionsLead(out, ResolvedActions(StateNames(m.states), acts))
  {
    forall k | 0 <= k < |acts| && acts[k].body.Goto? ensures LeadsTo(out, Lookup(StateNames(m.states), acts[k].body.target), acts[k].body.target) {
      assert acts[k] in acts && ActionResolves(StateNames(m.states), acts[k]);
      LookupLeads(m, out, acts[k].body.target);
    }
    hide LeadsTo, SameMachine, Lookup;
  }

  lemma StateLeadsOn(m: Machine, out: Machine, s: State)
    requires Distinct(StateNames(m.states)) && StateResolves(StateNames(m.states), s) && SameMachine(m, out)
    ensures StateLeads(out, ResolvedState(StateNames(m.states), s))
  {
    var names := StateNames(m.states);
    hide SameMachine, LeadsTo, ActionsLead, ActionsResolve, ResolvedActions, Lookup;
    ActionsLeadOn(m, out, s.entry);
    ActionsLeadOn(m, out, s.exit);
    forall j | 0 <= j < |s.transitions| ensures TransitionLeads(out, ResolvedTransition(names, s.transitions[j])) {
      assert s.transitions[j] in s.transitions && TransitionResolves(names, s.transitions[j]);
      LookupLeads(m, out, s.transitions[j].target);
      ActionsLeadOn(m, out, s.transitions[j].actions);
    }
  }

  lemma MachineLeadsOn(m: Machine)
    requires MachineReads(m) && MachineResolves(m)
    ensures MachineLeads(ResolvedMachine(m))
  {
    var out, names := ResolvedMachine(m), StateNames(m.states);
    assert SameMachine(m, out) by { CompiledKeepsRest(SetModel([m], [])); assert Compiled(SetModel([m], [])).machines[0] == out; }
    LookupLeads(m, out, m.initial);
    forall i | 0 <= i < |m.states| ensures StateLeads(out, out.states[i]) {
      assert m.states[i] in m.states && StateResolves(names, m.states[i]);
      StateLeadsOn(m, out, m.states[i]);
    }
    hide StateLeads, LeadsTo, SameMachine;
  }

  /** And what it fills in is right, for every machine, state, transition, transition action and instance. */
  lemma CompiledIndexesLead(doc: SetModel)
    requires Compiles(doc)
    ensures IndexesLead(Compiled(doc))
  {
    var out := Compiled(doc);
    forall i | 0 <= i < |doc.machines| ensures MachineLeads(out.machines[i]) && out.machines[i].name == doc.machines[i].name {
      assert doc.machines[i] in doc.machines;
      MachineLeadsOn(doc.machines[i]);
    }
    forall i | 0 <= i < |doc.instances| ensures InstanceLeads(out.machines, out.instances[i]) {
      assert doc.instances[i] in doc.instances;
      InstanceLeadsOn(doc.machines, out.machines, doc.instances[i]);
    }
    hide MachineLeads, ResolvedMachine, MachineReads, MachineResolves, InstanceReads, InstanceLeads;
  }

  lemma InstanceLeadsOn(ms: seq<Machine>, out: seq<Machine>, inst: Instance)
    requires Distinct(MachineNames(ms)) && InstanceReads(ms, inst)
    requires |out| == |ms| && forall i | 0 <= i < |ms| :: out[i].name == ms[i].name
    ensures InstanceLeads(out, inst.(machineIndex := Lookup(MachineNames(ms), inst.machine)))
  {
    hide OverrideReads;
    var names := MachineNames(ms);
    var m :| m in ms && m.name == inst.machine;
    var k :| 0 <= k < |ms| && ms[k] == m;
    assert names[k] == inst.machine && forall j | 0 <= j < |names| :: out[j].name == names[j];
  }

  // ---------------------------------------------------------------------------
  // FsmReader
  // ---------------------------------------------------------------------------

  method UniqueNames(names: seq<string>) returns (ok: bool)
    ensures ok == Distinct(names)
  {
    var seen: seq<string> := [];
    for i := 0 to |names|
      invariant seen == names[..i] && Distinct(seen)
    {
      if names[i] in seen { return false; }
      seen := seen + [names[i]];
    }
    assert names[..|names|] == names;
    return true;
  }

  method CheckOperand(o: Operand) returns (ok: bool)
    ensures ok == OperandValid(o)
  {
    hide T.IsExpression, Utf8Length;
    if !o.OExpression? { return true; }
    ok := T.Validate(o.text, EXPRESSION_MAX);
  }

  method CheckValues(values: seq<SignalValue>) returns (ok: bool)
    ensures ok <==> values != [] && forall v | v in values :: OperandValid(v.operand)
  {
    hide OperandValid;
    if values == [] { return false; }
    for i := 0 to |values|
      invariant forall j | 0 <= j < i :: OperandValid(values[j].operand)
    {
      assert values[i] in values;
      ok := CheckOperand(values[i].operand);
      if !ok { return false; }
    }
    return true;
  }

  method CheckAction(variables: seq<string>, timers: seq<string>, a: Action) returns (error: Option<FsmError>)
    ensures error == None <==> ActionDeclared(variables, timers, a)
  {
    hide OperandValid;
    match a.body {
      case SendMessage(_, _, values) =>
        var ok := CheckValues(values);
        return if ok then None else if values == [] then Some(NoSignalValues) else Some(BadExpression);
      case SetSignal(_, o) =>
        var ok := CheckOperand(o);
        return if ok then None else Some(BadExpression);
      case SetVariable(v, o) =>
        var ok := CheckOperand(o);
        return if !ok then Some(BadExpression) else if v in variables then None else Some(UndeclaredVariable);
      case StartTimer(t, _, _) => return if t in timers then None else Some(UndeclaredTimer);
      case StopTimer(t) => return if t in timers then None else Some(UndeclaredTimer);
      case ResetTimer(t) => return if t in timers then None else Some(UndeclaredTimer);
      case _ => return None;
    }
  }

  method CheckActions(variables: seq<string>, timers: seq<string>, acts: seq<Action>) returns (error: Option<FsmError>)
    ensures error == None <==> ActionsDeclared(variables, timers, acts)
  {
    hide ActionDeclared;
    error := None;
    for i := 0 to |acts|
      invariant error == None && forall j | 0 <= j < i :: ActionDeclared(variables, timers, acts[j])
    {
      assert acts[i] in acts;
      error := CheckAction(variables, timers, acts[i]);
      if error.Some? { return; }
    }
  }

  method CheckState(variables: seq<string>, timers: seq<string>, s: State) returns (error: Option<FsmError>)
    ensures error == None <==> StateDeclared(variables, timers, s)
  {
    hide ActionsDeclared, ExpressionValid;
    error := CheckActions(variables, timers, s.entry);
    if error.Some? { return; }
    error := CheckActions(variables, timers, s.exit);
    if error.Some? { return; }
    for i := 0 to |s.transitions|
      invariant error == None
      invariant forall j | 0 <= j < i :: GuardValid(s.transitions[j].guard) && ActionsDeclared(variables, timers, s.transitions[j].actions)
    {
      var t := s.transitions[i];
      assert t in s.transitions;
      if t.guard.Some? {
        var ok := CheckOperand(OExpression(t.guard.value));
        if !ok { return Some(BadExpression); }
      }
      error := CheckActions(variables, timers, t.actions);
      if error.Some? { return; }
    }
  }

  method CheckDefaults(variables: seq<VariableDef>) returns (ok: bool)
    ensures ok <==> forall v | v in variables :: DefaultValid(v)
  {
    hide OperandValid;
    for i := 0 to |variables|
      invariant forall j | 0 <= j < i :: DefaultValid(variables[j])
    {
      assert variables[i] in variables;
      if variables[i].default.Some? {
        ok := CheckOperand(variables[i].default.value);
        if !ok { return false; }
      }
    }
    return true;
  }

  method ResolveActions(names: seq<string>, acts: seq<Action>) returns (r: Option<seq<Action>>)
    ensures r == if ActionsResolve(names, acts) then Some(ResolvedActions(names, acts)) else None
  {
    var out: seq<Action> := [];
    for i := 0 to |acts|
      invariant forall j | 0 <= j < i :: ActionResolves(names, acts[j])
      invariant |out| == i && forall j | 0 <= j < i :: out[j] == ResolvedAction(names, acts[j])
    {
      var a := acts[i];
      assert a in acts;
      if a.body.Goto? {
        var index := IndexOf(names, a.body.target);
        if index.None? { return None; }
        a := a.(body := a.body.(targetIndex := index.value));
      }
      out := out + [a];
    }
    assert out == ResolvedActions(names, acts);
    return Some(out);
  }

  method ResolveState(names: seq<string>, s: State) returns (r: Option<State>)
    ensures r == if StateResolves(names, s) then Some(ResolvedState(names, s)) else None
  {
    var ts: seq<Transition> := [];
    for i := 0 to |s.transitions|
      invariant forall j | 0 <= j < i :: TransitionResolves(names, s.transitions[j])
      invariant |ts| == i && forall j | 0 <= j < i :: ts[j] == ResolvedTransition(names, s.transitions[j])
    {
      var t := s.transitions[i];
      assert t in s.transitions;
      var index := IndexOf(names, t.target);
      if index.None? { return None; }
      var actions := ResolveActions(names, t.actions);
      if actions.None? { return None; }
      ts := ts + [t.(targetIndex := index.value, actions := actions.value)];
    }
    var entry := ResolveActions(names, s.entry);
    if entry.None? { return None; }
    var exit := ResolveActions(names, s.exit);
    if exit.None? { return None; }
    assert ts == ResolvedState(names, s).transitions;
    return Some(s.(entry := entry.value, exit := exit.value, transitions := ts));
  }

  method ResolveMachine(m: Machine) returns (r: Option<Machine>)
    ensures r == if MachineResolves(m) then Some(WithStatesResolved(m)) else None
  {
    var names := StateNames(m.states);
    var states: seq<State> := [];
    for k := 0 to |m.states|
      invariant forall j | 0 <= j < k :: StateResolves(names, m.states[j])
      invariant |states| == k && forall j | 0 <= j < k :: states[j] == ResolvedState(names, m.states[j])
    {
      assert m.states[k] in m.states;
      var s := ResolveState(names, m.states[k]);
      if s.None? { return None; }
      states := states + [s.value];
    }
    assert states == WithStatesResolved(m).states;
    return Some(m.(states := states));
  }

  class FsmReader {
    var machines: seq<Machine>
    var instances: seq<Instance>

    constructor ()
      ensures machines == [] && instances == []
    {
      machines, instances := [], [];
    }

    method ReadMachine(m: Machine, seen: seq<string>) returns (error: Option<FsmError>)
      modifies this
      ensures error == None <==> m.name !in seen && MachineReads(m)
      ensures instances == old(instances)
      ensures machines == if error == None
                          then old(machines) + [m.(initialIndex := Lookup(StateNames(m.states), m.initial))] else old(machines)
    {
      hide DefaultValid, StateDeclared;
      if m.name in seen { return Some(DuplicateName); }
      var variables, timers, names := VariableNames(m.variables), TimerNames(m.timers), StateNames(m.states);
      var ok := UniqueNames(variables);
      if !ok { return Some(DuplicateName); }
      ok := CheckDefaults(m.variables);
      if !ok { return Some(BadExpression); }
      ok := UniqueNames(timers);
      if !ok { return Some(DuplicateName); }
      ok := UniqueNames(names);
      if !ok { return Some(DuplicateName); }
      for i := 0 to |m.states|
        invariant machines == old(machines) && instances == old(instances)
        invariant forall j | 0 <= j < i :: StateDeclared(variables, timers, m.states[j])
      {
        assert m.states[i] in m.states;
        error := CheckState(variables, timers, m.states[i]);
        if error.Some? { return; }
      }
      var index := IndexOf(names, m.initial);
      if index.None? { return Some(UnknownInitial); }
      machines := machines + [m.(initialIndex := index.value)];
      return None;
    }

    /** The deferred pass: targets may be declared after the transitions that name them. */
    method ResolveTargets() returns (error: Option<FsmError>)
      modifies this
      ensures instances == old(instances) && |machines| == |old(machines)|
      ensures error == None <==> forall m | m in old(machines) :: MachineResolves(m)
      ensures error == None ==> forall i | 0 <= i < |machines| :: machines[i] == WithStatesResolved(old(machines)[i])
    {
      for i := 0 to |machines|
        invariant instances == old(instances) && |machines| == |old(machines)|
        invariant forall j | i <= j < |machines| :: machines[j] == old(machines)[j]
        invariant forall j | 0 <= j < i :: MachineResolves(old(machines)[j]) && machines[j] == WithStatesResolved(old(machines)[j])
      {
        var m := ResolveMachine(machines[i]);
        assert old(machines)[i] in old(machines);
        if m.None? { return Some(UnknownTarget); }
        machines := machines[i := m.value];
      }
      return None;
    }

    method ReadInstance(inst: Instance, seen: seq<string>) returns (error: Option<FsmError>)
      requires Distinct(MachineNames(machines))
      modifies this
      ensures error == None <==> inst.id !in seen && InstanceReads(machines, inst)
      ensures machines == old(machines)
      ensures instances == if error == None
                           then old(instances) + [inst.(machineIndex := Lookup(MachineNames(machines), inst.machine))]
                           else old(instances)
    {
      if inst.id in seen { return Some(DuplicateName); }
      var index := IndexOf(MachineNames(machines), inst.machine);
      if index.None? {
        assert forall m | m in machines :: m.name in MachineNames(machines) by {
          forall m | m in machines ensures m.name in MachineNames(machines) {
            var k :| 0 <= k < |machines| && machines[k] == m;
            assert MachineNames(machines)[k] == m.name;
          }
        }
        return Some(UnknownMachine);
      }
      var m := machines[index.value];
      assert forall n | n in machines && n.name == inst.machine :: n == m by {
        forall n | n in machines && n.name == inst.machine ensures n == m {
          var k :| 0 <= k < |machines| && machines[k] == n;
          assert MachineNames(machines)[k] == MachineNames(machines)[index.value];
        }
      }
      for i := 0 to |inst.overrides|
        invariant forall j | 0 <= j < i :: OverrideReads(m, inst.overrides[j])
        invariant machines == old(machines) && instances == old(instances)
      {
        assert inst.overrides[i] in inst.overrides;
        if inst.overrides[i].name !in VariableNames(m.variables) { return Some(UndeclaredVariable); }
        var ok := CheckOperand(inst.overrides[i].operand);
        if !ok { return Some(BadExpression); }
      }
      instances := instances + [inst.(machineIndex := index.value)];
      return None;
    }

    method ReadMachines(docs: seq<Machine>) returns (error: Option<FsmError>)
      requires machines == []
      modifies this
      ensures instances == old(instances)
      ensures error == None <==> Distinct(MachineNames(docs)) && forall m | m in docs :: MachineReads(m)
      ensures error == None ==> |machines| == |docs| && forall i | 0 <= i < |docs| :: machines[i] == WithInitial(docs[i])
    {
      hide MachineReads, Lookup;
      var seen: seq<string> := [];
      for i := 0 to |docs|
        invariant instances == old(instances) && |machines| == i
        invariant seen == MachineNames(docs)[..i] && Distinct(seen)
        invariant forall j | 0 <= j < i :: MachineReads(docs[j]) && machines[j] == WithInitial(docs[j])
      {
        assert docs[i] in docs && docs[i].name == MachineNames(docs)[i];
        error := ReadMachine(docs[i], seen);
        if error.Some? {
          if docs[i].name in seen { NotUnique(MachineNames(docs), i); }
          return;
        }
        seen := seen + [docs[i].name];
      }
      assert seen == MachineNames(docs);
      return None;
    }

    method ReadInstances(docs: seq<Instance>) returns (error: Option<FsmError>)
      requires instances == [] && Distinct(MachineNames(machines))
      modifies this
      ensures machines == old(machines)
      ensures error == None <==> Distinct(InstanceIds(docs)) && forall inst | inst in docs :: InstanceReads(machines, inst)
      ensures error == None ==> |instances| == |docs| && forall i | 0 <= i < |docs| ::
                instances[i] == docs[i].(machineIndex := Lookup(MachineNames(machines), docs[i].machine))
    {
      hide InstanceReads, Lookup;
      var ids: seq<string> := [];
      for i := 0 to |docs|
        invariant machines == old(machines) && |instances| == i
        invariant ids == InstanceIds(docs)[..i] && Distinct(ids)
        invariant forall j | 0 <= j < i :: InstanceReads(machines, docs[j])
        invariant forall j | 0 <= j < i ::
                    instances[j] == docs[j].(machineIndex := Lookup(MachineNames(machines), docs[j].machine))
      {
        assert docs[i] in docs && docs[i].id == InstanceIds(docs)[i];
        error := ReadInstance(docs[i], ids);
        if error.Some? {
          if docs[i].id in ids { NotUnique(InstanceIds(docs), i); }
          return;
        }
        ids := ids + [docs[i].id];
      }
      assert ids == InstanceIds(docs);
      return None;
    }

    /** The whole compile step: it accepts exactly the documents that compile, and changes only their indexes, to the right ones. */
    method Read(doc: SetModel) returns (error: Option<FsmError>)
      requires machines == [] && instances == []
      modifies this
      ensures error == None <==> Compiles(doc)
      ensures error == None ==> SetModel(machines, instances) == Compiled(doc)
      ensures error == None ==> SameButIndexes(doc, SetModel(machines, instances)) && IndexesLead(SetModel(machines, instances))
    {
      error := ReadMachines(doc.machines);
      if error.Some? { return; }
      ghost var initial := machines;
      error := ResolveTargets();
      SameTargets(doc.machines, initial);
      if error.Some? { return; }
      ResolvedPass(doc.machines, machines);
      forall inst { SameInstanceReads(doc.machines, machines, inst); }
      hide MachineResolves, MachineReads, InstanceReads, ResolvedMachine;
      error := ReadInstances(doc.instances);
      if error.Some? { return; }
      if |machines| > COUNT_MAX { return Some(TooMany); }
      if |instances| > COUNT_MAX { return Some(TooMany); }
      CompiledKeepsRest(doc);
      CompiledIndexesLead(doc);
      hide SameButIndexes, IndexesLead;
      return None;
    }
  }

  function WithInitial(m: Machine): Machine { m.(initialIndex := Lookup(StateNames(m.states), m.initial)) }

  function WithStatesResolved(m: Machine): Machine {
    m.(states := seq(|m.states|, i requires 0 <= i < |m.states| => ResolvedState(StateNames(m.states), m.states[i])))
  }

  lemma NotUnique(names: seq<string>, i: nat)
    requires i < |names| && names[i] in names[..i]
    ensures !Distinct(names)
  {
    var j :| 0 <= j < i && names[..i][j] == names[i];
    assert names[j] == names[i];
  }

  lemma SameTargets(docs: seq<Machine>, initial: seq<Machine>)
    requires |initial| == |docs| && forall i | 0 <= i < |docs| :: initial[i] == WithInitial(docs[i])
    ensures (forall m | m in initial :: MachineResolves(m)) <==> forall m | m in docs :: MachineResolves(m)
  {
    forall i | 0 <= i < |docs| ensures initial[i] in initial && docs[i] in docs
                                       && (MachineResolves(initial[i]) <==> MachineResolves(docs[i])) {}
    hide MachineResolves, WithInitial;
  }

  lemma ResolvedPass(docs: seq<Machine>, ms: seq<Machine>)
    requires |ms| == |docs| && forall i | 0 <= i < |ms| :: ms[i] == WithStatesResolved(WithInitial(docs[i]))
    ensures forall i | 0 <= i < |ms| :: ms[i] == ResolvedMachine(docs[i])
    ensures MachineNames(ms) == MachineNames(docs)
  {
  }

  lemma SameInstanceReads(docs: seq<Machine>, ms: seq<Machine>, inst: Instance)
    requires |ms| == |docs| && forall i | 0 <= i < |ms| :: ms[i] == ResolvedMachine(docs[i])
    ensures InstanceReads(ms, inst) <==> InstanceReads(docs, inst)
  {
    forall i | 0 <= i < |ms| ensures ms[i].name == docs[i].name && ms[i].variables == docs[i].variables {}
    hide ResolvedMachine;
    ReadsEither(ms, docs, inst);
    ReadsEither(docs, ms, inst);
  }

  lemma ReadsEither(ms: seq<Machine>, ns: seq<Machine>, inst: Instance)
    requires |ms| == |ns| && forall i | 0 <= i < |ms| :: ms[i].name == ns[i].name && ms[i].variables == ns[i].variables
    ensures InstanceReads(ms, inst) ==> InstanceReads(ns, inst)
  {
    if InstanceReads(ms, inst) {
      var m :| m in ms && m.name == inst.machine && forall o | o in inst.overrides :: OverrideReads(m, o);
      var k :| 0 <= k < |ms| && ms[k] == m;
      assert ns[k] in ns && forall o | o in inst.overrides :: OverrideReads(ns[k], o);
    }
  }

  // ---------------------------------------------------------------------------
  // Indexes and names give the same run
  // ---------------------------------------------------------------------------

  /** One step of a run: an event transition, or a transition action of some list. */
  datatype Choice = Take(j: nat) | EntryGoto(k: nat) | ExitGoto(k: nat) | ActionGoto(j: nat, k: nat)

  function GotoAt(acts: seq<Action>, k: nat): Option<(string, nat)> {
    if k < |acts| && acts[k].body.Goto? then Some((acts[k].body.target, acts[k].body.targetIndex)) else None
  }

  /** Target name and target index of a choice in a state, if the state offers it. */
  function Target(s: State, c: Choice): Option<(string, nat)> {
    match c
    case Take(j) => if j < |s.transitions| then Some((s.transitions[j].target, s.transitions[j].targetIndex)) else None
    case EntryGoto(k) => GotoAt(s.entry, k)
    case ExitGoto(k) => GotoAt(s.exit, k)
    case ActionGoto(j, k) => if j < |s.transitions| then GotoAt(s.transitions[j].actions, k) else None
  }

  /** Follow the emitted indexes. */
  function IndexRun(m: Machine, at: nat, cs: seq<Choice>): Option<nat>
    decreases |cs|
  {
    if at >= |m.states| then None
    else if cs == [] then Some(at)
    else match Target(m.states[at], cs[0])
         case None => None
         case Some(t) => IndexRun(m, t.1, cs[1..])
  }

  /** Follow the names of the document. */
  function NameRun(m: Machine, at: string, cs: seq<Choice>): Option<string>
    decreases |cs|
  {
    match IndexOf(StateNames(m.states), at)
    case None => None
    case Some(i) =>
      if cs == [] then Some(at)
      else match Target(m.states[i], cs[0])
           case None => None
           case Some(t) => NameRun(m, t.0, cs[1..])
  }

  lemma TargetResolved(m: Machine, i: nat, c: Choice)
    requires MachineReads(m) && MachineResolves(m) && i < |m.states|
    ensures var names := StateNames(m.states);
            match Target(m.states[i], c)
            case None => Target(ResolvedMachine(m).states[i], c) == None
            case Some(t) => t.0 in names && Target(ResolvedMachine(m).states[i], c) == Some((t.0, Lookup(names, t.0)))
  {
    var s := m.states[i];
    assert s in m.states && StateResolves(StateNames(m.states), s);
    match c {
      case Take(j) => if j < |s.transitions| { assert s.transitions[j] in s.transitions; }
      case EntryGoto(k) => if k < |s.entry| { assert s.entry[k] in s.entry; }
      case ExitGoto(k) => if k < |s.exit| { assert s.exit[k] in s.exit; }
      case ActionGoto(j, k) =>
        if j < |s.transitions| {
          var t := s.transitions[j];
          assert t in s.transitions;
          if k < |t.actions| { assert t.actions[k] in t.actions; }
        }
    }
  }

  /** From any state, following indexes in the compiled machine tracks following names in the document. */
  lemma {:induction false} RunsAgree(m: Machine, i: nat, cs: seq<Choice>)
    requires MachineReads(m) && MachineResolves(m) && i < |m.states|
    ensures match NameRun(m, m.states[i].name, cs)
            case None => IndexRun(ResolvedMachine(m), i, cs) == None
            case Some(n) =>
              var k := IndexRun(ResolvedMachine(m), i, cs);
              k.Some? && k.value < |m.states| && m.states[k.value].name == n
    decreases |cs|
  {
    var names := StateNames(m.states);
    assert names[i] == m.states[i].name;
    assert IndexOf(names, names[i]) == Some(i);
    if cs != [] {
      TargetResolved(m, i, cs[0]);
      var t := Target(m.states[i], cs[0]);
      if t.Some? {
        var k := Lookup(names, t.value.0);
        assert names[k] == t.value.0 == m.states[k].name;
        RunsAgree(m, k, cs[1..]);
      }
    }
  }

  /** And so does the run from the initial state. */
  lemma InitialRunsAgree(m: Machine, cs: seq<Choice>)
    requires MachineReads(m) && MachineResolves(m)
    ensures ResolvedMachine(m).initialIndex < |m.states|
    ensures match NameRun(m, m.initial, cs)
            case None => IndexRun(ResolvedMachine(m), ResolvedMachine(m).initialIndex, cs) == None
            case Some(n) =>
              var k := IndexRun(ResolvedMachine(m), ResolvedMachine(m).initialIndex, cs);
              k.Some? && k.value < |m.states| && m.states[k.value].name == n
  {
    var i := Lookup(StateNames(m.states), m.initial);
    assert m.states[i].name == m.initial;
    RunsAgree(m, i, cs);
  }
}
