/**
 The generated C header as a list of static const definitions, and what it
 denotes: each initializer is read with only the symbols defined above it.
 */
module FsmHeader {
  import opened Wrappers
  import opened Fsm
  import opened Words

  /** The array families of the generated code. */
  datatype Family =
    | Sigvals | Actions | Entry | Exit | Trans | Vardefs | Timerdefs | States
    | Bindings | Overrides | Sigsubs | Canrx | Machines | Instances

  /** Emitted symbols: interned strings, numbered arrays and the set itself. */
  datatype Sym = StrSym(n: nat) | ArrSym(family: Family, n: nat) | SetSym

  datatype Literal = BoolLit(b: bool) | IntLit(i: int64) | RealLit(r: real) | UnsetLit

  datatype COperand = COperand(isExpression: bool, literal: Literal, expression: Option<Sym>)

  datatype CSignalValue = CSignalValue(name: Sym, operand: COperand)

  datatype Kind =
    | KSendMessage | KSetSignal | KSetVariable | KStartTimer | KStopTimer | KResetTimer | KLog | KRaiseFault | KTransition

  /** The union of cancestry_fsm_action_t; stop and reset share the `timer` member. */
  datatype CUnion =
    | AsSend(iface: Sym, message: Sym, values: Option<Sym>, valueCount: nat)
    | AsSetSignal(signal: Sym, operand: COperand)
    | AsSetVariable(variable: Sym, operand: COperand)
    | AsStartTimer(timer: Sym, duration: nat, hasDuration: bool, again: bool, hasAgain: bool)
    | AsTimer(timer: Sym)
    | AsLog(level: Level, message: Sym)
    | AsRaiseFault(code: Sym, severity: Severity)
    | AsTransition(target: Sym, targetIndex: nat)

  datatype CAction = CAction(kind: Kind, line: nat, u: CUnion)

  datatype CTransition = CTransition(
    event: Event, iface: Option<Sym>, message: Option<Sym>, signal: Option<Sym>, timer: Option<Sym>, guard: Option<Sym>,
    actions: Option<Sym>, actionCount: nat, target: Sym, targetIndex: nat)

  datatype CState = CState(
    name: Sym, entry: Option<Sym>, entryCount: nat, exit: Option<Sym>, exitCount: nat,
    transitions: Option<Sym>, transitionCount: nat)

  datatype CVariableDef = CVariableDef(name: Sym, kind: VariableType, default: COperand, hasDefault: bool)

  datatype CTimerDef = CTimerDef(name: Sym, duration: nat, again: bool, autoStart: bool)

  datatype CMachine = CMachine(
    name: Sym, description: Option<Sym>, initial: Sym, initialIndex: nat, variables: Option<Sym>, variableCount: nat,
    timers: Option<Sym>, timerCount: nat, states: Option<Sym>, stateCount: nat)

  datatype CBinding = CBinding(alias: Sym, physical: Sym)

  datatype COverride = COverride(name: Sym, operand: COperand)

  datatype CCanRx = CCanRx(iface: Sym, canId: nat, hasCanId: bool, message: Option<Sym>)

  datatype CInstance = CInstance(
    id: Sym, machine: Sym, machineIndex: nat, enabled: bool, bindings: Option<Sym>, bindingCount: nat,
    variables: Option<Sym>, variableCount: nat, canRx: Option<Sym>, canRxCount: nat, hasCanRx: bool,
    signals: Option<Sym>, signalCount: nat, hasSignals: bool, timers: bool, hasTimers: bool,
    faults: bool, hasFaults: bool, powerMode: bool, hasPowerMode: bool)

  datatype Initializer =
    | CString(text: string)
    | CSignalValues(signalValues: seq<CSignalValue>)
    | CActions(actions: seq<CAction>)
    | CTransitions(transitions: seq<CTransition>)
    | CStates(states: seq<CState>)
    | CVariableDefs(variables: seq<CVariableDef>)
    | CTimerDefs(timers: seq<CTimerDef>)
    | CBindings(bindings: seq<CBinding>)
    | COverrides(overrides: seq<COverride>)
    | CSignalNames(names: seq<Sym>)
    | CCanRxs(canRxs: seq<CCanRx>)
    | CMachines(machines: seq<CMachine>)
    | CInstances(instances: seq<CInstance>)
    | CSet(machineArray: Option<Sym>, machineCount: nat, instanceArray: Option<Sym>, instanceCount: nat)

  datatype Definition = Definition(sym: Sym, init: Initializer)

  /** What a symbol denotes once it is defined. */
  datatype Val =
    | VText(text: string)
    | VSignalValues(signalValues: seq<SignalValue>)
    | VActions(actions: seq<Action>)
    | VTransitions(transitions: seq<Transition>)
    | VStates(states: seq<State>)
    | VVariableDefs(variables: seq<VariableDef>)
    | VTimerDefs(timers: seq<TimerDef>)
    | VBindings(bindings: seq<Binding>)
    | VOverrides(overrides: seq<Override>)
    | VSignalNames(names: seq<string>)
    | VCanRxs(canRxs: seq<CanRx>)
    | VMachines(machines: seq<Machine>)
    | VInstances(instances: seq<Instance>)
    | VSet(model: SetModel)

  type Env = map<Sym, Val>

  /** Element-wise reading of an array initializer. */
  function ReadAll<C, M>(cs: seq<C>, f: C -> Option<M>): Option<seq<M>> {
    if cs == [] then Some([])
    else
      var rest :- ReadAll(cs[..|cs| - 1], f);
      var last :- f(cs[|cs| - 1]);
      Some(rest + [last])
  }

  lemma {:induction false} ReadAllSome<C, M>(cs: seq<C>, f: C -> Option<M>, ms: seq<M>)
    requires |cs| == |ms| && forall i | 0 <= i < |cs| :: f(cs[i]) == Some(ms[i])
    ensures ReadAll(cs, f) == Some(ms)
  {
    if cs != [] {
      var n := |cs| - 1;
      ReadAllSome(cs[..n], f, ms[..n]);
      assert f(cs[n]) == Some(ms[n]);
      assert ms == ms[..n] + [ms[n]];
    }
  }

  lemma {:induction false} ReadAllMonotone<C, M>(cs: seq<C>, f: C -> Option<M>, g: C -> Option<M>)
    requires forall c :: f(c).Some? ==> g(c) == f(c)
    ensures ReadAll(cs, f).Some? ==> ReadAll(cs, g) == ReadAll(cs, f)
  {
    if cs != [] { ReadAllMonotone(cs[..|cs| - 1], f, g); }
  }

  function Text(e: Env, s: Sym): Option<string> {
    if s in e && e[s].VText? then Some(e[s].text) else None
  }

  function TextOrNull(e: Env, s: Option<Sym>): Option<Option<string>> {
    if s.None? then Some(None) else
      var t :- Text(e, s.value);
      Some(Some(t))
  }

  /** A pointer-and-count member, given the array that the pointer leads to: NULL with count 0 is the empty list. */
  function Counted<T>(p: Option<Sym>, n: nat, found: Option<seq<T>>): Option<seq<T>> {
    if p.None? then (if n == 0 then Some([]) else None)
    else if found.Some? && |found.value| == n then found else None
  }

  function SignalValuesAt(e: Env, p: Option<Sym>, n: nat): Option<seq<SignalValue>> {
    Counted(p, n, if p.Some? && p.value in e && e[p.value].VSignalValues? then Some(e[p.value].signalValues) else None)
  }

  function ActionsAt(e: Env, p: Option<Sym>, n: nat): Option<seq<Action>> {
    Counted(p, n, if p.Some? && p.value in e && e[p.value].VActions? then Some(e[p.value].actions) else None)
  }

  function TransitionsAt(e: Env, p: Option<Sym>, n: nat): Option<seq<Transition>> {
    Counted(p, n, if p.Some? && p.value in e && e[p.value].VTransitions? then Some(e[p.value].transitions) else None)
  }

  function StatesAt(e: Env, p: Option<Sym>, n: nat): Option<seq<State>> {
    Counted(p, n, if p.Some? && p.value in e && e[p.value].VStates? then Some(e[p.value].states) else None)
  }

  function VariableDefsAt(e: Env, p: Option<Sym>, n: nat): Option<seq<VariableDef>> {
    Counted(p, n, if p.Some? && p.value in e && e[p.value].VVariableDefs? then Some(e[p.value].variables) else None)
  }

  function TimerDefsAt(e: Env, p: Option<Sym>, n: nat): Option<seq<TimerDef>> {
    Counted(p, n, if p.Some? && p.value in e && e[p.value].VTimerDefs? then Some(e[p.value].timers) else None)
  }

  function BindingsAt(e: Env, p: Option<Sym>, n: nat): Option<seq<Binding>> {
    Counted(p, n, if p.Some? && p.value in e && e[p.value].VBindings? then Some(e[p.value].bindings) else None)
  }

  function OverridesAt(e: Env, p: Option<Sym>, n: nat): Option<seq<Override>> {
    Counted(p, n, if p.Some? && p.value in e && e[p.value].VOverrides? then Some(e[p.value].overrides) else None)
  }

  function SignalNamesAt(e: Env, p: Option<Sym>, n: nat): Option<seq<string>> {
    Counted(p, n, if p.Some? && p.value in e && e[p.value].VSignalNames? then Some(e[p.value].names) else None)
  }

  function CanRxsAt(e: Env, p: Option<Sym>, n: nat): Option<seq<CanRx>> {
    Counted(p, n, if p.Some? && p.value in e && e[p.value].VCanRxs? then Some(e[p.value].canRxs) else None)
  }

  function MachinesAt(e: Env, p: Option<Sym>, n: nat): Option<seq<Machine>> {
    Counted(p, n, if p.Some? && p.value in e && e[p.value].VMachines? then Some(e[p.value].machines) else None)
  }

  function InstancesAt(e: Env, p: Option<Sym>, n: nat): Option<seq<Instance>> {
    Counted(p, n, if p.Some? && p.value in e && e[p.value].VInstances? then Some(e[p.value].instances) else None)
  }

  // One struct initializer at a time.

  function ReadOperand(e: Env, c: COperand): Option<Operand> {
    if c.isExpression then
      if c.expression.None? || !c.literal.UnsetLit? then None else
        var t :- Text(e, c.expression.value);
        Some(OExpression(t))
    else match c.literal
         case BoolLit(b) => Some(OBool(b))
         case IntLit(i) => Some(OInt(i))
         case RealLit(r) => Some(OReal(r))
         case UnsetLit => None
  }

  function ReadSignalValue(e: Env, c: CSignalValue): Option<SignalValue> {
    var name :- Text(e, c.name);
    var operand :- ReadOperand(e, c.operand);
    Some(SignalValue(name, operand))
  }

  function ReadBody(e: Env, kind: Kind, u: CUnion): Option<Body> {
    match u
    case AsSend(i, m, p, n) =>
      if kind != KSendMessage then None else
        var iface :- Text(e, i);
        var message :- Text(e, m);
        var values :- SignalValuesAt(e, p, n);
        Some(SendMessage(iface, message, values))
    case AsSetSignal(s, o) =>
      if kind != KSetSignal then None else
        var name :- Text(e, s);
        var operand :- ReadOperand(e, o);
        Some(SetSignal(name, operand))
    case AsSetVariable(s, o) =>
      if kind != KSetVariable then None else
        var name :- Text(e, s);
        var operand :- ReadOperand(e, o);
        Some(SetVariable(name, operand))
    case AsStartTimer(t, d, hasD, r, hasR) =>
      if kind != KStartTimer then None else
        var timer :- Text(e, t);
        Some(StartTimer(timer, if hasD then Some(d) else None, if hasR then Some(r) else None))
    case AsTimer(t) =>
      var timer :- Text(e, t);
      if kind == KStopTimer then Some(StopTimer(timer))
      else if kind == KResetTimer then Some(ResetTimer(timer)) else None
    case AsLog(level, m) =>
      if kind != KLog then None else
        var message :- Text(e, m);
        Some(Log(level, message))
    case AsRaiseFault(c, severity) =>
      if kind != KRaiseFault then None else
        var code :- Text(e, c);
        Some(RaiseFault(code, severity))
    case AsTransition(t, index) =>
      if kind != KTransition then None else
        var target :- Text(e, t);
        Some(Goto(target, index))
  }

  function ReadAction(e: Env, c: CAction): Option<Action> {
    var body :- ReadBody(e, c.kind, c.u);
    Some(Action(c.line, body))
  }

  function ReadTransition(e: Env, c: CTransition): Option<Transition> {
    var iface :- TextOrNull(e, c.iface);
    var message :- TextOrNull(e, c.message);
    var signal :- TextOrNull(e, c.signal);
    var timer :- TextOrNull(e, c.timer);
    var guard :- TextOrNull(e, c.guard);
    var actions :- ActionsAt(e, c.actions, c.actionCount);
    var target :- Text(e, c.target);
    Some(Transition(c.event, iface, message, signal, timer, guard, actions, target, c.targetIndex))
  }

  function ReadState(e: Env, c: CState): Option<State> {
    var name :- Text(e, c.name);
    var entry :- ActionsAt(e, c.entry, c.entryCount);
    var exit :- ActionsAt(e, c.exit, c.exitCount);
    var transitions :- TransitionsAt(e, c.transitions, c.transitionCount);
    Some(State(name, entry, exit, transitions))
  }

  function ReadVariableDef(e: Env, c: CVariableDef): Option<VariableDef> {
    var name :- Text(e, c.name);
    if !c.hasDefault then Some(VariableDef(name, c.kind, None)) else
      var default :- ReadOperand(e, c.default);
      Some(VariableDef(name, c.kind, Some(default)))
  }

  function ReadTimerDef(e: Env, c: CTimerDef): Option<TimerDef> {
    var name :- Text(e, c.name);
    Some(TimerDef(name, c.duration, c.again, c.autoStart))
  }

  function ReadBinding(e: Env, c: CBinding): Option<Binding> {
    var alias :- Text(e, c.alias);
    var physical :- Text(e, c.physical);
    Some(Binding(alias, physical))
  }

  function ReadOverride(e: Env, c: COverride): Option<Override> {
    var name :- Text(e, c.name);
    var operand :- ReadOperand(e, c.operand);
    Some(Override(name, operand))
  }

  function ReadCanRx(e: Env, c: CCanRx): Option<CanRx> {
    var iface :- Text(e, c.iface);
    var message :- TextOrNull(e, c.message);
    Some(CanRx(iface, if c.hasCanId then Some(c.canId) else None, message))
  }

  function ReadMachine(e: Env, c: CMachine): Option<Machine> {
    var name :- Text(e, c.name);
    var description :- TextOrNull(e, c.description);
    var initial :- Text(e, c.initial);
    var variables :- VariableDefsAt(e, c.variables, c.variableCount);
    var timers :- TimerDefsAt(e, c.timers, c.timerCount);
    var states :- StatesAt(e, c.states, c.stateCount);
    Some(Machine(name, description, initial, c.initialIndex, variables, timers, states))
  }

  function ReadInstance(e: Env, c: CInstance): Option<Instance> {
    var id :- Text(e, c.id);
    var machine :- Text(e, c.machine);
    var bindings :- BindingsAt(e, c.bindings, c.bindingCount);
    var overrides :- OverridesAt(e, c.variables, c.variableCount);
    var canRx :- CanRxsAt(e, c.canRx, c.canRxCount);
    var signals :- SignalNamesAt(e, c.signals, c.signalCount);
    Some(Instance(id, machine, c.machineIndex, c.enabled, bindings, overrides,
                  Subscriptions(canRx, c.hasCanRx, signals, c.hasSignals, c.timers, c.hasTimers,
                                c.faults, c.hasFaults, c.powerMode, c.hasPowerMode)))
  }

  function Read(e: Env, init: Initializer): Option<Val> {
    match init
    case CString(t) => Some(VText(t))
    case CSignalValues(cs) => var ms :- ReadAll(cs, c => ReadSignalValue(e, c)); Some(VSignalValues(ms))
    case CActions(cs) => var ms :- ReadAll(cs, c => ReadAction(e, c)); Some(VActions(ms))
    case CTransitions(cs) => var ms :- ReadAll(cs, c => ReadTransition(e, c)); Some(VTransitions(ms))
    case CStates(cs) => var ms :- ReadAll(cs, c => ReadState(e, c)); Some(VStates(ms))
    case CVariableDefs(cs) => var ms :- ReadAll(cs, c => ReadVariableDef(e, c)); Some(VVariableDefs(ms))
    case CTimerDefs(cs) => var ms :- ReadAll(cs, c => ReadTimerDef(e, c)); Some(VTimerDefs(ms))
    case CBindings(cs) => var ms :- ReadAll(cs, c => ReadBinding(e, c)); Some(VBindings(ms))
    case COverrides(cs) => var ms :- ReadAll(cs, c => ReadOverride(e, c)); Some(VOverrides(ms))
    case CSignalNames(cs) => var ms :- ReadAll(cs, c => Text(e, c)); Some(VSignalNames(ms))
    case CCanRxs(cs) => var ms :- ReadAll(cs, c => ReadCanRx(e, c)); Some(VCanRxs(ms))
    case CMachines(cs) => var ms :- ReadAll(cs, c => ReadMachine(e, c)); Some(VMachines(ms))
    case CInstances(cs) => var ms :- ReadAll(cs, c => ReadInstance(e, c)); Some(VInstances(ms))
    case CSet(p, n, q, k) =>
      var machines :- MachinesAt(e, p, n);
      var instances :- InstancesAt(e, q, k);
      Some(VSet(SetModel(machines, instances)))
  }

  // An array initializer whose elements read as ms reads as the list ms.

  lemma SignalValuesRead(e: Env, cs: seq<CSignalValue>, ms: seq<SignalValue>)
    requires |cs| == |ms| && forall i | 0 <= i < |cs| :: ReadSignalValue(e, cs[i]) == Some(ms[i])
    ensures Read(e, CSignalValues(cs)) == Some(VSignalValues(ms))
  {
    ReadAllSome(cs, c => ReadSignalValue(e, c), ms);
  }

  lemma ActionsRead(e: Env, cs: seq<CAction>, ms: seq<Action>)
    requires |cs| == |ms| && forall i | 0 <= i < |cs| :: ReadAction(e, cs[i]) == Some(ms[i])
    ensures Read(e, CActions(cs)) == Some(VActions(ms))
  {
    ReadAllSome(cs, c => ReadAction(e, c), ms);
  }

  lemma TransitionsRead(e: Env, cs: seq<CTransition>, ms: seq<Transition>)
    requires |cs| == |ms| && forall i | 0 <= i < |cs| :: ReadTransition(e, cs[i]) == Some(ms[i])
    ensures Read(e, CTransitions(cs)) == Some(VTransitions(ms))
  {
    ReadAllSome(cs, c => ReadTransition(e, c), ms);
  }

  lemma StatesRead(e: Env, cs: seq<CState>, ms: seq<State>)
    requires |cs| == |ms| && forall i | 0 <= i < |cs| :: ReadState(e, cs[i]) == Some(ms[i])
    ensures Read(e, CStates(cs)) == Some(VStates(ms))
  {
    ReadAllSome(cs, c => ReadState(e, c), ms);
  }

  lemma VariableDefsRead(e: Env, cs: seq<CVariableDef>, ms: seq<VariableDef>)
    requires |cs| == |ms| && forall i | 0 <= i < |cs| :: ReadVariableDef(e, cs[i]) == Some(ms[i])
    ensures Read(e, CVariableDefs(cs)) == Some(VVariableDefs(ms))
  {
    ReadAllSome(cs, c => ReadVariableDef(e, c), ms);
  }

  lemma TimerDefsRead(e: Env, cs: seq<CTimerDef>, ms: seq<TimerDef>)
    requires |cs| == |ms| && forall i | 0 <= i < |cs| :: ReadTimerDef(e, cs[i]) == Some(ms[i])
    ensures Read(e, CTimerDefs(cs)) == Some(VTimerDefs(ms))
  {
    ReadAllSome(cs, c => ReadTimerDef(e, c), ms);
  }

  lemma BindingsRead(e: Env, cs: seq<CBinding>, ms: seq<Binding>)
    requires |cs| == |ms| && forall i | 0 <= i < |cs| :: ReadBinding(e, cs[i]) == Some(ms[i])
    ensures Read(e, CBindings(cs)) == Some(VBindings(ms))
  {
    ReadAllSome(cs, c => ReadBinding(e, c), ms);
  }

  lemma OverridesRead(e: Env, cs: seq<COverride>, ms: seq<Override>)
    requires |cs| == |ms| && forall i | 0 <= i < |cs| :: ReadOverride(e, cs[i]) == Some(ms[i])
    ensures Read(e, COverrides(cs)) == Some(VOverrides(ms))
  {
    ReadAllSome(cs, c => ReadOverride(e, c), ms);
  }

  lemma SignalNamesRead(e: Env, cs: seq<Sym>, ms: seq<string>)
    requires |cs| == |ms| && forall i | 0 <= i < |cs| :: Text(e, cs[i]) == Some(ms[i])
    ensures Read(e, CSignalNames(cs)) == Some(VSignalNames(ms))
  {
    ReadAllSome(cs, c => Text(e, c), ms);
  }

  lemma CanRxsRead(e: Env, cs: seq<CCanRx>, ms: seq<CanRx>)
    requires |cs| == |ms| && forall i | 0 <= i < |cs| :: ReadCanRx(e, cs[i]) == Some(ms[i])
    ensures Read(e, CCanRxs(cs)) == Some(VCanRxs(ms))
  {
    ReadAllSome(cs, c => ReadCanRx(e, c), ms);
  }

  lemma MachinesRead(e: Env, cs: seq<CMachine>, ms: seq<Machine>)
    requires |cs| == |ms| && forall i | 0 <= i < |cs| :: ReadMachine(e, cs[i]) == Some(ms[i])
    ensures Read(e, CMachines(cs)) == Some(VMachines(ms))
  {
    ReadAllSome(cs, c => ReadMachine(e, c), ms);
  }

  lemma InstancesRead(e: Env, cs: seq<CInstance>, ms: seq<Instance>)
    requires |cs| == |ms| && forall i | 0 <= i < |cs| :: ReadInstance(e, cs[i]) == Some(ms[i])
    ensures Read(e, CInstances(cs)) == Some(VInstances(ms))
  {
    ReadAllSome(cs, c => ReadInstance(e, c), ms);
  }

  /**
   Reading definitions top to bottom.  It fails on a symbol defined twice and on
   an initializer that uses a symbol not defined above it.
   */
  function ReadFrom(base: Env, defs: seq<Definition>): Option<Env> {
    if defs == [] then Some(base)
    else
      var e :- ReadFrom(base, defs[..|defs| - 1]);
      var d := defs[|defs| - 1];
      if d.sym in e then None else
        var v :- Read(e, d.init);
        Some(e[d.sym := v])
  }

  /** The FSM set a whole header denotes. */
  function ReadHeader(defs: seq<Definition>): Option<SetModel> {
    var e :- ReadFrom(map[], defs);
    if SetSym in e && e[SetSym].VSet? then Some(e[SetSym].model) else None
  }

  // ---------------------------------------------------------------------------
  // Reading is stable when more symbols are defined
  // ---------------------------------------------------------------------------

  ghost predicate Extends(e: Env, f: Env) {
    forall s | s in e :: s in f && f[s] == e[s]
  }

  lemma OperandStable(e: Env, f: Env, c: COperand)
    requires Extends(e, f)
    ensures ReadOperand(e, c).Some? ==> ReadOperand(f, c) == ReadOperand(e, c)
  {
  }

  lemma SignalValueStable(e: Env, f: Env, c: CSignalValue)
    requires Extends(e, f)
    ensures ReadSignalValue(e, c).Some? ==> ReadSignalValue(f, c) == ReadSignalValue(e, c)
  {
  }

  lemma ActionStable(e: Env, f: Env, c: CAction)
    requires Extends(e, f)
    ensures ReadAction(e, c).Some? ==> ReadAction(f, c) == ReadAction(e, c)
  {
  }

  lemma TransitionStable(e: Env, f: Env, c: CTransition)
    requires Extends(e, f)
    ensures ReadTransition(e, c).Some? ==> ReadTransition(f, c) == ReadTransition(e, c)
  {
  }

  lemma StateStable(e: Env, f: Env, c: CState)
    requires Extends(e, f)
    ensures ReadState(e, c).Some? ==> ReadState(f, c) == ReadState(e, c)
  {
  }

  lemma MachineStable(e: Env, f: Env, c: CMachine)
    requires Extends(e, f)
    ensures ReadMachine(e, c).Some? ==> ReadMachine(f, c) == ReadMachine(e, c)
  {
  }

  lemma InstanceStable(e: Env, f: Env, c: CInstance)
    requires Extends(e, f)
    ensures ReadInstance(e, c).Some? ==> ReadInstance(f, c) == ReadInstance(e, c)
  {
  }

  lemma ReadStable(e: Env, f: Env, init: Initializer)
    requires Extends(e, f)
    ensures Read(e, init).Some? ==> Read(f, init) == Read(e, init)
  {
    if Flat(init) { FlatStable(e, f, init); } else { NestedStable(e, f, init); }
  }

  /** Initializers whose elements point at strings only. */
  predicate Flat(init: Initializer) {
    init.CVariableDefs? || init.CTimerDefs? || init.CBindings? || init.COverrides? || init.CSignalNames? || init.CCanRxs?
  }

  lemma FlatStable(e: Env, f: Env, init: Initializer)
    requires Extends(e, f) && Flat(init)
    ensures Read(e, init).Some? ==> Read(f, init) == Read(e, init)
  {
    match init {
      case CVariableDefs(cs) => ReadAllMonotone(cs, c => ReadVariableDef(e, c), c => ReadVariableDef(f, c));
      case CTimerDefs(cs) => ReadAllMonotone(cs, c => ReadTimerDef(e, c), c => ReadTimerDef(f, c));
      case CBindings(cs) => ReadAllMonotone(cs, c => ReadBinding(e, c), c => ReadBinding(f, c));
      case COverrides(cs) => ReadAllMonotone(cs, c => ReadOverride(e, c), c => ReadOverride(f, c));
      case CSignalNames(cs) => ReadAllMonotone(cs, c => Text(e, c), c => Text(f, c));
      case CCanRxs(cs) => ReadAllMonotone(cs, c => ReadCanRx(e, c), c => ReadCanRx(f, c));
    }
  }

  lemma NestedStable(e: Env, f: Env, init: Initializer)
    requires Extends(e, f) && !Flat(init)
    ensures Read(e, init).Some? ==> Read(f, init) == Read(e, init)
  {
    hide ReadSignalValue, ReadAction, ReadTransition, ReadState, ReadMachine, ReadInstance;
    match init {
      case CSignalValues(cs) => forall c { SignalValueStable(e, f, c); } ReadAllMonotone(cs, c => ReadSignalValue(e, c), c => ReadSignalValue(f, c));
      case CActions(cs) => forall c { ActionStable(e, f, c); } ReadAllMonotone(cs, c => ReadAction(e, c), c => ReadAction(f, c));
      case CTransitions(cs) => forall c { TransitionStable(e, f, c); } ReadAllMonotone(cs, c => ReadTransition(e, c), c => ReadTransition(f, c));
      case CStates(cs) => forall c { StateStable(e, f, c); } ReadAllMonotone(cs, c => ReadState(e, c), c => ReadState(f, c));
      case CMachines(cs) => forall c { MachineStable(e, f, c); } ReadAllMonotone(cs, c => ReadMachine(e, c), c => ReadMachine(f, c));
      case CInstances(cs) => forall c { InstanceStable(e, f, c); } ReadAllMonotone(cs, c => ReadInstance(e, c), c => ReadInstance(f, c));
      case _ =>
    }
  }

  /** The symbols a list of definitions defines. */
  function Defined(defs: seq<Definition>): set<Sym> {
    set d | d in defs :: d.sym
  }

  /** Adding a string above a list of definitions changes nothing they denote. */
  lemma {:induction false} ReadFromStable(base: Env, s: Sym, v: Val, defs: seq<Definition>)
    requires s !in base && s !in Defined(defs)
    ensures ReadFrom(base, defs).Some? ==>
              s !in ReadFrom(base, defs).value && ReadFrom(base[s := v], defs) == Some(ReadFrom(base, defs).value[s := v])
  {
    if defs != [] && ReadFrom(base, defs).Some? {
      var n := |defs| - 1;
      var d := defs[n];
      assert d in defs && Defined(defs[..n]) <= Defined(defs);
      ReadFromStable(base, s, v, defs[..n]);
      var e := ReadFrom(base, defs[..n]).value;
      ReadStable(e, e[s := v], d.init);
      hide Read;
      assert e[d.sym := Read(e, d.init).value][s := v] == e[s := v][d.sym := Read(e, d.init).value];
    }
  }

  lemma {:induction false} ReadFromAppend(base: Env, a: seq<Definition>, b: seq<Definition>)
    requires ReadFrom(base, a).Some?
    ensures ReadFrom(base, a + b) == ReadFrom(ReadFrom(base, a).value, b)
  {
    if b == [] {
      assert a + b == a;
    } else {
      var n := |b| - 1;
      ReadFromAppend(base, a, b[..n]);
      assert (a + b)[..|a + b| - 1] == a + b[..n];
      hide Read;
    }
  }
}
