/**
 What each member of an emitted C initializer denotes (tools/yaml2c/fsm_codegen.py,
 the writer half): the part of the model of the same name, and no other.
 */
module FsmFields {
  import opened Wrappers
  import opened Fsm
  import opened FsmHeader

  /** An operand is an expression exactly when it is marked as one, and otherwise the literal. */
  lemma OperandDenotes(e: Env, c: COperand, o: Operand)
    requires ReadOperand(e, c) == Some(o)
    ensures c.isExpression <==> o.OExpression?
    ensures o.OExpression? ==> c.expression.Some? && Text(e, c.expression.value) == Some(o.text)
    ensures !o.OExpression? ==> c.literal == match o case OBool(b) => BoolLit(b) case OInt(i) => IntLit(i) case OReal(r) => RealLit(r) case _ => UnsetLit
  {
  }

  /** The kind of an emitted action, for each kind of action of the model. */
  function KindOf(b: Body): Kind {
    match b
    case SendMessage(_, _, _) => KSendMessage
    case SetSignal(_, _) => KSetSignal
    case SetVariable(_, _) => KSetVariable
    case StartTimer(_, _, _) => KStartTimer
    case StopTimer(_) => KStopTimer
    case ResetTimer(_) => KResetTimer
    case Log(_, _) => KLog
    case RaiseFault(_, _) => KRaiseFault
    case Goto(_, _) => KTransition
  }

  /** The members of an emitted action. */
  ghost predicate Members(e: Env, u: CUnion, b: Body) {
    match b
    case SendMessage(iface, message, values) =>
      u.AsSend? && Text(e, u.iface) == Some(iface) && Text(e, u.message) == Some(message)
      && SignalValuesAt(e, u.values, u.valueCount) == Some(values)
    case SetSignal(signal, o) => u.AsSetSignal? && Text(e, u.signal) == Some(signal) && ReadOperand(e, u.operand) == Some(o)
    case SetVariable(variable, o) => u.AsSetVariable? && Text(e, u.variable) == Some(variable) && ReadOperand(e, u.operand) == Some(o)
    case StartTimer(timer, duration, again) =>
      u.AsStartTimer? && Text(e, u.timer) == Some(timer)
      && (u.hasDuration <==> duration.Some?) && (duration.Some? ==> duration.value == u.duration)
      && (u.hasAgain <==> again.Some?) && (again.Some? ==> again.value == u.again)
    case StopTimer(timer) => u.AsTimer? && Text(e, u.timer) == Some(timer)
    case ResetTimer(timer) => u.AsTimer? && Text(e, u.timer) == Some(timer)
    case Log(level, message) => u.AsLog? && u.level == level && Text(e, u.message) == Some(message)
    case RaiseFault(code, severity) => u.AsRaiseFault? && Text(e, u.code) == Some(code) && u.severity == severity
    case Goto(target, index) => u.AsTransition? && Text(e, u.target) == Some(target) && u.targetIndex == index
  }

  lemma ActionDenotes(e: Env, c: CAction, a: Action)
    ensures ReadAction(e, c) == Some(a) <==> a.line == c.line && c.kind == KindOf(a.body) && Members(e, c.u, a.body)
  {
    hide Text, SignalValuesAt, ReadOperand;
  }

  lemma TransitionDenotes(e: Env, c: CTransition, t: Transition)
    ensures ReadTransition(e, c) == Some(t) <==>
            && t.event == c.event && t.targetIndex == c.targetIndex && Text(e, c.target) == Some(t.target)
            && TextOrNull(e, c.iface) == Some(t.iface) && TextOrNull(e, c.message) == Some(t.message)
            && TextOrNull(e, c.signal) == Some(t.signal) && TextOrNull(e, c.timer) == Some(t.timer)
            && TextOrNull(e, c.guard) == Some(t.guard) && ActionsAt(e, c.actions, c.actionCount) == Some(t.actions)
  {
    hide Text, TextOrNull, ActionsAt;
  }

  lemma StateDenotes(e: Env, c: CState, s: State)
    ensures ReadState(e, c) == Some(s) <==>
            && Text(e, c.name) == Some(s.name) && ActionsAt(e, c.entry, c.entryCount) == Some(s.entry)
            && ActionsAt(e, c.exit, c.exitCount) == Some(s.exit) && TransitionsAt(e, c.transitions, c.transitionCount) == Some(s.transitions)
  {
    hide Text, ActionsAt, TransitionsAt;
  }

  lemma DeclarationsDenote(e: Env, v: CVariableDef, vd: VariableDef, t: CTimerDef, td: TimerDef, s: CSignalValue, sv: SignalValue)
    ensures ReadVariableDef(e, v) == Some(vd) <==>
            && Text(e, v.name) == Some(vd.name) && v.kind == vd.kind && (v.hasDefault <==> vd.default.Some?)
            && (v.hasDefault ==> ReadOperand(e, v.default) == vd.default)
    ensures ReadTimerDef(e, t) == Some(td) <==>
            Text(e, t.name) == Some(td.name) && t.duration == td.duration && t.again == td.again && t.autoStart == td.autoStart
    ensures ReadSignalValue(e, s) == Some(sv) <==> Text(e, s.name) == Some(sv.name) && ReadOperand(e, s.operand) == Some(sv.operand)
  {
    hide Text, ReadOperand;
  }

  lemma BindingsDenote(e: Env, b: CBinding, bd: Binding, o: COverride, od: Override, r: CCanRx, rd: CanRx)
    ensures ReadBinding(e, b) == Some(bd) <==> Text(e, b.alias) == Some(bd.alias) && Text(e, b.physical) == Some(bd.physical)
    ensures ReadOverride(e, o) == Some(od) <==> Text(e, o.name) == Some(od.name) && ReadOperand(e, o.operand) == Some(od.operand)
    ensures ReadCanRx(e, r) == Some(rd) <==>
            && Text(e, r.iface) == Some(rd.iface) && TextOrNull(e, r.message) == Some(rd.message)
            && (r.hasCanId <==> rd.canId.Some?) && (r.hasCanId ==> rd.canId == Some(r.canId))
  {
    hide Text, TextOrNull, ReadOperand;
  }

  lemma MachineDenotes(e: Env, c: CMachine, m: Machine)
    ensures ReadMachine(e, c) == Some(m) <==>
            && Text(e, c.name) == Some(m.name) && TextOrNull(e, c.description) == Some(m.description)
            && Text(e, c.initial) == Some(m.initial) && c.initialIndex == m.initialIndex
            && VariableDefsAt(e, c.variables, c.variableCount) == Some(m.variables)
            && TimerDefsAt(e, c.timers, c.timerCount) == Some(m.timers)
            && StatesAt(e, c.states, c.stateCount) == Some(m.states)
  {
    hide Text, TextOrNull, VariableDefsAt, TimerDefsAt, StatesAt;
  }

  lemma InstanceDenotes(e: Env, c: CInstance, i: Instance)
    requires ReadInstance(e, c) == Some(i)
    ensures Text(e, c.id) == Some(i.id) && Text(e, c.machine) == Some(i.machine)
    ensures c.machineIndex == i.machineIndex && c.enabled == i.enabled
    ensures BindingsAt(e, c.bindings, c.bindingCount) == Some(i.bindings)
    ensures OverridesAt(e, c.variables, c.variableCount) == Some(i.overrides)
    ensures var s := i.subscriptions;
      && CanRxsAt(e, c.canRx, c.canRxCount) == Some(s.canRx) && c.hasCanRx == s.hasCanRx
      && SignalNamesAt(e, c.signals, c.signalCount) == Some(s.signals) && c.hasSignals == s.hasSignals
      && c.timers == s.timers && c.hasTimers == s.hasTimers && c.faults == s.faults && c.hasFaults == s.hasFaults
      && c.powerMode == s.powerMode && c.hasPowerMode == s.hasPowerMode
  {
    hide Text, BindingsAt, OverridesAt, CanRxsAt, SignalNamesAt;
  }

  /** A pointer and a count denote a list of that many elements: null only the empty list. */
  lemma CountedDenotes<X>(p: Option<Sym>, n: nat, found: Option<seq<X>>, xs: seq<X>)
    ensures Counted(p, n, found) == Some(xs) <==> |xs| == n && if p.None? then xs == [] else found == Some(xs)
  {
  }

  /** The arrays behind the pointers, by the kind of definition they lead to. */
  lemma PointersDenote(e: Env, s: Sym, n: nat)
    requires s in e
    ensures e[s].VActions? && n == |e[s].actions| ==> ActionsAt(e, Some(s), n) == Some(e[s].actions)
    ensures e[s].VTransitions? && n == |e[s].transitions| ==> TransitionsAt(e, Some(s), n) == Some(e[s].transitions)
    ensures e[s].VSignalValues? && n == |e[s].signalValues| ==> SignalValuesAt(e, Some(s), n) == Some(e[s].signalValues)
    ensures e[s].VVariableDefs? && n == |e[s].variables| ==> VariableDefsAt(e, Some(s), n) == Some(e[s].variables)
    ensures e[s].VTimerDefs? && n == |e[s].timers| ==> TimerDefsAt(e, Some(s), n) == Some(e[s].timers)
    ensures e[s].VStates? && n == |e[s].states| ==> StatesAt(e, Some(s), n) == Some(e[s].states)
    ensures e[s].VText? ==> Text(e, s) == Some(e[s].text)
  {
  }
}
