/**
 Emission of a compiled FSM set (tools/yaml2c/fsm_codegen.py, the writer half,
 and the string table of tools/yaml2c/common.py).

 Strings are interned while the arrays are rendered and laid out above them at
 the end.  The invariant says what the arrays emitted so far denote below the
 strings interned so far.
 */
module FsmWriter {
  import opened Wrappers
  import opened Fsm
  import opened FsmHeader

  /** What the definitions of a string table denote. */
  function StringEnv(order: seq<string>): Env {
    map n: nat | n < |order| :: StrSym(n) := VText(order[n])
  }

  function StringDefs(order: seq<string>): seq<Definition> {
    seq(|order|, n requires 0 <= n < |order| => Definition(StrSym(n), CString(order[n])))
  }

  lemma {:induction false} StringDefsDenote(order: seq<string>)
    ensures ReadFrom(map[], StringDefs(order)) == Some(StringEnv(order))
  {
    if order != [] {
      var n := |order| - 1;
      StringDefsDenote(order[..n]);
      assert StringDefs(order)[..n] == StringDefs(order[..n]);
      assert StringEnv(order) == StringEnv(order[..n])[StrSym(n) := VText(order[n])];
    }
  }

  /** Pointer members: an empty list is emitted as NULL. */
  ghost predicate Points(e: Env, p: Option<Sym>, v: Val, empty: bool) {
    if empty then p == None else p.Some? && p.value in e && e[p.value] == v
  }

  // Symbols of the arrays a struct points at.

  datatype StateSyms = StateSyms(entry: Option<Sym>, exit: Option<Sym>, transitions: Option<Sym>)

  datatype MachineSyms = MachineSyms(variables: Option<Sym>, timers: Option<Sym>, states: Sym)

  datatype InstanceSyms = InstanceSyms(
    bindings: Option<Sym>, overrides: Option<Sym>, signals: Option<Sym>, canRx: Option<Sym>)

  /** The value arrays of the message actions, one name per action. */
  ghost predicate ValuesPoint(e: Env, actions: seq<Action>, names: seq<Option<Sym>>) {
    |names| == |actions| && forall j | 0 <= j < |actions| && actions[j].body.SendMessage? ::
      Points(e, names[j], VSignalValues(actions[j].body.values), actions[j].body.values == [])
  }

  lemma ValuesPointStable(e: Env, f: Env, actions: seq<Action>, names: seq<Option<Sym>>)
    requires Extends(e, f) && ValuesPoint(e, actions, names)
    ensures ValuesPoint(f, actions, names)
  {
  }

  lemma ActionNamesStable(e: Env, f: Env, ts: seq<Transition>, names: seq<Option<Sym>>)
    requires Extends(e, f) && ActionNamesPoint(e, ts, names)
    ensures ActionNamesPoint(f, ts, names)
  {
  }

  ghost predicate ActionNamesPoint(e: Env, ts: seq<Transition>, names: seq<Option<Sym>>) {
    |names| == |ts| && forall j | 0 <= j < |ts| :: Points(e, names[j], VActions(ts[j].actions), ts[j].actions == [])
  }

  ghost predicate StatePoints(e: Env, y: StateSyms, s: State) {
    && Points(e, y.entry, VActions(s.entry), s.entry == [])
    && Points(e, y.exit, VActions(s.exit), s.exit == [])
    && Points(e, y.transitions, VTransitions(s.transitions), s.transitions == [])
  }

  lemma StatesPointStable(e: Env, f: Env, ss: seq<State>, ys: seq<StateSyms>)
    requires Extends(e, f) && StatesPoint(e, ss, ys)
    ensures StatesPoint(f, ss, ys)
  {
  }

  ghost predicate StatesPoint(e: Env, ss: seq<State>, ys: seq<StateSyms>) {
    |ys| == |ss| && forall j | 0 <= j < |ss| :: StatePoints(e, ys[j], ss[j])
  }

  ghost predicate MachinePoints(e: Env, y: MachineSyms, m: Machine) {
    && Points(e, y.variables, VVariableDefs(m.variables), m.variables == [])
    && Points(e, y.timers, VTimerDefs(m.timers), m.timers == [])
    && Points(e, Some(y.states), VStates(m.states), false)
  }

  lemma MachinesPointStable(e: Env, f: Env, ms: seq<Machine>, ys: seq<MachineSyms>)
    requires Extends(e, f) && MachinesPoint(e, ms, ys)
    ensures MachinesPoint(f, ms, ys)
  {
  }

  ghost predicate MachinesPoint(e: Env, ms: seq<Machine>, ys: seq<MachineSyms>) {
    |ys| == |ms| && forall j | 0 <= j < |ms| :: MachinePoints(e, ys[j], ms[j])
  }

  ghost predicate InstancePoints(e: Env, y: InstanceSyms, i: Instance) {
    && Points(e, y.bindings, VBindings(i.bindings), i.bindings == [])
    && Points(e, y.overrides, VOverrides(i.overrides), i.overrides == [])
    && Points(e, y.signals, VSignalNames(i.subscriptions.signals), i.subscriptions.signals == [])
    && Points(e, y.canRx, VCanRxs(i.subscriptions.canRx), i.subscriptions.canRx == [])
  }

  lemma InstancesPointStable(e: Env, f: Env, ins: seq<Instance>, ys: seq<InstanceSyms>)
    requires Extends(e, f) && InstancesPoint(e, ins, ys)
    ensures InstancesPoint(f, ins, ys)
  {
  }

  ghost predicate InstancesPoint(e: Env, ins: seq<Instance>, ys: seq<InstanceSyms>) {
    |ys| == |ins| && forall j | 0 <= j < |ins| :: InstancePoints(e, ys[j], ins[j])
  }

  /** Every known symbol was numbered by the counters. */
  ghost predicate EnvNumbered(env: Env, strings: nat, arrays: nat) {
    forall s | s in env :: match s
                           case StrSym(n) => n < strings
                           case ArrSym(_, n) => n < arrays
                           case SetSym => false
  }

  lemma NumberedStep(env: Env, strings: nat, arrays: nat, s: Sym, v: Val)
    requires EnvNumbered(env, strings, arrays) && s.ArrSym? && s.n < arrays
    ensures EnvNumbered(env[s := v], strings, arrays)
  {
  }

  lemma DefinitionRead(base: Env, defs: seq<Definition>, env: Env, d: Definition, v: Val)
    requires ReadFrom(base, defs) == Some(env) && d.sym !in env && Read(env, d.init) == Some(v)
    ensures ReadFrom(base, defs + [d]) == Some(env[d.sym := v])
  {
    hide Read;
    assert (defs + [d])[..|defs|] == defs;
  }

  /** The dictionary and the list of a string table describe the same strings. */
  ghost predicate TableAgrees(index: map<string, nat>, order: seq<string>) {
    && (forall t | t in index :: index[t] < |order| && order[index[t]] == t)
    && (forall n | 0 <= n < |order| :: order[n] in index && index[order[n]] == n)
  }

  lemma TableGrows(index: map<string, nat>, order: seq<string>, text: string)
    requires TableAgrees(index, order) && text !in index
    ensures TableAgrees(index[text := |order|], order + [text])
  {
  }

  lemma TableHit(index: map<string, nat>, order: seq<string>, text: string)
    requires TableAgrees(index, order) && text in index
    ensures index[text] < |order| && order[index[text]] == text
  {
  }

  class Writer {
    var order: seq<string>         // StringTable._order
    var index: map<string, nat>    // StringTable._index
    var counter: nat               // FsmWriter._array_counter
    var emit: seq<Definition>      // the scratch emitter: arrays, in emission order
    ghost var env: Env             // what the strings and arrays so far denote

    ghost predicate Valid()
      reads this
    {
      && TableAgrees(index, order)
      && ReadFrom(StringEnv(order), emit) == Some(env)
      && (forall d | d in emit :: d.sym.ArrSym? && d.sym.n < counter)
      && EnvNumbered(env, |order|, counter)
    }

    /** The state only grows: everything emitted so far keeps its meaning. */
    twostate predicate Grows()
      reads this
    {
      Extends(old(env), env)
    }

    /** Only strings were interned. */
    twostate predicate OnlyStrings()
      reads this
    {
      && Extends(old(env), env) && emit == old(emit) && counter == old(counter)
      && forall s | s in env && s !in old(env) :: s.StrSym?
    }

    constructor ()
      ensures Valid() && order == [] && emit == []
    {
      order, index, counter, emit := [], map[], 0, [];
      env := map[];
    }

    /** StringTable.intern */
    method Intern(text: string) returns (s: Sym)
      requires Valid()
      modifies this
      ensures Valid() && OnlyStrings()
      ensures Text(env, s) == Some(text)
    {
      hide ReadFrom, StringEnv, TableAgrees;
      if text !in index {
        var n := |order|;
        InternStep(order, emit, env, text);
        TableGrows(index, order, text);
        index := index[text := n];
        order := order + [text];
        env := env[StrSym(n) := VText(text)];
      }
      s := StrSym(index[text]);
      TableHit(index, order, text);
      StringStays(order, emit, env, index[text]);
    }

    method InternOrNull(text: Option<string>) returns (s: Option<Sym>)
      requires Valid()
      modifies this
      ensures Valid() && OnlyStrings()
      ensures TextOrNull(env, s) == Some(text)
    {
      if text.None? { return None; }
      var t := Intern(text.value);
      s := Some(t);
    }

    /** Number a new array and emit its definition. */
    method Define(family: Family, number: nat, init: Initializer, ghost v: Val) returns (s: Sym)
      requires Valid() && number < counter && Read(env, init) == Some(v)
      requires forall f :: ArrSym(f, number) !in env
      modifies this
      ensures Valid() && Grows() && counter == old(counter) && order == old(order)
      ensures s == ArrSym(family, number) && s in env && env[s] == v
      ensures env == old(env)[s := v]
    {
      hide Read, ReadFrom, TableAgrees, EnvNumbered;
      s := ArrSym(family, number);
      var d := Definition(s, init);
      DefinitionRead(StringEnv(order), emit, env, d, v);
      NumberedStep(env, |order|, counter, s, v);
      emit := emit + [d];
      env := env[s := v];
    }

    method RenderOperand(o: Operand) returns (c: COperand)
      requires Valid()
      modifies this
      ensures Valid() && OnlyStrings()
      ensures ReadOperand(env, c) == Some(o)
    {
      match o {
        case OBool(b) => c := COperand(false, BoolLit(b), None);
        case OInt(i) => c := COperand(false, IntLit(i), None);
        case OReal(r) => c := COperand(false, RealLit(r), None);
        case OExpression(t) =>
          var s := Intern(t);
          c := COperand(true, UnsetLit, Some(s));
      }
    }

    /** _array_name: the next array number, used by no array so far. */
    method NextNumber() returns (number: nat)
      requires Valid()
      modifies this`counter
      ensures Valid() && counter == old(counter) + 1 && number < counter
      ensures forall f :: ArrSym(f, number) !in env
    {
      number := counter;
      counter := counter + 1;
    }

    // -- struct initializers ------------------------------------------------

    method RenderSignalValue(v: SignalValue) returns (c: CSignalValue)
      requires Valid()
      modifies this
      ensures Valid() && OnlyStrings()
      ensures ReadSignalValue(env, c) == Some(v)
    {
      hide Valid, Read, ReadFrom, StringEnv;
      var name := Intern(v.name);
      var operand := RenderOperand(v.operand);
      c := CSignalValue(name, operand);
    }

    method RenderAction(a: Action, values: Option<Sym>) returns (c: CAction)
      requires Valid()
      requires a.body.SendMessage? ==> Points(env, values, VSignalValues(a.body.values), a.body.values == [])
      modifies this
      ensures Valid() && OnlyStrings()
      ensures ReadAction(env, c) == Some(a)
    {
      hide Valid, Read, ReadFrom, StringEnv;
      match a.body {
        case SendMessage(i, m, vs) =>
          var iface := Intern(i);
          var message := Intern(m);
          c := CAction(KSendMessage, a.line, AsSend(iface, message, values, |vs|));
        case SetSignal(n, o) =>
          var name := Intern(n);
          var operand := RenderOperand(o);
          c := CAction(KSetSignal, a.line, AsSetSignal(name, operand));
        case SetVariable(n, o) =>
          var name := Intern(n);
          var operand := RenderOperand(o);
          c := CAction(KSetVariable, a.line, AsSetVariable(name, operand));
        case StartTimer(t, d, r) =>
          var timer := Intern(t);
          c := CAction(KStartTimer, a.line,
                       AsStartTimer(timer, if d.Some? then d.value else 0, d.Some?, r.Some? && r.value, r.Some?));
        case StopTimer(t) =>
          var timer := Intern(t);
          c := CAction(KStopTimer, a.line, AsTimer(timer));
        case ResetTimer(t) =>
          var timer := Intern(t);
          c := CAction(KResetTimer, a.line, AsTimer(timer));
        case Log(level, m) =>
          var message := Intern(m);
          c := CAction(KLog, a.line, AsLog(level, message));
        case RaiseFault(f, severity) =>
          var code := Intern(f);
          c := CAction(KRaiseFault, a.line, AsRaiseFault(code, severity));
        case Goto(t, index) =>
          var target := Intern(t);
          c := CAction(KTransition, a.line, AsTransition(target, index));
      }
    }

    method RenderTransition(t: Transition, actions: Option<Sym>) returns (c: CTransition)
      requires Valid() && Points(env, actions, VActions(t.actions), t.actions == [])
      modifies this
      ensures Valid() && OnlyStrings()
      ensures ReadTransition(env, c) == Some(t)
    {
      hide Valid, Read, ReadFrom, StringEnv;
      var filters := InternFilters([t.iface, t.message, t.signal, t.timer, t.guard]);
      ghost var was := env;
      var target := Intern(t.target);
      forall i | 0 <= i < 5 { TextOrNullStable(was, env, filters[i]); }
      c := CTransition(t.event, filters[0], filters[1], filters[2], filters[3], filters[4],
                       actions, |t.actions|, target, t.targetIndex);
    }

    /** The optional filters of a transition, in field order. */
    method InternFilters(ts: seq<Option<string>>) returns (ss: seq<Option<Sym>>)
      requires Valid()
      modifies this
      ensures Valid() && OnlyStrings()
      ensures |ss| == |ts| && forall i | 0 <= i < |ts| :: TextOrNull(env, ss[i]) == Some(ts[i])
    {
      hide Valid, Read, ReadFrom, StringEnv;
      ss := [];
      for i := 0 to |ts|
        invariant Valid() && OnlyStrings()
        invariant |ss| == i && forall j | 0 <= j < i :: TextOrNull(env, ss[j]) == Some(ts[j])
      {
        ghost var was := env;
        var s := InternOrNull(ts[i]);
        forall j | 0 <= j < i { TextOrNullStable(was, env, ss[j]); }
        ss := ss + [s];
      }
    }

    method RenderState(s: State, entry: Option<Sym>, exit: Option<Sym>, transitions: Option<Sym>) returns (c: CState)
      requires Valid() && Points(env, entry, VActions(s.entry), s.entry == [])
      requires Points(env, exit, VActions(s.exit), s.exit == [])
      requires Points(env, transitions, VTransitions(s.transitions), s.transitions == [])
      modifies this
      ensures Valid() && OnlyStrings()
      ensures ReadState(env, c) == Some(s)
    {
      hide Valid, Read, ReadFrom, StringEnv;
      var name := Intern(s.name);
      c := CState(name, entry, |s.entry|, exit, |s.exit|, transitions, |s.transitions|);
    }

    method RenderVariableDef(v: VariableDef) returns (c: CVariableDef)
      requires Valid()
      modifies this
      ensures Valid() && OnlyStrings()
      ensures ReadVariableDef(env, c) == Some(v)
    {
      hide Valid, Read, ReadFrom, StringEnv;
      var default := COperand(false, UnsetLit, None);
      if v.default.Some? {
        default := RenderOperand(v.default.value);
      }
      ghost var was := env;
      var name := Intern(v.name);
      OperandStable(was, env, default);
      c := CVariableDef(name, v.kind, default, v.default.Some?);
    }

    method RenderOverride(o: Override) returns (c: COverride)
      requires Valid()
      modifies this
      ensures Valid() && OnlyStrings()
      ensures ReadOverride(env, c) == Some(o)
    {
      hide Valid, Read, ReadFrom, StringEnv;
      var name := Intern(o.name);
      var operand := RenderOperand(o.operand);
      c := COverride(name, operand);
    }

    method RenderCanRx(r: CanRx) returns (c: CCanRx)
      requires Valid()
      modifies this
      ensures Valid() && OnlyStrings()
      ensures ReadCanRx(env, c) == Some(r)
    {
      hide Valid, Read, ReadFrom, StringEnv;
      var iface := Intern(r.iface);
      var message := InternOrNull(r.message);
      c := CCanRx(iface, if r.canId.Some? then r.canId.value else 0, r.canId.Some?, message);
    }

    method RenderMachine(m: Machine, syms: MachineSyms) returns (c: CMachine)
      requires Valid() && MachinePoints(env, syms, m)
      modifies this
      ensures Valid() && OnlyStrings()
      ensures ReadMachine(env, c) == Some(m)
    {
      hide Valid, Read, ReadFrom, StringEnv;
      var name := Intern(m.name);
      var description := InternOrNull(m.description);
      var initial := Intern(m.initial);
      c := CMachine(name, description, initial, m.initialIndex, syms.variables, |m.variables|, syms.timers, |m.timers|,
                    Some(syms.states), |m.states|);
    }

    method RenderInstance(i: Instance, syms: InstanceSyms) returns (c: CInstance)
      requires Valid() && InstancePoints(env, syms, i)
      modifies this
      ensures Valid() && OnlyStrings()
      ensures ReadInstance(env, c) == Some(i)
    {
      hide Valid, Read, ReadFrom, StringEnv;
      ghost var before := env;
      var id := Intern(i.id);
      ghost var was := env;
      var machine := Intern(i.machine);
      TextOrNullStable(was, env, Some(id));
      InstancePointsStable(before, was, env, syms, i);
      hide InstancePoints;
      var u := i.subscriptions;
      c := CInstance(id, machine, i.machineIndex, i.enabled, syms.bindings, |i.bindings|, syms.overrides, |i.overrides|,
                     syms.canRx, |u.canRx|, u.hasCanRx, syms.signals, |u.signals|, u.hasSignals,
                     u.timers, u.hasTimers, u.faults, u.hasFaults, u.powerMode, u.hasPowerMode);
      InstanceReadsBack(env, c, i, syms);
      hide ReadInstance;
    }

    // -- arrays ---------------------------------------------------------------

    method EmitSignalValues(vs: seq<SignalValue>) returns (name: Option<Sym>)
      requires Valid()
      modifies this
      ensures Valid() && Grows()
      ensures Points(env, name, VSignalValues(vs), vs == [])
    {
      hide Valid, Read, ReadFrom, StringEnv;
      if vs == [] { return None; }
      var number := NextNumber();
      var cs: seq<CSignalValue> := [];
      for i := 0 to |vs|
        invariant Valid() && Grows() && number < counter && forall f :: ArrSym(f, number) !in env
        invariant |cs| == i && forall j | 0 <= j < i :: ReadSignalValue(env, cs[j]) == Some(vs[j])
      {
        ghost var was := env;
        var c := RenderSignalValue(vs[i]);
        forall j | 0 <= j < i { SignalValueStable(was, env, cs[j]); }
        cs := cs + [c];
      }
      SignalValuesRead(env, cs, vs);
      var s := Define(Sigvals, number, CSignalValues(cs), VSignalValues(vs));
      name := Some(s);
    }

    method EmitActionArrays(actions: seq<Action>, family: Family) returns (name: Option<Sym>)
      requires Valid()
      modifies this
      ensures Valid() && Grows()
      ensures Points(env, name, VActions(actions), actions == [])
    {
      hide Valid, Read, ReadFrom, StringEnv, ReadAction;
      if actions == [] { return None; }
      var values := EmitAllValues(actions);
      var number := NextNumber();
      var cs: seq<CAction> := [];
      for i := 0 to |actions|
        invariant Valid() && Grows() && number < counter && forall f :: ArrSym(f, number) !in env
        invariant ValuesPoint(env, actions, values)
        invariant |cs| == i && forall j | 0 <= j < i :: ReadAction(env, cs[j]) == Some(actions[j])
      {
        ghost var was := env;
        var c := RenderAction(actions[i], values[i]);
        ValuesPointStable(was, env, actions, values);
        forall j | 0 <= j < i ensures ReadAction(env, cs[j]) == Some(actions[j]) { ActionStable(was, env, cs[j]); }
        cs := cs + [c];
      }
      ActionsRead(env, cs, actions);
      var s := Define(family, number, CActions(cs), VActions(actions));
      name := Some(s);
    }

    method EmitAllValues(actions: seq<Action>) returns (values: seq<Option<Sym>>)
      requires Valid()
      modifies this
      ensures Valid() && Grows()
      ensures ValuesPoint(env, actions, values)
    {
      hide Valid, Read, ReadFrom, StringEnv;
      values := [];
      for i := 0 to |actions|
        invariant Valid() && Grows()
        invariant ValuesPoint(env, actions[..i], values)
      {
        ghost var was := env;
        var p: Option<Sym> := None;
        if actions[i].body.SendMessage? {
          p := EmitSignalValues(actions[i].body.values);
        }
        ValuesPointStable(was, env, actions[..i], values);
        assert actions[..i + 1] == actions[..i] + [actions[i]];
        values := values + [p];
      }
      assert actions[..|actions|] == actions;
    }

    method EmitTransitionArray(ts: seq<Transition>, names: seq<Option<Sym>>) returns (name: Option<Sym>)
      requires Valid() && ActionNamesPoint(env, ts, names)
      modifies this
      ensures Valid() && Grows()
      ensures Points(env, name, VTransitions(ts), ts == [])
    {
      hide Valid, Read, ReadFrom, StringEnv;
      if ts == [] { return None; }
      var number := NextNumber();
      var cs: seq<CTransition> := [];
      for i := 0 to |ts|
        invariant Valid() && Grows() && number < counter && forall f :: ArrSym(f, number) !in env
        invariant ActionNamesPoint(env, ts, names)
        invariant |cs| == i && forall j | 0 <= j < i :: ReadTransition(env, cs[j]) == Some(ts[j])
      {
        ghost var was := env;
        var c := RenderTransition(ts[i], names[i]);
        forall j | 0 <= j < i { TransitionStable(was, env, cs[j]); }
        cs := cs + [c];
      }
      TransitionsRead(env, cs, ts);
      var s := Define(Trans, number, CTransitions(cs), VTransitions(ts));
      name := Some(s);
    }

    method EmitStateArray(states: seq<State>, syms: seq<StateSyms>) returns (name: Sym)
      requires Valid() && StatesPoint(env, states, syms)
      modifies this
      ensures Valid() && Grows()
      ensures name in env && env[name] == VStates(states)
    {
      hide Valid, Read, ReadFrom, StringEnv, ReadState;
      var number := NextNumber();
      var cs: seq<CState> := [];
      for i := 0 to |states|
        invariant Valid() && Grows() && number < counter && forall f :: ArrSym(f, number) !in env
        invariant StatesPoint(env, states, syms)
        invariant |cs| == i && forall j | 0 <= j < i :: ReadState(env, cs[j]) == Some(states[j])
      {
        ghost var was := env;
        var c := RenderState(states[i], syms[i].entry, syms[i].exit, syms[i].transitions);
        StatesPointStable(was, env, states, syms);
        forall j | 0 <= j < i ensures ReadState(env, cs[j]) == Some(states[j]) { StateStable(was, env, cs[j]); }
        cs := cs + [c];
      }
      StatesRead(env, cs, states);
      name := Define(States, number, CStates(cs), VStates(states));
    }

    method EmitVariableDefs(vs: seq<VariableDef>) returns (name: Option<Sym>)
      requires Valid()
      modifies this
      ensures Valid() && Grows()
      ensures Points(env, name, VVariableDefs(vs), vs == [])
    {
      hide Valid, Read, ReadFrom, StringEnv;
      if vs == [] { return None; }
      var number := NextNumber();
      var cs: seq<CVariableDef> := [];
      for i := 0 to |vs|
        invariant Valid() && Grows() && number < counter && forall f :: ArrSym(f, number) !in env
        invariant |cs| == i && forall j | 0 <= j < i :: ReadVariableDef(env, cs[j]) == Some(vs[j])
      {
        ghost var was := env;
        var c := RenderVariableDef(vs[i]);
        forall j | 0 <= j < i { VariableDefStable(was, env, cs[j]); }
        cs := cs + [c];
      }
      VariableDefsRead(env, cs, vs);
      var s := Define(Vardefs, number, CVariableDefs(cs), VVariableDefs(vs));
      name := Some(s);
    }

    method EmitTimerDefs(ts: seq<TimerDef>) returns (name: Option<Sym>)
      requires Valid()
      modifies this
      ensures Valid() && Grows()
      ensures Points(env, name, VTimerDefs(ts), ts == [])
    {
      hide Valid, Read, ReadFrom, StringEnv;
      if ts == [] { return None; }
      var number := NextNumber();
      var cs: seq<CTimerDef> := [];
      for i := 0 to |ts|
        invariant Valid() && Grows() && number < counter && forall f :: ArrSym(f, number) !in env
        invariant |cs| == i && forall j | 0 <= j < i :: ReadTimerDef(env, cs[j]) == Some(ts[j])
      {
        var text := Intern(ts[i].name);
        cs := cs + [CTimerDef(text, ts[i].duration, ts[i].again, ts[i].autoStart)];
      }
      TimerDefsRead(env, cs, ts);
      var s := Define(Timerdefs, number, CTimerDefs(cs), VTimerDefs(ts));
      name := Some(s);
    }

    method EmitBindings(bs: seq<Binding>) returns (name: Option<Sym>)
      requires Valid()
      modifies this
      ensures Valid() && Grows()
      ensures Points(env, name, VBindings(bs), bs == [])
    {
      hide Valid, Read, ReadFrom, StringEnv;
      if bs == [] { return None; }
      var number := NextNumber();
      var cs: seq<CBinding> := [];
      for i := 0 to |bs|
        invariant Valid() && Grows() && number < counter && forall f :: ArrSym(f, number) !in env
        invariant |cs| == i && forall j | 0 <= j < i :: ReadBinding(env, cs[j]) == Some(bs[j])
      {
        var alias := Intern(bs[i].alias);
        var physical := Intern(bs[i].physical);
        cs := cs + [CBinding(alias, physical)];
      }
      BindingsRead(env, cs, bs);
      var s := Define(Bindings, number, CBindings(cs), VBindings(bs));
      name := Some(s);
    }

    method EmitOverrides(os: seq<Override>) returns (name: Option<Sym>)
      requires Valid()
      modifies this
      ensures Valid() && Grows()
      ensures Points(env, name, VOverrides(os), os == [])
    {
      hide Valid, Read, ReadFrom, StringEnv;
      if os == [] { return None; }
      var number := NextNumber();
      var cs: seq<COverride> := [];
      for i := 0 to |os|
        invariant Valid() && Grows() && number < counter && forall f :: ArrSym(f, number) !in env
        invariant |cs| == i && forall j | 0 <= j < i :: ReadOverride(env, cs[j]) == Some(os[j])
      {
        ghost var was := env;
        var c := RenderOverride(os[i]);
        forall j | 0 <= j < i { OverrideStable(was, env, cs[j]); }
        cs := cs + [c];
      }
      OverridesRead(env, cs, os);
      var s := Define(Overrides, number, COverrides(cs), VOverrides(os));
      name := Some(s);
    }

    method EmitSignalAllowlist(ns: seq<string>) returns (name: Option<Sym>)
      requires Valid()
      modifies this
      ensures Valid() && Grows()
      ensures Points(env, name, VSignalNames(ns), ns == [])
    {
      hide Valid, Read, ReadFrom, StringEnv;
      if ns == [] { return None; }
      var number := NextNumber();
      var cs: seq<Sym> := [];
      for i := 0 to |ns|
        invariant Valid() && Grows() && number < counter && forall f :: ArrSym(f, number) !in env
        invariant |cs| == i && forall j | 0 <= j < i :: Text(env, cs[j]) == Some(ns[j])
      {
        var text := Intern(ns[i]);
        cs := cs + [text];
      }
      SignalNamesRead(env, cs, ns);
      var s := Define(Sigsubs, number, CSignalNames(cs), VSignalNames(ns));
      name := Some(s);
    }

    method EmitCanRx(rs: seq<CanRx>) returns (name: Option<Sym>)
      requires Valid()
      modifies this
      ensures Valid() && Grows()
      ensures Points(env, name, VCanRxs(rs), rs == [])
    {
      hide Valid, Read, ReadFrom, StringEnv;
      if rs == [] { return None; }
      var number := NextNumber();
      var cs: seq<CCanRx> := [];
      for i := 0 to |rs|
        invariant Valid() && Grows() && number < counter && forall f :: ArrSym(f, number) !in env
        invariant |cs| == i && forall j | 0 <= j < i :: ReadCanRx(env, cs[j]) == Some(rs[j])
      {
        ghost var was := env;
        var c := RenderCanRx(rs[i]);
        forall j | 0 <= j < i { CanRxStable(was, env, cs[j]); }
        cs := cs + [c];
      }
      CanRxsRead(env, cs, rs);
      var s := Define(Canrx, number, CCanRxs(cs), VCanRxs(rs));
      name := Some(s);
    }

    method EmitMachineArray(ms: seq<Machine>, syms: seq<MachineSyms>) returns (name: Sym)
      requires Valid() && MachinesPoint(env, ms, syms)
      modifies this
      ensures Valid() && Grows()
      ensures name in env && env[name] == VMachines(ms)
    {
      hide Valid, Read, ReadFrom, StringEnv, ReadMachine;
      var number := NextNumber();
      var cs: seq<CMachine> := [];
      for i := 0 to |ms|
        invariant Valid() && Grows() && number < counter && forall f :: ArrSym(f, number) !in env
        invariant MachinesPoint(env, ms, syms)
        invariant |cs| == i && forall j | 0 <= j < i :: ReadMachine(env, cs[j]) == Some(ms[j])
      {
        ghost var was := env;
        var c := RenderMachine(ms[i], syms[i]);
        MachinesPointStable(was, env, ms, syms);
        forall j | 0 <= j < i ensures ReadMachine(env, cs[j]) == Some(ms[j]) { MachineStable(was, env, cs[j]); }
        cs := cs + [c];
      }
      MachinesRead(env, cs, ms);
      name := Define(Machines, number, CMachines(cs), VMachines(ms));
    }

    method EmitInstanceArray(ins: seq<Instance>, syms: seq<InstanceSyms>) returns (name: Sym)
      requires Valid() && InstancesPoint(env, ins, syms)
      modifies this
      ensures Valid() && Grows()
      ensures name in env && env[name] == VInstances(ins)
    {
      hide Valid, Read, ReadFrom, StringEnv, ReadInstance;
      var number := NextNumber();
      var cs: seq<CInstance> := [];
      for i := 0 to |ins|
        invariant Valid() && Grows() && number < counter && forall f :: ArrSym(f, number) !in env
        invariant InstancesPoint(env, ins, syms)
        invariant |cs| == i && forall j | 0 <= j < i :: ReadInstance(env, cs[j]) == Some(ins[j])
      {
        ghost var was := env;
        var c := RenderInstance(ins[i], syms[i]);
        InstancesPointStable(was, env, ins, syms);
        forall j | 0 <= j < i ensures ReadInstance(env, cs[j]) == Some(ins[j]) { InstanceStable(was, env, cs[j]); }
        cs := cs + [c];
      }
      InstancesRead(env, cs, ins);
      name := Define(Instances, number, CInstances(cs), VInstances(ins));
    }

    // -- the preparation pass -------------------------------------------------

    /** Action arrays of every transition of a machine, state by state. */
    method PrepareTransitions(states: seq<State>) returns (names: seq<seq<Option<Sym>>>)
      requires Valid()
      modifies this
      ensures Valid() && Grows()
      ensures |names| == |states| && forall i | 0 <= i < |states| :: ActionNamesPoint(env, states[i].transitions, names[i])
    {
      hide Valid, Read, ReadFrom, StringEnv;
      names := [];
      for i := 0 to |states|
        invariant Valid() && Grows()
        invariant |names| == i && forall j | 0 <= j < i :: ActionNamesPoint(env, states[j].transitions, names[j])
      {
        var row := PrepareStateTransitions(states[i].transitions);
        names := names + [row];
      }
    }

    method PrepareStateTransitions(ts: seq<Transition>) returns (row: seq<Option<Sym>>)
      requires Valid()
      modifies this
      ensures Valid() && Grows()
      ensures ActionNamesPoint(env, ts, row)
    {
      hide Valid, Read, ReadFrom, StringEnv;
      row := [];
      for i := 0 to |ts|
        invariant Valid() && Grows()
        invariant |row| == i && forall j | 0 <= j < i :: Points(env, row[j], VActions(ts[j].actions), ts[j].actions == [])
      {
        var p := EmitActionArrays(ts[i].actions, Actions);
        row := row + [p];
      }
    }

    method PrepareMachine(m: Machine) returns (syms: MachineSyms)
      requires Valid()
      modifies this
      ensures Valid() && Grows()
      ensures MachinePoints(env, syms, m)
    {
      hide Valid, Read, ReadFrom, StringEnv, ActionNamesPoint, StatesPoint;
      var names := PrepareTransitions(m.states);
      var rows := PrepareStates(m.states, names);
      ghost var was := env;
      var variables := EmitVariableDefs(m.variables);
      var timers := EmitTimerDefs(m.timers);
      StatesPointStable(was, env, m.states, rows);
      var states := EmitStateArray(m.states, rows);
      syms := MachineSyms(variables, timers, states);
    }

    /** Entry, exit and transition arrays of every state. */
    method PrepareStates(states: seq<State>, names: seq<seq<Option<Sym>>>) returns (rows: seq<StateSyms>)
      requires Valid()
      requires |names| == |states| && forall j | 0 <= j < |states| :: ActionNamesPoint(env, states[j].transitions, names[j])
      modifies this
      ensures Valid() && Grows()
      ensures StatesPoint(env, states, rows)
    {
      hide Valid, Read, ReadFrom, StringEnv, ActionNamesPoint, StatePoints;
      rows := [];
      for i := 0 to |states|
        invariant Valid() && Grows()
        invariant forall j | 0 <= j < |states| :: ActionNamesPoint(env, states[j].transitions, names[j])
        invariant StatesPoint(env, states[..i], rows)
      {
        ghost var was := env;
        var row := PrepareState(states[i], names[i]);
        forall j | 0 <= j < |states| ensures ActionNamesPoint(env, states[j].transitions, names[j]) {
          ActionNamesStable(was, env, states[j].transitions, names[j]);
        }
        StatesPointStable(was, env, states[..i], rows);
        assert states[..i + 1] == states[..i] + [states[i]];
        rows := rows + [row];
      }
      assert states[..|states|] == states;
    }

    method PrepareState(s: State, names: seq<Option<Sym>>) returns (row: StateSyms)
      requires Valid() && ActionNamesPoint(env, s.transitions, names)
      modifies this
      ensures Valid() && Grows()
      ensures StatePoints(env, row, s)
    {
      hide Valid, Read, ReadFrom, StringEnv, ActionNamesPoint;
      ghost var was := env;
      var entry := EmitActionArrays(s.entry, Entry);
      var exit := EmitActionArrays(s.exit, Exit);
      ActionNamesStable(was, env, s.transitions, names);
      var transitions := EmitTransitionArray(s.transitions, names);
      row := StateSyms(entry, exit, transitions);
    }

    method PrepareInstance(i: Instance) returns (syms: InstanceSyms)
      requires Valid()
      modifies this
      ensures Valid() && Grows()
      ensures InstancePoints(env, syms, i)
    {
      hide Valid, Read, ReadFrom, StringEnv;
      var bindings := EmitBindings(i.bindings);
      var overrides := EmitOverrides(i.overrides);
      var signals := EmitSignalAllowlist(i.subscriptions.signals);
      var canRx := EmitCanRx(i.subscriptions.canRx);
      syms := InstanceSyms(bindings, overrides, signals, canRx);
    }

    /** _prepare: everything but the strings and the set. */
    method Prepare(model: SetModel) returns (machines: Sym, instances: Sym)
      requires Valid()
      modifies this
      ensures Valid() && Grows()
      ensures machines in env && env[machines] == VMachines(model.machines)
      ensures instances in env && env[instances] == VInstances(model.instances)
    {
      hide Valid, Read, ReadFrom, StringEnv, MachinePoints, InstancePoints;
      var ms, ins := model.machines, model.instances;
      var machineSyms: seq<MachineSyms> := [];
      for i := 0 to |ms|
        invariant Valid() && Grows()
        invariant MachinesPoint(env, ms[..i], machineSyms)
      {
        ghost var was := env;
        var s := PrepareMachine(ms[i]);
        MachinesPointStable(was, env, ms[..i], machineSyms);
        assert ms[..i + 1] == ms[..i] + [ms[i]];
        machineSyms := machineSyms + [s];
      }
      assert ms[..|ms|] == ms;
      var instanceSyms: seq<InstanceSyms> := [];
      for i := 0 to |ins|
        invariant Valid() && Grows() && MachinesPoint(env, ms, machineSyms)
        invariant InstancesPoint(env, ins[..i], instanceSyms)
      {
        ghost var was := env;
        var s := PrepareInstance(ins[i]);
        MachinesPointStable(was, env, ms, machineSyms);
        InstancesPointStable(was, env, ins[..i], instanceSyms);
        assert ins[..i + 1] == ins[..i] + [ins[i]];
        instanceSyms := instanceSyms + [s];
      }
      assert ins[..|ins|] == ins;
      ghost var was := env;
      machines := EmitMachineArray(ms, machineSyms);
      InstancesPointStable(was, env, ins, instanceSyms);
      instances := EmitInstanceArray(ins, instanceSyms);
    }

    /**
     FsmWriter.write.  Reading the header top to bottom succeeds -- every symbol
     is defined once, before any use -- and gives back the compiled set.
     */
    method Write(model: SetModel) returns (header: seq<Definition>)
      requires Valid()
      modifies this
      ensures ReadHeader(header) == Some(model)
    {
      var machines, instances := Prepare(model);
      var last := Definition(SetSym, CSet(Some(machines), |model.machines|, Some(instances), |model.instances|));
      header := StringDefs(order) + emit + [last];
      HeaderDenotes(order, emit, env, last, model);
      hide ReadHeader, ReadFrom, Valid;
    }
  }

  lemma {:induction false} BaseStays(base: Env, defs: seq<Definition>)
    requires ReadFrom(base, defs).Some?
    ensures Extends(base, ReadFrom(base, defs).value)
  {
    if defs != [] {
      BaseStays(base, defs[..|defs| - 1]);
      hide Read;
    }
  }

  lemma InternStep(order: seq<string>, emit: seq<Definition>, env: Env, text: string)
    requires ReadFrom(StringEnv(order), emit) == Some(env)
    requires forall d | d in emit :: d.sym.ArrSym?
    ensures ReadFrom(StringEnv(order + [text]), emit) == Some(env[StrSym(|order|) := VText(text)])
    ensures StrSym(|order|) !in env
  {
    var s, v := StrSym(|order|), VText(text);
    ReadFromStable(StringEnv(order), s, v, emit);
    hide ReadFrom;
    assert StringEnv(order + [text]) == StringEnv(order)[s := v];
  }

  lemma StringStays(order: seq<string>, emit: seq<Definition>, env: Env, n: nat)
    requires ReadFrom(StringEnv(order), emit) == Some(env) && n < |order|
    ensures Text(env, StrSym(n)) == Some(order[n])
  {
    BaseStays(StringEnv(order), emit);
    assert StrSym(n) in StringEnv(order);
  }

  lemma TextOrNullStable(e: Env, f: Env, s: Option<Sym>)
    requires Extends(e, f)
    ensures TextOrNull(e, s).Some? ==> TextOrNull(f, s) == TextOrNull(e, s)
  {
  }

  lemma InstancePointsStable(e: Env, f: Env, g: Env, y: InstanceSyms, i: Instance)
    requires Extends(e, f) && Extends(f, g) && InstancePoints(e, y, i)
    ensures InstancePoints(g, y, i)
  {
  }

  lemma InstanceReadsBack(e: Env, c: CInstance, i: Instance, y: InstanceSyms)
    requires InstancePoints(e, y, i) && Text(e, c.id) == Some(i.id) && Text(e, c.machine) == Some(i.machine)
    requires c == CInstance(c.id, c.machine, i.machineIndex, i.enabled, y.bindings, |i.bindings|, y.overrides, |i.overrides|,
                            y.canRx, |i.subscriptions.canRx|, i.subscriptions.hasCanRx,
                            y.signals, |i.subscriptions.signals|, i.subscriptions.hasSignals,
                            i.subscriptions.timers, i.subscriptions.hasTimers, i.subscriptions.faults,
                            i.subscriptions.hasFaults, i.subscriptions.powerMode, i.subscriptions.hasPowerMode)
    ensures ReadInstance(e, c) == Some(i)
  {
    assert BindingsAt(e, c.bindings, c.bindingCount) == Some(i.bindings);
    assert OverridesAt(e, c.variables, c.variableCount) == Some(i.overrides);
    assert CanRxsAt(e, c.canRx, c.canRxCount) == Some(i.subscriptions.canRx);
    assert SignalNamesAt(e, c.signals, c.signalCount) == Some(i.subscriptions.signals);
    hide InstancePoints, Points, Text, BindingsAt, OverridesAt, CanRxsAt, SignalNamesAt;
  }

  lemma VariableDefStable(e: Env, f: Env, c: CVariableDef)
    requires Extends(e, f)
    ensures ReadVariableDef(e, c).Some? ==> ReadVariableDef(f, c) == ReadVariableDef(e, c)
  {
  }

  lemma OverrideStable(e: Env, f: Env, c: COverride)
    requires Extends(e, f)
    ensures ReadOverride(e, c).Some? ==> ReadOverride(f, c) == ReadOverride(e, c)
  {
  }

  lemma CanRxStable(e: Env, f: Env, c: CCanRx)
    requires Extends(e, f)
    ensures ReadCanRx(e, c).Some? ==> ReadCanRx(f, c) == ReadCanRx(e, c)
  {
  }

  /** Strings, then arrays, then the set: the layout of the header. */
  lemma HeaderDenotes(order: seq<string>, emit: seq<Definition>, env: Env, last: Definition, model: SetModel)
    requires ReadFrom(StringEnv(order), emit) == Some(env)
    requires last.sym == SetSym && SetSym !in env && Read(env, last.init) == Some(VSet(model))
    ensures ReadHeader(StringDefs(order) + emit + [last]) == Some(model)
  {
    hide Read;
    StringDefsDenote(order);
    ReadFromAppend(map[], StringDefs(order), emit);
    var defs := StringDefs(order) + emit + [last];
    assert defs[..|defs| - 1] == StringDefs(order) + emit;
  }
}
