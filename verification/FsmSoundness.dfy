/**
 Which FSM documents compile (tools/yaml2c/fsm_codegen.py), place by place: names
 are unique, and every reference and every expression is good wherever it stands.
 */
module FsmSoundness {
  import opened Wrappers
  import opened Names
  import opened Fsm
  import T = Tokenizer

  /** An action stands somewhere in a machine. */
  predicate Occurs(m: Machine, a: Action) {
    exists s | s in m.states :: a in s.entry || a in s.exit || exists t | t in s.transitions :: a in t.actions
  }

  predicate HasTransition(m: Machine, t: Transition) {
    exists s | s in m.states :: t in s.transitions
  }

  predicate HasState(m: Machine, name: string) { exists s | s in m.states :: s.name == name }

  predicate HasVariable(m: Machine, name: string) { exists v | v in m.variables :: v.name == name }

  predicate HasTimer(m: Machine, name: string) { exists t | t in m.timers :: t.name == name }

  /** A text operand is an expression of at most 256 bytes. */
  predicate Fits(o: Operand) {
    o.OExpression? ==> T.IsExpression(o.text) && Utf8Length(o.text) <= 256
  }

  /** What an action refers to is there, and what it evaluates is an expression. */
  predicate ActionSound(m: Machine, a: Action) {
    var b := a.body;
    && (b.SetVariable? ==> HasVariable(m, b.variable))
    && (b.StartTimer? || b.StopTimer? || b.ResetTimer? ==> HasTimer(m, b.timer))
    && (b.Goto? ==> HasState(m, b.target))
    && (b.SetVariable? || b.SetSignal? ==> Fits(b.operand))
    && (b.SendMessage? ==> |b.values| > 0 && forall v | v in b.values :: Fits(v.operand))
  }

  predicate NamesUnique(m: Machine) {
    && (forall i, j | 0 <= i < j < |m.variables| :: m.variables[i].name != m.variables[j].name)
    && (forall i, j | 0 <= i < j < |m.timers| :: m.timers[i].name != m.timers[j].name)
    && (forall i, j | 0 <= i < j < |m.states| :: m.states[i].name != m.states[j].name)
  }

  ghost predicate MachineSound(m: Machine) {
    && NamesUnique(m)
    && HasState(m, m.initial)
    && (forall v | v in m.variables && v.default.Some? :: Fits(v.default.value))
    && (forall a | Occurs(m, a) :: ActionSound(m, a))
    && (forall t | HasTransition(m, t) :: HasState(m, t.target) && (t.guard.Some? ==> Fits(OExpression(t.guard.value))))
  }

  predicate InstanceSound(ms: seq<Machine>, inst: Instance) {
    exists m | m in ms :: m.name == inst.machine && forall o | o in inst.overrides :: HasVariable(m, o.name) && Fits(o.operand)
  }

  /** A document compiles exactly when names are unique and every reference, wherever it stands, leads somewhere. */
  lemma CompilesIff(doc: SetModel)
    ensures Compiles(doc) <==>
            && (forall i, j | 0 <= i < j < |doc.machines| :: doc.machines[i].name != doc.machines[j].name)
            && (forall i, j | 0 <= i < j < |doc.instances| :: doc.instances[i].id != doc.instances[j].id)
            && (forall m | m in doc.machines :: MachineSound(m))
            && (forall inst | inst in doc.instances :: InstanceSound(doc.machines, inst))
            && |doc.machines| <= 65535 && |doc.instances| <= 65535
  {
    forall m | m in doc.machines ensures MachineReads(m) && MachineResolves(m) <==> MachineSound(m) {
      SoundIff(m);
    }
    forall inst ensures InstanceReads(doc.machines, inst) <==> InstanceSound(doc.machines, inst) {
      InstanceSoundIff(doc.machines, inst);
    }
    DocumentNames(doc);
    hide MachineReads, MachineResolves, MachineSound, InstanceReads, InstanceSound, Distinct;
  }

  lemma DocumentNames(doc: SetModel)
    ensures Distinct(MachineNames(doc.machines))
            <==> forall i, j | 0 <= i < j < |doc.machines| :: doc.machines[i].name != doc.machines[j].name
    ensures Distinct(InstanceIds(doc.instances))
            <==> forall i, j | 0 <= i < j < |doc.instances| :: doc.instances[i].id != doc.instances[j].id
  {
    var ms, ins := doc.machines, doc.instances;
    assert forall i {:trigger ms[i]} | 0 <= i < |ms| :: MachineNames(ms)[i] == ms[i].name;
    assert forall i {:trigger ins[i]} | 0 <= i < |ins| :: InstanceIds(ins)[i] == ins[i].id;
  }

  lemma NamesAre(m: Machine, name: string)
    ensures HasVariable(m, name) <==> name in VariableNames(m.variables)
    ensures HasTimer(m, name) <==> name in TimerNames(m.timers)
    ensures HasState(m, name) <==> name in StateNames(m.states)
  {
    forall i | 0 <= i < |m.variables| ensures VariableNames(m.variables)[i] == m.variables[i].name && m.variables[i] in m.variables {}
    forall i | 0 <= i < |m.timers| ensures TimerNames(m.timers)[i] == m.timers[i].name && m.timers[i] in m.timers {}
    forall i | 0 <= i < |m.states| ensures StateNames(m.states)[i] == m.states[i].name && m.states[i] in m.states {}
    hide VariableNames, TimerNames, StateNames;
  }

  lemma ActionSoundIff(m: Machine, a: Action)
    ensures ActionSound(m, a) <==> ActionDeclared(VariableNames(m.variables), TimerNames(m.timers), a) && ActionResolves(StateNames(m.states), a)
  {
    hide HasVariable, HasTimer, HasState, VariableNames, TimerNames, StateNames, T.IsExpression, Utf8Length;
    match a.body {
      case SetVariable(v, _) => NamesAre(m, v);
      case StartTimer(t, _, _) => NamesAre(m, t);
      case StopTimer(t) => NamesAre(m, t);
      case ResetTimer(t) => NamesAre(m, t);
      case Goto(t, _) => NamesAre(m, t);
      case _ =>
    }
  }

  ghost predicate StateSound(m: Machine, s: State) {
    && (forall a | a in s.entry || a in s.exit :: ActionSound(m, a))
    && forall t | t in s.transitions ::
         HasState(m, t.target) && (t.guard.Some? ==> Fits(OExpression(t.guard.value))) && forall a | a in t.actions :: ActionSound(m, a)
  }

  lemma StateSoundIff(m: Machine, s: State)
    ensures StateSound(m, s)
            <==> StateDeclared(VariableNames(m.variables), TimerNames(m.timers), s) && StateResolves(StateNames(m.states), s)
  {
    forall a ensures ActionSound(m, a) <==> ActionDeclared(VariableNames(m.variables), TimerNames(m.timers), a) && ActionResolves(StateNames(m.states), a) {
      ActionSoundIff(m, a);
    }
    forall name ensures HasState(m, name) <==> name in StateNames(m.states) { NamesAre(m, name); }
    hide ActionSound, ActionDeclared, ActionResolves, HasState, VariableNames, TimerNames, StateNames, T.IsExpression, Utf8Length;
  }

  lemma SoundIff(m: Machine)
    ensures MachineReads(m) && MachineResolves(m) <==> MachineSound(m)
  {
    forall s ensures StateSound(m, s) <==> StateDeclared(VariableNames(m.variables), TimerNames(m.timers), s) && StateResolves(StateNames(m.states), s) {
      StateSoundIff(m, s);
    }
    NamesAre(m, m.initial);
    UniqueIs(m);
    DefaultsAre(m);
    PlacesAre(m);
    hide StateSound, StateDeclared, StateResolves, HasState, Occurs, HasTransition, Fits, DefaultValid, NamesUnique;
    hide VariableNames, TimerNames, StateNames, Distinct, ActionSound;
  }

  lemma UniqueIs(m: Machine)
    ensures NamesUnique(m) <==> Distinct(VariableNames(m.variables)) && Distinct(TimerNames(m.timers)) && Distinct(StateNames(m.states))
  {
    var vs, ts, ss := m.variables, m.timers, m.states;
    assert forall i {:trigger vs[i]} | 0 <= i < |vs| :: VariableNames(vs)[i] == vs[i].name;
    assert forall i {:trigger ts[i]} | 0 <= i < |ts| :: TimerNames(ts)[i] == ts[i].name;
    assert forall i {:trigger ss[i]} | 0 <= i < |ss| :: StateNames(ss)[i] == ss[i].name;
  }

  lemma DefaultsAre(m: Machine)
    ensures (forall v | v in m.variables :: DefaultValid(v)) <==> forall v | v in m.variables && v.default.Some? :: Fits(v.default.value)
  {
    hide T.IsExpression, Utf8Length;
    forall v: VariableDef ensures DefaultValid(v) <==> (v.default.Some? ==> Fits(v.default.value)) {}
    hide DefaultValid, Fits;
  }

  lemma PlacesAre(m: Machine)
    ensures (forall s | s in m.states :: StateSound(m, s)) <==>
            && (forall a | Occurs(m, a) :: ActionSound(m, a))
            && (forall t | HasTransition(m, t) :: HasState(m, t.target) && (t.guard.Some? ==> Fits(OExpression(t.guard.value))))
  {
    hide ActionSound, HasState, Fits;
  }

  lemma InstanceSoundIff(ms: seq<Machine>, inst: Instance)
    ensures InstanceReads(ms, inst) <==> InstanceSound(ms, inst)
  {
    forall m, name ensures HasVariable(m, name) <==> name in VariableNames(m.variables) { NamesAre(m, name); }
    hide HasVariable, VariableNames, T.IsExpression, Utf8Length;
  }
}
