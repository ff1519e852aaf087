/**
 What the expression language looks like from outside (tools/yaml2c/expression.py):
 which names, calls, operators and combinations are expressions, whatever the
 operands are.
 */
module ExpressionForms {
  import opened Wrappers
  import opened Names
  import opened Expression

  // ---------------------------------------------------------------------------
  // Trees, raised to the level of a whole expression
  // ---------------------------------------------------------------------------

  /** An operand by itself, as an expression of the level above. */
  function Raised(level: Level, t: Tree): Tree {
    if Repeats(level) then Chain(t, End) else Pass(t)
  }

  /** A tree of one level as a tree of a higher one. */
  function Lifted(from: Level, to: Level, t: Tree): Tree
    requires Rank(from) <= Rank(to)
    decreases Rank(to)
  {
    if from == to then t else Raised(to, Lifted(from, Below(to), t))
  }

  lemma {:induction false} LiftedDerives(from: Level, to: Level, t: Tree)
    requires Rank(from) <= Rank(to) && Derives(from, t)
    ensures Derives(to, Lifted(from, to, t)) && Yield(Lifted(from, to, t)) == Yield(t)
    decreases Rank(to)
  {
    if from != to {
      LiftedDerives(from, Below(to), t);
      var sub := Lifted(from, Below(to), t);
      assert Yield(Raised(to, sub)) == Yield(sub);
      hide Yield, Joins, Compares, Leads, Atom, Arity;
    }
  }

  /** No token of an expression is the end. */
  lemma {:induction false} NoEof(level: Level, t: Tree)
    requires Derives(level, t)
    ensures forall x | x in Yield(t) :: !x.Eof?
    decreases t
  {
    hide NamespacedName, Arity;
    match t {
      case Chain(first, tail) => NoEof(Below(level), first); TailNoEof(level, tail);
      case Prefixed(_, sub) => NoEof(level, sub);
      case Pass(sub) => NoEof(Below(level), sub);
      case Compare(left, _, right) => NoEof(AddE, left); NoEof(AddE, right);
      case Call(_, first, tail) => NoEof(OrE, first); ArgsNoEof(tail);
      case Group(sub) => NoEof(OrE, sub);
      case Leaf(_) =>
    }
  }

  lemma {:induction false} TailNoEof(level: Level, t: Tail)
    requires TailDerives(level, t)
    ensures forall x | x in TailYield(t) :: !x.Eof?
    decreases t
  {
    hide Derives;
    if t.More? {
      NoEof(Below(level), t.operand);
      TailNoEof(level, t.rest);
    }
  }

  lemma {:induction false} ArgsNoEof(t: Tail)
    requires ArgsDerive(t)
    ensures forall x | x in TailYield(t) :: !x.Eof?
    decreases t
  {
    hide Derives;
    if t.More? {
      NoEof(OrE, t.operand);
      ArgsNoEof(t.rest);
    }
  }

  /** Tokens followed by the end, as the parser gets them. */
  function Ended(ts: seq<Token>): seq<Token> { ts + [Eof] }

  lemma EndedIsTokenList(ts: seq<Token>)
    requires forall x | x in ts :: !x.Eof?
    ensures TokenList(Ended(ts))
  {
    forall i | 0 <= i < |ts| ensures Ended(ts)[i] in ts {}
  }

  lemma TreeIsAccepted(t: Tree)
    requires Derives(OrE, t)
    ensures TokenList(Ended(Yield(t))) && Accepts(Ended(Yield(t)))
  {
    hide Derives, Yield, Parse, TokenList;
    NoEof(OrE, t);
    EndedIsTokenList(Yield(t));
    assert Ended(Yield(t))[..|Ended(Yield(t))| - 1] == Yield(t);
    AcceptsIffDerivable(Ended(Yield(t)));
  }

  // ---------------------------------------------------------------------------
  // How far the parser gets from a primary
  // ---------------------------------------------------------------------------

  /** A token that carries an expression on at exactly that level. */
  predicate CarriesOn(level: Level, t: Token) {
    Joins(level, t) || (level.CmpE? && Compares(t))
  }

  predicate NoLead(t: Token) { !Leads(NotE, t) && !Leads(UnaryE, t) }

  /** The tokens that join two operands, and the level at which they do. */
  function JoiningLevel(op: Token): Option<Level> {
    if op == Name("or") then Some(OrE)
    else if op == Name("and") then Some(AndE)
    else if op in [Op("=="), Op("!="), Op("<"), Op("<="), Op(">"), Op(">=")] then Some(CmpE)
    else if op in [Op("+"), Op("-")] then Some(AddE)
    else if op in [Op("*"), Op("/"), Op("%")] then Some(MulE)
    else None
  }

  lemma JoiningLevelIs(op: Token, level: Level)
    ensures CarriesOn(level, op) <==> JoiningLevel(op) == Some(level)
  {
  }

  /** What one level parses, a higher one does, when the next token joins at no level in between. */
  lemma {:induction false} Rise(from: Level, to: Level, ts: seq<Token>, i: nat)
    requires TokenList(ts) && i < |ts| && Rank(from) <= Rank(to) && NoLead(ts[i])
    requires Parse(from, ts, i).Some? ==>
               var at := JoiningLevel(ts[Parse(from, ts, i).value]);
               at.Some? ==> Rank(at.value) <= Rank(from) || Rank(at.value) > Rank(to)
    ensures Parse(to, ts, i) == Parse(from, ts, i)
    decreases Rank(to)
  {
    hide Joins, Compares, Leads, TokenList, ParsePostfix, JoiningLevel;
    if from != to {
      Rise(from, Below(to), ts, i);
      if Parse(from, ts, i).Some? { JoiningLevelIs(ts[Parse(from, ts, i).value], to); }
    }
  }

  // ---------------------------------------------------------------------------
  // Single tokens
  // ---------------------------------------------------------------------------

  /** What an expression may ask of an event. */
  predicate IsEventQuestion(field: string) {
    field in [
      "event_id", "timestamp_us", "sequence", "cause_sequence", "priority_class", "type", "interface_id",
      "can_id", "length", "signal_id", "value", "timer_id", "instance_id", "missed_count", "state_id",
      "fault_code", "severity", "from_mode", "to_mode", "reason_code"]
  }

  /** The names of the language: two truth values, the event fields, and signals and variables of up to 63 characters. */
  predicate IsValueName(name: string) {
    || name == "true" || name == "false"
    || (|name| > 4 && name[..4] == "evt." && IsEventQuestion(name[4..]))
    || (5 <= |name| <= 67 && (name[..4] == "sig." || name[..4] == "var."))
  }

  lemma EventFieldsAre(field: string)
    ensures field in EVT_FIELDS <==> IsEventQuestion(field)
  {
  }

  lemma NamespacedParts(name: string)
    ensures NamespacedName(name) <==>
            && Dot(name) < |name|
            && var prefix, rest := name[..Dot(name)], name[Dot(name) + 1..];
            (prefix == "evt" && IsEventQuestion(rest)) || ((prefix == "sig" || prefix == "var") && 1 <= |rest| <= 63)
  {
    if Dot(name) < |name| { EventFieldsAre(name[Dot(name) + 1..]); }
    hide IsEventQuestion, Dot;
  }

  lemma PrefixIs(name: string, prefix: string)
    requires prefix in ["evt", "sig", "var"] && |name| >= 4
    ensures name[..4] == prefix + "." <==> Dot(name) == 3 && name[..3] == prefix
  {
    if name[..4] == prefix + "." {
      assert name[0] == name[..4][0] && name[1] == name[..4][1] && name[2] == name[..4][2] && name[3] == name[..4][3];
      assert name[..3] == prefix;
    } else if Dot(name) == 3 {
      assert name[..4] == name[..3] + ".";
    }
  }

  lemma ValueNameIs(name: string)
    ensures NamespacedName(name) || name == "true" || name == "false" <==> IsValueName(name)
  {
    NamespacedParts(name);
    if |name| >= 4 {
      PrefixIs(name, "evt");
      PrefixIs(name, "sig");
      PrefixIs(name, "var");
    }
    assert "evt" + "." == "evt." && "sig" + "." == "sig." && "var" + "." == "var.";
    hide NamespacedName, IsEventQuestion, Dot;
    if Dot(name) < |name| { assert |name[..Dot(name)]| == Dot(name); }
  }

  lemma NameAcceptedIs(name: string)
    ensures NameAccepted(name) <==> IsValueName(name)
  {
    hide NamespacedName, IsValueName, Arity, IsEventQuestion, Dot;
    ValueNameIs(name);
    if NamespacedName(name) {
      HasDot(name);
      Dotted(name);
    }
    assert name in ["true", "false"] <==> name == "true" || name == "false";
  }

  // ---------------------------------------------------------------------------
  // Parsing a whole list
  // ---------------------------------------------------------------------------

  /** From that position, every level ends at the same place or fails. */
  ghost predicate ParsesTo(ts: seq<Token>, i: nat, r: Option<nat>)
    requires TokenList(ts) && i < |ts|
  {
    forall level :: Parse(level, ts, i) == r
  }

  /** A list that starts with a primary is an expression exactly when the primary is all of it, if nothing joins on. */
  lemma FromPrimary(ts: seq<Token>, i: nat)
    requires TokenList(ts) && i < |ts| && NoLead(ts[i])
    requires ParsePostfix(ts, i).Some? ==> JoiningLevel(ts[ParsePostfix(ts, i).value]) == None
    ensures ParsesTo(ts, i, ParsePostfix(ts, i))
  {
    hide Joins, Compares, Leads, TokenList, ParsePostfix, JoiningLevel;
    forall level ensures Parse(level, ts, i) == ParsePostfix(ts, i) {
      assert Parse(PostfixE, ts, i) == ParsePostfix(ts, i);
      Rise(PostfixE, level, ts, i);
    }
  }

  lemma EofIsNone(ts: seq<Token>, i: nat)
    requires TokenList(ts) && i < |ts| && ts[i].Eof?
    ensures ParsesTo(ts, i, None)
  {
    hide Parse;
    FromPrimary(ts, i);
  }

  lemma LeadIsNoName(t: Token)
    requires !NoLead(t)
    ensures !t.Number? && (t.Name? ==> t.text == "not" && !NameAccepted(t.text)) && (t.Op? ==> t.text == "-")
  {
  }

  /** A leading operator parses what follows it. */
  lemma Leading(ts: seq<Token>, i: nat)
    requires TokenList(ts) && i + 1 < |ts| && !NoLead(ts[i])
    requires ParsesTo(ts, i + 1, None)
    ensures Parse(OrE, ts, i) == None
  {
    if ts[i] == Name("not") {
      assert Parse(NotE, ts, i) == None;
    } else {
      assert Parse(UnaryE, ts, i) == None;
      assert !Leads(NotE, ts[i]);
      assert Parse(MulE, ts, i) == None;
      assert Parse(AddE, ts, i) == None;
      assert Parse(CmpE, ts, i) == None;
      assert Parse(NotE, ts, i) == None;
    }
    assert Parse(AndE, ts, i) == None;
  }

  /** One token alone is an expression exactly when it is a number, a truth value or a known name. */
  lemma SingleTokenIff(t: Token)
    requires !t.Eof?
    ensures Accepts([t, Eof]) <==> t.Number? || (t.Name? && IsValueName(t.text))
  {
    hide NamespacedName, IsValueName, NameAccepted;
    var ts := [t, Eof];
    if t.Name? { NameAcceptedIs(t.text); }
    EofIsNone(ts, 1);
    if NoLead(t) {
      assert ParsePostfix(ts, 0) == if t.Number? || (t.Name? && NameAccepted(t.text)) then Some(1) else None;
      FromPrimary(ts, 0);
    } else {
      LeadIsNoName(t);
      Leading(ts, 0);
    }
  }

  // ---------------------------------------------------------------------------
  // Calls
  // ---------------------------------------------------------------------------

  /** Arguments, separated by commas. */
  function ArgTokens(args: seq<Tree>): seq<Token> {
    if args == [] then []
    else if |args| == 1 then Yield(args[0])
    else Yield(args[0]) + ([Op(",")] + ArgTokens(args[1..]))
  }

  function CallTokens(name: string, args: seq<Tree>): seq<Token> {
    [Name(name), Op("(")] + (ArgTokens(args) + [Op(")")])
  }

  function TailOf(args: seq<Tree>): Tail {
    if args == [] then End else More(Op(","), args[0], TailOf(args[1..]))
  }

  predicate AllDerive(args: seq<Tree>) {
    forall a | a in args :: Derives(OrE, a)
  }

  lemma {:induction false} ArgTokensAre(args: seq<Tree>)
    requires args != [] && AllDerive(args)
    ensures ArgTokens(args) == ArgsYield(args[0], TailOf(args[1..])) && Derives(OrE, args[0])
    ensures ArgsDerive(TailOf(args[1..])) && Length(TailOf(args[1..])) == |args| - 1
    ensures forall x | x in ArgTokens(args) :: !x.Eof?
  {
    hide Derives, Yield;
    assert args[0] in args;
    NoEof(OrE, args[0]);
    if |args| == 1 {
      assert TailOf(args[1..]) == End;
      assert ArgsYield(args[0], End) == Yield(args[0]);
    } else {
      assert AllDerive(args[1..]);
      ArgTokensAre(args[1..]);
    }
  }

  lemma CallTokensAreTokens(name: string, args: seq<Tree>)
    requires AllDerive(args)
    ensures TokenList(Ended(CallTokens(name, args)))
  {
    hide Derives, TokenList, ArgTokens;
    if args != [] { ArgTokensAre(args); } else { assert ArgTokens([]) == [] by { NoArguments(); } }
    EndedIsTokenList(CallTokens(name, args));
  }

  lemma NoArguments()
    ensures ArgTokens([]) == []
  {
  }

  /** Where the parts of a call stand. */
  lemma CallStands(name: string, args: seq<Tree>)
    ensures var ts := Ended(CallTokens(name, args));
      && |ts| == |ArgTokens(args)| + 4 && ts[0] == Name(name) && ts[1] == Op("(")
      && ts[|ts| - 2] == Op(")") && ts[|ts| - 1] == Eof && At(ts, 2, ArgTokens(args))
  {
    var ts, args_ := Ended(CallTokens(name, args)), ArgTokens(args);
    assert ts[2..2 + |args_|] == args_;
  }

  lemma {:induction false} TooManyArguments(args: seq<Tree>, ts: seq<Token>, i: nat, argc: nat)
    requires TokenList(ts) && args != [] && AllDerive(args) && At(ts, i, ArgTokens(args))
    requires ts[i + |ArgTokens(args)|] == Op(")") && argc + |args| > MAX_CALL_ARGS
    ensures ParseArgs(ts, i, argc) == None
    decreases |args|
  {
    hide Derives, Yield, Parse, TokenList, At;
    if argc < MAX_CALL_ARGS {
      assert args[0] in args && AllDerive(args[1..]);
      var j := i + |Yield(args[0])|;
      AtSplit(ts, i, Yield(args[0]), [Op(",")] + ArgTokens(args[1..]));
      ClosersStop(OrE, ts[j]);
      ParseComplete(OrE, args[0], ts, i);
      ArgTokensAre(args[1..]);
      AtSplit(ts, j, [Op(",")], ArgTokens(args[1..]));
      TooManyArguments(args[1..], ts, j + 1, argc + 1);
    }
  }

  /** The arguments of a call that stands at the start, counted. */
  lemma ArgumentsCount(name: string, args: seq<Tree>)
    requires AllDerive(args) && args != []
    requires TokenList(Ended(CallTokens(name, args)))
    ensures ParseArgs(Ended(CallTokens(name, args)), 2, 0)
            == if |args| <= 3 then Some((|CallTokens(name, args)| - 1, |args|)) else None
  {
    hide Derives, Yield, Parse, TokenList, At, ArgTokens, CallTokens, Ended, ParseArgs;
    var ts := Ended(CallTokens(name, args));
    CallStands(name, args);
    ArgTokensAre(args);
    CallLength(name, args);
    if |args| <= 3 {
      ArgsComplete(args[0], TailOf(args[1..]), ts, 2, 0);
    } else {
      TooManyArguments(args, ts, 2, 0);
    }
  }

  lemma CallLength(name: string, args: seq<Tree>)
    ensures |CallTokens(name, args)| == |ArgTokens(args)| + 3 && |Ended(CallTokens(name, args))| == |ArgTokens(args)| + 4
  {
  }

  /** The functions of the language, by their number of arguments. */
  predicate TakesArguments(name: string, n: nat) {
    match n
    case 1 => name == "abs" || name == "round"
    case 2 => name == "min" || name == "max"
    case 3 => name == "clamp"
    case _ => false
  }

  lemma ArityIs(name: string, n: nat)
    ensures Arity(name) == Some(n) <==> TakesArguments(name, n)
    ensures Arity(name).Some? <==> TakesArguments(name, 1) || TakesArguments(name, 2) || TakesArguments(name, 3)
  {
  }

  /** What the parser makes of a name, a parenthesis, arguments and a parenthesis. */
  lemma CallParses(name: string, args: seq<Tree>)
    requires AllDerive(args) && name != "not"
    ensures TokenList(Ended(CallTokens(name, args)))
    ensures ParsePostfix(Ended(CallTokens(name, args)), 0)
            == if Arity(name).Some? then (if Arity(name) == Some(|args|) then Some(|CallTokens(name, args)|) else None)
               else if NameAccepted(name) then Some(1) else None
  {
    CallTokensAreTokens(name, args);
    CallStands(name, args);
    CallLength(name, args);
    ArityIs(name, |args|);
    hide Derives, Yield, Parse, TokenList, ArgTokens, CallTokens, Ended, ParseArgs, Arity, NameAccepted, At;
    var ts := Ended(CallTokens(name, args));
    if Arity(name).Some? {
      if args == [] {
        NoArguments();
        assert ts[2] == Op(")");
      } else {
        ArgumentsCount(name, args);
        FirstArgument(name, args);
      }
    }
  }

  lemma FirstArgument(name: string, args: seq<Tree>)
    requires AllDerive(args) && args != []
    ensures |ArgTokens(args)| > 0 && Ended(CallTokens(name, args))[2] != Op(")")
  {
    hide Derives, Yield;
    assert args[0] in args;
    FirstToken(OrE, args[0]);
    var ts := Ended(CallTokens(name, args));
    assert ts[2] == ArgTokens(args)[0] == Yield(args[0])[0];
  }

  /**
   A name before arguments in parentheses is an expression exactly when it is a
   function of that many arguments, or the operator `not` before one.
   */
  lemma CallIsAcceptedIff(name: string, args: seq<Tree>)
    requires AllDerive(args)
    ensures TokenList(Ended(CallTokens(name, args)))
    ensures Accepts(Ended(CallTokens(name, args)))
            <==> TakesArguments(name, |args|) || (name == "not" && |args| == 1)
  {
    CallTokensAreTokens(name, args);
    if name == "not" {
      NotBeforeParenthesis(args);
      return;
    }
    CallParses(name, args);
    CallStands(name, args);
    CallLength(name, args);
    ArityIs(name, |args|);
    hide Derives, Yield, TokenList, ArgTokens, CallTokens, Ended, Arity, NameAccepted, At, ParsePostfix, TakesArguments;
    var ts := Ended(CallTokens(name, args));
    assert JoiningLevel(Op("(")) == None && JoiningLevel(Eof) == None;
    FromPrimary(ts, 0);
    hide Parse;
  }

  lemma NotOfGroup(arg: Tree)
    requires Derives(OrE, arg)
    ensures TokenList(Ended([Name("not")] + ([Op("(")] + (Yield(arg) + [Op(")")]))))
    ensures Accepts(Ended([Name("not")] + ([Op("(")] + (Yield(arg) + [Op(")")]))))
  {
    var group := Group(arg);
    assert Derives(PostfixE, group);
    LiftedDerives(PostfixE, NotE, group);
    PrefixAccepted(NotE, Name("not"), Lifted(PostfixE, NotE, group));
  }

  /** A leading operator before an operand of its level. */
  lemma PrefixAccepted(level: Level, op: Token, sub: Tree)
    requires Prefixes(level) && Leads(level, op) && Derives(level, sub)
    ensures TokenList(Ended([op] + Yield(sub))) && Accepts(Ended([op] + Yield(sub)))
  {
    var t := Prefixed(op, sub);
    LiftedDerives(level, OrE, t);
    TreeIsAccepted(Lifted(level, OrE, t));
  }

  lemma NotBeforeParenthesis(args: seq<Tree>)
    requires AllDerive(args) && TokenList(Ended(CallTokens("not", args)))
    ensures Accepts(Ended(CallTokens("not", args))) <==> |args| == 1
  {
    hide Parse, Derives, Yield, TokenList, Ended, Accepts, NoLead;
    if |args| == 1 {
      NotOfGroup(args[0]);
      assert CallTokens("not", args) == [Name("not")] + ([Op("(")] + (Yield(args[0]) + [Op(")")]));
    } else {
      NotOfNoGroup(args);
    }
  }

  lemma NotOfNoGroup(args: seq<Tree>)
    requires AllDerive(args) && |args| != 1 && TokenList(Ended(CallTokens("not", args)))
    ensures !Accepts(Ended(CallTokens("not", args)))
  {
    var ts := Ended(CallTokens("not", args));
    CallStands("not", args);
    ParenthesisFails(args);
    hide Parse, Derives, Yield, TokenList, ArgTokens, CallTokens, Ended;
    FromPrimary(ts, 1);
    Leading(ts, 0);
  }

  /** No arguments or several are no group. */
  lemma ParenthesisFails(args: seq<Tree>)
    requires AllDerive(args) && |args| != 1 && TokenList(Ended(CallTokens("not", args)))
    ensures |Ended(CallTokens("not", args))| > 1 && Ended(CallTokens("not", args))[1] == Op("(")
    ensures ParsePostfix(Ended(CallTokens("not", args)), 1) == None
  {
    var ts := Ended(CallTokens("not", args));
    CallStands("not", args);
    hide Parse, Derives, Yield, TokenList, CallTokens, Ended, At;
    if args == [] {
      assert NoLead(ts[2]) && ParsePostfix(ts, 2) == None;
      FromPrimary(ts, 2);
    } else {
      assert args[0] in args;
      var j := 2 + |Yield(args[0])|;
      AtSplit(ts, 2, Yield(args[0]), [Op(",")] + ArgTokens(args[1..]));
      ClosersStop(OrE, ts[j]);
      ParseComplete(OrE, args[0], ts, 2);
    }
  }

  // ---------------------------------------------------------------------------
  // Operators
  // ---------------------------------------------------------------------------

  /** The list of an operand, an operator and another operand. */
  function Infix(a: Tree, op: Token, b: Tree): seq<Token> {
    Yield(a) + ([op] + Yield(b))
  }

  /** Operands joined at the level of their operator. */
  function Joined(level: Level, a: Tree, op: Token, b: Tree): Tree
    requires Rank(level) >= Rank(MulE)
  {
    if level.CmpE? then Compare(Lifted(PostfixE, AddE, a), op, Lifted(PostfixE, AddE, b))
    else Chain(Lifted(PostfixE, Below(level), a), More(op, Lifted(PostfixE, Below(level), b), End))
  }

  lemma ChainOf(level: Level, x: Tree, op: Token, y: Tree)
    requires Repeats(level) && Joins(level, op) && Derives(Below(level), x) && Derives(Below(level), y)
    ensures Derives(level, Chain(x, More(op, y, End))) && Yield(Chain(x, More(op, y, End))) == Infix(x, op, y)
  {
    var tail := More(op, y, End);
    assert TailDerives(level, tail);
    assert TailYield(tail) == [op] + (Yield(y) + []);
    hide Derives, Yield, Joins;
    assert Yield(Chain(x, tail)) == Yield(x) + TailYield(tail) by { ChainYield(x, tail); }
    ChainDerives(level, x, tail);
  }

  lemma CompareOf(x: Tree, op: Token, y: Tree)
    requires Derives(AddE, x) && Compares(op) && Derives(AddE, y)
    ensures Derives(CmpE, Compare(x, op, y)) && Yield(Compare(x, op, y)) == Infix(x, op, y)
  {
  }

  lemma ChainYield(x: Tree, tail: Tail)
    ensures Yield(Chain(x, tail)) == Yield(x) + TailYield(tail)
  {
  }

  lemma ChainDerives(level: Level, x: Tree, tail: Tail)
    requires Repeats(level) && Derives(Below(level), x) && TailDerives(level, tail)
    ensures Derives(level, Chain(x, tail))
  {
  }

  lemma JoinedDerives(level: Level, a: Tree, op: Token, b: Tree)
    requires JoiningLevel(op) == Some(level) && Derives(PostfixE, a) && Derives(PostfixE, b)
    ensures Rank(level) >= Rank(MulE) && Derives(level, Joined(level, a, op, b)) && Yield(Joined(level, a, op, b)) == Infix(a, op, b)
  {
    JoiningLevelIs(op, level);
    assert Rank(level) >= Rank(MulE);
    hide JoiningLevel, Lifted, Joins, Compares;
    LiftedDerives(PostfixE, Below(level), a);
    LiftedDerives(PostfixE, Below(level), b);
    var x, y := Lifted(PostfixE, Below(level), a), Lifted(PostfixE, Below(level), b);
    if level.CmpE? {
      CompareOf(x, op, y);
    } else {
      hide Derives, Yield;
      ChainOf(level, x, op, y);
    }
    hide Derives, Yield;
  }

  /** What follows a primary: where the parser stands after it. */
  lemma AfterPrimary(a: Tree, rest: seq<Token>)
    requires Derives(PostfixE, a) && rest != [] && TokenList(Yield(a) + rest)
    ensures ParsePostfix(Yield(a) + rest, 0) == Some(|Yield(a)|) && NoLead((Yield(a) + rest)[0])
    ensures (Yield(a) + rest)[|Yield(a)|..] == rest && (Yield(a) + rest)[|Yield(a)|] == rest[0]
  {
    var ts := Yield(a) + rest;
    assert ts[0..|Yield(a)|] == Yield(a);
    FirstToken(PostfixE, a);
    hide Derives, Yield, TokenList;
    PostfixComplete(a, ts, 0);
  }

  lemma InfixIs(a: Tree, op: Token, b: Tree)
    ensures Ended(Infix(a, op, b)) == Yield(a) + ([op] + Yield(b) + [Eof])
  {
  }

  /** Two primaries and a token between them are an expression exactly when the token joins operands. */
  lemma InfixIsAcceptedIff(a: Tree, op: Token, b: Tree)
    requires Derives(PostfixE, a) && Derives(PostfixE, b) && !op.Eof?
    ensures TokenList(Ended(Infix(a, op, b)))
    ensures Accepts(Ended(Infix(a, op, b)))
            <==> JoiningLevel(op) != None
  {
    NoEof(PostfixE, a);
    NoEof(PostfixE, b);
    EndedIsTokenList(Infix(a, op, b));
    hide Derives, Yield, TokenList, Parse, JoiningLevel, Joined, Lifted, Infix, NoLead;
    if JoiningLevel(op).Some? {
      var level := JoiningLevel(op).value;
      JoinedDerives(level, a, op, b);
      LiftedDerives(level, OrE, Joined(level, a, op, b));
      TreeIsAccepted(Lifted(level, OrE, Joined(level, a, op, b)));
    } else {
      var rest := [op] + Yield(b) + [Eof];
      assert Ended(Infix(a, op, b)) == Yield(a) + rest by { InfixIs(a, op, b); }
      AfterPrimary(a, rest);
      FromPrimary(Yield(a) + rest, 0);
    }
  }

  /** A token before a number or a name is an expression exactly when it is `not` or a minus. */
  lemma LeadIsAcceptedIff(op: Token, t: Token)
    requires Atom(t) && !op.Eof?
    ensures TokenList([op, t, Eof])
    ensures Accepts([op, t, Eof]) <==> op == Name("not") || op == Op("-")
  {
    var ts := [op, t, Eof];
    AtomOpens(t);
    hide Atom, NamespacedName, NameAccepted, Arity;
    if NoLead(op) {
      AtomDoesNotJoin(t);
      if op == Op("(") { ParenthesisOpen(ts); }
      assert ParsePostfix(ts, 0).Some? ==> ParsePostfix(ts, 0) == Some(1);
      FromPrimary(ts, 0);
      hide Parse;
    } else {
      var level := if op == Op("-") then UnaryE else NotE;
      LiftedDerives(PostfixE, level, Leaf(t));
      PrefixAccepted(level, op, Lifted(PostfixE, level, Leaf(t)));
      assert Ended([op] + [t]) == ts;
    }
  }

  lemma AtomDoesNotJoin(t: Token)
    requires Atom(t)
    ensures JoiningLevel(t) == None && t != Op("(") && t != Op(")")
  {
    AtomOpens(t);
    if t.Name? && NamespacedName(t.text) {
      HasDot(t.text);
      Dotted(t.text);
    }
    hide NamespacedName, Arity;
  }

  lemma ParenthesisOpen(ts: seq<Token>)
    requires |ts| == 3 && TokenList(ts) && ts[0] == Op("(")
    ensures ParsePostfix(ts, 0) == None
  {
  }

  /** Where the parts of a list of this form stand. */
  lemma Stands(xs: seq<Token>, op: Token, ys: seq<Token>, zs: seq<Token>)
    requires xs != [] && ys != [] && zs != []
    ensures var ts := xs + ([op] + (ys + zs));
      var j, k := |xs|, |xs| + 1 + |ys|;
      && At(ts, 0, xs) && At(ts, j + 1, ys) && k < |ts| == k + |zs| && ts[j] == op && ts[j + 1] == ys[0] && ts[k] == zs[0]
  {
    var ts := xs + ([op] + (ys + zs));
    assert ts[0..|xs|] == xs && ts[|xs| + 1..|xs| + 1 + |ys|] == ys;
  }

  lemma Regrouped(xs: seq<Token>, op: Token, ys: seq<Token>, again: Token, zs: seq<Token>)
    ensures Ended(xs + ([op] + ys) + ([again] + zs)) == xs + ([op] + (ys + ([again] + zs + [Eof])))
  {
    assert (xs + ([op] + ys) + ([again] + zs)) + [Eof] == xs + ([op] + (ys + ([again] + zs + [Eof])));
  }

  lemma ChainTokens(a: Tree, op: Token, b: Tree, again: Token, c: Tree)
    requires Derives(PostfixE, a) && Derives(PostfixE, b) && Derives(PostfixE, c) && !op.Eof? && !again.Eof?
    ensures TokenList(Ended(Infix(a, op, b) + ([again] + Yield(c))))
  {
    NoEof(PostfixE, a);
    NoEof(PostfixE, b);
    NoEof(PostfixE, c);
    hide Derives, Yield, TokenList;
    EndedIsTokenList(Infix(a, op, b) + ([again] + Yield(c)));
  }

  lemma StartsPrimary(t: Tree)
    requires Derives(PostfixE, t)
    ensures NoLead(Yield(t)[0])
  {
    FirstToken(PostfixE, t);
  }

  lemma CompareThenCompare(a: Tree, op: Token, b: Tree, zs: seq<Token>)
    requires Derives(PostfixE, a) && Derives(PostfixE, b) && JoiningLevel(op) == Some(CmpE)
    requires |zs| > 1 && JoiningLevel(zs[0]) == Some(CmpE) && TokenList(Yield(a) + ([op] + (Yield(b) + zs)))
    ensures !Accepts(Yield(a) + ([op] + (Yield(b) + zs)))
  {
    hide Derives, Yield, TokenList, Parse, ParsePostfix, JoiningLevel, NoLead, At;
    StartsPrimary(a);
    StartsPrimary(b);
    var xs, ys := Yield(a), Yield(b);
    var ts := xs + ([op] + (ys + zs));
    Stands(xs, op, ys, zs);
    PostfixComplete(a, ts, 0);
    PostfixComplete(b, ts, |xs| + 1);
    AtHead(ts, 0, xs);
    CompareEnds(ts, 0, |xs|, |xs| + 1 + |ys|);
  }

  /** Comparisons do not chain. */
  lemma ComparisonsDoNotChain(a: Tree, op: Token, b: Tree, again: Token, c: Tree)
    requires Derives(PostfixE, a) && Derives(PostfixE, b) && Derives(PostfixE, c)
    requires JoiningLevel(op) == Some(CmpE) && JoiningLevel(again) == Some(CmpE)
    ensures TokenList(Ended(Infix(a, op, b) + ([again] + Yield(c))))
    ensures !Accepts(Ended(Infix(a, op, b) + ([again] + Yield(c))))
  {
    hide Derives, Yield, TokenList, Parse, Accepts, Ended;
    assert !op.Eof? && !again.Eof?;
    hide JoiningLevel;
    ChainTokens(a, op, b, again, c);
    Regrouped(Yield(a), op, Yield(b), again, Yield(c));
    CompareThenCompare(a, op, b, [again] + Yield(c) + [Eof]);
  }

  /** A comparison ends before a second operator of comparison, and so does the expression. */
  lemma CompareEnds(ts: seq<Token>, i: nat, j: nat, k: nat)
    requires TokenList(ts) && i < j && j + 1 < k < |ts| - 1
    requires NoLead(ts[i]) && ParsePostfix(ts, i) == Some(j) && JoiningLevel(ts[j]) == Some(CmpE)
    requires NoLead(ts[j + 1]) && ParsePostfix(ts, j + 1) == Some(k) && JoiningLevel(ts[k]) == Some(CmpE)
    ensures Parse(OrE, ts, i) == Some(k)
  {
    JoiningLevelIs(ts[j], CmpE);
    assert Parse(PostfixE, ts, i) == Some(j) && Parse(PostfixE, ts, j + 1) == Some(k);
    assert Rank(PostfixE) < Rank(AddE) < Rank(CmpE) < Rank(OrE);
    hide ParsePostfix, TokenList, NoLead, JoiningLevel, Joins, Leads, Compares, Rank;
    Rise(PostfixE, AddE, ts, i);
    Rise(PostfixE, AddE, ts, j + 1);
    CompareStep(ts, i, j);
    Rise(CmpE, OrE, ts, i);
  }

  lemma CompareStep(ts: seq<Token>, i: nat, j: nat)
    requires TokenList(ts) && i < |ts| && j < |ts| - 1 && Parse(AddE, ts, i) == Some(j) && CarriesOn(CmpE, ts[j])
    ensures Parse(CmpE, ts, i) == Parse(AddE, ts, j + 1)
  {
    hide TokenList, ParsePostfix, ParseTail;
  }

  /** `not` may follow a token that follows a primary exactly when that token is `and` or `or`. */
  lemma NotAfterInfixIff(a: Tree, op: Token, b: Tree)
    requires Derives(PostfixE, a) && Derives(PostfixE, b) && !op.Eof?
    ensures TokenList(Ended(Yield(a) + ([op, Name("not")] + Yield(b))))
    ensures Accepts(Ended(Yield(a) + ([op, Name("not")] + Yield(b)))) <==> op == Name("and") || op == Name("or")
  {
    NoEof(PostfixE, a);
    NoEof(PostfixE, b);
    EndedIsTokenList(Yield(a) + ([op, Name("not")] + Yield(b)));
    hide Derives, Yield, TokenList, Parse;
    if op == Name("and") || op == Name("or") {
      NotOperand(a, op, b);
    } else {
      var rest := [op, Name("not")] + Yield(b) + [Eof];
      var ts := Yield(a) + rest;
      assert Ended(Yield(a) + ([op, Name("not")] + Yield(b))) == ts;
      AfterPrimary(a, rest);
      var j := |Yield(a)|;
      if JoiningLevel(op) == None {
        FromPrimary(ts, 0);
      } else {
        assert ts[j + 1] == rest[1];
        NotIsNoOperand(ts, j);
      }
    }
  }

  lemma Negated(level: Level, b: Tree) returns (t: Tree)
    requires Derives(PostfixE, b) && (level == NotE || level == AndE)
    ensures Derives(level, t) && Yield(t) == [Name("not")] + Yield(b)
  {
    LiftedDerives(PostfixE, NotE, b);
    var negated := Prefixed(Name("not"), Lifted(PostfixE, NotE, b));
    LiftedDerives(NotE, level, negated);
    t := Lifted(NotE, level, negated);
  }

  lemma NotOperand(a: Tree, op: Token, b: Tree)
    requires Derives(PostfixE, a) && Derives(PostfixE, b) && (op == Name("and") || op == Name("or"))
    ensures TokenList(Ended(Yield(a) + ([op, Name("not")] + Yield(b))))
    ensures Accepts(Ended(Yield(a) + ([op, Name("not")] + Yield(b))))
  {
    hide Derives, Yield, Parse, TokenList, Ended, Accepts, Lifted;
    var level := if op == Name("or") then OrE else AndE;
    var y := Negated(Below(level), b);
    LiftedDerives(PostfixE, Below(level), a);
    var x := Lifted(PostfixE, Below(level), a);
    ChainOf(level, x, op, y);
    var t := Chain(x, More(op, y, End));
    LiftedDerives(level, OrE, t);
    TreeIsAccepted(Lifted(level, OrE, t));
    assert Infix(x, op, y) == Yield(a) + ([op, Name("not")] + Yield(b));
  }

  lemma LowerJoin(op: Token)
    requires JoiningLevel(op) != None && op != Name("and") && op != Name("or")
    ensures JoiningLevel(op) in [Some(CmpE), Some(AddE), Some(MulE)] && CarriesOn(JoiningLevel(op).value, op)
  {
    JoiningLevelIs(op, JoiningLevel(op).value);
  }

  /** Below the level of `not` it is no operand. */
  lemma NotIsNoOperand(ts: seq<Token>, j: nat)
    requires TokenList(ts) && 0 < j < |ts| - 1 && NoLead(ts[0]) && ParsePostfix(ts, 0) == Some(j)
    requires JoiningLevel(ts[j]) != None && ts[j] != Name("and") && ts[j] != Name("or") && ts[j + 1] == Name("not")
    ensures Parse(OrE, ts, 0) == None
  {
    hide ParsePostfix, TokenList, NoLead, JoiningLevel, Joins, Leads, Compares, CarriesOn;
    LowerJoin(ts[j]);
    var level := JoiningLevel(ts[j]).value;
    NotFails(level, ts, j + 1);
    assert Parse(PostfixE, ts, 0) == Some(j);
    hide Parse;
    Rise(PostfixE, Below(level), ts, 0);
    OperandFails(level, ts, 0, j);
    Rise(level, OrE, ts, 0);
  }

  /** A joined operand that does not parse fails the whole level. */
  lemma OperandFails(level: Level, ts: seq<Token>, i: nat, j: nat)
    requires TokenList(ts) && i < |ts| && j < |ts| - 1 && level in [CmpE, AddE, MulE]
    requires Parse(Below(level), ts, i) == Some(j) && CarriesOn(level, ts[j]) && Parse(Below(level), ts, j + 1) == None
    ensures Parse(level, ts, i) == None
  {
    hide TokenList, ParsePostfix;
  }

  lemma NotFails(level: Level, ts: seq<Token>, i: nat)
    requires TokenList(ts) && i < |ts| && ts[i] == Name("not") && level in [CmpE, AddE, MulE]
    ensures Parse(Below(level), ts, i) == None
  {
    assert !NameAccepted("not");
    assert ParsePostfix(ts, i) == None;
    assert Parse(UnaryE, ts, i) == None;
    assert Parse(MulE, ts, i) == None;
  }

  // ---------------------------------------------------------------------------
  // Expressions of expressions
  // ---------------------------------------------------------------------------

  /** An expression in parentheses is one. */
  lemma GroupIsAccepted(x: Tree)
    requires Derives(OrE, x)
    ensures TokenList(Ended([Op("(")] + (Yield(x) + [Op(")")]))) && Accepts(Ended([Op("(")] + (Yield(x) + [Op(")")])))
  {
    var group := Group(x);
    assert Derives(PostfixE, group);
    LiftedDerives(PostfixE, OrE, group);
    TreeIsAccepted(Lifted(PostfixE, OrE, group));
  }

  /** `not` before anything at its level, and a minus before anything at its own, is an expression, however often. */
  lemma LeadsRepeat(x: Tree)
    ensures Derives(NotE, x) ==> TokenList(Ended([Name("not")] + Yield(x))) && Accepts(Ended([Name("not")] + Yield(x)))
    ensures Derives(UnaryE, x) ==> TokenList(Ended([Op("-")] + Yield(x))) && Accepts(Ended([Op("-")] + Yield(x)))
  {
    hide Derives, Yield, TokenList, Accepts, Ended;
    if Derives(NotE, x) { PrefixAccepted(NotE, Name("not"), x); }
    if Derives(UnaryE, x) { PrefixAccepted(UnaryE, Op("-"), x); }
  }

  /** A repetition with one more operator and operand. */
  function Extended(t: Tail, op: Token, y: Tree): Tail {
    if t.End? then More(op, y, End) else More(t.op, t.operand, Extended(t.rest, op, y))
  }

  lemma {:induction false} ExtendedDerives(level: Level, t: Tail, op: Token, y: Tree)
    requires Repeats(level) && TailDerives(level, t) && Joins(level, op) && Derives(Below(level), y)
    ensures TailDerives(level, Extended(t, op, y)) && TailYield(Extended(t, op, y)) == TailYield(t) + ([op] + Yield(y))
    decreases t
  {
    hide Derives, Yield, Joins;
    if t.End? {
      assert TailYield(More(op, y, End)) == [op] + (Yield(y) + []);
      assert TailDerives(level, End);
    } else {
      ExtendedDerives(level, t.rest, op, y);
      assert TailYield(Extended(t, op, y)) == [t.op] + (Yield(t.operand) + TailYield(Extended(t.rest, op, y)));
    }
  }

  lemma ChainParts(level: Level, x: Tree)
    requires Repeats(level) && Derives(level, x)
    ensures x.Chain? && Derives(Below(level), x.first) && TailDerives(level, x.tail)
  {
  }

  /** Joined expressions may be joined on by every operator of their level but a comparison. */
  lemma RepetitionIsAccepted(level: Level, x: Tree, op: Token, y: Tree)
    requires JoiningLevel(op) == Some(level) && !level.CmpE? && Derives(level, x) && Derives(Below(level), y)
    ensures TokenList(Ended(Infix(x, op, y))) && Accepts(Ended(Infix(x, op, y)))
  {
    hide Yield, TokenList, Accepts;
    JoiningLevelIs(op, level);
    assert Repeats(level);
    hide JoiningLevel, Joins;
    ChainParts(level, x);
    hide Derives, TailDerives;
    ExtendedDerives(level, x.tail, op, y);
    ChainYield(x.first, x.tail);
    var tail := Extended(x.tail, op, y);
    ChainYield(x.first, tail);
    ChainDerives(level, x.first, tail);
    LiftedDerives(level, OrE, Chain(x.first, tail));
    TreeIsAccepted(Lifted(level, OrE, Chain(x.first, tail)));
    assert Yield(Chain(x.first, tail)) == Infix(x, op, y);
  }
}
