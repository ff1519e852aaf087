/**
 The expression recogniser (tools/yaml2c/expression.py): the class `Parser`
 follows the source, `Parse` is what it computes, and `Derives` is the grammar.
 */
module Expression {
  import opened Wrappers
  import opened Names

  datatype Token = Name(text: string) | Number(text: string) | Op(text: string) | Eof

  const MAX_CALL_ARGS := 3
  const NAME_BUFFER_MAX := 64

  const EVT_FIELDS: seq<string> := [
    "event_id", "timestamp_us", "sequence", "cause_sequence", "priority_class",
    "type", "interface_id", "can_id", "length", "signal_id",
    "value", "timer_id", "instance_id", "missed_count", "state_id",
    "fault_code", "severity", "from_mode", "to_mode", "reason_code"]

  /** Required argument count of a function; None when the name is no function. */
  function Arity(name: string): Option<nat> {
    if name == "abs" || name == "round" then Some(1)
    else if name == "min" || name == "max" then Some(2)
    else if name == "clamp" then Some(3)
    else None
  }

  /** A namespaced identifier with a known event field or a suffix that fits the name buffer. */
  predicate NamespacedName(name: string) {
    var d := Dot(name);
    d < |name| &&
    var prefix, suffix := name[..d], name[d + 1..];
    (prefix == "evt" && suffix in EVT_FIELDS)
    || (prefix in ["sig", "var"] && 1 <= |suffix| < NAME_BUFFER_MAX)
  }

  /** A token list ends with its only EOF token. */
  predicate TokenList(ts: seq<Token>) {
    ts != [] && forall i | 0 <= i < |ts| :: ts[i].Eof? <==> i == |ts| - 1
  }

  // ---------------------------------------------------------------------------
  // The grammar
  // ---------------------------------------------------------------------------

  datatype Level = OrE | AndE | NotE | CmpE | AddE | MulE | UnaryE | PostfixE

  /** Levels of the form operand (operator operand)*. */
  predicate Repeats(level: Level) {
    level.OrE? || level.AndE? || level.AddE? || level.MulE?
  }

  /** Levels of the form operator* operand. */
  predicate Prefixes(level: Level) {
    level.NotE? || level.UnaryE?
  }

  /** The operators of a repeating level. */
  predicate Joins(level: Level, t: Token) {
    match level
    case OrE => t == Name("or")
    case AndE => t == Name("and")
    case AddE => t == Op("+") || t == Op("-")
    case MulE => t == Op("*") || t == Op("/") || t == Op("%")
    case _ => false
  }

  /** The operator of a prefixing level. */
  predicate Leads(level: Level, t: Token) {
    match level
    case NotE => t == Name("not")
    case UnaryE => t == Op("-")
    case _ => false
  }

  predicate Compares(t: Token) {
    t == Op("==") || t == Op("!=") || t == Op("<=") || t == Op(">=") || t == Op("<") || t == Op(">")
  }

  /** The level of the operands. */
  function Below(level: Level): Level {
    match level
    case OrE => AndE
    case AndE => NotE
    case NotE => CmpE
    case CmpE => AddE
    case AddE => MulE
    case MulE => UnaryE
    case UnaryE => PostfixE
    case PostfixE => OrE
  }

  /** The one-token expressions: a number, a truth value or a namespaced name. */
  predicate Atom(t: Token) {
    t.Number? || t == Name("true") || t == Name("false") || (t.Name? && NamespacedName(t.text))
  }

  /** Derivation trees; `Tail` is a repetition (operator operand)*. */
  datatype Tree =
    | Chain(first: Tree, tail: Tail)
    | Prefixed(op: Token, sub: Tree)
    | Pass(sub: Tree)
    | Compare(left: Tree, op: Token, right: Tree)
    | Call(name: string, first: Tree, tail: Tail)
    | Group(sub: Tree)
    | Leaf(token: Token)

  datatype Tail = End | More(op: Token, operand: Tree, rest: Tail)

  predicate Derives(level: Level, t: Tree)
    decreases t
  {
    if Repeats(level) then t.Chain? && Derives(Below(level), t.first) && TailDerives(level, t.tail)
    else if Prefixes(level) then
      if t.Prefixed? then Leads(level, t.op) && Derives(level, t.sub)
      else t.Pass? && Derives(Below(level), t.sub)
    else if level.CmpE? then
      if t.Compare? then Derives(AddE, t.left) && Compares(t.op) && Derives(AddE, t.right)
      else t.Pass? && Derives(AddE, t.sub)
    else
      match t
      case Call(name, first, tail) => Arity(name) == Some(1 + Length(tail)) && Derives(OrE, first) && ArgsDerive(tail)
      case Group(sub) => Derives(OrE, sub)
      case Leaf(token) => Atom(token)
      case _ => false
  }

  predicate TailDerives(level: Level, t: Tail)
    decreases t
  {
    t.End? || (Joins(level, t.op) && Derives(Below(level), t.operand) && TailDerives(level, t.rest))
  }

  predicate ArgsDerive(t: Tail)
    decreases t
  {
    t.End? || (t.op == Op(",") && Derives(OrE, t.operand) && ArgsDerive(t.rest))
  }

  function Length(t: Tail): nat {
    if t.End? then 0 else 1 + Length(t.rest)
  }

  /** The token list a tree derives. */
  function Yield(t: Tree): (ts: seq<Token>)
    ensures ts != []
  {
    match t
    case Chain(first, tail) => Yield(first) + TailYield(tail)
    case Prefixed(op, sub) => [op] + Yield(sub)
    case Pass(sub) => Yield(sub)
    case Compare(left, op, right) => Yield(left) + ([op] + Yield(right))
    case Call(name, first, tail) => [Name(name), Op("(")] + (Yield(first) + TailYield(tail) + [Op(")")])
    case Group(sub) => [Op("(")] + (Yield(sub) + [Op(")")])
    case Leaf(token) => [token]
  }

  function TailYield(t: Tail): seq<Token> {
    if t.End? then [] else [t.op] + (Yield(t.operand) + TailYield(t.rest))
  }

  function ArgsYield(first: Tree, tail: Tail): (ts: seq<Token>)
    ensures ts != []
  {
    Yield(first) + TailYield(tail)
  }

  // ---------------------------------------------------------------------------
  // What the parser computes
  // ---------------------------------------------------------------------------

  function Rank(level: Level): nat {
    match level
    case OrE => 9
    case AndE => 8
    case NotE => 7
    case CmpE => 6
    case AddE => 5
    case MulE => 4
    case UnaryE => 3
    case PostfixE => 2
  }

  /** Position after the longest expression of a level that starts at i; None on a syntax error. */
  function Parse(level: Level, ts: seq<Token>, i: nat): (r: Option<nat>)
    requires TokenList(ts) && i < |ts|
    ensures r.Some? ==> i < r.value < |ts|
    decreases |ts| - i, Rank(level)
  {
    if Repeats(level) then
      var j :- Parse(Below(level), ts, i);
      ParseTail(level, ts, j)
    else if Prefixes(level) then
      if Leads(level, ts[i]) then Parse(level, ts, i + 1) else Parse(Below(level), ts, i)
    else if level.CmpE? then
      var j :- Parse(AddE, ts, i);
      if Compares(ts[j]) then Parse(AddE, ts, j + 1) else Some(j)
    else ParsePostfix(ts, i)
  }

  function ParsePostfix(ts: seq<Token>, i: nat): (r: Option<nat>)
    requires TokenList(ts) && i < |ts|
    ensures r.Some? ==> i < r.value < |ts|
    decreases |ts| - i, 1
  {
    if CallsAt(ts, i) then
      if ts[i + 2] == Op(")") then None else
        var p :- ParseArgs(ts, i + 2, 0);
        if ts[p.0] == Op(")") && Arity(ts[i].text) == Some(p.1) then Some(p.0 + 1) else None
    else if ts[i] == Op("(") then
      var j :- Parse(OrE, ts, i + 1);
      if ts[j] == Op(")") then Some(j + 1) else None
    else if ts[i].Number? || (ts[i].Name? && NameAccepted(ts[i].text)) then Some(i + 1)
    else None
  }

  /** A function name followed by an opening parenthesis. */
  predicate CallsAt(ts: seq<Token>, i: nat)
    requires TokenList(ts) && i < |ts|
    ensures CallsAt(ts, i) ==> i + 2 < |ts|
  {
    ts[i].Name? && Arity(ts[i].text).Some? && ts[i + 1] == Op("(")
  }

  predicate NameAccepted(name: string) {
    name in ["true", "false"] || (name !in ["and", "or", "not"] && NamespacedName(name))
  }

  function ParseTail(level: Level, ts: seq<Token>, i: nat): (r: Option<nat>)
    requires TokenList(ts) && i < |ts| && Repeats(level)
    ensures r.Some? ==> i <= r.value < |ts|
    decreases |ts| - i, 1
  {
    if Joins(level, ts[i]) then
      var j :- Parse(Below(level), ts, i + 1);
      ParseTail(level, ts, j)
    else Some(i)
  }

  /** Position after the arguments, and how many there are. */
  function ParseArgs(ts: seq<Token>, i: nat, argc: nat): (r: Option<(nat, nat)>)
    requires TokenList(ts) && i < |ts|
    ensures r.Some? ==> i < r.value.0 < |ts|
    decreases |ts| - i, 10
  {
    if argc >= MAX_CALL_ARGS then None else
      var j :- Parse(OrE, ts, i);
      if ts[j] == Op(",") then ParseArgs(ts, j + 1, argc + 1) else Some((j, argc + 1))
  }

  /** Acceptance of a whole token list. */
  predicate Accepts(ts: seq<Token>)
    requires TokenList(ts)
  {
    Parse(OrE, ts, 0) == Some(|ts| - 1)
  }

  // ---------------------------------------------------------------------------
  // Soundness: what is accepted is derivable
  // ---------------------------------------------------------------------------

  lemma {:induction false} ParseSound(level: Level, ts: seq<Token>, i: nat) returns (t: Tree)
    requires TokenList(ts) && i < |ts| && Parse(level, ts, i).Some?
    ensures Derives(level, t) && Yield(t) == ts[i..Parse(level, ts, i).value]
    decreases |ts| - i, Rank(level), 1
  {
    hide Derives, Yield, TokenList, Leads, Compares, Joins;
    if Repeats(level) {
      t := ChainSound(level, ts, i);
    } else if Prefixes(level) {
      t := PrefixSound(level, ts, i);
    } else if level.CmpE? {
      t := CompareSound(ts, i);
    } else {
      t := PostfixSound(ts, i);
    }
  }

  lemma {:induction false} ChainSound(level: Level, ts: seq<Token>, i: nat) returns (t: Tree)
    requires TokenList(ts) && i < |ts| && Repeats(level) && Parse(level, ts, i).Some?
    ensures Derives(level, t) && Yield(t) == ts[i..Parse(level, ts, i).value]
    decreases |ts| - i, Rank(level), 0
  {
    hide TokenList, Leads, Compares, Joins;
    var j := Parse(Below(level), ts, i).value;
    var first := ParseSound(Below(level), ts, i);
    var tail := TailSound(level, ts, j);
    t := Chain(first, tail);
    assert ts[i..Parse(level, ts, i).value] == ts[i..j] + ts[j..Parse(level, ts, i).value];
  }

  lemma {:induction false} PrefixSound(level: Level, ts: seq<Token>, i: nat) returns (t: Tree)
    requires TokenList(ts) && i < |ts| && Prefixes(level) && Parse(level, ts, i).Some?
    ensures Derives(level, t) && Yield(t) == ts[i..Parse(level, ts, i).value]
    decreases |ts| - i, Rank(level), 0
  {
    hide TokenList, Leads, Compares, Joins;
    if Leads(level, ts[i]) {
      var sub := ParseSound(level, ts, i + 1);
      t := Prefixed(ts[i], sub);
    } else {
      var sub := ParseSound(Below(level), ts, i);
      t := Pass(sub);
    }
  }

  lemma Cut(ts: seq<Token>, i: nat, j: nat, end: nat)
    requires i <= j < end <= |ts|
    ensures ts[i..end] == ts[i..j] + ([ts[j]] + ts[j + 1..end])
  {
  }

  lemma {:induction false} CompareSound(ts: seq<Token>, i: nat) returns (t: Tree)
    requires TokenList(ts) && i < |ts| && Parse(CmpE, ts, i).Some?
    ensures Derives(CmpE, t) && Yield(t) == ts[i..Parse(CmpE, ts, i).value]
    decreases |ts| - i, Rank(CmpE), 0
  {
    hide TokenList, Leads, Compares, Joins;
    var left := ParseSound(AddE, ts, i);
    var j := Parse(AddE, ts, i).value;
    if Compares(ts[j]) {
      var right := ParseSound(AddE, ts, j + 1);
      t := Compare(left, ts[j], right);
      Cut(ts, i, j, Parse(CmpE, ts, i).value);
    } else {
      t := Pass(left);
    }
  }

  /** A stretch of tokens closed by one more token. */
  lemma Closed(ts: seq<Token>, i: nat, j: nat, end: nat)
    requires i <= j < end <= |ts|
    ensures ts[i..end] == ts[i..j] + (ts[j..end - 1] + [ts[end - 1]])
  {
    var tail := ts[j..end];
    assert tail == tail[..|tail| - 1] + [tail[|tail| - 1]];
    assert tail[..|tail| - 1] == ts[j..end - 1];
    assert ts[i..end] == ts[i..j] + tail;
  }

  lemma {:induction false} PostfixSound(ts: seq<Token>, i: nat) returns (t: Tree)
    requires TokenList(ts) && i < |ts| && ParsePostfix(ts, i).Some?
    ensures Derives(PostfixE, t) && Yield(t) == ts[i..ParsePostfix(ts, i).value]
    decreases |ts| - i, 1, 1
  {
    hide TokenList, Leads, Compares, Joins, NamespacedName, Arity, Parse, ParseArgs;
    var end := ParsePostfix(ts, i).value;
    if CallsAt(ts, i) {
      t := CallSound(ts, i);
    } else if ts[i] == Op("(") {
      var sub := ParseSound(OrE, ts, i + 1);
      t := Group(sub);
      Closed(ts, i, i + 1, end);
      assert ts[i..i + 1] == [ts[i]];
    } else {
      t := Leaf(ts[i]);
    }
  }

  lemma CallTree(name: string, first: Tree, tail: Tail)
    ensures Yield(Call(name, first, tail)) == [Name(name), Op("(")] + (ArgsYield(first, tail) + [Op(")")])
    ensures Arity(name) == Some(1 + Length(tail)) && Derives(OrE, first) && ArgsDerive(tail)
            ==> Derives(PostfixE, Call(name, first, tail))
  {
  }

  lemma {:induction false} CallSound(ts: seq<Token>, i: nat) returns (t: Tree)
    requires TokenList(ts) && i < |ts| && CallsAt(ts, i) && ParsePostfix(ts, i).Some?
    ensures Derives(PostfixE, t) && Yield(t) == ts[i..ParsePostfix(ts, i).value]
    decreases |ts| - i, 1, 0
  {
    hide TokenList, Leads, Compares, Joins, NamespacedName, Arity, Parse, ParseArgs, Derives, Yield, ArgsYield;
    var end := ParsePostfix(ts, i).value;
    var first, tail := ArgsSound(ts, i + 2, 0);
    t := Call(ts[i].text, first, tail);
    CallTree(ts[i].text, first, tail);
    Closed(ts, i, i + 2, end);
    assert ts[i..i + 2] == [ts[i], ts[i + 1]];
  }

  lemma {:induction false} TailSound(level: Level, ts: seq<Token>, i: nat) returns (t: Tail)
    requires TokenList(ts) && i < |ts| && Repeats(level) && ParseTail(level, ts, i).Some?
    ensures TailDerives(level, t) && TailYield(t) == ts[i..ParseTail(level, ts, i).value]
    decreases |ts| - i, 1
  {
    hide TokenList, Leads, Compares, Joins, Derives, Yield, Parse;
    if Joins(level, ts[i]) {
      var j := Parse(Below(level), ts, i + 1).value;
      var operand := ParseSound(Below(level), ts, i + 1);
      var rest := TailSound(level, ts, j);
      t := More(ts[i], operand, rest);
      var end := ParseTail(level, ts, i).value;
      assert ts[i..end] == [ts[i]] + (ts[i + 1..j] + ts[j..end]);
    } else {
      t := End;
    }
  }

  lemma {:induction false} ArgsSound(ts: seq<Token>, i: nat, argc: nat) returns (first: Tree, tail: Tail)
    requires TokenList(ts) && i < |ts| && ParseArgs(ts, i, argc).Some?
    ensures Derives(OrE, first) && ArgsDerive(tail)
    ensures ArgsYield(first, tail) == ts[i..ParseArgs(ts, i, argc).value.0]
    ensures argc + 1 + Length(tail) == ParseArgs(ts, i, argc).value.1
    decreases |ts| - i, 10
  {
    hide TokenList, Leads, Compares, Joins, Derives, Yield, Parse;
    first := ParseSound(OrE, ts, i);
    var j := Parse(OrE, ts, i).value;
    if ts[j] == Op(",") {
      var f, r := ArgsSound(ts, j + 1, argc + 1);
      tail := More(ts[j], f, r);
      var end := ParseArgs(ts, i, argc).value.0;
      assert ts[i..end] == ts[i..j] + ([ts[j]] + ts[j + 1..end]);
    } else {
      tail := End;
    }
  }

  // ---------------------------------------------------------------------------
  // Completeness: what is derivable is accepted
  // ---------------------------------------------------------------------------

  /** Tokens that would carry an expression of that level on. */
  predicate Continues(level: Level, t: Token)
    decreases Rank(level)
  {
    match level
    case OrE => Joins(OrE, t) || Continues(AndE, t)
    case AndE => Joins(AndE, t) || Continues(NotE, t)
    case NotE => Continues(CmpE, t)
    case CmpE => Compares(t) || Continues(AddE, t)
    case AddE => Joins(AddE, t) || Continues(MulE, t)
    case MulE => Joins(MulE, t)
    case _ => false
  }

  /** An operator of a level carries no operand of that level on. */
  lemma JoinsStops(level: Level, t: Token)
    requires Joins(level, t)
    ensures !Continues(Below(level), t)
  {
  }

  /** What does not carry a level on does not carry its operands on. */
  lemma StopsBelow(level: Level, t: Token)
    requires !Continues(level, t) && !level.PostfixE?
    ensures !Continues(Below(level), t) && !Joins(level, t) && (level.CmpE? ==> !Compares(t))
  {
  }

  lemma ClosersStop(level: Level, t: Token)
    requires t == Op(")") || t == Op(",")
    ensures !Continues(level, t)
  {
  }

  lemma CompareStops(t: Token)
    requires Compares(t)
    ensures !Continues(AddE, t)
  {
  }

  /** `ys` stands in `ts` at position i, before at least one more token. */
  predicate At(ts: seq<Token>, i: nat, ys: seq<Token>)
    ensures At(ts, i, ys) ==> i + |ys| < |ts|
  {
    i + |ys| < |ts| && ts[i..i + |ys|] == ys
  }

  lemma AtSplit(ts: seq<Token>, i: nat, a: seq<Token>, b: seq<Token>)
    requires At(ts, i, a + b)
    requires b != []
    ensures At(ts, i, a) && At(ts, i + |a|, b) && ts[i + |a|] == b[0]
  {
    var s := ts[i..i + |a + b|];
    assert s[..|a|] == a && s[|a|..] == b;
    assert s[..|a|] == ts[i..i + |a|] && s[|a|..] == ts[i + |a|..i + |a| + |b|];
  }

  lemma AtHead(ts: seq<Token>, i: nat, ys: seq<Token>)
    requires At(ts, i, ys) && ys != []
    ensures ts[i] == ys[0]
  {
    assert ts[i..i + |ys|][0] == ys[0];
  }

  /** The first token of an expression. */
  predicate Opens(level: Level, t: Token) {
    t != Op(")") && (Rank(level) <= Rank(CmpE) ==> !Leads(NotE, t)) && (level.PostfixE? ==> !Leads(UnaryE, t))
  }

  lemma {:induction false} FirstToken(level: Level, t: Tree)
    requires Derives(level, t)
    ensures Opens(level, Yield(t)[0])
    decreases t
  {
    hide NamespacedName, Arity, TailDerives, ArgsDerive, Joins, Compares;
    match t {
      case Chain(first, _) => FirstToken(Below(level), first);
      case Pass(sub) => FirstToken(Below(level), sub);
      case Compare(left, _, _) => FirstToken(AddE, left);
      case Leaf(token) => AtomOpens(token);
      case Call(name, _, _) => NoKeyword(name);
      case _ =>
    }
  }

  lemma NoKeyword(name: string)
    requires Arity(name).Some?
    ensures name !in ["and", "or", "not"]
  {
  }

  lemma AtomOpens(token: Token)
    requires Atom(token)
    ensures Opens(PostfixE, token) && !CallName(token) && token != Op("(")
    ensures token.Number? || (token.Name? && NameAccepted(token.text))
  {
    hide NamespacedName;
    if token.Name? && NamespacedName(token.text) {
      HasDot(token.text);
      Dotted(token.text);
    }
  }

  lemma HasDot(name: string)
    requires NamespacedName(name)
    ensures '.' in name
  {
    assert name[Dot(name)] == '.';
  }

  lemma Dotted(name: string)
    requires '.' in name
    ensures name !in ["and", "or", "not"] && Arity(name).None?
  {
    forall word | word in ["and", "or", "not", "abs", "round", "min", "max", "clamp"]
      ensures '.' !in word {}
  }

  predicate CallName(t: Token) {
    t.Name? && Arity(t.text).Some?
  }

  /** A derivation followed by a token that cannot carry it on is parsed to its end. */
  lemma {:induction false} ParseComplete(level: Level, t: Tree, ts: seq<Token>, i: nat)
    requires TokenList(ts) && Derives(level, t) && At(ts, i, Yield(t))
    requires !Continues(level, ts[i + |Yield(t)|])
    ensures Parse(level, ts, i) == Some(i + |Yield(t)|)
    decreases |Yield(t)|, Rank(level), 1
  {
    hide Yield, TokenList, Leads, Compares, Joins, Continues, At, Atom, Arity;
    if Repeats(level) {
      ChainComplete(level, t, ts, i);
    } else if Prefixes(level) {
      PrefixComplete(level, t, ts, i);
    } else if level.CmpE? {
      CompareComplete(t, ts, i);
    } else {
      PostfixComplete(t, ts, i);
    }
  }

  lemma {:induction false} ChainComplete(level: Level, t: Tree, ts: seq<Token>, i: nat)
    requires TokenList(ts) && Repeats(level) && Derives(level, t) && At(ts, i, Yield(t))
    requires !Continues(level, ts[i + |Yield(t)|])
    ensures Parse(level, ts, i) == Some(i + |Yield(t)|)
    decreases |Yield(t)|, Rank(level), 0
  {
    hide TokenList, Leads, Compares, Joins, Continues, At, Atom, Arity, TailDerives;
    StopsBelow(level, ts[i + |Yield(t)|]);
    TailStart(level, t.first, t.tail, ts, i);
    ParseComplete(Below(level), t.first, ts, i);
    TailComplete(level, t.tail, ts, i + |Yield(t.first)|);
  }

  lemma TailHead(tail: Tail)
    ensures if tail.End? then TailYield(tail) == [] else TailYield(tail) != [] && TailYield(tail)[0] == tail.op
  {
  }

  /** An operand of a repetition stands before a token that does not carry it on. */
  lemma TailStart(level: Level, operand: Tree, tail: Tail, ts: seq<Token>, i: nat)
    requires TokenList(ts) && Repeats(level) && TailDerives(level, tail) && At(ts, i, Yield(operand) + TailYield(tail))
    requires !Continues(level, ts[i + |Yield(operand) + TailYield(tail)|])
    ensures At(ts, i, Yield(operand)) && At(ts, i + |Yield(operand)|, TailYield(tail))
    ensures !Continues(Below(level), ts[i + |Yield(operand)|])
  {
    hide TokenList, Leads, Compares, Joins, Continues, Derives, Yield, TailYield;
    var j := i + |Yield(operand)|;
    TailHead(tail);
    if tail.More? {
      AtSplit(ts, i, Yield(operand), TailYield(tail));
      JoinsStops(level, tail.op);
    } else {
      assert Yield(operand) + TailYield(tail) == Yield(operand);
      StopsBelow(level, ts[j]);
    }
  }

  lemma {:induction false} TailComplete(level: Level, t: Tail, ts: seq<Token>, i: nat)
    requires TokenList(ts) && Repeats(level) && TailDerives(level, t) && At(ts, i, TailYield(t))
    requires !Continues(level, ts[i + |TailYield(t)|])
    ensures ParseTail(level, ts, i) == Some(i + |TailYield(t)|)
    decreases |TailYield(t)|, Rank(level), 1
  {
    hide TokenList, Leads, Compares, Joins, Continues, At, Atom, Arity, Derives, Yield, Parse;
    StopsBelow(level, ts[i + |TailYield(t)|]);
    if t.More? {
      AtSplit(ts, i, [t.op], Yield(t.operand) + TailYield(t.rest));
      AtHead(ts, i, TailYield(t));
      TailStart(level, t.operand, t.rest, ts, i + 1);
      ParseComplete(Below(level), t.operand, ts, i + 1);
      TailComplete(level, t.rest, ts, i + 1 + |Yield(t.operand)|);
    }
  }

  lemma {:induction false} PrefixComplete(level: Level, t: Tree, ts: seq<Token>, i: nat)
    requires TokenList(ts) && Prefixes(level) && Derives(level, t) && At(ts, i, Yield(t))
    requires !Continues(level, ts[i + |Yield(t)|])
    ensures Parse(level, ts, i) == Some(i + |Yield(t)|)
    decreases |Yield(t)|, Rank(level), 0
  {
    hide TokenList, Compares, Joins, Continues, At, Atom, Arity, TailDerives;
    AtHead(ts, i, Yield(t));
    if t.Prefixed? {
      AtSplit(ts, i, [t.op], Yield(t.sub));
      ParseComplete(level, t.sub, ts, i + 1);
    } else {
      FirstToken(Below(level), t.sub);
      StopsBelow(level, ts[i + |Yield(t)|]);
      ParseComplete(Below(level), t.sub, ts, i);
    }
  }

  lemma {:induction false} CompareComplete(t: Tree, ts: seq<Token>, i: nat)
    requires TokenList(ts) && Derives(CmpE, t) && At(ts, i, Yield(t))
    requires !Continues(CmpE, ts[i + |Yield(t)|])
    ensures Parse(CmpE, ts, i) == Some(i + |Yield(t)|)
    decreases |Yield(t)|, Rank(CmpE), 0
  {
    hide TokenList, Leads, Compares, Joins, Continues, At, Atom, Arity, TailDerives, ParseTail, TailYield;
    StopsBelow(CmpE, ts[i + |Yield(t)|]);
    if t.Compare? {
      var j := i + |Yield(t.left)|;
      AtSplit(ts, i, Yield(t.left), [t.op] + Yield(t.right));
      AtSplit(ts, j, [t.op], Yield(t.right));
      CompareStops(t.op);
      ParseComplete(AddE, t.left, ts, i);
      ParseComplete(AddE, t.right, ts, j + 1);
    } else {
      ParseComplete(AddE, t.sub, ts, i);
    }
  }

  lemma {:induction false} PostfixComplete(t: Tree, ts: seq<Token>, i: nat)
    requires TokenList(ts) && Derives(PostfixE, t) && At(ts, i, Yield(t))
    ensures ParsePostfix(ts, i) == Some(i + |Yield(t)|)
    decreases |Yield(t)|, 1, 1
  {
    hide TokenList, Leads, Compares, Joins, Continues, At, Atom, Arity, NameAccepted, TailDerives, ArgsDerive, Parse;
    match t {
      case Call(_, _, _) => CallComplete(t, ts, i);
      case Group(sub) =>
        var j := i + 1 + |Yield(sub)|;
        AtHead(ts, i, Yield(t));
        AtSplit(ts, i, [Op("(")], Yield(sub) + [Op(")")]);
        AtSplit(ts, i + 1, Yield(sub), [Op(")")]);
        ClosersStop(OrE, ts[j]);
        ParseComplete(OrE, sub, ts, i + 1);
      case Leaf(token) =>
        AtHead(ts, i, Yield(t));
        AtomOpens(token);
      case _ =>
    }
  }

  /** A call stands in the list as its name, a parenthesis, its arguments and a parenthesis. */
  lemma CallParts(ts: seq<Token>, i: nat, name: Token, args: seq<Token>)
    requires At(ts, i, [name, Op("(")] + (args + [Op(")")])) && args != []
    ensures ts[i] == name && ts[i + 1] == Op("(") && ts[i + 2] == args[0] && At(ts, i + 2, args)
    ensures i + 3 + |args| < |ts| && ts[i + 2 + |args|] == Op(")")
  {
    var all := [name, Op("(")] + (args + [Op(")")]);
    var s := ts[i..i + |all|];
    assert s[0] == name && s[1] == Op("(") && s[2] == args[0] && s[2 + |args|] == Op(")");
    forall k | 0 <= k < |args| ensures ts[i + 2 + k] == args[k] {
      assert s[2 + k] == all[2 + k] == args[k];
    }
  }

  lemma {:induction false} CallComplete(t: Tree, ts: seq<Token>, i: nat)
    requires TokenList(ts) && t.Call? && Derives(PostfixE, t) && At(ts, i, Yield(t))
    ensures ParsePostfix(ts, i) == Some(i + |Yield(t)|)
    decreases |Yield(t)|, 1, 0
  {
    hide TokenList, Leads, Compares, Joins, Continues, At, Atom, NameAccepted, TailDerives, ArgsDerive, Parse, ParseArgs, TailYield;
    CallParts(ts, i, Name(t.name), ArgsYield(t.first, t.tail));
    FirstToken(OrE, t.first);
    assert ArgsYield(t.first, t.tail)[0] == Yield(t.first)[0];
    AritiesAreSmall(t.name);
    ArgsComplete(t.first, t.tail, ts, i + 2, 0);
  }

  lemma AritiesAreSmall(name: string)
    ensures Arity(name).Some? ==> Arity(name).value <= MAX_CALL_ARGS
  {
  }

  lemma {:induction false} ArgsComplete(first: Tree, tail: Tail, ts: seq<Token>, i: nat, argc: nat)
    requires TokenList(ts) && Derives(OrE, first) && ArgsDerive(tail) && argc + 1 + Length(tail) <= MAX_CALL_ARGS
    requires At(ts, i, ArgsYield(first, tail)) && ts[i + |ArgsYield(first, tail)|] == Op(")")
    ensures ParseArgs(ts, i, argc) == Some((i + |ArgsYield(first, tail)|, argc + 1 + Length(tail)))
    decreases |ArgsYield(first, tail)|, 20
  {
    hide TokenList, Leads, Compares, Joins, Continues, At, Atom, Arity, Derives, Yield, Parse;
    var j := i + |Yield(first)|;
    if tail.More? {
      AtSplit(ts, i, Yield(first), TailYield(tail));
      AtSplit(ts, j, [tail.op], ArgsYield(tail.operand, tail.rest));
      ClosersStop(OrE, ts[j]);
      ParseComplete(OrE, first, ts, i);
      ArgsComplete(tail.operand, tail.rest, ts, j + 1, argc + 1);
    } else {
      assert ArgsYield(first, tail) == Yield(first);
      ClosersStop(OrE, ts[j]);
      ParseComplete(OrE, first, ts, i);
    }
  }

  /** The recogniser accepts exactly the token lists the grammar derives. */
  lemma AcceptsIffDerivable(ts: seq<Token>)
    requires TokenList(ts)
    ensures Accepts(ts) <==> exists t :: Derives(OrE, t) && Yield(t) == ts[..|ts| - 1]
  {
    hide Derives, Yield, Parse;
    if Accepts(ts) {
      var t := ParseSound(OrE, ts, 0);
      assert ts[0..|ts| - 1] == ts[..|ts| - 1];
    }
    if exists t :: Derives(OrE, t) && Yield(t) == ts[..|ts| - 1] {
      var t :| Derives(OrE, t) && Yield(t) == ts[..|ts| - 1];
      assert ts[0..0 + |Yield(t)|] == ts[..|ts| - 1];
      ParseComplete(OrE, t, ts, 0);
    }
  }

  // ---------------------------------------------------------------------------
  // The parser object
  // ---------------------------------------------------------------------------

  /**
   Each method returns whether it got through without raising; the position it
   leaves behind is then the one `Parse` names.
   */
  class Parser {
    const tokens: seq<Token>
    var pos: nat

    constructor (tokens: seq<Token>)
      requires TokenList(tokens)
      ensures this.tokens == tokens && pos == 0
    {
      this.tokens := tokens;
      pos := 0;
    }

    predicate Valid()
      reads this
    {
      TokenList(tokens) && pos < |tokens|
    }

    method Advance() returns (t: Token)
      requires Valid()
      modifies this
      ensures Valid() && t == tokens[old(pos)] && pos == if t.Eof? then old(pos) else old(pos) + 1
    {
      t := tokens[pos];
      if !t.Eof? { pos := pos + 1; }
    }

    method AcceptOp(ops: seq<string>) returns (hit: bool)
      requires Valid()
      modifies this
      ensures Valid() && hit == (tokens[old(pos)].Op? && tokens[old(pos)].text in ops)
      ensures pos == if hit then old(pos) + 1 else old(pos)
    {
      var t := tokens[pos];
      if t.Op? && t.text in ops {
        var _ := Advance();
        return true;
      }
      return false;
    }

    method ParseAll() returns (ok: bool)
      requires Valid() && pos == 0
      modifies this
      ensures ok == Accepts(tokens)
    {
      ok := OrExpr();
      if ok { ok := tokens[pos].Eof?; }
    }

    method OrExpr() returns (ok: bool)
      requires Valid()
      modifies this
      ensures ok == Parse(OrE, tokens, old(pos)).Some?
      ensures ok ==> Valid() && pos == Parse(OrE, tokens, old(pos)).value
      decreases |tokens| - pos, 9
    {
      ghost var start := pos;
      ok := AndExpr();
      if !ok { return; }
      while true
        invariant Valid() && start < pos
        invariant Parse(OrE, tokens, start) == ParseTail(OrE, tokens, pos)
        decreases |tokens| - pos
      {
        if tokens[pos] != Name("or") { return true; }
        var _ := Advance();
        ok := AndExpr();
        if !ok { return; }
      }
    }

    method AndExpr() returns (ok: bool)
      requires Valid()
      modifies this
      ensures ok == Parse(AndE, tokens, old(pos)).Some?
      ensures ok ==> Valid() && pos == Parse(AndE, tokens, old(pos)).value
      decreases |tokens| - pos, 8
    {
      ghost var start := pos;
      ok := NotExpr();
      if !ok { return; }
      while true
        invariant Valid() && start < pos
        invariant Parse(AndE, tokens, start) == ParseTail(AndE, tokens, pos)
        decreases |tokens| - pos
      {
        if tokens[pos] != Name("and") { return true; }
        var _ := Advance();
        ok := NotExpr();
        if !ok { return; }
      }
    }

    method NotExpr() returns (ok: bool)
      requires Valid()
      modifies this
      ensures ok == Parse(NotE, tokens, old(pos)).Some?
      ensures ok ==> Valid() && pos == Parse(NotE, tokens, old(pos)).value
      decreases |tokens| - pos, 7
    {
      if tokens[pos] == Name("not") {
        var _ := Advance();
        ok := NotExpr();
      } else {
        ok := CmpExpr();
      }
    }

    method CmpExpr() returns (ok: bool)
      requires Valid()
      modifies this
      ensures ok == Parse(CmpE, tokens, old(pos)).Some?
      ensures ok ==> Valid() && pos == Parse(CmpE, tokens, old(pos)).value
      decreases |tokens| - pos, 6
    {
      ok := AddExpr();
      if !ok { return; }
      var hit := AcceptOp(["==", "!=", "<=", ">=", "<", ">"]);
      if hit { ok := AddExpr(); }
    }

    method AddExpr() returns (ok: bool)
      requires Valid()
      modifies this
      ensures ok == Parse(AddE, tokens, old(pos)).Some?
      ensures ok ==> Valid() && pos == Parse(AddE, tokens, old(pos)).value
      decreases |tokens| - pos, 5
    {
      ghost var start := pos;
      ok := MulExpr();
      if !ok { return; }
      while true
        invariant Valid() && start < pos
        invariant Parse(AddE, tokens, start) == ParseTail(AddE, tokens, pos)
        decreases |tokens| - pos
      {
        var hit := AcceptOp(["+", "-"]);
        if !hit { return true; }
        ok := MulExpr();
        if !ok { return; }
      }
    }

    method MulExpr() returns (ok: bool)
      requires Valid()
      modifies this
      ensures ok == Parse(MulE, tokens, old(pos)).Some?
      ensures ok ==> Valid() && pos == Parse(MulE, tokens, old(pos)).value
      decreases |tokens| - pos, 4
    {
      ghost var start := pos;
      ok := Unary();
      if !ok { return; }
      while true
        invariant Valid() && start < pos
        invariant Parse(MulE, tokens, start) == ParseTail(MulE, tokens, pos)
        decreases |tokens| - pos
      {
        var hit := AcceptOp(["*", "/", "%"]);
        if !hit { return true; }
        ok := Unary();
        if !ok { return; }
      }
    }

    method Unary() returns (ok: bool)
      requires Valid()
      modifies this
      ensures ok == Parse(UnaryE, tokens, old(pos)).Some?
      ensures ok ==> Valid() && pos == Parse(UnaryE, tokens, old(pos)).value
      decreases |tokens| - pos, 3
    {
      var hit := AcceptOp(["-"]);
      if hit {
        ok := Unary();
      } else {
        ok := Postfix();
      }
    }

    method Postfix() returns (ok: bool)
      requires Valid()
      modifies this
      ensures ok == Parse(PostfixE, tokens, old(pos)).Some?
      ensures ok ==> Valid() && pos == Parse(PostfixE, tokens, old(pos)).value
      decreases |tokens| - pos, 2
    {
      var t := tokens[pos];
      if t.Name? && Arity(t.text).Some? && tokens[pos + 1] == Op("(") {
        ok := CallExpr(t.text);
      } else {
        ok := Primary();
      }
    }

    method CallExpr(name: string) returns (ok: bool)
      requires Valid() && tokens[pos] == Name(name) && Arity(name).Some? && tokens[pos + 1] == Op("(")
      modifies this
      ensures ok == Parse(PostfixE, tokens, old(pos)).Some?
      ensures ok ==> Valid() && pos == Parse(PostfixE, tokens, old(pos)).value
      decreases |tokens| - pos, 1
    {
      ghost var start := pos;
      var _ := Advance();
      var _ := Advance();
      var argc: nat := 0;
      if tokens[pos] != Op(")") {
        while true
          invariant Valid() && start + 2 <= pos
          invariant ParseArgs(tokens, start + 2, 0) == ParseArgs(tokens, pos, argc)
          decreases |tokens| - pos
        {
          if argc >= MAX_CALL_ARGS { return false; }
          ok := OrExpr();
          if !ok { return; }
          argc := argc + 1;
          var more := AcceptOp([","]);
          if !more { break; }
        }
      }
      var closed := AcceptOp([")"]);
      if !closed { return false; }
      return argc == Arity(name).value;
    }

    method Primary() returns (ok: bool)
      requires Valid()
      requires !(tokens[pos].Name? && Arity(tokens[pos].text).Some? && tokens[pos + 1] == Op("("))
      modifies this
      ensures ok == Parse(PostfixE, tokens, old(pos)).Some?
      ensures ok ==> Valid() && pos == Parse(PostfixE, tokens, old(pos)).value
      decreases |tokens| - pos, 1
    {
      var t := tokens[pos];
      if t.Number? {
        var _ := Advance();
        return true;
      }
      if t == Op("(") {
        var _ := Advance();
        ok := OrExpr();
        if !ok { return; }
        ok := AcceptOp([")"]);
        return;
      }
      if t.Name? {
        if t.text in ["true", "false"] {
          var _ := Advance();
          return true;
        }
        if t.text in ["and", "or", "not", "true", "false"] { return false; }
        ok := Namespaced(t.text);
        if ok { var _ := Advance(); }
        return;
      }
      return false;
    }

    method Namespaced(name: string) returns (ok: bool)
      ensures ok == NamespacedName(name)
    {
      var d := Dot(name);
      var prefix := name[..d];
      var suffix := if d < |name| then name[d + 1..] else "";
      if prefix == "evt" && d < |name| {
        return suffix in EVT_FIELDS;
      } else if prefix in ["sig", "var"] && d < |name| {
        if suffix == "" { return false; }
        return |suffix| < NAME_BUFFER_MAX;
      }
      return false;
    }
  }
}
