/**
 The text of the emitted symbols (tools/yaml2c/fsm_codegen.py, `_array_name`
 and `write`; tools/yaml2c/common.py, `StringTable.intern`): different symbols
 of one header have different C names.
 */
module FsmSymbols {
  import opened FsmHeader

  function FamilyName(f: Family): string {
    match f
    case Sigvals => "sigvals"
    case Actions => "actions"
    case Entry => "entry"
    case Exit => "exit"
    case Trans => "trans"
    case Vardefs => "vardefs"
    case Timerdefs => "timerdefs"
    case States => "states"
    case Bindings => "bindings"
    case Overrides => "overrides"
    case Sigsubs => "sigsubs"
    case Canrx => "canrx"
    case Machines => "machines"
    case Instances => "instances"
  }

  function Digit(d: nat): char
    requires d < 10
  {
    ['0', '1', '2', '3', '4', '5', '6', '7', '8', '9'][d]
  }

  function Decimal(n: nat): string {
    if n < 10 then [Digit(n)] else Decimal(n / 10) + [Digit(n % 10)]
  }

  /** %03d */
  function Padded(n: nat): string {
    if n < 10 then "00" + Decimal(n) else if n < 100 then "0" + Decimal(n) else Decimal(n)
  }

  function Tail(y: Sym): string {
    match y
    case StrSym(n) => Padded(n)
    case ArrSym(_, n) => Padded(n)
    case SetSym => "set"
  }

  function Head(y: Sym): string {
    match y
    case StrSym(_) => "fsm_str"
    case ArrSym(f, _) => FamilyName(f)
    case SetSym => "fsm"
  }

  function Name(prefix: string, y: Sym): string {
    prefix + "_" + Head(y) + "_" + Tail(y)
  }

  function DigitValue(c: char): nat {
    if '0' <= c <= '9' then c as nat - '0' as nat else 0
  }

  function Parse(s: string): nat {
    if s == "" then 0 else Parse(s[..|s| - 1]) * 10 + DigitValue(s[|s| - 1])
  }

  predicate AllDigits(s: string) {
    forall c | c in s :: '0' <= c <= '9'
  }

  lemma {:induction false} DecimalParses(n: nat)
    ensures AllDigits(Decimal(n)) && Decimal(n) != "" && Parse(Decimal(n)) == n
  {
    if n >= 10 {
      DecimalParses(n / 10);
      var s := Decimal(n);
      assert s[..|s| - 1] == Decimal(n / 10);
    } else {
      assert Decimal(n)[..0] == "";
    }
  }

  lemma {:induction false} LeadingZero(s: string)
    ensures Parse("0" + s) == Parse(s)
  {
    if s != "" {
      LeadingZero(s[..|s| - 1]);
      assert ("0" + s)[..|s|] == "0" + s[..|s| - 1];
    } else {
      assert ("0" + s)[..0] == "";
    }
  }

  lemma PaddedParses(n: nat)
    ensures AllDigits(Padded(n)) && Padded(n) != "" && Parse(Padded(n)) == n
  {
    DecimalParses(n);
    var d := Decimal(n);
    LeadingZero(d);
    LeadingZero("0" + d);
    assert "00" + d == "0" + ("0" + d);
  }

  lemma {:induction false} DecimalStarts(n: nat)
    ensures |Decimal(n)| >= 1 && (n >= 1 ==> Decimal(n)[0] != '0') && (n >= 10 ==> |Decimal(n)| >= 2) && (n >= 100 ==> |Decimal(n)| >= 3)
    ensures n < 10 ==> |Decimal(n)| == 1
    ensures n < 100 ==> |Decimal(n)| <= 2
  {
    if n >= 10 { DecimalStarts(n / 10); }
  }

  /** A number is written in decimal with at least three digits, and with no zero in front of more. */
  lemma PaddedIs(n: nat)
    ensures AllDigits(Padded(n)) && Parse(Padded(n)) == n && |Padded(n)| >= 3 && (|Padded(n)| > 3 ==> Padded(n)[0] != '0')
  {
    PaddedParses(n);
    DecimalStarts(n);
    hide Decimal, Parse;
  }

  /** A text splits in one way at its last underscore. */
  lemma SplitAtLast(a: string, b: string, c: string, d: string)
    requires a + "_" + b == c + "_" + d && '_' !in b && '_' !in d
    ensures a == c && b == d
  {
    var t := a + "_" + b;
    assert t[|a|] == '_' && t[|c|] == '_';
    forall k | |a| < k < |t| ensures t[k] != '_' { assert t[k] == b[k - |a| - 1]; }
    forall k | |c| < k < |t| ensures t[k] != '_' { assert t[k] == d[k - |c| - 1]; }
    assert t[..|a|] == a && t[..|c|] == c && t[|a| + 1..] == b && t[|c| + 1..] == d;
  }

  lemma FamilyNamesDiffer(f: Family, g: Family)
    requires FamilyName(f) == FamilyName(g)
    ensures f == g
  {
  }

  /** Distinct symbols have distinct names, whatever the prefix and however many arrays there are. */
  lemma NamesAreInjective(prefix: string, x: Sym, y: Sym)
    requires Name(prefix, x) == Name(prefix, y)
    ensures x == y
  {
    TailPlain(x);
    TailPlain(y);
    SplitAtLast(prefix + "_" + Head(x), Tail(x), prefix + "_" + Head(y), Tail(y));
    var p := prefix + "_";
    assert (p + Head(x))[|p|..] == Head(x) && (p + Head(y))[|p|..] == Head(y);
    HeadsDecide(x, y);
  }

  lemma TailPlain(x: Sym)
    ensures '_' !in Tail(x)
    ensures !x.SetSym? ==> Parse(Tail(x)) == x.n
  {
    if !x.SetSym? { PaddedParses(x.n); }
  }

  lemma HeadShape(x: Sym)
    ensures x.StrSym? ==> |Head(x)| == 7 && Head(x)[3] == '_'
    ensures x.SetSym? ==> |Head(x)| == 3
    ensures x.ArrSym? ==> |Head(x)| >= 4 && Head(x)[3] != '_'
  {
  }

  lemma HeadsDecide(x: Sym, y: Sym)
    requires Head(x) == Head(y) && Tail(x) == Tail(y)
    ensures x == y
  {
    TailPlain(x);
    TailPlain(y);
    HeadShape(x);
    HeadShape(y);
    hide Tail, Parse;
    if x.ArrSym? && y.ArrSym? {
      FamilyNamesDiffer(x.family, y.family);
    }
    hide Head;
  }
}
