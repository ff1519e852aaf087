/**
 The tokenizer takes the longest lexeme (tools/yaml2c/expression.py): lexemes by
 their documented form, and every token against all of them.
 */
module Lexemes {
  import opened Wrappers
  import opened Expression
  import opened Tokenizer

  // ---------------------------------------------------------------------------
  // The documented forms
  // ---------------------------------------------------------------------------

  predicate AllDigits(s: string) {
    forall i | 0 <= i < |s| :: IsDigit(s[i])
  }

  /** Nothing, or a point and at least one digit. */
  predicate IsFraction(s: string) {
    s == "" || (|s| >= 2 && s[0] == '.' && AllDigits(s[1..]))
  }

  /** Nothing, or an exponent mark, perhaps a sign, and at least one digit. */
  predicate IsExponent(s: string) {
    || s == ""
    || (|s| >= 2 && s[0] in "eE" && AllDigits(s[1..]))
    || (|s| >= 3 && s[0] in "eE" && s[1] in "+-" && AllDigits(s[2..]))
  }

  /** Digits up to a, a fraction up to b and an exponent; digits or fraction are not empty. */
  predicate NumberAs(s: string, a: nat, b: nat) {
    a <= b <= |s| && b > 0 && AllDigits(s[..a]) && IsFraction(s[a..b]) && IsExponent(s[b..])
  }

  predicate IsNumber(s: string) {
    exists a: nat, b: nat | a <= b <= |s| :: NumberAs(s, a, b)
  }

  predicate IsName(s: string) {
    s != "" && IdentStart(s[0]) && forall i | 0 <= i < |s| :: NameChar(s[i])
  }

  const OPERATORS: seq<string> :=
    ["==", "!=", "<=", ">=", "<", ">", "+", "-", "*", "/", "%", "(", ")", ","]

  predicate IsLexeme(t: Token)
    ensures IsLexeme(t) ==> !t.Eof?
  {
    match t
    case Number(text) => IsNumber(text)
    case Name(text) => IsName(text)
    case Op(text) => text in OPERATORS
    case Eof => false
  }

  // ---------------------------------------------------------------------------
  // Digits
  // ---------------------------------------------------------------------------

  lemma {:induction false} DigitsAre(s: string)
    ensures AllDigits(s[..Digits(s)]) && (Digits(s) < |s| ==> !IsDigit(s[Digits(s)]))
  {
    if s != "" && IsDigit(s[0]) {
      DigitsAre(s[1..]);
      var n := Digits(s);
      assert forall i | 0 < i < n :: s[i] == s[1..][..n - 1][i - 1];
    }
  }

  lemma DigitsAtLeast(s: string, n: nat)
    requires n <= |s| && AllDigits(s[..n])
    ensures n <= Digits(s)
  {
    DigitsAre(s);
    forall i | 0 <= i < n ensures IsDigit(s[i]) { assert s[..n][i] == s[i]; }
  }

  lemma DigitsEnd(s: string, n: nat)
    requires n < |s| && AllDigits(s[..n]) && !IsDigit(s[n])
    ensures Digits(s) == n
  {
    DigitsAtLeast(s, n);
    DigitsAre(s);
    forall i | 0 <= i < Digits(s) ensures IsDigit(s[i]) { assert s[..Digits(s)][i] == s[i]; }
  }

  // ---------------------------------------------------------------------------
  // Numbers
  // ---------------------------------------------------------------------------

  lemma FractionIs(s: string)
    ensures IsFraction(s[..Fraction(s)])
  {
    hide Digits;
    if Fraction(s) != 0 {
      DigitsPositive(s[1..]);
      DigitsAre(s[1..]);
      assert s[..Fraction(s)][1..] == s[1..][..Digits(s[1..])];
    }
  }

  lemma FractionAtLeast(s: string, n: nat)
    requires n <= |s| && IsFraction(s[..n])
    ensures n <= Fraction(s)
    ensures 0 < n < |s| && !IsDigit(s[n]) ==> Fraction(s) == n
  {
    hide Digits;
    if n > 0 {
      assert s[..n][1..] == s[1..][..n - 1];
      assert IsDigit(s[..n][1..][0]);
      DigitsAtLeast(s[1..], n - 1);
      if n < |s| && !IsDigit(s[n]) { DigitsEnd(s[1..], n - 1); }
    }
  }

  lemma ExponentIs(s: string)
    ensures IsExponent(s[..Exponent(s)])
  {
    hide Digits;
    var n := Exponent(s);
    if n != 0 {
      var j := if |s| >= 2 && s[1] in "+-" then 2 else 1;
      DigitsPositive(s[j..]);
      DigitsAre(s[j..]);
      assert s[..n][j..] == s[j..][..Digits(s[j..])];
    }
  }

  lemma ExponentAtLeast(s: string, n: nat)
    requires n <= |s| && IsExponent(s[..n])
    ensures n <= Exponent(s)
  {
    hide Digits;
    if n > 0 {
      var t := s[..n];
      var j := if t[1] in "+-" then 2 else 1;
      SignIsNoDigit(t);
      assert t[j..] == s[j..][..n - j];
      assert IsDigit(t[j..][0]);
      DigitsAtLeast(s[j..], n - j);
    }
  }

  lemma SignIsNoDigit(t: string)
    requires IsExponent(t) && t != ""
    ensures |t| >= 2 && if t[1] in "+-" then |t| >= 3 && AllDigits(t[2..]) else AllDigits(t[1..])
  {
    if AllDigits(t[1..]) && |t| >= 2 { assert IsDigit(t[1..][0]); }
  }

  lemma NumberIs(s: string)
    requires StartsNumber(s)
    ensures IsNumber(s[..NumberLength(s)])
  {
    hide Digits, Fraction, Exponent;
    var n := NumberLength(s);
    var t := s[..n];
    var a := Digits(s);
    var b := a + Fraction(s[a..]);
    DigitsAre(s);
    FractionIs(s[a..]);
    ExponentIs(s[b..]);
    assert t[..a] == s[..a] && t[a..b] == s[a..][..b - a] && t[b..] == s[b..][..n - b];
    SomeDigits(s);
    assert NumberAs(t, a, b);
  }

  lemma SomeDigits(s: string)
    requires StartsNumber(s)
    ensures Digits(s) + Fraction(s[Digits(s)..]) > 0
  {
    if IsDigit(s[0]) { DigitsPositive(s); } else { assert Digits(s) == 0 && s[0..] == s; }
  }

  /** The scanned number is the longest one, and there is one exactly where one starts. */
  lemma NumberIsLongest(s: string, n: nat)
    requires n <= |s| && IsNumber(s[..n])
    ensures StartsNumber(s) && n <= NumberLength(s)
  {
    hide Digits, Fraction, Exponent;
    var t := s[..n];
    var a: nat, b: nat :| a <= b <= |t| && NumberAs(t, a, b);
    assert t[..a] == s[..a] && t[a..b] == s[a..][..b - a] && t[b..] == s[b..][..n - b];
    NumberStart(t, a, b);
    assert s[0] == t[0] && (|t| >= 2 ==> s[1] == t[1]);
    NumberReaches(s, n, a, b);
  }

  lemma NumberStart(t: string, a: nat, b: nat)
    requires NumberAs(t, a, b)
    ensures StartsNumber(t)
  {
    if a > 0 {
      assert IsDigit(t[..a][0]);
    } else {
      var f := t[a..b];
      assert f[0] == t[0] && f[1] == t[1] && IsDigit(f[1..][0]);
    }
  }

  lemma NumberReaches(s: string, n: nat, a: nat, b: nat)
    requires a <= b <= n <= |s| && AllDigits(s[..a]) && IsFraction(s[a..][..b - a]) && IsExponent(s[b..][..n - b])
    ensures n <= NumberLength(s)
  {
    hide Digits, Fraction, Exponent, AllDigits;
    DigitsAtLeast(s, a);
    FractionAtLeast(s[a..], b - a);
    ExponentAtLeast(s[b..], n - b);
    if b > a {
      assert s[a] == '.';
      DigitsEnd(s, a);
      if n > b {
        assert s[b] == s[b..][..n - b][0] && s[a..][b - a] == s[b];
      }
    } else if n > b {
      assert s[b] == s[b..][..n - b][0];
      DigitsEnd(s, a);
      NoFraction(s[a..]);
    }
  }

  lemma NoFraction(s: string)
    requires s != "" && s[0] in "eE"
    ensures Fraction(s) == 0
  {
  }

  // ---------------------------------------------------------------------------
  // Names and operators
  // ---------------------------------------------------------------------------

  lemma {:induction false} NameLengthIs(s: string)
    ensures forall i | 0 <= i < NameLength(s) :: NameChar(s[i])
    ensures NameLength(s) < |s| ==> !NameChar(s[NameLength(s)])
  {
    if s != "" && NameChar(s[0]) { NameLengthIs(s[1..]); }
  }

  /** The scanned name is the longest one. */
  lemma NameIsLongest(s: string, n: nat)
    ensures s != "" && IdentStart(s[0]) ==> IsName(s[..NameLength(s)])
    ensures n <= |s| && IsName(s[..n]) ==> IdentStart(s[0]) && n <= NameLength(s)
  {
    hide IdentStart;
    NameLengthIs(s);
    if s != "" && IdentStart(s[0]) { NameStarts(s); }
    if n <= |s| && IsName(s[..n]) {
      forall i | 0 <= i < n ensures NameChar(s[i]) { assert s[..n][i] == s[i]; }
    }
  }

  lemma OperatorIs(x: string)
    ensures x in OPERATORS <==> (|x| == 2 && TwoSigns(x)) || (|x| == 1 && x[0] in SIGNS)
  {
    if |x| == 2 && TwoSigns(x) { assert x == [x[0], '=']; }
    if |x| == 1 { assert x == [x[0]]; }
  }

  /** A text starts with the lexeme that `First` finds, none it starts with is longer, and without one there is none. */
  lemma FirstIsLongest(s: string, t: Token)
    requires s != ""
    ensures First(s).Some? ==> IsLexeme(First(s).value) && First(s).value.text <= s
    ensures IsLexeme(t) && t.text <= s ==> First(s).Some? && |t.text| <= |First(s).value.text|
  {
    if First(s).Some? { FirstIsLexeme(s); }
    if IsLexeme(t) && t.text <= s { LexemeIsNoLonger(s, t); }
  }

  lemma FirstIsLexeme(s: string)
    requires s != "" && First(s).Some?
    ensures IsLexeme(First(s).value)
  {
    hide IsNumber, IsName, NumberLength, NameLength, IdentStart;
    if StartsNumber(s) {
      NumberIs(s);
    } else {
      NameIsLongest(s, 0);
      OperatorIs(First(s).value.text);
    }
  }

  lemma LexemeIsNoLonger(s: string, t: Token)
    requires s != "" && IsLexeme(t) && t.text <= s
    ensures First(s).Some? && |t.text| <= |First(s).value.text|
  {
    hide IsNumber, IsName, NumberLength, NameLength;
    var n := |t.text|;
    assert s[..n] == t.text;
    match t {
      case Number(_) => NumberIsLongest(s, n);
      case Name(_) => NameIsLongest(s, n);
      case Op(x) =>
        OperatorIs(x);
        assert s[0] == x[0] && (n == 2 ==> s[1] == x[1]);
    }
  }

  /** The tokens of a text are lexemes. */
  lemma WellFormedIffLexeme(t: Token)
    ensures WellFormed(t) <==> IsLexeme(t)
  {
    if !t.Eof? && t.text != "" {
      var s := t.text;
      assert s[..|s|] == s;
      LexemesMeet(t);
      OperatorIs(s);
    } else {
      NotEmpty(t);
    }
  }

  lemma LexemesMeet(t: Token)
    requires !t.Eof? && t.text != ""
    ensures t.Number? ==> (IsNumber(t.text) <==> StartsNumber(t.text) && NumberLength(t.text) == |t.text|)
    ensures t.Name? ==> (IsName(t.text) <==> IdentStart(t.text[0]) && NameLength(t.text) == |t.text|)
  {
    hide IsNumber, IsName, NumberLength, NameLength, IdentStart;
    var s := t.text;
    assert s[..|s|] == s;
    if t.Number? {
      if StartsNumber(s) { NumberIs(s); }
      if IsNumber(s) { NumberIsLongest(s, |s|); }
    } else if t.Name? {
      NameIsLongest(s, |s|);
    }
  }

  lemma NotEmpty(t: Token)
    requires t.Eof? || t.text == ""
    ensures !WellFormed(t) && !IsLexeme(t)
  {
  }

  // ---------------------------------------------------------------------------
  // Whole texts
  // ---------------------------------------------------------------------------

  /** The longest lexeme that a text starts with. */
  ghost predicate IsLongest(s: string, t: Token) {
    IsLexeme(t) && t.text <= s && forall u | IsLexeme(u) && u.text <= s :: |u.text| <= |t.text|
  }

  lemma FirstIffLongest(s: string, t: Token)
    requires s != ""
    ensures First(s) == Some(t) <==> IsLongest(s, t)
  {
    hide IsLexeme, First;
    forall u | IsLexeme(u) && u.text <= s ensures First(s).Some? && |u.text| <= |First(s).value.text| {
      FirstIsLongest(s, u);
    }
    if First(s).Some? { FirstIsLongest(s, First(s).value); }
    if IsLongest(s, t) {
      var u := First(s).value;
      assert u.text == s[..|u.text|] && t.text == s[..|t.text|];
      OneKind(t, u);
    }
  }

  /** The text of a lexeme tells its kind. */
  lemma OneKind(t: Token, u: Token)
    requires IsLexeme(t) && IsLexeme(u) && t.text == u.text
    ensures t == u
  {
    WellFormedIffLexeme(t);
    WellFormedIffLexeme(u);
    hide IsLexeme, NumberLength, NameLength;
  }

  /** The text is spaces and lexemes, each the longest where it stands, and the tokens are these and the end token. */
  ghost predicate LongestSplit(s: string, ts: seq<Token>)
    decreases |s|
  {
    if s == "" then ts == [Eof]
    else if IsSpace(s[0]) then LongestSplit(s[1..], ts)
    else ts != [] && !ts[0].Eof? && ts[0].text != "" && IsLongest(s, ts[0]) && LongestSplit(s[|ts[0].text|..], ts[1..])
  }

  /** The tokenizer finds the split into longest lexemes, and refuses a text that has none. */
  lemma {:induction false} TokensAreLongest(s: string, ts: seq<Token>)
    ensures Tokens(s) == Some(ts) <==> LongestSplit(s, ts)
    decreases |s|
  {
    hide First, IsLongest;
    if s != "" {
      if IsSpace(s[0]) {
        TokensAreLongest(s[1..], ts);
      } else {
        if First(s).Some? {
          FirstIsNotEmpty(s);
          FirstIffLongest(s, First(s).value);
          TokensStepLongest(s, ts);
        }
        if ts != [] { FirstIffLongest(s, ts[0]); }
      }
    }
  }

  lemma {:induction false} TokensStepLongest(s: string, ts: seq<Token>)
    requires s != "" && !IsSpace(s[0]) && First(s).Some? && First(s).value.text != ""
    ensures Tokens(s) == Some(ts) <==>
            ts != [] && First(s) == Some(ts[0]) && LongestSplit(s[|First(s).value.text|..], ts[1..])
    decreases |s|, 0
  {
    hide First, IsLongest;
    var t := First(s).value;
    var rest := s[|t.text|..];
    if ts != [] {
      TokensAreLongest(rest, ts[1..]);
      if ts[0] == t { assert ts == [t] + ts[1..]; }
    }
  }

  // ---------------------------------------------------------------------------
  // Characters
  // ---------------------------------------------------------------------------

  predicate IsLetter(c: char) { 65 <= c as int <= 90 || 97 <= c as int <= 122 }

  predicate IsDecimal(c: char) { 48 <= c as int <= 57 }

  predicate IsSign(c: char) { c in ['<', '>', '+', '-', '*', '/', '%', '(', ')', ','] }

  lemma ClassesAre(c: char)
    ensures IsDigit(c) <==> IsDecimal(c)
    ensures IdentStart(c) <==> IsLetter(c) || c as int == 95
    ensures NameChar(c) <==> IsLetter(c) || IsDecimal(c) || c as int == 95 || c as int == 46
    ensures IsSpace(c) <==> c as int in [9, 10, 13, 32]
    ensures c in SIGNS <==> IsSign(c)
  {
    assert SIGNS == ['<', '>', '+', '-', '*', '/', '%', '(', ')', ','];
    assert " \t\r\n" == [32 as char, 9 as char, 13 as char, 10 as char];
  }

  /** What a text of one character is: a number, a name, an operator, blank or refused. */
  lemma OneCharacter(c: char)
    ensures Tokens([c])
            == if IsDecimal(c) then Some([Number([c]), Eof])
               else if IsLetter(c) || c as int == 95 then Some([Name([c]), Eof])
               else if IsSign(c) then Some([Op([c]), Eof])
               else if c as int in [9, 10, 13, 32] then Some([Eof])
               else None
  {
    ClassesAre(c);
    hide IsDigit, IdentStart, NameChar, IsSpace, IsSign, First, Tokens;
    OneIs([c]);
    TokensOfOne([c]);
  }

  lemma TokensOfOne(s: string)
    requires |s| == 1
    ensures Tokens(s) == if IsSpace(s[0]) then Some([Eof]) else if First(s).Some? then Some([First(s).value, Eof]) else None
  {
    assert s[1..] == "" && Tokens("") == Some([Eof]);
    if First(s).Some? {
      OneLexeme(s);
      assert [First(s).value] + [Eof] == [First(s).value, Eof];
    }
    hide First, IsSpace;
  }

  /** The one-character text's token, by the class of the character. */
  lemma OneIs(s: string)
    requires |s| == 1
    ensures First(s) == if IsDigit(s[0]) then Some(Number(s)) else if IdentStart(s[0]) then Some(Name(s))
                        else if s[0] in SIGNS then Some(Op(s)) else None
  {
    hide IsDigit, IdentStart;
    if First(s).Some? { OneLexeme(s); }
  }

  lemma OneLexeme(s: string)
    requires |s| == 1 && First(s).Some?
    ensures First(s).value.text == s
  {
    FirstIsNotEmpty(s);
    hide First;
  }

  /** A name goes on with letters, digits, underscores and dots. */
  lemma NameGoesOn(c: char)
    ensures Tokens(['a', c]) == Some([Name(['a', c]), Eof]) <==> IsLetter(c) || IsDecimal(c) || c as int == 95 || c as int == 46
  {
    ClassesAre(c);
    ClassesAre('a');
    var s := ['a', c];
    hide IsDigit, IdentStart, IsSpace, IsSign;
    NameOf(s);
    assert !StartsNumber(s) && First(s) == Some(Name(s[..NameLength(s)])) && s[..2] == s;
    hide First, NameChar;
    if NameChar(c) {
      assert s[|s|..] == "" && Tokens("") == Some([Eof]);
      assert Tokens(s) == Some([Name(s)] + [Eof]);
      assert [Name(s)] + [Eof] == [Name(s), Eof];
    } else if Tokens(s).Some? {
      assert Tokens(s).value[0] == Name(s[..1]);
      assert |s[..1]| == 1;
    }
  }

  lemma NameOf(s: string)
    requires |s| == 2 && NameChar(s[0])
    ensures NameLength(s) == if NameChar(s[1]) then 2 else 1
  {
    assert s[1..] == [s[1]] && s[1..][1..] == "";
    hide NameChar;
    assert NameLength("") == 0;
    assert NameLength(s[1..]) == if NameChar(s[1]) then 1 + NameLength(s[1..][1..]) else 0;
  }
}
