/**
 The tokenizer of the expression recogniser (tools/yaml2c/expression.py), and the
 recogniser from text to answer.  Letters and digits are those of ASCII.
 */
module Tokenizer {
  import opened Wrappers
  import opened Names
  import opened Expression

  predicate IsDigit(c: char) { '0' <= c <= '9' }

  predicate IsSpace(c: char) { c in " \t\r\n" }

  predicate IdentStart(c: char) { 'a' <= c <= 'z' || 'A' <= c <= 'Z' || c == '_' }

  predicate NameChar(c: char) { IdentStart(c) || IsDigit(c) || c == '.' }

  const SIGNS := "<>+-*/%(),"

  predicate TwoSigns(s: string) {
    |s| >= 2 && s[1] == '=' && s[0] in "=!<>"
  }

  // ---------------------------------------------------------------------------
  // Lexemes, as the longest ones a text starts with
  // ---------------------------------------------------------------------------

  function Digits(s: string): (n: nat)
    ensures n <= |s|
  {
    if s == "" || !IsDigit(s[0]) then 0 else 1 + Digits(s[1..])
  }

  /** A point followed by digits. */
  function Fraction(s: string): (n: nat)
    ensures n <= |s|
  {
    if |s| >= 2 && s[0] == '.' && IsDigit(s[1]) then 1 + Digits(s[1..]) else 0
  }

  /** An exponent mark, perhaps a sign, and digits. */
  function Exponent(s: string): (n: nat)
    ensures n <= |s|
  {
    if s == "" || s[0] !in "eE" then 0
    else
      var j := if |s| >= 2 && s[1] in "+-" then 2 else 1;
      if j < |s| && IsDigit(s[j]) then j + Digits(s[j..]) else 0
  }

  function NumberLength(s: string): (n: nat)
    ensures n <= |s|
  {
    var a := Digits(s);
    var b := a + Fraction(s[a..]);
    b + Exponent(s[b..])
  }

  predicate StartsNumber(s: string) {
    s != "" && (IsDigit(s[0]) || (s[0] == '.' && |s| >= 2 && IsDigit(s[1])))
  }

  function NameLength(s: string): (n: nat)
    ensures n <= |s|
  {
    if s == "" || !NameChar(s[0]) then 0 else 1 + NameLength(s[1..])
  }

  /** The token that a text starts with; None for a character that starts none. */
  function First(s: string): (t: Option<Token>)
    requires s != ""
    ensures t.Some? ==> !t.value.Eof? && t.value.text <= s
  {
    if StartsNumber(s) then Some(Number(s[..NumberLength(s)]))
    else if IdentStart(s[0]) then Some(Name(s[..NameLength(s)]))
    else if TwoSigns(s) then Some(Op(s[..2]))
    else if s[0] in SIGNS then Some(Op(s[..1]))
    else None
  }

  lemma DigitsPositive(s: string)
    requires s != "" && IsDigit(s[0])
    ensures Digits(s) >= 1
  {
  }

  lemma FirstIsNotEmpty(s: string)
    requires s != "" && First(s).Some?
    ensures First(s).value.text != ""
  {
    hide IdentStart;
    if StartsNumber(s) {
      if IsDigit(s[0]) { DigitsPositive(s); } else { assert Digits(s) == 0 && s[0..] == s; }
    } else if IdentStart(s[0]) {
      NameStarts(s);
    }
  }

  lemma NameStarts(s: string)
    requires s != "" && IdentStart(s[0])
    ensures NameLength(s) >= 1
  {
  }

  /** The tokens of a text, closed by the end token. */
  function Tokens(s: string): (ts: Option<seq<Token>>)
    ensures ts.Some? ==> TokenList(ts.value)
    decreases |s|
  {
    if s == "" then Some([Eof])
    else if IsSpace(s[0]) then Tokens(s[1..])
    else
      var t :- First(s);
      FirstIsNotEmpty(s);
      var rest :- Tokens(s[|t.text|..]);
      Some([t] + rest)
  }

  // ---------------------------------------------------------------------------
  // The loops
  // ---------------------------------------------------------------------------

  method ScanDigits(text: string, start: nat) returns (i: nat)
    requires start <= |text|
    ensures i == start + Digits(text[start..]) <= |text|
  {
    i := start;
    while i < |text| && IsDigit(text[i])
      invariant start <= i <= |text|
      invariant start + Digits(text[start..]) == i + Digits(text[i..])
    {
      assert text[i..][1..] == text[i + 1..];
      i := i + 1;
    }
  }

  method ScanNumber(text: string, start: nat) returns (i: nat)
    requires start <= |text|
    ensures i == start + NumberLength(text[start..]) <= |text|
  {
    i := ScanDigits(text, start);
    NumberFrom(text, start, i);
    i := ScanFraction(text, i);
    i := ScanExponent(text, i);
  }

  lemma NumberFrom(text: string, start: nat, i: nat)
    requires start <= |text| && i == start + Digits(text[start..])
    ensures i <= |text|
    ensures var j := i + Fraction(text[i..]);
      j <= |text| && start + NumberLength(text[start..]) == j + Exponent(text[j..])
  {
    hide Digits, Fraction, Exponent;
    var s := text[start..];
    assert s[i - start..] == text[i..];
    var j := i + Fraction(text[i..]);
    assert s[j - start..] == text[j..];
  }

  method ScanFraction(text: string, start: nat) returns (i: nat)
    requires start <= |text|
    ensures i == start + Fraction(text[start..]) <= |text|
  {
    hide Digits, Fraction;
    FractionAt(text, start);
    i := start;
    if i < |text| && text[i] == '.' && i + 1 < |text| && IsDigit(text[i + 1]) {
      i := ScanDigits(text, i + 1);
    }
  }

  method ScanExponent(text: string, start: nat) returns (i: nat)
    requires start <= |text|
    ensures i == start + Exponent(text[start..]) <= |text|
  {
    hide Digits, Exponent;
    ExponentAt(text, start);
    i := start;
    if i < |text| && text[i] in "eE" {
      var j := i + 1;
      if j < |text| && text[j] in "+-" { j := j + 1; }
      if j < |text| && IsDigit(text[j]) { i := ScanDigits(text, j); }
    }
  }

  lemma FractionAt(text: string, i: nat)
    requires i <= |text|
    ensures Fraction(text[i..])
            == if i + 1 < |text| && text[i] == '.' && IsDigit(text[i + 1]) then 1 + Digits(text[i + 1..]) else 0
  {
    if i < |text| { assert text[i..][1..] == text[i + 1..]; }
  }

  lemma ExponentAt(text: string, i: nat)
    requires i <= |text|
    ensures Exponent(text[i..])
            == if i < |text| && text[i] in "eE" then
                 var j := if i + 1 < |text| && text[i + 1] in "+-" then i + 2 else i + 1;
                 if j < |text| && IsDigit(text[j]) then j - i + Digits(text[j..]) else 0
               else 0
  {
    hide Digits;
    var s := text[i..];
    if i + 1 < |text| { assert s[1..] == text[i + 1..] && s[1] == text[i + 1]; }
    if i + 2 < |text| { assert s[2..] == text[i + 2..] && s[2] == text[i + 2]; }
  }

  method ScanName(text: string, start: nat) returns (i: nat)
    requires start <= |text|
    ensures i == start + NameLength(text[start..]) <= |text|
  {
    i := start;
    while i < |text| && NameChar(text[i])
      invariant start <= i <= |text|
      invariant start + NameLength(text[start..]) == i + NameLength(text[i..])
    {
      assert text[i..][1..] == text[i + 1..];
      i := i + 1;
    }
  }

  /** Tokens found so far in front of those still to come. */
  function Joined(before: seq<Token>, rest: Option<seq<Token>>): Option<seq<Token>> {
    match rest
    case None => None
    case Some(ts) => Some(before + ts)
  }

  lemma JoinedStep(before: seq<Token>, t: Token, rest: Option<seq<Token>>)
    ensures Joined(before + [t], rest) == Joined(before, Joined([t], rest))
  {
    if rest.Some? { assert before + [t] + rest.value == before + ([t] + rest.value); }
  }

  /** One token of the text is consumed. */
  lemma TokensStep(text: string, i: nat, t: Token)
    requires i < |text| && !IsSpace(text[i]) && First(text[i..]) == Some(t)
    ensures t.text != "" && i + |t.text| <= |text|
    ensures Tokens(text[i..]) == Joined([t], Tokens(text[i + |t.text|..]))
  {
    hide First;
    FirstIsNotEmpty(text[i..]);
    assert text[i..][|t.text|..] == text[i + |t.text|..];
  }

  method Tokenize(text: string) returns (tokens: Option<seq<Token>>)
    ensures tokens == Tokens(text)
  {
    hide Tokens, Digits, NumberLength, NameLength, Joined;
    var found := [];
    var i := 0;
    assert text[0..] == text;
    NothingJoined(Tokens(text));
    while i < |text|
      invariant 0 <= i <= |text|
      invariant Tokens(text) == Joined(found, Tokens(text[i..]))
    {
      ghost var s := text[i..];
      var c := text[i];
      if c in " \t\r\n" {
        SpaceStep(text, i);
        i := i + 1;
      } else if IsDigit(c) || (c == '.' && i + 1 < |text| && IsDigit(text[i + 1])) {
        var end := ScanNumber(text, i);
        var t := Number(text[i..end]);
        assert s[..NumberLength(s)] == text[i..end];
        TokensStep(text, i, t);
        JoinedStep(found, t, Tokens(text[end..]));
        found := found + [t];
        i := end;
      } else if IdentStart(c) {
        var end := ScanName(text, i);
        var t := Name(text[i..end]);
        assert s[..NameLength(s)] == text[i..end];
        TokensStep(text, i, t);
        JoinedStep(found, t, Tokens(text[end..]));
        found := found + [t];
        i := end;
      } else if i + 1 < |text| && text[i..i + 2] in ["==", "!=", "<=", ">="] {
        var t := Op(text[i..i + 2]);
        assert s[..2] == text[i..i + 2] && s[0] == text[i..i + 2][0] && s[1] == text[i..i + 2][1];
        TokensStep(text, i, t);
        JoinedStep(found, t, Tokens(text[i + 2..]));
        found := found + [t];
        i := i + 2;
      } else if c in SIGNS {
        var t := Op([c]);
        assert s[..1] == [c];
        if TwoSigns(s) { SignsAre(s, text, i); }
        TokensStep(text, i, t);
        JoinedStep(found, t, Tokens(text[i + 1..]));
        found := found + [t];
        i := i + 1;
      } else {
        if TwoSigns(s) { SignsAre(s, text, i); }
        Refused(text, i);
        return None;
      }
    }
    NoMore();
    assert text[i..] == "";
    return Some(found + [Eof]);
  }

  lemma NothingJoined(ts: Option<seq<Token>>)
    ensures Joined([], ts) == ts
  {
    if ts.Some? { assert [] + ts.value == ts.value; }
  }

  lemma NoMore()
    ensures Tokens("") == Some([Eof]) && forall before :: Joined(before, Some([Eof])) == Some(before + [Eof])
  {
  }

  lemma SpaceStep(text: string, i: nat)
    requires i < |text| && IsSpace(text[i])
    ensures Tokens(text[i..]) == Tokens(text[i + 1..])
  {
    assert text[i..][1..] == text[i + 1..];
  }

  lemma SignsAre(s: string, text: string, i: nat)
    requires i < |text| && s == text[i..] && TwoSigns(s)
    ensures i + 1 < |text| && text[i..i + 2] in ["==", "!=", "<=", ">="]
  {
    assert text[i..i + 2] == [s[0], s[1]];
  }

  lemma Refused(text: string, i: nat)
    requires i < |text| && !IsSpace(text[i]) && First(text[i..]) == None
    ensures Tokens(text[i..]) == None
    ensures forall before :: Joined(before, None) == None
  {
  }

  // ---------------------------------------------------------------------------
  // Round trip
  // ---------------------------------------------------------------------------

  /** A token that the tokenizer can produce. */
  predicate WellFormed(t: Token) {
    match t
    case Number(text) => StartsNumber(text) && NumberLength(text) == |text|
    case Name(text) => text != "" && IdentStart(text[0]) && NameLength(text) == |text|
    case Op(text) => (|text| == 2 && TwoSigns(text)) || (|text| == 1 && text[0] in SIGNS)
    case Eof => false
  }

  /** The tokens written out, each followed by a space. */
  function Render(ts: seq<Token>): string {
    if ts == [] || ts[0].Eof? then "" else ts[0].text + " " + Render(ts[1..])
  }

  lemma {:induction false} DigitsCut(s: string, n: nat)
    requires Digits(s) <= n <= |s|
    ensures Digits(s[..n]) == Digits(s)
  {
    if s != "" && IsDigit(s[0]) {
      DigitsCut(s[1..], n - 1);
      assert s[..n][1..] == s[1..][..n - 1];
    }
  }

  lemma {:induction false} DigitsStop(s: string, rest: string)
    ensures Digits(s + " " + rest) == Digits(s)
  {
    var more := s + " " + rest;
    if s != "" && IsDigit(s[0]) {
      DigitsStop(s[1..], rest);
      assert more[1..] == s[1..] + " " + rest;
    }
  }

  lemma {:induction false} NameCut(s: string, n: nat)
    requires NameLength(s) <= n <= |s|
    ensures NameLength(s[..n]) == NameLength(s)
  {
    if s != "" && NameChar(s[0]) {
      NameCut(s[1..], n - 1);
      assert s[..n][1..] == s[1..][..n - 1];
    }
  }

  lemma {:induction false} NameStop(s: string, rest: string)
    ensures NameLength(s + " " + rest) == NameLength(s)
  {
    var more := s + " " + rest;
    if s != "" && NameChar(s[0]) {
      NameStop(s[1..], rest);
      assert more[1..] == s[1..] + " " + rest;
    }
  }

  lemma FractionStop(s: string, rest: string)
    ensures Fraction(s + " " + rest) == Fraction(s)
  {
    var more := s + " " + rest;
    if |s| >= 2 {
      DigitsStop(s[1..], rest);
      assert more[1..] == s[1..] + " " + rest;
    } else if |s| == 1 {
      assert more[0] == s[0] && more[1] == ' ';
    } else {
      assert more[0] == ' ';
    }
  }

  lemma ExponentStop(s: string, rest: string)
    ensures Exponent(s + " " + rest) == Exponent(s)
  {
    hide Digits;
    var more := s + " " + rest;
    assert forall k | 0 <= k < |s| :: more[k] == s[k];
    assert more[|s|] == ' ';
    if |s| >= 1 { DigitsStop(s[1..], rest); assert more[1..] == s[1..] + " " + rest; }
    if |s| >= 2 { DigitsStop(s[2..], rest); assert more[2..] == s[2..] + " " + rest; }
  }

  /** A space ends a number. */
  lemma NumberStop(s: string, rest: string)
    ensures NumberLength(s + " " + rest) == NumberLength(s)
  {
    hide Digits, Fraction, Exponent;
    var more := s + " " + rest;
    var a := Digits(s);
    var b := a + Fraction(s[a..]);
    DigitsStop(s, rest);
    FractionStop(s[a..], rest);
    ExponentStop(s[b..], rest);
    assert more[a..] == s[a..] + " " + rest;
    assert more[b..] == s[b..] + " " + rest;
  }

  lemma FractionCut(s: string, n: nat)
    requires Fraction(s) <= n <= |s|
    ensures Fraction(s[..n]) == Fraction(s)
  {
    if |s| >= 2 && s[0] == '.' && IsDigit(s[1]) {
      DigitsCut(s[1..], n - 1);
      assert s[..n][1..] == s[1..][..n - 1];
      DigitsPositive(s[1..]);
    }
  }

  lemma ExponentCut(s: string, n: nat)
    requires Exponent(s) == n
    ensures Exponent(s[..n]) == n
  {
    hide Digits;
    if n > 0 {
      var j := if |s| >= 2 && s[1] in "+-" then 2 else 1;
      DigitsPositive(s[j..]);
      DigitsCut(s[j..], n - j);
      assert s[..n][j..] == s[j..][..n - j];
    }
  }

  /** A number is its own longest number. */
  lemma NumberCut(s: string)
    ensures NumberLength(s[..NumberLength(s)]) == NumberLength(s)
  {
    hide Digits, Fraction, Exponent;
    var n := NumberLength(s);
    var t := s[..n];
    var a := Digits(s);
    var b := a + Fraction(s[a..]);
    DigitsCut(s, n);
    FractionCut(s[a..], n - a);
    ExponentCut(s[b..], n - b);
    assert t[a..] == s[a..][..n - a];
    assert t[b..] == s[b..][..n - b];
  }

  lemma FirstIsWellFormed(s: string)
    requires s != "" && First(s).Some?
    ensures WellFormed(First(s).value)
  {
    hide Digits, Fraction, Exponent, NumberLength, NameLength, IdentStart;
    if StartsNumber(s) {
      NumberCut(s);
      NumberStarts(s);
    } else if IdentStart(s[0]) {
      NameStarts(s);
      NameCut(s, NameLength(s));
    }
  }

  lemma NumberStarts(s: string)
    requires StartsNumber(s)
    ensures NumberLength(s) >= 1 && StartsNumber(s[..NumberLength(s)])
  {
    hide Exponent;
    if IsDigit(s[0]) {
      DigitsPositive(s);
    } else {
      assert Digits(s) == 0 && s[0..] == s;
      DigitsPositive(s[1..]);
    }
  }

  /** A rendered token is the first of what follows it. */
  lemma FirstOfRendered(t: Token, rest: string)
    requires WellFormed(t)
    ensures First(t.text + " " + rest) == Some(t) && t.text != "" && !IsSpace(t.text[0])
  {
    hide Digits, Fraction, Exponent, NumberLength, NameLength;
    var s := t.text + " " + rest;
    assert s[0] == t.text[0] && s[..|t.text|] == t.text && s[|t.text|] == ' ';
    if t.Number? {
      NumberStop(t.text, rest);
      if |t.text| >= 2 { assert s[1] == t.text[1]; }
    } else if t.Name? {
      NameStop(t.text, rest);
    } else if |t.text| == 2 {
      assert s[1] == t.text[1];
    }
  }

  predicate AllWellFormed(ts: seq<Token>) {
    forall i | 0 <= i < |ts| - 1 :: WellFormed(ts[i])
  }

  lemma {:induction false} TokensAreWellFormed(s: string)
    requires Tokens(s).Some?
    ensures AllWellFormed(Tokens(s).value)
    decreases |s|
  {
    hide First, WellFormed;
    if s != "" {
      if IsSpace(s[0]) {
        TokensAreWellFormed(s[1..]);
      } else {
        var t := First(s).value;
        FirstIsWellFormed(s);
        FirstIsNotEmpty(s);
        TokensAreWellFormed(s[|t.text|..]);
        var rest := Tokens(s[|t.text|..]).value;
        assert Tokens(s).value == [t] + rest;
        assert forall i | 1 <= i < |rest| + 1 - 1 :: ([t] + rest)[i] == rest[i - 1];
      }
    }
  }

  lemma {:induction false} TokensOfRendered(ts: seq<Token>)
    requires TokenList(ts) && AllWellFormed(ts)
    ensures Tokens(Render(ts)) == Some(ts)
  {
    hide First, WellFormed;
    if |ts| > 1 {
      var t, rest := ts[0], ts[1..];
      assert !t.Eof?;
      RestIsTokenList(ts);
      TokensOfRendered(rest);
      FirstOfRendered(t, Render(rest));
      var s := Render(ts);
      assert s == t.text + " " + Render(rest);
      TokensOfFirst(s, t, Render(rest));
      assert ts == [t] + rest;
    } else {
      assert ts[0].Eof? && ts == [Eof];
    }
  }

  lemma RestIsTokenList(ts: seq<Token>)
    requires TokenList(ts) && |ts| > 1 && AllWellFormed(ts)
    ensures TokenList(ts[1..]) && AllWellFormed(ts[1..])
  {
    hide WellFormed;
    var rest := ts[1..];
    forall i | 0 <= i < |rest| ensures rest[i].Eof? <==> i == |rest| - 1 { assert rest[i] == ts[i + 1]; }
    forall i | 0 <= i < |rest| - 1 ensures WellFormed(rest[i]) { assert rest[i] == ts[i + 1]; }
  }

  lemma TokensOfFirst(s: string, t: Token, rest: string)
    requires !t.Eof? && s == t.text + " " + rest && t.text != "" && !IsSpace(t.text[0]) && First(s) == Some(t)
    ensures Tokens(s) == Joined([t], Tokens(rest))
  {
    hide First;
    assert s[0] == t.text[0];
    assert s[|t.text|..] == " " + rest;
    assert (" " + rest)[1..] == rest;
    assert Tokens(" " + rest) == Tokens(rest);
  }

  /** Writing the tokens of a text out and reading them again changes nothing. */
  lemma TokensComeBack(s: string)
    requires Tokens(s).Some?
    ensures Tokens(Render(Tokens(s).value)) == Tokens(s)
  {
    hide Tokens, Render, AllWellFormed;
    TokensAreWellFormed(s);
    TokensOfRendered(Tokens(s).value);
  }

  // ---------------------------------------------------------------------------
  // Validation
  // ---------------------------------------------------------------------------

  /** A text is an expression when its tokens are derived by the grammar. */
  predicate IsExpression(s: string) {
    Tokens(s).Some? && Accepts(Tokens(s).value)
  }

  /** Written out, tokens are an expression exactly when the recogniser accepts their list. */
  lemma RenderedIsExpressionIff(ts: seq<Token>)
    requires TokenList(ts) && AllWellFormed(ts)
    ensures IsExpression(Render(ts)) <==> Accepts(ts)
  {
    hide Tokens, Render, AllWellFormed, Accepts;
    TokensOfRendered(ts);
  }

  method Validate(text: string, maximum: nat) returns (ok: bool)
    ensures ok == (Utf8Length(text) <= maximum && IsExpression(text))
  {
    hide Tokens, Accepts, Utf8Length;
    if Utf8Length(text) > maximum { return false; }
    if forall c | c in text :: IsSpace(c) {
      BlankIsNoExpression(text);
      return false;
    }
    var tokens := Tokenize(text);
    if tokens.None? { return false; }
    var parser := new Parser(tokens.value);
    ok := parser.ParseAll();
  }

  lemma {:induction false} BlankIsNoExpression(s: string)
    requires forall c | c in s :: IsSpace(c)
    ensures Tokens(s) == Some([Eof]) && !IsExpression(s)
  {
    hide Accepts;
    if s != "" {
      assert s[0] in s;
      BlankIsNoExpression(s[1..]);
    }
    NothingIsNoExpression();
  }

  lemma NothingIsNoExpression()
    ensures TokenList([Eof]) && !Accepts([Eof])
  {
    hide Parse;
  }
}
