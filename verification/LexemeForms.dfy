/**
 Which texts are one token (tools/yaml2c/expression.py), written out: the
 operators, the characters of a name, and every way to put a number together.
 */
module LexemeForms {
  import opened Wrappers
  import opened Expression
  import opened Tokenizer
  import opened Lexemes

  /** The text is one token and nothing else. */
  predicate Alone(t: Token) {
    !t.Eof? && Tokens(t.text) == Some([t, Eof])
  }

  /** The texts of one token are the lexemes. */
  lemma AloneIff(t: Token)
    requires !t.Eof?
    ensures Alone(t) <==> IsLexeme(t)
  {
    hide IsLexeme, First, WellFormed;
    WellFormedIffLexeme(t);
    var s := t.text;
    if IsLexeme(t) {
      FirstOfRendered(t, "");
      FirstIffLongest(s, t);
      assert s[|s|..] == "" && Tokens("") == Some([Eof]);
      assert [t] + [Eof] == [t, Eof];
    }
    if Alone(t) {
      TokensAreWellFormed(s);
      assert [t, Eof][0] == t;
    }
  }

  // ---------------------------------------------------------------------------
  // Operators and names
  // ---------------------------------------------------------------------------

  lemma OperatorAloneIff(s: string)
    ensures Alone(Op(s)) <==> s in ["==", "!=", "<=", ">=", "<", ">", "+", "-", "*", "/", "%", "(", ")", ","]
  {
    AloneIff(Op(s));
    hide Alone;
  }

  /** A letter or an underscore, and then letters, digits, underscores and dots. */
  predicate NameForm(s: string) {
    && s != "" && (IsLetter(s[0]) || s[0] == '_')
    && forall i | 0 <= i < |s| :: IsLetter(s[i]) || IsDecimal(s[i]) || s[i] == '_' || s[i] == '.'
  }

  lemma NameAloneIff(s: string)
    ensures Alone(Name(s)) <==> NameForm(s)
  {
    AloneIff(Name(s));
    forall c: char ensures IdentStart(c) <==> IsLetter(c) || c == '_' { ClassesAre(c); }
    forall c: char ensures NameChar(c) <==> IsLetter(c) || IsDecimal(c) || c == '_' || c == '.' { ClassesAre(c); }
    hide Alone, IdentStart, NameChar, IsLetter, IsDecimal;
  }

  // ---------------------------------------------------------------------------
  // Numbers
  // ---------------------------------------------------------------------------

  predicate Decimals(s: string) {
    forall i | 0 <= i < |s| :: IsDecimal(s[i])
  }

  /** What may stand before the digits of an exponent. */
  predicate IsMark(e: string) {
    e in ["e", "E", "e+", "e-", "E+", "E-"]
  }

  lemma DecimalsAre(s: string)
    ensures AllDigits(s) <==> Decimals(s)
  {
  }

  lemma NumberEnds(s: string, i: nat)
    requires IsNumber(s) && i < |s|
    ensures IsDigit(s[|s| - 1])
    ensures IsDigit(s[0]) || s[0] == '.'
    ensures s[i] == '.' ==> i + 1 < |s| && IsDigit(s[i + 1])
  {
    var a: nat, b: nat :| a <= b <= |s| && NumberAs(s, a, b);
    PartsEnd(s[..a], s[a..b], s[b..], i);
    hide *;
    assert s == s[..a] + s[a..b] + s[b..];
  }

  lemma PartsEnd(a: string, f: string, x: string, i: nat)
    requires AllDigits(a) && IsFraction(f) && IsExponent(x) && a + f != ""
    ensures var s := a + f + x;
      && IsDigit(s[|s| - 1]) && (IsDigit(s[0]) || s[0] == '.')
      && (i < |s| && s[i] == '.' ==> i + 1 < |s| && IsDigit(s[i + 1]))
  {
    hide IsDigit;
    if f != "" { PointThenDigits(f); }
    if x != "" { MarkThenDigits(x); }
    assert forall k | 0 <= k < |a| :: IsDigit(a[k]) && a[k] != '.' by { DigitsArePlain(a); }
    hide *;
    var s, n, m := a + f + x, |a|, |a| + |f|;
    assert forall k | 0 <= k < n :: s[k] == a[k];
    assert forall k | n <= k < m :: s[k] == f[k - n];
    assert forall k | m <= k < |s| :: s[k] == x[k - m];
  }

  lemma DigitsArePlain(a: string)
    requires AllDigits(a)
    ensures forall k | 0 <= k < |a| :: IsDigit(a[k]) && a[k] != '.'
  {
  }

  lemma PointThenDigits(f: string)
    requires f != "" && IsFraction(f)
    ensures |f| >= 2 && f[0] == '.' && forall k | 1 <= k < |f| :: IsDigit(f[k]) && f[k] != '.'
  {
    forall k | 1 <= k < |f| ensures IsDigit(f[k]) && f[k] != '.' { assert f[1..][k - 1] == f[k]; }
  }

  lemma MarkThenDigits(x: string)
    requires x != "" && IsExponent(x)
    ensures IsDigit(x[|x| - 1]) && forall k | 0 <= k < |x| :: x[k] != '.'
  {
  }

  lemma Assembled(a: string, f: string, x: string)
    requires AllDigits(a) && IsFraction(f) && IsExponent(x) && a + f != ""
    ensures IsNumber(a + f + x)
  {
    hide AllDigits, IsFraction, IsExponent;
    var s, n, m := a + f + x, |a|, |a| + |f|;
    assert s[..n] == a && s[n..m] == f && s[m..] == x;
    assert NumberAs(s, n, m);
  }

  lemma PointThen(b: string)
    requires AllDigits(b) && b != ""
    ensures IsFraction("." + b)
  {
    assert ("." + b)[1..] == b;
  }

  lemma MarkThen(e: string, c: string)
    requires IsMark(e) && AllDigits(c) && c != ""
    ensures IsExponent(e + c)
  {
    assert (e + c)[|e|..] == c;
  }

  /** No number ends in a mark, or in a point, or with a point before a mark. */
  lemma NothingAfter(front: string, e: string, c: string)
    requires IsMark(e)
    ensures !IsNumber(front + e) && !IsNumber(front + ".") && !IsNumber(front + "." + e + c)
  {
    hide IsNumber;
    var s := front + e;
    assert s[|s| - 1] == e[|e| - 1] && !IsDigit(e[|e| - 1]);
    if IsNumber(s) { NumberEnds(s, 0); }
    var p := front + ".";
    if IsNumber(p) { NumberEnds(p, |front|); }
    var q := front + "." + e + c;
    assert q[|front|] == '.' && q[|front| + 1] == e[0] && !IsDigit(e[0]);
    if IsNumber(q) { NumberEnds(q, |front|); }
  }

  lemma NoDigits(e: string, c: string)
    requires IsMark(e)
    ensures !IsNumber("") && !IsNumber("" + e + c)
  {
    var s := "" + e + c;
    assert s[0] == e[0];
    if IsNumber(s) { NumberEnds(s, 0); }
  }

  /**
   Digits are a number; so are digits, or nothing, with a point and digits; and either
   of these with an exponent.  No part after a point or a mark may be empty.
   */
  lemma NumberFormsIff(a: string, b: string, e: string, c: string)
    requires Decimals(a) && Decimals(b) && IsMark(e) && Decimals(c)
    ensures Alone(Number(a)) <==> a != ""
    ensures Alone(Number(a + "." + b)) <==> b != ""
    ensures Alone(Number(a + e + c)) <==> a != "" && c != ""
    ensures Alone(Number(a + "." + b + e + c)) <==> b != "" && c != ""
  {
    AloneIff(Number(a));
    AloneIff(Number(a + "." + b));
    AloneIff(Number(a + e + c));
    AloneIff(Number(a + "." + b + e + c));
    DecimalsAre(a);
    DecimalsAre(b);
    DecimalsAre(c);
    hide Alone, IsNumber, Decimals, AllDigits, IsMark;
    NumberParts(a, b, e, c);
  }

  lemma NumberParts(a: string, b: string, e: string, c: string)
    requires AllDigits(a) && AllDigits(b) && IsMark(e) && AllDigits(c)
    ensures IsNumber(a) <==> a != ""
    ensures IsNumber(a + "." + b) <==> b != ""
    ensures IsNumber(a + e + c) <==> a != "" && c != ""
    ensures IsNumber(a + "." + b + e + c) <==> b != "" && c != ""
  {
    hide *;
    NoDigits(e, c);
    NothingAfter(a, e, c);
    NothingAfter(a + "." + b, e, c);
    if a != "" { PlainParts(a, e, c); }
    if b != "" { PointParts(a, b, e, c); }
    if c == "" { assert a + e + c == a + e && a + "." + b + e + c == a + "." + b + e; }
    if b == "" { assert a + "." + b == a + "." && a + "." + b + e + c == a + "." + e + c; }
    if a == "" { assert a + e + c == "" + e + c; }
  }

  lemma PlainParts(a: string, e: string, c: string)
    requires AllDigits(a) && a != "" && IsMark(e) && AllDigits(c)
    ensures IsNumber(a) && (c != "" ==> IsNumber(a + e + c))
  {
    assert IsExponent("") && IsFraction("");
    hide *;
    Assembled(a, "", "");
    assert a + "" + "" == a;
    if c != "" {
      MarkThen(e, c);
      Assembled(a, "", e + c);
      assert a + "" + (e + c) == a + e + c;
    }
  }

  lemma PointParts(a: string, b: string, e: string, c: string)
    requires AllDigits(a) && AllDigits(b) && b != "" && IsMark(e) && AllDigits(c)
    ensures IsNumber(a + "." + b) && (c != "" ==> IsNumber(a + "." + b + e + c))
  {
    assert IsExponent("");
    hide *;
    var f := "." + b;
    PointThen(b);
    Assembled(a, f, "");
    assert a + f + "" == a + "." + b;
    if c != "" {
      MarkThen(e, c);
      Assembled(a, f, e + c);
      Regroup(a, b, e, c);
    }
  }

  lemma Regroup(a: string, b: string, e: string, c: string)
    ensures a + ("." + b) + (e + c) == a + "." + b + e + c
  {
    assert a + ("." + b) == a + "." + b;
  }

  predicate HasForm(s: string, a: string, b: string, e: string, c: string) {
    s == a || s == a + "." + b || s == a + e + c || s == a + "." + b + e + c
  }

  /** And every number is put together in one of these ways. */
  lemma NumberHasForm(s: string) returns (a: string, b: string, e: string, c: string)
    requires Alone(Number(s))
    ensures Decimals(a) && Decimals(b) && IsMark(e) && Decimals(c)
    ensures HasForm(s, a, b, e, c)
  {
    AloneIff(Number(s));
    hide Alone, AllDigits, Decimals, IsMark, IsFraction, IsExponent;
    var n: nat, m: nat :| n <= m <= |s| && NumberAs(s, n, m);
    a := s[..n];
    DecimalsAre(a);
    b, e, c := PartsHaveForm(a, s[n..m], s[m..]);
    hide *;
    assert s == a + s[n..m] + s[m..];
  }

  lemma PartsHaveForm(a: string, f: string, x: string) returns (b: string, e: string, c: string)
    requires IsFraction(f) && IsExponent(x)
    ensures Decimals(b) && IsMark(e) && Decimals(c) && HasForm(a + f + x, a, b, e, c)
  {
    hide *;
    b := FractionParts(f);
    e, c := ExponentParts(x);
    PartsJoined(a, f, x, b, e, c);
  }

  lemma PartsJoined(a: string, f: string, x: string, b: string, e: string, c: string)
    requires (f == "" || f == "." + b) && (x == "" || x == e + c)
    ensures HasForm(a + f + x, a, b, e, c)
  {
    assert a + "" == a;
    if f != "" { assert a + "." + b == a + f; }
    if x != "" { assert a + f + e + c == a + f + x; } else { assert a + f + "" == a + f; }
  }

  lemma FractionParts(f: string) returns (b: string)
    requires IsFraction(f)
    ensures Decimals(b) && (f == "" || f == "." + b)
  {
    b := "";
    if f != "" {
      b := f[1..];
      DecimalsAre(b);
      assert f == ['.'] + b;
    }
  }

  lemma ExponentParts(x: string) returns (e: string, c: string)
    requires IsExponent(x)
    ensures IsMark(e) && Decimals(c) && (x == "" || x == e + c)
  {
    e, c := "e", "";
    if x != "" {
      var j := if AllDigits(x[1..]) then 1 else 2;
      e, c := x[..j], x[j..];
      DecimalsAre(c);
      MarkIs(e);
    }
  }

  lemma MarkIs(e: string)
    requires 1 <= |e| <= 2 && e[0] in "eE" && (|e| == 2 ==> e[1] in "+-")
    ensures IsMark(e)
  {
    assert e == if |e| == 1 then [e[0]] else [e[0], e[1]];
  }
}
