/**
 C string literals (tools/yaml2c/common.py).  Text is bytes: those of the string
 in UTF-8 on one side, the ASCII characters of the literal on the other.
 */
module CString {
  import opened Bits
  import opened Wrappers

  const QUOTE: byte := 0x22
  const BACKSLASH: byte := 0x5C
  const QUESTION: byte := 0x3F
  const APOSTROPHE: byte := 0x27
  const NEWLINE: byte := 0x0A
  const ZERO: byte := 0x30

  // ---------------------------------------------------------------------------
  // Printing
  // ---------------------------------------------------------------------------

  /** Three octal digits, most significant first. */
  function Octal(b: byte): (ds: seq<byte>)
    ensures |ds| == 3
  {
    [ZERO + b / 64, ZERO + b / 8 % 8, ZERO + b % 8]
  }

  function Escape(b: byte): (cs: seq<byte>)
    ensures cs != []
  {
    if b == QUOTE then [BACKSLASH, QUOTE]
    else if b == BACKSLASH then [BACKSLASH, BACKSLASH]
    else if b == QUESTION then [BACKSLASH, QUESTION]
    else if 0x20 <= b < 0x7F then [b]
    else [BACKSLASH] + Octal(b)
  }

  function Body(bs: seq<byte>): seq<byte> {
    if bs == [] then [] else Escape(bs[0]) + Body(bs[1..])
  }

  function Literal(bs: seq<byte>): seq<byte> {
    [QUOTE] + Body(bs) + [QUOTE]
  }

  lemma {:induction false} BodyStep(bs: seq<byte>, b: byte)
    ensures Body(bs + [b]) == Body(bs) + Escape(b)
  {
    hide Escape;
    if bs == [] {
      assert Body([]) == [] && [b][1..] == [];
    } else {
      BodyStep(bs[1..], b);
      assert (bs + [b])[1..] == bs[1..] + [b];
    }
  }

  /** A printable byte other than a quote, a backslash and a question mark stands for itself, these three follow a backslash, any other is octal. */
  lemma EscapeIs(b: byte)
    ensures 0x20 <= b < 0x7F && b != 0x22 && b != 0x5C && b != 0x3F ==> Escape(b) == [b]
    ensures b == 0x22 || b == 0x5C || b == 0x3F ==> Escape(b) == [0x5C, b]
    ensures b < 0x20 || b >= 0x7F ==> |Escape(b)| == 4 && Escape(b)[0] == 0x5C && forall k | 1 <= k < 4 :: 0x30 <= Escape(b)[k] < 0x38
  {
  }

  /** Plain text is its own literal between quotes. */
  lemma {:induction false} PlainIsKept(bs: seq<byte>)
    requires forall b | b in bs :: 0x20 <= b < 0x7F && b != 0x22 && b != 0x5C && b != 0x3F
    ensures Body(bs) == bs && Literal(bs) == [0x22] + bs + [0x22]
  {
    if bs != [] {
      assert bs[0] in bs && forall b | b in bs[1..] :: b in bs;
      EscapeIs(bs[0]);
      PlainIsKept(bs[1..]);
      assert bs == [bs[0]] + bs[1..];
    }
    hide Escape;
  }

  method StringLiteral(bs: seq<byte>) returns (out: seq<byte>)
    ensures out == Literal(bs)
  {
    hide Body, Octal;
    out := [QUOTE];
    EmptyBody();
    assert bs[..0] == [];
    var i := 0;
    while i < |bs|
      invariant 0 <= i <= |bs|
      invariant out == [QUOTE] + Body(bs[..i])
    {
      var b := bs[i];
      BodyStep(bs[..i], b);
      assert bs[..i + 1] == bs[..i] + [b];
      if b == QUOTE {
        out := out + [BACKSLASH, QUOTE];
      } else if b == BACKSLASH {
        out := out + [BACKSLASH, BACKSLASH];
      } else if b == QUESTION {
        out := out + [BACKSLASH, QUESTION];
      } else if 0x20 <= b < 0x7F {
        out := out + [b];
      } else {
        out := out + ([BACKSLASH] + Octal(b));
      }
      i := i + 1;
    }
    assert bs[..i] == bs;
    return out + [QUOTE];
  }

  lemma EmptyBody()
    ensures Body([]) == []
  {
  }

  // ---------------------------------------------------------------------------
  // Reading, by sections 6.4.4.4 and 6.4.5 of ISO/IEC 9899:1999
  // ---------------------------------------------------------------------------

  predicate OctalDigit(c: byte) {
    ZERO <= c < ZERO + 8
  }

  /** An octal escape takes one to three digits, as many as there are. */
  function OctalLength(s: seq<byte>): (n: nat)
    ensures n <= 3 && n <= |s| && forall k | 0 <= k < n :: OctalDigit(s[k])
  {
    if s == [] || !OctalDigit(s[0]) then 0
    else if |s| == 1 || !OctalDigit(s[1]) then 1
    else if |s| == 2 || !OctalDigit(s[2]) then 2
    else 3
  }

  function OctalValue(s: seq<byte>): nat
    requires forall k | 0 <= k < |s| :: OctalDigit(s[k])
  {
    if s == [] then 0
    else
      assert OctalDigit(s[|s| - 1]);
      8 * OctalValue(s[..|s| - 1]) + (s[|s| - 1] - ZERO)
  }

  /** The simple escapes. */
  function SimpleEscape(c: byte): Option<byte> {
    if c == QUOTE || c == BACKSLASH || c == QUESTION || c == APOSTROPHE then Some(c)
    else if c == 0x61 then Some(0x07)
    else if c == 0x62 then Some(0x08)
    else if c == 0x66 then Some(0x0C)
    else if c == 0x6E then Some(0x0A)
    else if c == 0x72 then Some(0x0D)
    else if c == 0x74 then Some(0x09)
    else if c == 0x76 then Some(0x0B)
    else None
  }

  /** The byte denoted by the first characters, and how many they are; hexadecimal escapes are not read. */
  function Denotes(s: seq<byte>): (r: Option<(byte, nat)>)
    requires s != []
    ensures r.Some? ==> 1 <= r.value.1 <= |s|
  {
    if s[0] != BACKSLASH then
      if s[0] == NEWLINE || s[0] == QUOTE then None else Some((s[0], 1))
    else if |s| == 1 then None
    else
      var n := OctalLength(s[1..]);
      if n == 0 then
        match SimpleEscape(s[1])
        case None => None
        case Some(b) => Some((b, 2))
      else
        var v := OctalValue(s[1..1 + n]);
        if v < 256 then Some((v, 1 + n)) else None
  }

  /** The bytes up to a closing quote that ends the text. */
  function ReadBody(s: seq<byte>): Option<seq<byte>>
    decreases |s|
  {
    if s == [] then None
    else if s[0] == QUOTE then if |s| == 1 then Some([]) else None
    else
      var first :- Denotes(s);
      var rest :- ReadBody(s[first.1..]);
      Some([first.0] + rest)
  }

  function ReadLiteral(s: seq<byte>): Option<seq<byte>> {
    if s == [] || s[0] != QUOTE then None else ReadBody(s[1..])
  }

  lemma OctalDigits(b: byte)
    ensures 0 <= b / 64 < 4 && 0 <= b / 8 % 8 < 8 && 0 <= b % 8 < 8
    ensures 64 * (b / 64) + 8 * (b / 8 % 8) + b % 8 == b
  {
  }

  /** Three octal digits are read as the byte, whatever follows. */
  lemma OctalReadBack(b: byte, rest: seq<byte>)
    ensures OctalLength(Octal(b) + rest) == 3 && OctalValue(Octal(b)) == b
  {
    OctalDigits(b);
    var ds := Octal(b);
    var s := ds + rest;
    assert s[0] == ds[0] && s[1] == ds[1] && s[2] == ds[2];
    assert ds[..2][..1][..0] == [] && ds[..2][..1] == [ds[0]] && ds[..2] == [ds[0], ds[1]];
    assert OctalValue([ds[0]]) == b / 64;
    assert OctalValue(ds[..2]) == 8 * (b / 64) + b / 8 % 8;
  }

  /** An escape is read as its byte, whatever follows. */
  lemma EscapeReadBack(b: byte, rest: seq<byte>)
    ensures Denotes(Escape(b) + rest) == Some((b, |Escape(b)|))
    ensures Escape(b)[0] != QUOTE
  {
    hide Octal, OctalValue, OctalLength;
    var s := Escape(b) + rest;
    if b == QUOTE || b == BACKSLASH || b == QUESTION {
      assert s[0] == BACKSLASH && s[1] == b;
      NoOctal(s[1..]);
    } else if !(0x20 <= b < 0x7F) {
      OctalReadBack(b, rest);
      assert s[1..] == Octal(b) + rest;
      assert s[1..1 + 3] == Octal(b);
    }
  }

  lemma NoOctal(s: seq<byte>)
    requires s != [] && !OctalDigit(s[0])
    ensures OctalLength(s) == 0
  {
  }

  lemma {:induction false} BodyReadBack(bs: seq<byte>)
    ensures ReadBody(Body(bs) + [QUOTE]) == Some(bs)
  {
    hide Escape, Denotes;
    if bs != [] {
      var e, rest := Escape(bs[0]), Body(bs[1..]) + [QUOTE];
      var s := Body(bs) + [QUOTE];
      assert s == e + rest;
      EscapeReadBack(bs[0], rest);
      BodyReadBack(bs[1..]);
      assert s[0] == e[0] && s[|e|..] == rest;
      assert bs == [bs[0]] + bs[1..];
    }
  }

  /** A C compiler stores exactly the bytes of the text. */
  lemma LiteralReadBack(bs: seq<byte>)
    ensures ReadLiteral(Literal(bs)) == Some(bs)
  {
    BodyReadBack(bs);
    assert Literal(bs)[1..] == Body(bs) + [QUOTE];
  }

  /** Different texts have different literals. */
  lemma LiteralsAreInjective(a: seq<byte>, b: seq<byte>)
    requires Literal(a) == Literal(b)
    ensures a == b
  {
    hide Literal, ReadLiteral;
    LiteralReadBack(a);
    LiteralReadBack(b);
  }

  // ---------------------------------------------------------------------------
  // Trigraphs
  // ---------------------------------------------------------------------------

  /** No two adjacent question marks, so that no trigraph of section 5.2.1.1 can form. */
  predicate NoDoubleQuestion(s: seq<byte>) {
    forall i | 0 <= i < |s| - 1 :: !(s[i] == QUESTION && s[i + 1] == QUESTION)
  }

  /** Printable ASCII only: no character that ends a line. */
  predicate Printable(s: seq<byte>) {
    forall c | c in s :: 0x20 <= c < 0x7F
  }

  lemma EscapeShape(b: byte)
    ensures NoDoubleQuestion(Escape(b)) && Printable(Escape(b)) && Escape(b)[0] != QUESTION
  {
    OctalDigits(b);
  }

  lemma JoinQuestions(a: seq<byte>, b: seq<byte>)
    requires NoDoubleQuestion(a) && NoDoubleQuestion(b) && (b != [] ==> b[0] != QUESTION)
    ensures NoDoubleQuestion(a + b)
  {
    var s := a + b;
    forall i | 0 <= i < |s| - 1 ensures !(s[i] == QUESTION && s[i + 1] == QUESTION) {
      if i >= |a| { assert !(b[i - |a|] == QUESTION && b[i - |a| + 1] == QUESTION); }
    }
  }

  lemma {:induction false} BodyShape(bs: seq<byte>)
    ensures NoDoubleQuestion(Body(bs)) && Printable(Body(bs)) && (bs != [] ==> Body(bs) != [] && Body(bs)[0] != QUESTION)
  {
    hide NoDoubleQuestion, Escape;
    if bs == [] {
      NoQuestionAtAll();
    } else {
      EscapeShape(bs[0]);
      BodyShape(bs[1..]);
      JoinQuestions(Escape(bs[0]), Body(bs[1..]));
    }
  }

  lemma NoQuestionAtAll()
    ensures NoDoubleQuestion([]) && NoDoubleQuestion([QUOTE])
  {
  }

  lemma LiteralHasNoTrigraph(bs: seq<byte>)
    ensures NoDoubleQuestion(Literal(bs)) && Printable(Literal(bs))
  {
    hide NoDoubleQuestion, Body;
    BodyShape(bs);
    NoQuestionAtAll();
    JoinQuestions(Body(bs), [QUOTE]);
    assert [QUOTE] + Body(bs) + [QUOTE] == [QUOTE] + (Body(bs) + [QUOTE]);
    StartOf(bs);
    JoinQuestions([QUOTE], Body(bs) + [QUOTE]);
  }

  lemma StartOf(bs: seq<byte>)
    ensures (Body(bs) + [QUOTE])[0] != QUESTION
  {
    BodyShape(bs);
  }
}
