/** Lists of names, names split at a dot, and the lengths of a text in UTF-8 and in C. */
module Names {

  /** No name occurs twice. */
  predicate Distinct(names: seq<string>) {
    forall i, j | 0 <= i < j < |names| :: names[i] != names[j]
  }

  /** Position of the first dot, or the length. */
  function Dot(name: string): (d: nat)
    ensures d <= |name| && (d < |name| ==> name[d] == '.')
    ensures forall j | 0 <= j < d :: name[j] != '.'
  {
    if name == "" || name[0] == '.' then 0
    else
      var d := Dot(name[1..]);
      assert forall j | 1 <= j < d + 1 :: name[j] == name[1..][j - 1];
      d + 1
  }

  /** Bytes of a character in UTF-8 (section 3 of RFC 3629). */
  function Utf8Bytes(c: char): (n: nat)
    ensures 1 <= n <= 4
  {
    if c as int < 0x80 then 1 else if c as int < 0x800 then 2 else if c as int < 0x1_0000 then 3 else 4
  }

  /** Bytes of a text in UTF-8. */
  function Utf8Length(s: string): (n: nat)
    ensures |s| <= n <= 4 * |s|
  {
    if s == "" then 0 else Utf8Bytes(s[0]) + Utf8Length(s[1..])
  }

  /** Characters are bytes exactly when all of them are ASCII. */
  lemma {:induction false} AsciiIff(s: string)
    ensures Utf8Length(s) == |s| <==> forall c | c in s :: c as int < 0x80
  {
    if s != "" {
      AsciiIff(s[1..]);
      assert Utf8Length(s) == |s| <==> s[0] as int < 0x80 && Utf8Length(s[1..]) == |s[1..]|;
      assert s[0] in s && forall c :: c in s <==> c == s[0] || c in s[1..];
    }
  }

  function Repeated(c: char, n: nat): (s: string)
    ensures |s| == n && forall x | x in s :: x == c
  {
    seq(n, i => c)
  }

  lemma {:induction false} RepeatedLength(c: char, n: nat)
    ensures Utf8Length(Repeated(c, n)) == n * Utf8Bytes(c)
  {
    if n != 0 {
      RepeatedLength(c, n - 1);
      assert Repeated(c, n)[1..] == Repeated(c, n - 1);
      assert n * Utf8Bytes(c) == Utf8Bytes(c) + (n - 1) * Utf8Bytes(c);
    }
  }

  /** A text as the C string functions see it: up to the first null character. */
  function UntilNul(s: string): (t: string)
    ensures t <= s && Utf8Length(t) <= Utf8Length(s)
    ensures '\0' !in s ==> t == s
  {
    if s == "" || s[0] == '\0' then "" else
      var t := UntilNul(s[1..]);
      assert s == [s[0]] + s[1..] && ([s[0]] + t)[1..] == t;
      [s[0]] + t
  }
}
