/**
 The two readings of the edit submit's `id` form field. The UPDATE binds the
 text against the integer `id` column, so SQLite converts it as a number
 before comparing; the redirect after the commit calls `int()` on the same
 text, under Python 2.7, the language of the `pypy` interpreter the program
 names as its own. The two accept different spellings.
 */
module IdText {
  import opened Options
  import opened Decimal

  /** The ASCII characters Python 2.7's `int()` takes as blanks in the text of a form field. */
  const PythonSpace: set<char> :=
    {' ', '\t', '\n', '\r', '\U{000B}', '\U{000C}', '\U{001C}', '\U{001D}', '\U{001E}', '\U{001F}'}

  /** The characters SQLite skips around a number it reads from text. */
  const SqliteSpace: set<char> := {' ', '\t', '\n', '\r', '\U{000B}', '\U{000C}'}

  function TrimLeft(s: string, ws: set<char>): (r: string)
    ensures |r| <= |s| && r == s[|s| - |r|..]
    ensures |r| > 0 ==> r[0] !in ws
    ensures forall i :: 0 <= i < |s| - |r| ==> s[i] in ws
  {
    if |s| > 0 && s[0] in ws then
      var r := TrimLeft(s[1..], ws);
      TrimLeftStep(s, ws, s[1..], r);
      r
    else s
  }

  lemma TrimLeftStep(s: string, ws: set<char>, back: string, r: string)
    requires |s| > 0 && s[0] in ws && back == s[1..]
    requires |r| <= |back| && r == back[|back| - |r|..]
    requires forall i :: 0 <= i < |back| - |r| ==> back[i] in ws
    ensures r == s[|s| - |r|..]
    ensures forall i :: 0 <= i < |s| - |r| ==> s[i] in ws
  {
    forall i | 0 <= i < |s| - |r|
      ensures s[i] in ws
    {
      if i > 0 {
        assert s[i] == back[i - 1];
      }
    }
  }

  function TrimRight(s: string, ws: set<char>): (r: string)
    ensures |r| <= |s| && r == s[..|r|]
    ensures |r| > 0 ==> r[|r| - 1] !in ws
    ensures forall i :: |r| <= i < |s| ==> s[i] in ws
  {
    if |s| > 0 && s[|s| - 1] in ws then
      var r := TrimRight(s[..|s| - 1], ws);
      TrimRightStep(s, ws, s[..|s| - 1], r);
      r
    else s
  }

  lemma TrimRightStep(s: string, ws: set<char>, front: string, r: string)
    requires |s| > 0 && s[|s| - 1] in ws && front == s[..|s| - 1]
    requires |r| <= |front| && r == front[..|r|]
    requires forall i :: |r| <= i < |front| ==> front[i] in ws
    ensures r == s[..|r|]
    ensures forall i :: |r| <= i < |s| ==> s[i] in ws
  {
    forall i | |r| <= i < |s|
      ensures s[i] in ws
    {
      if i < |s| - 1 {
        assert s[i] == front[i];
      }
    }
  }

  /** `s` without the characters of `ws` at either end. */
  function Trim(s: string, ws: set<char>): string {
    TrimRight(TrimLeft(s, ws), ws)
  }

  /** Trimming keeps every character that is not blank. */
  lemma TrimKeeps(s: string, ws: set<char>, c: char)
    requires c !in ws
    ensures c in s <==> c in Trim(s, ws)
  {
    if c in s {
      TrimKeepsFound(s, ws, c);
    }
    if c in Trim(s, ws) {
      var l := TrimLeft(s, ws);
      var j :| 0 <= j < |Trim(s, ws)| && Trim(s, ws)[j] == c;
      assert l[j] == c;
      assert s[j + (|s| - |l|)] == c;
    }
  }

  lemma TrimKeepsFound(s: string, ws: set<char>, c: char)
    requires c !in ws && c in s
    ensures c in Trim(s, ws)
  {
    var i :| 0 <= i < |s| && s[i] == c;
    var l := TrimLeft(s, ws);
    var j := TrimLeftKeeps(s, ws, i);
    TrimRightKeeps(l, ws, j);
    assert TrimRight(l, ws)[j] == c;
  }

  /** A non-blank character at `i` is at the returned index after trimming the left end. */
  lemma TrimLeftKeeps(s: string, ws: set<char>, i: int) returns (j: int)
    requires 0 <= i < |s| && s[i] !in ws
    ensures 0 <= j < |TrimLeft(s, ws)| && TrimLeft(s, ws)[j] == s[i]
  {
    var l := TrimLeft(s, ws);
    j := i - (|s| - |l|);
    assert s[|s| - |l|..][j] == s[i];
  }

  /** Trimming the right end keeps a non-blank character where it is. */
  lemma TrimRightKeeps(s: string, ws: set<char>, j: int)
    requires 0 <= j < |s| && s[j] !in ws
    ensures j < |TrimRight(s, ws)| && TrimRight(s, ws)[j] == s[j]
  {
  }

  lemma DigitIsNotBlank(c: char)
    requires IsDigit(c)
    ensures c !in PythonSpace && c !in SqliteSpace
  {
  }

  /** Text with no blank at either end is its own trim. */
  lemma TrimUnpadded(s: string, ws: set<char>)
    requires |s| > 0 && s[0] !in ws && s[|s| - 1] !in ws
    ensures Trim(s, ws) == s
  {
  }

  /** An optional leading sign: whether it is a minus, and the text after it. */
  function SplitSign(t: string): (bool, string) {
    if |t| > 0 && (t[0] == '-' || t[0] == '+') then (t[0] == '-', t[1..]) else (false, t)
  }

  lemma SplitSignKeeps(t: string, c: char)
    requires c in t && c != '-' && c != '+'
    ensures c in SplitSign(t).1
  {
    if |t| > 0 && (t[0] == '-' || t[0] == '+') {
      var i :| 0 <= i < |t| && t[i] == c;
      assert t[1..][i - 1] == c;
    }
  }

  function Signed(negative: bool, v: nat): int {
    var x: int := v;
    if negative then -x else x
  }

  function Pow10(k: nat): (p: nat)
    ensures p >= 1
  {
    if k == 0 then 1 else 10 * Pow10(k - 1)
  }

  // ----- Python 2.7's int() in base 10 -----

  /**
   `int(text)` as Python 2.7 reads text in base 10: blanks at either end, an
   optional sign, blanks after the sign, then at least one digit; anything
   else raises. Past the machine word the result is a `long`, so the value is
   unbounded.
   */
  function PythonInt(text: string): Option<int> {
    var (negative, u) := SplitSign(Trim(text, PythonSpace));
    AfterSign(negative, u)
  }

  /** The digits after the sign, once any blanks right after it are skipped. */
  function AfterSign(negative: bool, u: string): Option<int> {
    var d := TrimLeft(u, PythonSpace);
    if |d| > 0 && AllDigits(d) then Some(Signed(negative, DigitsValue(d))) else None
  }

  /** `int()` raises on any character that is not a digit, a blank or a sign: a point, an exponent, an underscore. */
  lemma PythonIntRejects(text: string, c: char)
    requires c in text && !IsDigit(c) && c !in PythonSpace && c != '-' && c != '+'
    ensures PythonInt(text) == None
  {
    TrimKeeps(text, PythonSpace, c);
    SplitSignKeeps(Trim(text, PythonSpace), c);
    var u := SplitSign(Trim(text, PythonSpace)).1;
    var i :| 0 <= i < |u| && u[i] == c;
    var j := TrimLeftKeeps(u, PythonSpace, i);
    assert !IsDigit(TrimLeft(u, PythonSpace)[j]);
  }

  /** The decimal point, the exponent letters and the underscore are neither digits, blanks nor signs. */
  lemma ForeignMark(c: char)
    requires c == '.' || c == 'e' || c == 'E' || c == '_'
    ensures !IsDigit(c) && c !in PythonSpace && c != '-' && c != '+'
  {
  }

  /** A sign and plain digits, once the blanks are off, read as the signed value. */
  lemma PythonIntOfSignedDigits(text: string, negative: bool, u: string)
    requires SplitSign(Trim(text, PythonSpace)) == (negative, u)
    requires |u| > 0 && AllDigits(u)
    ensures PythonInt(text) == Some(Signed(negative, DigitsValue(u)))
    ensures negative ==> PythonInt(text) == Some(-(DigitsValue(u) as int))
  {
    DigitIsNotBlank(u[0]);
    TrimLeftUnpadded(u, PythonSpace);
    PythonIntOfSplit(text, negative, u);
    AfterSignOfDigits(negative, u, u);
  }

  lemma TrimLeftUnpadded(u: string, ws: set<char>)
    requires |u| > 0 && u[0] !in ws
    ensures TrimLeft(u, ws) == u
  {
  }

  /** `int()` reads the text through its sign and what follows it. */
  lemma PythonIntOfSplit(text: string, negative: bool, u: string)
    requires SplitSign(Trim(text, PythonSpace)) == (negative, u)
    ensures PythonInt(text) == AfterSign(negative, u)
  {
  }

  /** `int()` reads plain digits as their value. */
  lemma PythonIntOfDigits(text: string)
    requires |text| > 0 && AllDigits(text)
    ensures PythonInt(text) == Some(DigitsValue(text))
  {
    DigitIsNotBlank(text[0]);
    DigitIsNotBlank(text[|text| - 1]);
    TrimUnpadded(text, PythonSpace);
    PythonIntOfSignedDigits(text, false, text);
  }

  // ----- SQLite's reading of text as a number -----

  /** The longest run of digits at the start of `s`, and what follows it. */
  function TakeDigits(s: string): (p: (string, string))
    ensures p.0 + p.1 == s && AllDigits(p.0)
    ensures p.1 != [] ==> !IsDigit(p.1[0])
  {
    if |s| > 0 && IsDigit(s[0]) then
      var q := TakeDigits(s[1..]);
      PrependDigit(s, q.0, q.1);
      ([s[0]] + q.0, q.1)
    else ([], s)
  }

  lemma PrependDigit(s: string, d: string, r: string)
    requires |s| > 0 && IsDigit(s[0]) && AllDigits(d) && d + r == s[1..]
    ensures AllDigits([s[0]] + d) && [s[0]] + d + r == s
  {
    assert [s[0]] + d + r == [s[0]] + s[1..] == s;
    AllDigitsConcat([s[0]], d);
  }

  lemma {:induction false} TakeAllDigits(s: string)
    requires AllDigits(s)
    ensures TakeDigits(s) == (s, [])
  {
    if |s| > 0 {
      TakeAllDigits(s[1..]);
      assert [s[0]] + s[1..] == s;
    }
  }

  lemma NonDigitFollows(s: string, c: char)
    requires c in s && !IsDigit(c)
    ensures c in TakeDigits(s).1
  {
    var p := TakeDigits(s);
    var i :| 0 <= i < |s| && s[i] == c;
    if i >= |p.0| {
      assert p.1[i - |p.0|] == c;
    }
  }

  /** An exponent clause `e`/`E`, optional sign, digits; or nothing at all. */
  function Exponent(r: string): Option<int> {
    if r == [] then Some(0)
    else if r[0] != 'e' && r[0] != 'E' then None
    else
      var (negative, w) := SplitSign(r[1..]);
      if |w| > 0 && AllDigits(w) then Some(Signed(negative, DigitsValue(w))) else None
  }

  lemma ExponentRejectsUnderscore(r: string)
    requires '_' in r
    ensures Exponent(r) == None
  {
    if r[0] == 'e' || r[0] == 'E' {
      var i :| 0 <= i < |r| && r[i] == '_';
      assert r[1..][i - 1] == '_';
      SplitSignKeeps(r[1..], '_');
      var w := SplitSign(r[1..]).1;
      var j :| 0 <= j < |w| && w[j] == '_';
      assert !IsDigit(w[j]);
    }
  }

  lemma AllDigitsConcat(a: string, b: string)
    requires AllDigits(a) && AllDigits(b)
    ensures AllDigits(a + b)
  {
    assert forall i :: 0 <= i < |a + b| ==> (a + b)[i] == if i < |a| then a[i] else b[i - |a|];
  }

  /**
   The integer `m * 10^k`, signed, when it is an integer: each negative
   power takes one trailing zero off `m`, and a non-zero digit in its way
   makes the value fractional.
   */
  function ExactInteger(negative: bool, m: nat, k: int): Option<int>
    decreases if k >= 0 then k else -k
  {
    if k == 0 then Some(Signed(negative, m))
    else if k > 0 then ExactInteger(negative, 10 * m, k - 1)
    else if m % 10 == 0 then ExactInteger(negative, m / 10, k + 1)
    else None
  }

  /** Unsigned number text: whole digits, an optional point and fraction digits, and what is left. */
  datatype Mantissa = Mantissa(whole: string, fraction: string, rest: string)

  function SplitMantissa(u: string): (m: Mantissa)
    ensures AllDigits(m.whole) && AllDigits(m.fraction)
  {
    var (whole, afterWhole) := TakeDigits(u);
    if |afterWhole| > 0 && afterWhole[0] == '.' then
      var (fraction, rest) := TakeDigits(afterWhole[1..]);
      Mantissa(whole, fraction, rest)
    else Mantissa(whole, [], afterWhole)
  }

  /**
   The integer a bound text compares equal to under the `id` column's
   numeric affinity: blanks at either end, an optional sign, digits with an
   optional decimal point, and an optional exponent, whose exact value is
   an integer. Any other text stays text and equals no id.
   */
  function SqliteInteger(text: string): Option<int> {
    var (negative, u) := SplitSign(Trim(text, SqliteSpace));
    MantissaInteger(negative, SplitMantissa(u))
  }

  /** The integer a split number text stands for, when it stands for one. */
  function MantissaInteger(negative: bool, m: Mantissa): Option<int>
    requires AllDigits(m.whole) && AllDigits(m.fraction)
  {
    if |m.whole| + |m.fraction| == 0 then None
    else
      AllDigitsConcat(m.whole, m.fraction);
      match Exponent(m.rest)
      case None => None
      case Some(e) => ExactInteger(negative, DigitsValue(m.whole + m.fraction), e - |m.fraction|)
  }

  lemma UnderscoreInRest(u: string)
    requires '_' in u
    ensures '_' in SplitMantissa(u).rest
  {
    NonDigitFollows(u, '_');
    var afterWhole := TakeDigits(u).1;
    if |afterWhole| > 0 && afterWhole[0] == '.' {
      var i :| 0 <= i < |afterWhole| && afterWhole[i] == '_';
      assert afterWhole[1..][i - 1] == '_';
      NonDigitFollows(afterWhole[1..], '_');
    }
  }

  /** SQLite reads no number from text holding an underscore, so it matches no id. */
  lemma SqliteIntegerRejectsUnderscore(text: string)
    requires '_' in text
    ensures SqliteInteger(text) == None
  {
    TrimKeeps(text, SqliteSpace, '_');
    SplitSignKeeps(Trim(text, SqliteSpace), '_');
    UnderscoreInRest(SplitSign(Trim(text, SqliteSpace)).1);
    ExponentRejectsUnderscore(SplitMantissa(SplitSign(Trim(text, SqliteSpace)).1).rest);
  }

  /** A sign and plain digits, once the blanks are off, read as the signed value. */
  lemma SqliteIntegerOfSignedDigits(text: string, negative: bool, u: string)
    requires SplitSign(Trim(text, SqliteSpace)) == (negative, u)
    requires |u| > 0 && AllDigits(u)
    ensures SqliteInteger(text) == Some(Signed(negative, DigitsValue(u)))
    ensures negative ==> SqliteInteger(text) == Some(-(DigitsValue(u) as int))
  {
    PlainMantissa(negative, u);
    SqliteIntegerOfSplit(text, negative, u);
    assert Signed(true, DigitsValue(u)) == -(DigitsValue(u) as int);
  }

  lemma PlainMantissa(negative: bool, u: string)
    requires |u| > 0 && AllDigits(u)
    ensures MantissaInteger(negative, SplitMantissa(u)) == Some(Signed(negative, DigitsValue(u)))
  {
    TakeAllDigits(u);
    assert SplitMantissa(u) == Mantissa(u, [], []);
    assert u + [] == u;
  }

  /** SQLite reads plain digits as their value. */
  lemma SqliteIntegerOfDigits(text: string)
    requires |text| > 0 && AllDigits(text)
    ensures SqliteInteger(text) == Some(DigitsValue(text))
  {
    DigitIsNotBlank(text[0]);
    DigitIsNotBlank(text[|text| - 1]);
    TrimUnpadded(text, SqliteSpace);
    SqliteIntegerOfSignedDigits(text, false, text);
  }

  // ----- What the two readings make of ids -----

  /** The spelling of an id reads back as the id under both readings. */
  lemma ReadingsOfSpelling(n: nat)
    ensures SqliteInteger(NatToString(n)) == Some(n)
    ensures PythonInt(NatToString(n)) == Some(n)
  {
    DigitsValueOfNatToString(n);
    SqliteIntegerOfDigits(NatToString(n));
    PythonIntOfDigits(NatToString(n));
  }

  lemma SignOfMinus(s: string)
    requires |s| > 0 && IsDigit(s[|s| - 1])
    ensures SplitSign(Trim("-" + s, SqliteSpace)) == (true, s)
    ensures SplitSign(Trim("-" + s, PythonSpace)) == (true, s)
  {
    var m := "-" + s;
    assert m[1..] == s && m[0] == '-' && m[|m| - 1] == s[|s| - 1];
    DigitIsNotBlank(m[|m| - 1]);
    TrimUnpadded(m, SqliteSpace);
    TrimUnpadded(m, PythonSpace);
  }

  /** A minus sign before digits reads as the negated value under both readings. */
  lemma ReadingsOfMinus(s: string)
    requires |s| > 0 && AllDigits(s)
    ensures SqliteInteger("-" + s) == Some(-(DigitsValue(s) as int))
    ensures PythonInt("-" + s) == Some(-(DigitsValue(s) as int))
  {
    SignOfMinus(s);
    SqliteIntegerOfSignedDigits("-" + s, true, s);
    PythonIntOfSignedDigits("-" + s, true, s);
  }

  /** A minus sign before the spelling of n reads as -n under both readings. */
  lemma ReadingsOfNegated(n: nat)
    ensures SqliteInteger("-" + NatToString(n)) == Some(-(n as int))
    ensures PythonInt("-" + NatToString(n)) == Some(-(n as int))
  {
    DigitsValueOfNatToString(n);
    ReadingsOfMinus(NatToString(n));
  }

  lemma {:induction false} TakeDigitsOfSplit(d: string, r: string)
    requires AllDigits(d) && (r == [] || !IsDigit(r[0]))
    ensures TakeDigits(d + r) == (d, r)
  {
    if |d| > 0 {
      assert (d + r)[1..] == d[1..] + r;
      TakeDigitsOfSplit(d[1..], r);
      assert [d[0]] + d[1..] == d;
    } else {
      assert d + r == r;
    }
  }

  lemma ValueOfAppendedZero(s: string)
    requires AllDigits(s)
    ensures AllDigits(s + "0") && DigitsValue(s + "0") == 10 * DigitsValue(s)
  {
    AllDigitsConcat(s, "0");
    assert (s + "0")[..|s|] == s;
  }

  lemma NoSignOnDigits(s: string)
    requires |s| > 0 && IsDigit(s[0])
    ensures SplitSign(s) == (false, s)
  {
  }

  lemma TrimPadded(s: string, ws: set<char>)
    requires |s| > 0 && s[0] !in ws && s[|s| - 1] !in ws && ' ' in ws
    ensures Trim(" " + s + " ", ws) == s
  {
    var t := " " + s + " ";
    assert t[1..] == s + " ";
    assert TrimLeft(t, ws) == s + " ";
    assert (s + " ")[..|s|] == s;
  }

  /** The parts SQLite sees in digits followed by `.0`. */
  lemma MantissaOfPointZero(s: string)
    requires AllDigits(s)
    ensures SplitMantissa(s + ".0") == Mantissa(s, "0", [])
  {
    TakeDigitsOfSplit(s, ".0");
    assert ".0"[1..] == "0";
    TakeAllDigits("0");
  }

  /** SQLite reads the text through the sign and the split mantissa. */
  lemma SqliteIntegerOfSplit(text: string, negative: bool, u: string)
    requires SplitSign(Trim(text, SqliteSpace)) == (negative, u)
    ensures SqliteInteger(text) == MantissaInteger(negative, SplitMantissa(u))
  {
  }

  /** A mantissa with digits and a well-formed exponent stands for the exact value, if integral. */
  lemma MantissaIntegerOfExponent(negative: bool, m: Mantissa, e: int)
    requires AllDigits(m.whole) && AllDigits(m.fraction)
    requires |m.whole| + |m.fraction| > 0 && Exponent(m.rest) == Some(e)
    ensures AllDigits(m.whole + m.fraction)
    ensures MantissaInteger(negative, m) == ExactInteger(negative, DigitsValue(m.whole + m.fraction), e - |m.fraction|)
  {
    AllDigitsConcat(m.whole, m.fraction);
  }

  /** SQLite's reading once the text is split into sign, mantissa parts and exponent. */
  lemma SqliteIntegerOfParts(text: string, negative: bool, u: string, m: Mantissa, e: int)
    requires SplitSign(Trim(text, SqliteSpace)) == (negative, u)
    requires SplitMantissa(u) == m && |m.whole| + |m.fraction| > 0 && Exponent(m.rest) == Some(e)
    ensures AllDigits(m.whole + m.fraction)
    ensures SqliteInteger(text) == ExactInteger(negative, DigitsValue(m.whole + m.fraction), e - |m.fraction|)
  {
    SqliteIntegerOfSplit(text, negative, u);
    MantissaIntegerOfExponent(negative, m, e);
  }

  lemma ExactTenth(v: nat)
    ensures ExactInteger(false, 10 * v, -1) == Some(v)
  {
    assert (10 * v) / 10 == v;
  }

  /** The unpadded, unsigned text t is split by SQLite as itself. */
  lemma SqliteSeesDigitsFirst(t: string)
    requires |t| > 0 && IsDigit(t[0]) && IsDigit(t[|t| - 1])
    ensures SplitSign(Trim(t, SqliteSpace)) == (false, t)
  {
    DigitIsNotBlank(t[0]);
    DigitIsNotBlank(t[|t| - 1]);
    TrimUnpadded(t, SqliteSpace);
    NoSignOnDigits(t);
  }

  lemma SqliteIntegerOfPointZero(s: string)
    requires |s| > 0 && AllDigits(s)
    ensures SqliteInteger(s + ".0") == Some(DigitsValue(s))
  {
    var t := s + ".0";
    assert t[0] == s[0] && t[|t| - 1] == '0';
    SqliteSeesDigitsFirst(t);
    MantissaOfPointZero(s);
    SqliteIntegerOfParts(t, false, t, Mantissa(s, "0", []), 0);
    ValueOfAppendedZero(s);
    ExactTenth(DigitsValue(s));
  }

  /** Digits followed by `.0` match their value in SQLite, and `int()` raises on them. */
  lemma ReadingsOfPointZero(s: string)
    requires |s| > 0 && AllDigits(s)
    ensures SqliteInteger(s + ".0") == Some(DigitsValue(s))
    ensures PythonInt(s + ".0") == None
  {
    SqliteIntegerOfPointZero(s);
    assert (s + ".0")[|s|] == '.';
    ForeignMark('.');
    PythonIntRejects(s + ".0", '.');
  }

  /** The parts SQLite sees in digits, `e` and digits. */
  lemma MantissaOfExponent(m: string, x: string)
    requires AllDigits(m) && |x| > 0 && AllDigits(x)
    ensures SplitMantissa(m + ("e" + x)) == Mantissa(m, [], "e" + x)
    ensures Exponent("e" + x) == Some(DigitsValue(x))
  {
    TakeDigitsOfSplit(m, "e" + x);
    assert ("e" + x)[1..] == x;
    NoSignOnDigits(x);
  }

  lemma {:induction false} ExactScaled(v: nat, k: nat)
    ensures ExactInteger(false, v, k) == Some(v * Pow10(k))
    decreases k
  {
    if k > 0 {
      ExactScaled(10 * v, k - 1);
      assert 10 * v * Pow10(k - 1) == v * (10 * Pow10(k - 1));
    }
  }

  lemma SqliteIntegerOfScaled(t: string, m: string, r: string, e: int)
    requires SplitSign(Trim(t, SqliteSpace)) == (false, t)
    requires |m| > 0 && AllDigits(m)
    requires SplitMantissa(t) == Mantissa(m, [], r) && Exponent(r) == Some(e)
    ensures SqliteInteger(t) == ExactInteger(false, DigitsValue(m), e)
  {
    SqliteIntegerOfSplit(t, false, t);
    MantissaIntegerOfWhole(false, m, r, e);
  }

  /** A mantissa of whole digits only stands for those digits scaled by its exponent. */
  lemma MantissaIntegerOfWhole(negative: bool, m: string, r: string, e: int)
    requires |m| > 0 && AllDigits(m) && Exponent(r) == Some(e)
    ensures MantissaInteger(negative, Mantissa(m, [], r)) == ExactInteger(negative, DigitsValue(m), e)
  {
    assert m + [] == m;
  }

  lemma SqliteIntegerOfExponent(m: string, x: string)
    requires |m| > 0 && AllDigits(m) && |x| > 0 && AllDigits(x)
    ensures SqliteInteger(m + ("e" + x)) == Some(DigitsValue(m) * Pow10(DigitsValue(x)))
  {
    var t := m + ("e" + x);
    assert t[0] == m[0] && t[|t| - 1] == x[|x| - 1];
    SqliteSeesDigitsFirst(t);
    MantissaOfExponent(m, x);
    SqliteIntegerOfScaled(t, m, "e" + x, DigitsValue(x));
    ExactScaled(DigitsValue(m), DigitsValue(x));
  }

  /** Digits `m`, `e` and digits `x` match m·10^x in SQLite, and `int()` raises on them. */
  lemma ReadingsOfExponent(m: string, x: string)
    requires |m| > 0 && AllDigits(m) && |x| > 0 && AllDigits(x)
    ensures SqliteInteger(m + "e" + x) == Some(DigitsValue(m) * Pow10(DigitsValue(x)))
    ensures PythonInt(m + "e" + x) == None
  {
    assert m + "e" + x == m + ("e" + x);
    SqliteIntegerOfExponent(m, x);
    assert (m + "e" + x)[|m|] == 'e';
    ForeignMark('e');
    PythonIntRejects(m + "e" + x, 'e');
  }

  /** Digits with a blank at either end read as their value under both readings. */
  lemma ReadingsOfPadded(s: string)
    requires |s| > 0 && AllDigits(s)
    ensures SqliteInteger(" " + s + " ") == Some(DigitsValue(s))
    ensures PythonInt(" " + s + " ") == Some(DigitsValue(s))
  {
    DigitIsNotBlank(s[0]);
    DigitIsNotBlank(s[|s| - 1]);
    TrimPadded(s, SqliteSpace);
    TrimPadded(s, PythonSpace);
    NoSignOnDigits(s);
    SqliteIntegerOfSignedDigits(" " + s + " ", false, s);
    PythonIntOfSignedDigits(" " + s + " ", false, s);
  }

  /** Digits grouped by an underscore match no id in SQLite, and `int()` raises on them. */
  lemma ReadingsOfUnderscore(a: string, b: string)
    requires |a| > 0 && AllDigits(a) && |b| > 0 && AllDigits(b)
    ensures SqliteInteger(a + "_" + b) == None
    ensures PythonInt(a + "_" + b) == None
  {
    var t := a + "_" + b;
    assert t[|a|] == '_';
    SqliteIntegerRejectsUnderscore(t);
    ForeignMark('_');
    PythonIntRejects(t, '_');
  }

  /** What SQLite and `int()` see in a minus sign, a blank and digits, with no blank at either end. */
  lemma SignThenBlank(s: string)
    requires |s| > 0 && AllDigits(s)
    ensures SplitSign(Trim("- " + s, SqliteSpace)) == (true, " " + s)
    ensures SplitSign(Trim("- " + s, PythonSpace)) == (true, " " + s)
  {
    var t := "- " + s;
    assert t[0] == '-' && t[|t| - 1] == s[|s| - 1] && t[1..] == " " + s;
    DigitIsNotBlank(s[|s| - 1]);
    TrimUnpadded(t, SqliteSpace);
    TrimUnpadded(t, PythonSpace);
  }

  /** Text that starts with a blank has no digits where SQLite looks for them. */
  lemma MantissaOfBlank(u: string)
    requires |u| > 0 && u[0] == ' '
    ensures SplitMantissa(u) == Mantissa([], [], u)
  {
    assert TakeDigits(u) == ([], u);
  }

  /** `int()` skips one blank after the sign before the digits. */
  lemma AfterSignOfBlank(s: string)
    requires |s| > 0 && AllDigits(s)
    ensures AfterSign(true, " " + s) == Some(-(DigitsValue(s) as int))
  {
    DigitIsNotBlank(s[0]);
    TrimOneBlank(s, PythonSpace);
    AfterSignOfDigits(true, " " + s, s);
  }

  lemma AfterSignOfDigits(negative: bool, u: string, d: string)
    requires TrimLeft(u, PythonSpace) == d && |d| > 0 && AllDigits(d)
    ensures AfterSign(negative, u) == Some(Signed(negative, DigitsValue(d)))
    ensures negative ==> AfterSign(negative, u) == Some(-(DigitsValue(d) as int))
  {
    assert Signed(true, DigitsValue(d)) == -(DigitsValue(d) as int);
  }

  lemma TrimOneBlank(s: string, ws: set<char>)
    requires |s| > 0 && s[0] !in ws && ' ' in ws
    ensures TrimLeft(" " + s, ws) == s
  {
    assert (" " + s)[1..] == s;
  }

  /**
   A blank between the minus sign and the digits: SQLite reads no number, so
   the text matches no id, while `int()` skips the blank and reads the
   negated value.
   */
  lemma ReadingsOfBlankAfterSign(s: string)
    requires |s| > 0 && AllDigits(s)
    ensures SqliteInteger("- " + s) == None
    ensures PythonInt("- " + s) == Some(-(DigitsValue(s) as int))
  {
    SignThenBlank(s);
    SqliteIntegerOfSplit("- " + s, true, " " + s);
    MantissaOfBlank(" " + s);
    AfterSignOfBlank(s);
  }
}
