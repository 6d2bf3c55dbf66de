/** What Postgres does with text where it expects an `integer`: a quoted
    literal compared with an integer column (`video_id='5'`), or a query
    parameter bound to one (`WHERE id=$1`, node-postgres sends every value
    as text). The `int4in` of PostgreSQL 15 and earlier skips white space
    around the number, takes one optional sign and one or more decimal
    digits, and refuses anything else, or a value outside 32 bits, with a
    database error. The `0x`/`0o`/`0b` prefixes and `_` digit separators
    that PostgreSQL 16 also accepts are not modelled. */
module Pg {
  import opened Results
  import opened Js

  const Int4Min: int := -0x8000_0000
  const Int4Max: int := 0x7FFF_FFFF

  /** The range of an `integer` column. */
  predicate InInt4(n: int) {
    Int4Min <= n <= Int4Max
  }

  /** The white space `int4in` skips (C `isspace`). */
  predicate IsSpace(c: char) {
    c == ' ' || c == '\t' || c == '\n' || c == '\r' || c == '\U{B}' || c == '\U{C}'
  }

  predicate IsDigit(c: char) {
    '0' <= c <= '9'
  }

  predicate AllDigits(s: string) {
    forall i :: 0 <= i < |s| ==> IsDigit(s[i])
  }

  /** The number a run of decimal digits spells, most significant first. */
  function DigitsValue(s: string): nat
    requires AllDigits(s)
  {
    if s == [] then 0 else DigitsValue(s[..|s| - 1]) * 10 + (s[|s| - 1] as int - '0' as int)
  }

  /** `s` without its leading white space. */
  function SkipLeading(s: string): (r: string)
    ensures |r| <= |s|
    ensures r != [] ==> !IsSpace(r[0])
  {
    if s != [] && IsSpace(s[0]) then SkipLeading(s[1..]) else s
  }

  /** `s` without its trailing white space. */
  function SkipTrailing(s: string): (r: string)
    ensures r <= s
    ensures r != [] ==> !IsSpace(r[|r| - 1])
  {
    if s != [] && IsSpace(s[|s| - 1]) then SkipTrailing(s[..|s| - 1]) else s
  }

  /** A sign and digits, white space already removed. */
  function ParseTrimmed(t: string): (r: Option<int>)
    ensures r.Some? ==> InInt4(r.value)
  {
    var digits := if t != [] && (t[0] == '-' || t[0] == '+') then t[1..] else t;
    if digits == [] || !AllDigits(digits) then None
    else
      var v: int := DigitsValue(digits);
      var n := if t[0] == '-' then -v else v;
      if InInt4(n) then Some(n) else None
  }

  /** `int4in`: the integer `s` denotes, or None where Postgres raises
      "invalid input syntax for type integer" or "value out of range". */
  function ParseInt(s: string): (r: Option<int>)
    ensures r.Some? ==> InInt4(r.value)
  {
    ParseTrimmed(SkipTrailing(SkipLeading(s)))
  }

  /** The error a query raises for text that is not an integer. */
  const BadInteger: Error := ServerError("invalid input syntax for type integer")

  /** Decimal digits spell back the number they render. */
  lemma {:induction false} DigitsOfNat(n: nat)
    ensures AllDigits(NatToString(n)) && DigitsValue(NatToString(n)) == n
    decreases n
  {
    var s := NatToString(n);
    if n >= 10 {
      DigitsOfNat(n / 10);
      assert s[..|s| - 1] == NatToString(n / 10);
      assert s[|s| - 1] == DigitChar(n % 10);
    }
  }

  /** Text with no white space at either end is left as it is. */
  lemma NoSpaceKept(s: string)
    requires s != [] && !IsSpace(s[0]) && !IsSpace(s[|s| - 1])
    ensures SkipTrailing(SkipLeading(s)) == s
  {
  }

  /** A rendered number has no white space at either end. */
  lemma RenderedEnds(n: int)
    ensures var s := IntToString(n); s != [] && !IsSpace(s[0]) && !IsSpace(s[|s| - 1])
  {
    var m: nat := if n < 0 then -n else n;
    DigitsOfNat(m);
  }

  /** Digits with no sign denote their value. */
  lemma ParseUnsigned(d: string)
    requires d != [] && AllDigits(d) && InInt4(DigitsValue(d))
    ensures ParseTrimmed(d) == Some(DigitsValue(d))
  {
    assert IsDigit(d[0]);
  }

  /** A minus sign before digits negates their value. */
  lemma ParseMinus(d: string)
    requires d != [] && AllDigits(d) && InInt4(0 - DigitsValue(d))
    ensures ParseTrimmed(['-'] + d) == Some(0 - DigitsValue(d))
  {
    assert (['-'] + d)[1..] == d;
  }

  /** A plus sign before digits leaves their value. */
  lemma ParsePlus(d: string)
    requires d != [] && AllDigits(d) && InInt4(DigitsValue(d))
    ensures ParseTrimmed(['+'] + d) == Some(DigitsValue(d))
  {
    assert (['+'] + d)[1..] == d;
  }

  /** Postgres reads back the text `String(n)` renders: comparing a
      number's text with an integer column compares the number. */
  lemma ParseIntToString(n: int)
    requires InInt4(n)
    ensures ParseInt(IntToString(n)) == Some(n)
  {
    var s := IntToString(n);
    RenderedEnds(n);
    NoSpaceKept(s);
    var m: nat := if n < 0 then -n else n;
    DigitsOfNat(m);
    if n < 0 {
      assert s == ['-'] + NatToString(m);
      ParseMinus(NatToString(m));
    } else {
      ParseUnsigned(s);
    }
  }

  lemma ParseLeadingZero()
    ensures ParseInt("05") == Some(5)
  {
    var s := "05";
    NoSpaceKept(s);
    assert DigitsValue(s) == DigitsValue(s[..1]) * 10 + 5;
    assert DigitsValue(s[..1]) == DigitsValue([]) * 10 + 0;
    ParseUnsigned(s);
  }

  lemma ParsePadded()
    ensures ParseInt(" 5 ") == Some(5)
  {
    assert SkipLeading(" 5 ") == "5 ";
    assert SkipTrailing("5 ") == "5";
    ParseUnsigned("5");
  }

  lemma ParseSigned()
    ensures ParseInt("+5") == Some(5)
    ensures ParseInt("-0") == Some(0)
  {
    NoSpaceKept("+5");
    NoSpaceKept("-0");
    assert "+5" == ['+'] + "5";
    assert "-0" == ['-'] + "0";
    ParsePlus("5");
    ParseMinus("0");
  }

  lemma ParseRefused()
    ensures ParseInt("x") == None
    ensures ParseInt("5x") == None
    ensures ParseInt("") == None
  {
    NoSpaceKept("x");
    NoSpaceKept("5x");
    assert !IsDigit("5x"[1]);
  }
}
