/** The JavaScript values and plain objects that reach the models from a
    request: filter objects, partial-update payloads, token payloads. */
module Js {
  import opened Results

  /** A primitive JavaScript value. Numbers are integers here. */
  datatype Value = Undefined | Null | Bool(b: bool) | Num(n: int) | Str(s: string)

  /** JavaScript truthiness: `if (v)` takes the branch. An empty string and
      the number 0 are falsy, just like a missing property. */
  predicate Truthy(v: Value) {
    match v
    case Undefined => false
    case Null => false
    case Bool(b) => b
    case Num(n) => n != 0
    case Str(s) => s != ""
  }

  /** A plain object: its own properties in the order `Object.keys` and
      `Object.values` enumerate them, which puts keys that are array
      indices ("0", "1", ...) first, in ascending numeric order, and the
      other keys after them in insertion order. An object is taken here
      already in that order; how insertion builds it is not modelled. */
  type Object = seq<(string, Value)>

  /** No property of `o` is named `key`. */
  predicate Absent(o: Object, key: string) {
    forall i :: 0 <= i < |o| ==> o[i].0 != key
  }

  /** Property access `o[key]`: the value of the first property named `key`,
      `undefined` when there is none. */
  function Prop(o: Object, key: string): (v: Value)
    ensures Absent(o, key) ==> v == Undefined
    ensures forall i :: 0 <= i < |o| && o[i].0 == key && Absent(o[..i], key) ==> v == o[i].1
  {
    if o == [] then Undefined
    else if o[0].0 == key then o[0].1
    else
      var rest := Prop(o[1..], key);
      forall i | 0 <= i < |o| && o[i].0 == key && Absent(o[..i], key) ensures rest == o[i].1 {
        assert o[1..][i - 1] == o[i];
        assert o[1..][..i - 1] == o[1..i];
      }
      rest
  }

  function DigitChar(d: nat): (c: char)
    requires d < 10
    ensures '0' <= c <= '9'
  {
    (('0' as int) + d) as char
  }

  /** Decimal rendering of a natural number, most significant digit first. */
  function NatToString(n: nat): (s: string)
    ensures |s| >= 1
    ensures forall i :: 0 <= i < |s| ==> '0' <= s[i] <= '9'
    ensures (n < 10) == (|s| == 1)
    decreases n
  {
    if n < 10 then [DigitChar(n)] else NatToString(n / 10) + [DigitChar(n % 10)]
  }

  /** `String(i)` for an integer. */
  function IntToString(i: int): string {
    if i < 0 then "-" + NatToString(-i) else NatToString(i)
  }

  /** Decimal rendering is injective on natural numbers. */
  lemma {:induction false} NatToStringInjective(a: nat, b: nat)
    ensures NatToString(a) == NatToString(b) <==> a == b
    decreases a
  {
    var sa, sb := NatToString(a), NatToString(b);
    if a >= 10 && b >= 10 {
      assert sa[..|sa| - 1] == NatToString(a / 10);
      assert sb[..|sb| - 1] == NatToString(b / 10);
      NatToStringInjective(a / 10, b / 10);
      assert sa[|sa| - 1] == DigitChar(a % 10);
      assert sb[|sb| - 1] == DigitChar(b % 10);
      if a != b {
        if a / 10 == b / 10 {
          assert sa[|sa| - 1] != sb[|sb| - 1];
        } else {
          assert |sa| != |sb| || sa[..|sa| - 1] != sb[..|sb| - 1];
        }
      }
    } else if a < 10 && b < 10 {
      assert sa[0] == DigitChar(a);
      assert sb[0] == DigitChar(b);
    } else {
      assert |sa| != |sb|;
    }
  }

  /** Distinct integers render differently, so comparing renderings is
      comparing the numbers. */
  lemma IntToStringInjective(a: int, b: int)
    ensures IntToString(a) == IntToString(b) <==> a == b
  {
    var sa, sb := IntToString(a), IntToString(b);
    if a < 0 && b < 0 {
      assert sa[1..] == NatToString(-a);
      assert sb[1..] == NatToString(-b);
      NatToStringInjective(-a, -b);
    } else if a < 0 {
      assert sa[0] == '-';
      assert '0' <= sb[0] <= '9';
    } else if b < 0 {
      assert sb[0] == '-';
      assert '0' <= sa[0] <= '9';
    } else {
      NatToStringInjective(a, b);
    }
  }

  lemma IntToStringInjectiveAll(b: int)
    ensures forall a :: IntToString(a) == IntToString(b) <==> a == b
  {
    forall a ensures IntToString(a) == IntToString(b) <==> a == b {
      IntToStringInjective(a, b);
    }
  }

  /** `String(v)`, also what a template literal `${v}` inserts. */
  function Display(v: Value): string {
    match v
    case Undefined => "undefined"
    case Null => "null"
    case Bool(b) => if b then "true" else "false"
    case Num(n) => IntToString(n)
    case Str(s) => s
  }

  /** The text node-postgres binds for a query parameter: null and
      undefined become SQL NULL, which equals nothing. */
  function SqlParam(v: Value): Option<string> {
    match v
    case Undefined => None
    case Null => None
    case _ => Some(Display(v))
  }
}
