/** The few string operations of Python that the backend relies on:
    `str.lower()`, `str(int)` and the `repr` of a tuple of ints. */
module Text {
  import opened Wrappers

  // ---------------------------------------------------------------- case

  /** `str.lower()` restricted to ASCII letters. */
  function LowerChar(c: char): char {
    if 'A' <= c <= 'Z' then (c as int + 32) as char else c
  }

  function Lower(s: string): (r: string)
    ensures |r| == |s|
    ensures forall i :: 0 <= i < |s| ==> r[i] == LowerChar(s[i])
  {
    seq(|s|, i requires 0 <= i < |s| => LowerChar(s[i]))
  }

  /** Lowering twice is lowering once. */
  lemma LowerIdempotent(s: string)
    ensures Lower(Lower(s)) == Lower(s)
  {
  }

  // ------------------------------------------------------------- decimal

  predicate IsDigit(c: char) {
    '0' <= c <= '9'
  }

  predicate AllDigits(s: string) {
    forall i :: 0 <= i < |s| ==> IsDigit(s[i])
  }

  function DigitChar(d: int): (c: char)
    requires 0 <= d < 10
    ensures IsDigit(c)
  {
    ('0' as int + d) as char
  }

  function DigitValue(c: char): (d: int)
    requires IsDigit(c)
    ensures 0 <= d < 10
  {
    c as int - '0' as int
  }

  /** `str(n)` for a non-negative int: its decimal digits, most significant first,
      with no leading zero. */
  function NatToString(n: nat): (s: string)
    ensures |s| > 0 && AllDigits(s)
    ensures n == 0 ==> s == "0"
    ensures n > 0 ==> s[0] != '0'
    decreases n
  {
    if n < 10 then [DigitChar(n)] else NatToString(n / 10) + [DigitChar(n % 10)]
  }

  /** The number a string of decimal digits denotes. */
  function DigitsValue(s: string): nat
    requires AllDigits(s)
  {
    if |s| == 0 then 0 else DigitsValue(s[..|s| - 1]) * 10 + DigitValue(s[|s| - 1])
  }

  lemma {:induction false} DigitsValueOfNatToString(n: nat)
    ensures DigitsValue(NatToString(n)) == n
    decreases n
  {
    if n >= 10 {
      var s := NatToString(n);
      DigitsValueOfNatToString(n / 10);
      assert s[..|s| - 1] == NatToString(n / 10);
    }
  }

  /** The length of the run of digits at the front of s. */
  function LeadingDigits(s: string): (k: nat)
    ensures k <= |s|
    ensures forall i :: 0 <= i < k ==> IsDigit(s[i])
    ensures k < |s| ==> !IsDigit(s[k])
  {
    if |s| == 0 || !IsDigit(s[0]) then 0 else 1 + LeadingDigits(s[1..])
  }

  /** The run of digits at the front of `d + rest` is d when rest does not go on with a digit. */
  lemma {:induction false} LeadingDigitsOfNumber(d: string, rest: string)
    requires AllDigits(d)
    requires rest == [] || !IsDigit(rest[0])
    ensures LeadingDigits(d + rest) == |d|
    decreases |d|
  {
    if |d| > 0 {
      assert (d + rest)[1..] == d[1..] + rest;
      LeadingDigitsOfNumber(d[1..], rest);
    }
  }

  /** Reads the decimal number at the front of s: its value and what follows it. */
  function ParseNat(s: string): (r: Option<(nat, string)>)
    ensures r.Some? ==> |r.value.1| < |s|
  {
    var k := LeadingDigits(s);
    if k == 0 then None else Some((DigitsValue(s[..k]), s[k..]))
  }

  /** Reading back a rendered number gives the number and leaves the rest. */
  lemma ParseNatToString(n: nat, rest: string)
    requires rest == [] || !IsDigit(rest[0])
    ensures ParseNat(NatToString(n) + rest) == Some((n, rest))
  {
    var d := NatToString(n);
    var s := d + rest;
    var k := LeadingDigits(s);
    LeadingDigitsOfNumber(d, rest);
    assert s[..k] == d;
    assert s[k..] == rest;
    DigitsValueOfNatToString(n);
  }

  /** `", ".join(str(x) for x in xs)`. */
  function Join(xs: seq<nat>): string {
    if |xs| == 0 then ""
    else if |xs| == 1 then NatToString(xs[0])
    else Join(xs[..|xs| - 1]) + ", " + NatToString(xs[|xs| - 1])
  }

  /** `repr` of a tuple of non-negative ints, such as a numpy shape: `(480, 640, 3)`,
      `(5,)`, `()`. */
  function TupleRepr(xs: seq<nat>): (s: string)
    ensures |s| >= 2 && s[0] == '(' && s[|s| - 1] == ')'
    ensures |xs| == 0 ==> s == "()"
    ensures |xs| == 1 ==> s == "(" + NatToString(xs[0]) + ",)"
    ensures |xs| == 2 ==> s == "(" + NatToString(xs[0]) + ", " + NatToString(xs[1]) + ")"
    ensures |xs| == 3 ==> s == "(" + NatToString(xs[0]) + ", " + NatToString(xs[1]) + ", " + NatToString(xs[2]) + ")"
  {
    if |xs| == 1 then "(" + NatToString(xs[0]) + ",)"
    else
      assert |xs| == 2 ==> Join(xs) == NatToString(xs[0]) + ", " + NatToString(xs[1]) by {
        if |xs| == 2 { assert xs[..1] == [xs[0]]; }
      }
      assert |xs| == 3 ==> Join(xs) == NatToString(xs[0]) + ", " + NatToString(xs[1]) + ", " + NatToString(xs[2]) by {
        if |xs| == 3 {
          var p := xs[..2];
          assert p[..1] == [xs[0]] && p[1] == xs[1];
          assert Join(p) == NatToString(xs[0]) + ", " + NatToString(xs[1]);
          assert Join(xs) == Join(p) + ", " + NatToString(xs[2]);
        }
      }
      "(" + Join(xs) + ")"
  }
}
