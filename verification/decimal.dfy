/**
  Reading an integer flag value. The model reads the run of decimal digits at
  the start of the value, most significant digit first, in the style of atoi
  on an unsigned numeral; a value that does not start with a digit (the empty value
  of a bare flag, "NaN", "NotANumber") reads as 0.
*/
module Decimal {

  predicate IsDigit(c: char) {
    '0' <= c <= '9'
  }

  predicate AllDigits(s: string) {
    forall i :: 0 <= i < |s| ==> IsDigit(s[i])
  }

  function DigitValue(c: char): (d: nat)
    requires IsDigit(c)
    ensures d < 10
  {
    c as int - '0' as int
  }

  function DigitChar(d: nat): (c: char)
    requires d < 10
    ensures IsDigit(c) && DigitValue(c) == d
  {
    ('0' as int + d) as char
  }

  /** The number a sequence of digits denotes, most significant digit first. */
  function DigitsValue(ds: string): nat
    requires AllDigits(ds)
  {
    if ds == [] then 0 else DigitsValue(ds[..|ds| - 1]) * 10 + DigitValue(ds[|ds| - 1])
  }

  /** The number acc followed by the digits at the start of s: the scan that
      stops at the first character that is not a digit. */
  function ReadFrom(s: string, acc: nat): nat {
    if s == [] || !IsDigit(s[0]) then acc else ReadFrom(s[1..], acc * 10 + DigitValue(s[0]))
  }

  /** The integer a flag value reads as. */
  function ReadInt(s: string): nat {
    ReadFrom(s, 0)
  }

  /** A value that does not start with a digit reads as 0. */
  lemma ReadNonNumeric(s: string)
    requires s == [] || !IsDigit(s[0])
    ensures ReadInt(s) == 0
  {
  }

  /** One more digit at the end multiplies by ten and adds that digit. */
  lemma {:induction false} ReadFromAppend(p: string, c: char, acc: nat)
    requires AllDigits(p) && IsDigit(c)
    ensures ReadFrom(p + [c], acc) == ReadFrom(p, acc) * 10 + DigitValue(c)
    decreases |p|
  {
    if p == [] {
      assert [] + [c] == [c];
      assert [c][1..] == [];
    } else {
      assert (p + [c])[1..] == p[1..] + [c];
      ReadFromAppend(p[1..], c, acc * 10 + DigitValue(p[0]));
    }
  }

  /** A value made only of digits reads as the number it denotes. */
  lemma {:induction false} ReadAllDigits(ds: string)
    requires AllDigits(ds)
    ensures ReadInt(ds) == DigitsValue(ds)
    decreases |ds|
  {
    if ds != [] {
      var p := ds[..|ds| - 1];
      ReadAllDigits(p);
      assert ds == p + [ds[|ds| - 1]];
      ReadFromAppend(p, ds[|ds| - 1], 0);
    }
  }

  /** Reading stops at the first character that is not a digit: what follows
      the leading digits does not matter. */
  lemma {:induction false} ReadLeadingDigits(ds: string, rest: string, acc: nat)
    requires AllDigits(ds)
    requires rest == [] || !IsDigit(rest[0])
    ensures ReadFrom(ds + rest, acc) == ReadFrom(ds, acc)
    decreases |ds|
  {
    if ds == [] {
      assert ds + rest == rest;
    } else {
      assert (ds + rest)[0] == ds[0];
      assert (ds + rest)[1..] == ds[1..] + rest;
      ReadLeadingDigits(ds[1..], rest, acc * 10 + DigitValue(ds[0]));
    }
  }

  /** The decimal numeral of n, without leading zeros. */
  function DecimalString(n: nat): (s: string)
    ensures |s| >= 1 && AllDigits(s)
    ensures s[0] == '0' ==> n == 0
  {
    if n < 10 then [DigitChar(n)] else DecimalString(n / 10) + [DigitChar(n % 10)]
  }

  /** Reading the numeral of n gives n back. */
  lemma {:induction false} ReadDecimal(n: nat)
    ensures ReadInt(DecimalString(n)) == n
    decreases n
  {
    var s := DecimalString(n);
    ReadAllDigits(s);
    if n >= 10 {
      ReadDecimal(n / 10);
      var p := DecimalString(n / 10);
      assert s[..|s| - 1] == p;
      ReadAllDigits(p);
    }
  }
}
