/**
 The decimal numerals a template literal produces for a non-negative
 integer, and a strict parser that reads exactly those numerals back.
 */
module Decimal {
  import opened Options

  predicate IsDigit(c: char) {
    '0' <= c <= '9'
  }

  predicate AllDigits(s: string) {
    forall i :: 0 <= i < |s| ==> IsDigit(s[i])
  }

  /** A numeral as JavaScript prints an integer: non-empty, digits only,
      and no leading zero unless the numeral is "0" itself. */
  predicate Canonical(s: string) {
    && |s| >= 1
    && AllDigits(s)
    && (|s| > 1 ==> s[0] != '0')
  }

  function DigitChar(d: nat): (c: char)
    requires d < 10
    ensures IsDigit(c)
    ensures d == 0 <==> c == '0'
  {
    ('0' as int + d) as char
  }

  function DigitValue(c: char): (d: nat)
    requires IsDigit(c)
    ensures d < 10
    ensures DigitChar(d) == c
  {
    c as int - '0' as int
  }

  /** The numeral of `n`, most significant digit first. */
  function Show(n: nat): (s: string)
    ensures Canonical(s)
    ensures n >= 1 ==> s[0] != '0'
    decreases n
  {
    if n < 10 then [DigitChar(n)] else Show(n / 10) + [DigitChar(n % 10)]
  }

  /** The number a string of digits denotes (leading zeros allowed). */
  function Value(s: string): nat
    requires AllDigits(s)
    decreases |s|
  {
    if |s| == 0 then 0 else Value(s[..|s| - 1]) * 10 + DigitValue(s[|s| - 1])
  }

  /** Reads a canonical numeral; anything else is rejected. */
  function Parse(s: string): Option<nat> {
    if Canonical(s) then Some(Value(s)) else None
  }

  lemma {:induction false} ValueOfShow(n: nat)
    ensures Value(Show(n)) == n
    decreases n
  {
    if n >= 10 {
      var p := Show(n / 10);
      assert Show(n) == p + [DigitChar(n % 10)];
      assert Show(n)[..|Show(n)| - 1] == p;
      ValueOfShow(n / 10);
    }
  }

  lemma {:induction false} ValuePositive(s: string)
    requires |s| >= 1 && AllDigits(s) && s[0] != '0'
    ensures Value(s) >= 1
    decreases |s|
  {
    if |s| > 1 {
      ValuePositive(s[..|s| - 1]);
    } else {
      assert s[..0] == [];
    }
  }

  lemma {:induction false} ShowOfValue(s: string)
    requires Canonical(s)
    ensures Show(Value(s)) == s
    decreases |s|
  {
    var p := s[..|s| - 1];
    var c := s[|s| - 1];
    if |s| == 1 {
      assert p == [];
      assert s == [c];
    } else {
      ValuePositive(p);
      ShowOfValue(p);
      var v := Value(s);
      assert v == Value(p) * 10 + DigitValue(c);
      assert v / 10 == Value(p) && v % 10 == DigitValue(c);
      assert s == p + [c];
    }
  }

  /** `Parse` inverts `Show`, in both directions: a string parses to `n`
      exactly when it is the numeral of `n`. */
  lemma ParseShow(s: string, n: nat)
    ensures Parse(s) == Some(n) <==> s == Show(n)
  {
    if s == Show(n) {
      ValueOfShow(n);
    }
    if Parse(s) == Some(n) {
      ShowOfValue(s);
    }
  }
}
