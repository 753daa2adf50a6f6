/** Identifiers. Every collection of the store names its records by the
    decimal string of a positive integer, as JavaScript's `String(n)` renders
    it: digits only, no sign, no leading zero. */
module Ids {
  import opened Wrappers

  predicate IsDigit(c: char) {
    '0' <= c <= '9'
  }

  predicate AllDigits(s: string) {
    forall i :: 0 <= i < |s| ==> IsDigit(s[i])
  }

  function DigitChar(d: nat): (c: char)
    requires d < 10
    ensures IsDigit(c)
    ensures c as int - '0' as int == d
  {
    (('0' as int) + d) as char
  }

  function DigitValue(c: char): (d: nat)
    requires IsDigit(c)
    ensures d < 10
  {
    c as int - '0' as int
  }

  /** `String(n)` for a non-negative integer `n`. */
  function DecimalString(n: nat): (s: string)
    ensures |s| >= 1 && AllDigits(s)
    ensures s[0] == '0' ==> n == 0 && |s| == 1
    decreases n
  {
    if n < 10 then [DigitChar(n)] else DecimalString(n / 10) + [DigitChar(n % 10)]
  }

  /** The value of a string of decimal digits, most significant first. */
  function DigitsValue(s: string): nat
    requires AllDigits(s)
  {
    if |s| == 0 then 0 else DigitsValue(s[..|s| - 1]) * 10 + DigitValue(s[|s| - 1])
  }

  /** A digit string in the form `String(n)` produces: non-empty, and no
      leading zero unless it is "0" itself. */
  predicate Canonical(s: string) {
    |s| > 0 && AllDigits(s) && (s[0] == '0' ==> |s| == 1)
  }

  /** Reads a decimal identifier back; the inverse of `DecimalString`
      (`ParseDecimalString` and `DecimalStringParse`). */
  function ParseDecimal(s: string): (r: Option<nat>)
    ensures r.Some? <==> Canonical(s)
  {
    if Canonical(s) then Some(DigitsValue(s)) else None
  }

  /** Reading back the rendering of `n` gives `n`. */
  lemma {:induction false} ParseDecimalString(n: nat)
    ensures ParseDecimal(DecimalString(n)) == Some(n)
    decreases n
  {
    var s := DecimalString(n);
    if n < 10 {
      assert s[..|s| - 1] == [];
      assert DigitsValue(s) == DigitValue(s[0]) == n;
    } else {
      ParseDecimalString(n / 10);
      assert s[..|s| - 1] == DecimalString(n / 10);
      assert DigitValue(s[|s| - 1]) == n % 10;
    }
  }

  /** Every string `ParseDecimal` accepts is the rendering of the number it
      reads, so the two are inverse in both directions. */
  lemma {:induction false} DecimalStringParse(s: string, n: nat)
    requires ParseDecimal(s) == Some(n)
    ensures DecimalString(n) == s
    decreases |s|
  {
    if |s| == 1 {
      assert DigitsValue(s) == DigitsValue(s[..0]) * 10 + DigitValue(s[0]);
      assert s[..0] == [];
      assert DigitChar(n) == s[0];
    } else {
      var p := s[..|s| - 1];
      assert p[0] == s[0];
      assert ParseDecimal(p) == Some(DigitsValue(p));
      var m := DigitsValue(p);
      DecimalStringParse(p, m);
      assert m != 0;
      var d := DigitValue(s[|s| - 1]);
      assert n == m * 10 + d;
      assert n / 10 == m && n % 10 == d;
      assert DigitChar(d) == s[|s| - 1];
      assert s == p + [s[|s| - 1]];
    }
  }

  /** Two numbers get the same identifier exactly when they are equal. */
  lemma DecimalStringInjective(a: nat, b: nat)
    ensures DecimalString(a) == DecimalString(b) <==> a == b
  {
    if DecimalString(a) == DecimalString(b) {
      ParseDecimalString(a);
      ParseDecimalString(b);
    }
  }

  /** The id a create operation assigns when its collection currently holds
      `length` records: `String(length + 1)`. Also the id of the record at
      zero-based position `length` in a collection nothing was removed from. */
  function NextId(length: nat): (id: string)
    ensures ParseDecimal(id) == Some(length + 1)
  {
    ParseDecimalString(length + 1);
    DecimalString(length + 1)
  }

  lemma NextIdInjective(a: nat, b: nat)
    ensures NextId(a) == NextId(b) <==> a == b
  {
  }
}
