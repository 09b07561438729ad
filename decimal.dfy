/** Decimal text and the C library's `atoi`, as the benchmark uses it to read its
    command-line arguments: leading white space is skipped, one optional sign is
    taken, then the longest run of decimal digits; no digits at all gives 0.
    Values are unbounded integers here; `FitsInt` says when the C result is defined. */
module Decimal {

  const INT_MIN: int := -0x8000_0000
  const INT_MAX: int := 0x7FFF_FFFF

  /** Whether `n` is representable as a 32-bit C `int`. */
  predicate FitsInt(n: int) {
    INT_MIN <= n <= INT_MAX
  }

  /** The white-space characters of `isspace` in the "C" locale. */
  predicate IsSpace(c: char) {
    c == ' ' || c == '\t' || c == '\n' || c == '\U{B}' || c == '\U{C}' || c == '\r'
  }

  predicate IsDigit(c: char) {
    '0' <= c <= '9'
  }

  predicate AllDigits(s: string) {
    forall m :: 0 <= m < |s| ==> IsDigit(s[m])
  }

  function DigitValue(c: char): (d: nat)
    requires IsDigit(c)
    ensures d < 10
  {
    (c as int) - ('0' as int)
  }

  function DigitChar(d: nat): (c: char)
    requires d < 10
    ensures IsDigit(c) && DigitValue(c) == d
  {
    (('0' as int) + d) as char
  }

  /** The first index at or after `i` that does not hold white space. */
  function SkipSpaces(s: string, i: nat): (k: nat)
    requires i <= |s|
    ensures i <= k <= |s|
    ensures forall m :: i <= m < k ==> IsSpace(s[m])
    ensures k == |s| || !IsSpace(s[k])
    decreases |s| - i
  {
    if i < |s| && IsSpace(s[i]) then SkipSpaces(s, i + 1) else i
  }

  /** The end of the run of decimal digits that starts at `i`. */
  function DigitsEnd(s: string, i: nat): (k: nat)
    requires i <= |s|
    ensures i <= k <= |s|
    ensures forall m :: i <= m < k ==> IsDigit(s[m])
    ensures k == |s| || !IsDigit(s[k])
    decreases |s| - i
  {
    if i < |s| && IsDigit(s[i]) then DigitsEnd(s, i + 1) else i
  }

  /** The value of a string of decimal digits, most significant digit first. */
  function DigitsValue(ds: string): nat
    requires AllDigits(ds)
  {
    if ds == [] then 0 else 10 * DigitsValue(ds[..|ds| - 1]) + DigitValue(ds[|ds| - 1])
  }

  /** Where the digits of a number start: after white space and one optional sign. */
  function NumberStart(s: string): (j: nat)
    ensures j <= |s|
  {
    var i := SkipSpaces(s, 0);
    if i < |s| && (s[i] == '-' || s[i] == '+') then i + 1 else i
  }

  /** Whether the sign taken by `atoi` is a minus. */
  predicate IsNegative(s: string) {
    var i := SkipSpaces(s, 0);
    i < |s| && s[i] == '-'
  }

  /** `std::atoi` on a whole argument, over unbounded integers: the sign taken
      decides the sign of the result, and no digits at all give 0. */
  function Atoi(s: string): (n: int)
    ensures IsNegative(s) ==> n <= 0
    ensures !IsNegative(s) ==> n >= 0
    ensures DigitsEnd(s, NumberStart(s)) == NumberStart(s) ==> n == 0
  {
    var j := NumberStart(s);
    var v: int := DigitsValue(s[j..DigitsEnd(s, j)]);
    if IsNegative(s) then -v else v
  }

  /** The shortest decimal text of a natural number. */
  function NatToString(n: nat): (s: string)
    ensures |s| >= 1 && AllDigits(s)
  {
    if n < 10 then [DigitChar(n)] else NatToString(n / 10) + [DigitChar(n % 10)]
  }

  /** The decimal text of an integer, with a minus sign when it is negative. */
  function IntToString(n: int): string {
    if n < 0 then "-" + NatToString(-n) else NatToString(n)
  }

  lemma {:induction false} DigitsValueOfNatToString(n: nat)
    ensures DigitsValue(NatToString(n)) == n
  {
    if n >= 10 {
      var s := NatToString(n);
      assert s[..|s| - 1] == NatToString(n / 10);
      DigitsValueOfNatToString(n / 10);
    }
  }

  /** `SkipSpaces` is the only index with its two defining properties. */
  lemma SkipSpacesIs(s: string, i: nat, k: nat)
    requires i <= k <= |s|
    requires forall m :: i <= m < k ==> IsSpace(s[m])
    requires k == |s| || !IsSpace(s[k])
    ensures SkipSpaces(s, i) == k
  {
  }

  /** `DigitsEnd` is the only index with its two defining properties. */
  lemma DigitsEndIs(s: string, i: nat, k: nat)
    requires i <= k <= |s|
    requires forall m :: i <= m < k ==> IsDigit(s[m])
    requires k == |s| || !IsDigit(s[k])
    ensures DigitsEnd(s, i) == k
  {
  }

  /** Reading the decimal text of any integer gives that integer back, whatever
      follows it, as long as what follows does not start with a digit. */
  lemma AtoiOfIntToString(n: int, rest: string)
    requires rest == [] || !IsDigit(rest[0])
    ensures Atoi(IntToString(n) + rest) == n
  {
    var s := IntToString(n) + rest;
    var ds := NatToString(if n < 0 then -n else n);
    var j := if n < 0 then 1 else 0;
    assert s[j..j + |ds|] == ds;
    SkipSpacesIs(s, 0, 0);
    DigitsEndIs(s, j, j + |ds|);
    DigitsValueOfNatToString(if n < 0 then -n else n);
  }

  /** Scanning for white space in `w + s` from inside `s` is scanning `s`. */
  lemma {:induction false} SkipSpacesShift(w: string, s: string, i: nat)
    requires i <= |s|
    ensures SkipSpaces(w + s, |w| + i) == |w| + SkipSpaces(s, i)
    decreases |s| - i
  {
    if i < |s| {
      assert (w + s)[|w| + i] == s[i];
      if IsSpace(s[i]) {
        SkipSpacesShift(w, s, i + 1);
      }
    }
  }

  /** Scanning for digits in `w + s` from inside `s` is scanning `s`. */
  lemma {:induction false} DigitsEndShift(w: string, s: string, i: nat)
    requires i <= |s|
    ensures DigitsEnd(w + s, |w| + i) == |w| + DigitsEnd(s, i)
    ensures (w + s)[|w| + i..|w| + DigitsEnd(s, i)] == s[i..DigitsEnd(s, i)]
    decreases |s| - i
  {
    if i < |s| {
      assert (w + s)[|w| + i] == s[i];
      if IsDigit(s[i]) {
        DigitsEndShift(w, s, i + 1);
      }
    }
  }

  /** A prefix of white space is skipped entirely. */
  lemma {:induction false} SkipSpacesOverPrefix(w: string, s: string, m: nat)
    requires m <= |w|
    requires forall k :: 0 <= k < |w| ==> IsSpace(w[k])
    ensures SkipSpaces(w + s, m) == SkipSpaces(w + s, |w|)
    decreases |w| - m
  {
    if m < |w| {
      assert (w + s)[m] == w[m];
      SkipSpacesOverPrefix(w, s, m + 1);
    }
  }

  /** Behind a prefix of white space, the number starts where it would without
      the prefix, shifted by its length, and has the same sign. */
  lemma NumberStartSkipsSpaces(w: string, s: string)
    requires forall m :: 0 <= m < |w| ==> IsSpace(w[m])
    ensures NumberStart(w + s) == |w| + NumberStart(s)
    ensures IsNegative(w + s) == IsNegative(s)
  {
    var t := w + s;
    SkipSpacesOverPrefix(w, s, 0);
    SkipSpacesShift(w, s, 0);
    var i := SkipSpaces(s, 0);
    if i < |s| {
      assert t[|w| + i] == s[i];
    }
  }

  /** Leading white space does not change what `atoi` reads. */
  lemma AtoiSkipsSpaces(w: string, s: string)
    requires forall m :: 0 <= m < |w| ==> IsSpace(w[m])
    ensures Atoi(w + s) == Atoi(s)
  {
    NumberStartSkipsSpaces(w, s);
    DigitsEndShift(w, s, NumberStart(s));
  }

  /** Without a digit after the white space and the sign, `atoi` gives 0. */
  lemma AtoiWithoutDigits(s: string)
    requires NumberStart(s) == |s| || !IsDigit(s[NumberStart(s)])
    ensures Atoi(s) == 0
  {
    var j := NumberStart(s);
    DigitsEndIs(s, j, j);
  }
}
