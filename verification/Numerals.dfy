/** Printing and reading of numbers as done by sprintf, sscanf and std::hex. */
module Numerals {

  function Digit(d: nat): char
    requires d < 16
  {
    if d < 10 then ('0' as int + d) as char else ('a' as int + d - 10) as char
  }

  function DigitValue(c: char): int {
    if '0' <= c <= '9' then c as int - '0' as int
    else if 'a' <= c <= 'f' then c as int - 'a' as int + 10
    else if 'A' <= c <= 'F' then c as int - 'A' as int + 10
    else -1
  }

  predicate IsDigit(c: char, base: nat) {
    0 <= DigitValue(c) < base
  }

  predicate AllDigits(s: string, base: nat) {
    forall i :: 0 <= i < |s| ==> IsDigit(s[i], base)
  }

  /** %d of a natural number (base 10), %x and std::hex (base 16). */
  function Print(n: nat, base: nat): string
    requires 2 <= base <= 16
  {
    if n < base then [Digit(n)] else Print(n / base, base) + [Digit(n % base)]
  }

  /** The number that a string of digits denotes. */
  function Value(s: string, base: nat): nat
    requires AllDigits(s, base)
  {
    if s == "" then 0 else Value(s[..|s| - 1], base) * base + DigitValue(s[|s| - 1])
  }

  lemma ValueOfAppend(s: string, c: char, base: nat)
    requires AllDigits(s, base) && IsDigit(c, base)
    ensures AllDigits(s + [c], base) && Value(s + [c], base) == Value(s, base) * base + DigitValue(c)
  {
    assert (s + [c])[..|s|] == s;
  }

  lemma QuotientAndRemainder(n: nat, base: nat)
    requires base > 0
    ensures n / base * base + n % base == n
  {
  }

  lemma ValueOfDigit(d: nat, base: nat)
    requires d < base <= 16
    ensures IsDigit(Digit(d), base) && DigitValue(Digit(d)) == d
  {
  }

  lemma ValueOfMore(s: string, q: nat, d: nat, base: nat, n: nat)
    requires 2 <= base <= 16 && d < base && AllDigits(s, base) && Value(s, base) == q && q * base + d == n
    ensures AllDigits(s + [Digit(d)], base) && Value(s + [Digit(d)], base) == n
  {
    ValueOfDigit(d, base);
    ValueOfAppend(s, Digit(d), base);
  }

  lemma {:induction false} ValueOfPrint(n: nat, base: nat)
    requires 2 <= base <= 16
    ensures Print(n, base) != "" && AllDigits(Print(n, base), base) && Value(Print(n, base), base) == n
  {
    if n < base {
      assert [Digit(n)] == "" + [Digit(n)];
      ValueOfMore("", 0, n, base, n);
    } else {
      ValueOfPrint(n / base, base);
      QuotientAndRemainder(n, base);
      ValueOfMore(Print(n / base, base), n / base, n % base, base, n);
    }
  }

  /** %d of an int. */
  function PrintInt(n: int): string {
    if n < 0 then "-" + Print(-n, 10) else Print(n, 10)
  }

  /** The longest prefix of digits. */
  function DigitPrefix(s: string, base: nat): (k: nat)
    ensures k <= |s| && AllDigits(s[..k], base) && (k < |s| ==> !IsDigit(s[k], base))
  {
    if s != "" && IsDigit(s[0], base) then
      var k := 1 + DigitPrefix(s[1..], base);
      assert forall i :: 1 <= i < k ==> s[..k][i] == s[1..][..k - 1][i - 1];
      k
    else 0
  }

  predicate IsSpace(c: char) {
    c == ' ' || c == '\t' || c == '\n' || c == '\r'
  }

  /** sscanf("%d") and atoi: leading blanks, an optional sign, and the digits that follow. */
  function ScanInt(s: string): int {
    if s == "" then 0
    else if IsSpace(s[0]) then ScanInt(s[1..])
    else if s[0] == '-' then -(Value(s[1..][..DigitPrefix(s[1..], 10)], 10) as int)
    else if s[0] == '+' then Value(s[1..][..DigitPrefix(s[1..], 10)], 10)
    else Value(s[..DigitPrefix(s, 10)], 10)
  }

  lemma AllDigitsPrefix(s: string, base: nat)
    requires AllDigits(s, base)
    ensures DigitPrefix(s, base) == |s| && s[..|s|] == s
  {
  }

  /** What %d prints, %d reads back. */
  lemma ScanIntOfPrintInt(n: int)
    ensures ScanInt(PrintInt(n)) == n
  {
    var m := if n < 0 then -n else n;
    ValueOfPrint(m, 10);
    var s := Print(m, 10);
    AllDigitsPrefix(s, 10);
    assert IsDigit(s[0], 10);
    if n < 0 {
      assert ("-" + s)[1..] == s;
    }
  }

  /** So it does behind blanks, and in front of anything that does not go on with a digit. */
  lemma {:induction false} ScanIntSkips(blanks: string, n: int, rest: string)
    requires forall i :: 0 <= i < |blanks| ==> blanks[i] == ' ' || blanks[i] == '\t'
    requires rest != "" ==> !('0' <= rest[0] <= '9')
    ensures ScanInt(blanks + PrintInt(n) + rest) == n
    decreases |blanks|
  {
    if blanks != "" {
      ScanIntSkips(blanks[1..], n, rest);
      BlankInFront(blanks, PrintInt(n) + rest);
      assert blanks + PrintInt(n) + rest == blanks + (PrintInt(n) + rest);
      assert blanks[1..] + PrintInt(n) + rest == blanks[1..] + (PrintInt(n) + rest);
    } else {
      assert blanks + PrintInt(n) + rest == PrintInt(n) + rest;
      ScanIntStops(n, rest);
    }
  }

  lemma BlankInFront(blanks: string, rest: string)
    requires blanks != "" && (blanks[0] == ' ' || blanks[0] == '\t')
    ensures ScanInt(blanks + rest) == ScanInt(blanks[1..] + rest)
  {
    assert (blanks + rest)[1..] == blanks[1..] + rest && (blanks + rest)[0] == blanks[0];
  }

  lemma ScanIntStops(n: int, rest: string)
    requires rest != "" ==> !('0' <= rest[0] <= '9')
    ensures ScanInt(PrintInt(n) + rest) == n
  {
    var m := if n < 0 then -n else n;
    var s := Print(m, 10);
    ValueOfPrint(m, 10);
    ScanDigits(s, rest, m);
    if n < 0 {
      Signed(s, rest);
    }
  }

  lemma ScanDigits(s: string, rest: string, m: nat)
    requires s != "" && AllDigits(s, 10) && Value(s, 10) == m && (rest != "" ==> !('0' <= rest[0] <= '9'))
    ensures DigitPrefix(s + rest, 10) == |s| && (s + rest)[..|s|] == s && ScanInt(s + rest) == m
  {
    PrefixBehind(s, rest);
    assert IsDigit(s[0], 10) && (s + rest)[0] == s[0];
  }

  lemma Signed(s: string, rest: string)
    ensures ("-" + s) + rest != "" && (("-" + s) + rest)[0] == '-' && (("-" + s) + rest)[1..] == s + rest
  {
  }

  lemma {:induction false} PrefixBehind(s: string, rest: string)
    requires AllDigits(s, 10) && (rest != "" ==> !('0' <= rest[0] <= '9'))
    ensures DigitPrefix(s + rest, 10) == |s| && (s + rest)[..|s|] == s
    decreases |s|
  {
    if s == "" {
      assert s + rest == rest;
    } else {
      assert (s + rest)[1..] == s[1..] + rest;
      PrefixBehind(s[1..], rest);
    }
  }
}
