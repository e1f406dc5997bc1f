/** Integers in decimal, as fmt's %d writes them. */
module Decimals {

  function Digits(n: nat): (s: string)
    ensures s != ""
    ensures forall i :: 0 <= i < |s| ==> '0' <= s[i] <= '9'
  {
    (if n < 10 then "" else Digits(n / 10)) + ["0123456789"[n % 10]]
  }

  function Decimal(n: int): string {
    if n < 0 then "-" + Digits(-n) else Digits(n)
  }

  /** The number that a string of digits stands for. */
  function Value(s: string): int {
    if s == "" then 0 else Value(s[..|s| - 1]) * 10 + (s[|s| - 1] as int - '0' as int)
  }

  function Parse(s: string): int {
    if s != "" && s[0] == '-' then -Value(s[1..]) else Value(s)
  }

  lemma {:induction false} DigitsStandForTheirNumber(n: nat)
    ensures Value(Digits(n)) == n
    decreases n
  {
    var s := Digits(n);
    assert s[|s| - 1] as int - '0' as int == n % 10;
    if n < 10 {
      assert s[..|s| - 1] == "";
    } else {
      assert s[..|s| - 1] == Digits(n / 10);
      DigitsStandForTheirNumber(n / 10);
    }
  }

  /** What %d writes stands for the number written; so different numbers are written differently. */
  lemma {:induction false} DecimalStandsForItsNumber(n: int)
    ensures Parse(Decimal(n)) == n
  {
    var digits := Digits(if n < 0 then -n else n);
    DigitsStandForTheirNumber(if n < 0 then -n else n);
  }

  lemma {:induction false} DecimalIsInjective(m: int, n: int)
    ensures Decimal(m) == Decimal(n) <==> m == n
  {
    DecimalStandsForItsNumber(m);
    DecimalStandsForItsNumber(n);
  }

  /** Only digits, behind a minus sign for a negative number. */
  lemma {:induction false} DecimalHas(n: int, c: char)
    requires !('0' <= c <= '9')
    ensures c in Decimal(n) <==> c == '-' && n < 0
  {
    if n < 0 {
      assert Decimal(n)[0] == '-';
    }
  }

  /** Two strings cut at a character that does not occur behind the cut. */
  lemma {:induction false} CutAtLast(a: string, b: string, c: string, d: string, x: char)
    requires x !in b && x !in d && a + [x] + b == c + [x] + d
    ensures a == c && b == d
  {
    var s := a + [x] + b;
    assert s[|a|] == x && (c + [x] + d)[|c|] == x;
    if |a| == |c| {
      assert s[..|a|] == a && (c + [x] + d)[..|a|] == c;
      assert s[|a| + 1..] == b && (c + [x] + d)[|a| + 1..] == d;
    }
  }
}
