/** Decimal numerals, and names put together from them. */
module Decimals {
  function Digit(d: nat): char
    requires d < 10
  {
    '0' + d as char
  }

  /** `str(n)`. */
  function Decimal(n: nat): string {
    if n < 10 then [Digit(n)] else Decimal(n / 10) + [Digit(n % 10)]
  }

  function ValueOf(s: string): int {
    if s == [] then 0 else 10 * ValueOf(s[..|s| - 1]) + (s[|s| - 1] as int - '0' as int)
  }

  lemma {:induction false} DecimalTells(n: nat)
    ensures ValueOf(Decimal(n)) == n
  {
    if n < 10 {
      assert Decimal(n)[..0] == [];
    } else {
      DecimalTells(n / 10);
      assert (Decimal(n / 10) + [Digit(n % 10)])[..|Decimal(n / 10)|] == Decimal(n / 10);
    }
  }

  predicate NoDash(s: string) {
    forall i :: 0 <= i < |s| ==> s[i] != '-'
  }

  lemma {:induction false} DecimalNoDash(n: nat)
    ensures NoDash(Decimal(n))
  {
    if n >= 10 {
      DecimalNoDash(n / 10);
    }
  }

  lemma {:induction false} NotShorter(a: string, b: string, c: string, d: string)
    requires NoDash(c) && a + ['-'] + b == c + ['-'] + d
    ensures |c| <= |a|
  {
    assert forall i :: 0 <= i < |c| ==> (c + ['-'] + d)[i] != '-';
    assert (a + ['-'] + b)[|a|] == '-';
  }

  /** The first dash tells where the first part ends. */
  lemma {:induction false} DashTells(a: string, b: string, c: string, d: string)
    requires NoDash(a) && NoDash(c) && a + ['-'] + b == c + ['-'] + d
    ensures a == c && b == d
  {
    NotShorter(a, b, c, d);
    NotShorter(c, d, a, b);
    var x, y := a + ['-'] + b, c + ['-'] + d;
    assert x[..|a|] == a && y[..|c|] == c && x[|a| + 1..] == b && y[|c| + 1..] == d;
  }
}
