/** Text helpers: decimal numbers and ASCII lower case. */
module Strings {

  function Digit(n: nat): char
    requires n < 10
  {
    "0123456789"[n]
  }

  function Natural(n: nat): (s: string)
    ensures |s| > 0
  {
    if n < 10 then [Digit(n)] else Natural(n / 10) + [Digit(n % 10)]
  }

  function Decimal(n: int): string {
    if n < 0 then "-" + Natural(-n) else Natural(n)
  }

  lemma {:induction false} NaturalDigits(n: nat)
    ensures forall c <- Natural(n) :: '0' <= c <= '9'
  {
    if n >= 10 {
      NaturalDigits(n / 10);
    }
  }

  lemma {:induction false} NaturalInjective(m: nat, n: nat)
    requires Natural(m) == Natural(n)
    ensures m == n
  {
    var s := Natural(m);
    assert s[|s| - 1] == Digit(m % 10) == Digit(n % 10);
    if m >= 10 && n >= 10 {
      assert Natural(m / 10) == s[..|s| - 1] == Natural(n / 10);
      NaturalInjective(m / 10, n / 10);
    }
  }

  /** Different numbers are written differently. */
  lemma DecimalInjective(m: int, n: int)
    requires Decimal(m) == Decimal(n)
    ensures m == n
  {
    NaturalDigits(if m < 0 then -m else m);
    NaturalDigits(if n < 0 then -n else n);
    var s := Decimal(m);
    assert m >= 0 ==> Natural(m)[0] in Natural(m);
    assert n >= 0 ==> Natural(n)[0] in Natural(n);
    assert (s[0] == '-' <==> m < 0) && (s[0] == '-' <==> n < 0);
    if m < 0 {
      assert s[1..] == Natural(-m) == Natural(-n);
      NaturalInjective(-m, -n);
    } else {
      NaturalInjective(m, n);
    }
  }

  function LowerChar(c: char): char {
    if 'A' <= c <= 'Z' then (c as int + 32) as char else c
  }

  function ToLower(s: string): string {
    seq(|s|, i requires 0 <= i < |s| => LowerChar(s[i]))
  }

  predicate IsLower(s: string) { forall c <- s :: !('A' <= c <= 'Z') }

  lemma LowerStays(s: string)
    requires IsLower(s)
    ensures ToLower(s) == s
  {
    forall i | 0 <= i < |s| ensures ToLower(s)[i] == s[i] {
      assert s[i] in s;
    }
  }

  const CAPITALS: string := "ABCDEFGHIJKLMNOPQRSTUVWXYZ"
  const SMALLS: string := "abcdefghijklmnopqrstuvwxyz"

  /** Each capital becomes the small letter in the same place of the alphabet. */
  lemma LetterIsLowered(k: nat)
    requires k < 26
    ensures LowerChar(CAPITALS[k]) == SMALLS[k]
  {
    assert CAPITALS[k] == ('A' as int + k) as char && SMALLS[k] == ('a' as int + k) as char;
  }

  lemma LoweredIsLower(s: string)
    ensures IsLower(ToLower(s))
  {
    forall c <- ToLower(s) ensures !('A' <= c <= 'Z') {
      var i :| 0 <= i < |s| && c == LowerChar(s[i]);
    }
  }
}
