/** Decimal rendering of natural numbers, as Rust's `format!("{}", n)` prints them. */
module Text {

  function Digit(d: nat): (c: char)
    requires d < 10
    ensures '0' <= c <= '9' && DigitValue(c) == d
  {
    ('0' as int + d) as char
  }

  /** The value of a decimal digit character. */
  function DigitValue(c: char): nat
    requires '0' <= c <= '9'
  {
    c as int - '0' as int
  }

  predicate IsDigits(s: string)
  {
    forall k :: 0 <= k < |s| ==> '0' <= s[k] <= '9'
  }

  /** Reads a string of decimal digits, most significant first: the reference meaning of a rendering. */
  function DigitsValue(s: string): nat
    requires IsDigits(s)
  {
    if |s| == 0 then 0 else DigitsValue(s[..|s| - 1]) * 10 + DigitValue(s[|s| - 1])
  }

  function Decimal(n: nat): (r: string)
    ensures |r| > 0 && IsDigits(r)
  {
    if n < 10 then [Digit(n)] else Decimal(n / 10) + [Digit(n % 10)]
  }

  /** `Decimal(n)` spells `n` in decimal, with no leading zero. */
  lemma {:induction false} DecimalValue(n: nat)
    ensures DigitsValue(Decimal(n)) == n
    ensures |Decimal(n)| > 1 ==> Decimal(n)[0] != '0'
  {
    var r := Decimal(n);
    if n < 10 {
      assert r[..|r| - 1] == [];
    } else {
      DecimalValue(n / 10);
      var head := Decimal(n / 10);
      assert r[..|r| - 1] == head;
      assert r[0] == head[0];
      if |head| == 1 {
        assert DigitsValue(head) == DigitValue(head[0]) by {
          assert head[..0] == [];
        }
      }
    }
  }
}
