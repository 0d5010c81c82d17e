/** Unsigned decimal numerals and the 64-bit ranges they are read into. */
module Decimal {
  /** The largest signed and unsigned 64-bit numbers. */
  const MAX_INT64 := 0x7fff_ffff_ffff_ffff
  const MAX_UINT64 := 0xffff_ffff_ffff_ffff

  predicate IsDigit(c: char) {
    '0' <= c <= '9'
  }

  predicate AllDigits(s: string) {
    forall i :: 0 <= i < |s| ==> IsDigit(s[i])
  }

  function Value(s: string): nat
    requires AllDigits(s)
  {
    if s == "" then 0 else 10 * Value(s[..|s| - 1]) + (s[|s| - 1] as int - '0' as int)
  }

  /** The numeral of a number, without leading zeros. */
  function Digits(n: nat): (s: string)
    ensures AllDigits(s) && s != ""
  {
    var last := ('0' as int + n % 10) as char;
    if n < 10 then [last] else Digits(n / 10) + [last]
  }

  /** Every number is the value of its numeral. */
  lemma {:induction false} ValueOfDigits(n: nat)
    ensures Value(Digits(n)) == n
  {
    var s := Digits(n);
    if n < 10 {
      assert s[..0] == "";
    } else {
      ValueOfDigits(n / 10);
      assert s[..|s| - 1] == Digits(n / 10);
    }
  }

  function PowerOfTen(n: nat): nat {
    if n == 0 then 1 else 10 * PowerOfTen(n - 1)
  }

  /** A numeral of k digits is below the k-th power of ten. */
  lemma {:induction false} ValueBound(s: string)
    requires AllDigits(s)
    ensures Value(s) < PowerOfTen(|s|)
  {
    if s != "" {
      ValueBound(s[..|s| - 1]);
      assert IsDigit(s[|s| - 1]);
    }
  }
}
