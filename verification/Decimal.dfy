/** Decimal notation of a natural number in ASCII, as `str(n)` writes it and `int(s, 10)` reads it. */
module Decimal {
  import opened Bytes

  function Digit(d: nat): byte
    requires d < 10
  {
    (48 + d) as byte
  }

  function DigitValue(b: byte): nat
    requires IsDigit(b)
  {
    (b - 48) as nat
  }

  predicate IsDigit(b: byte) {
    48 <= b <= 57
  }

  /** `bytes.isdigit()`: at least one byte, and only digits. */
  predicate IsNumeral(s: bytes) {
    s != [] && forall i :: 0 <= i < |s| ==> IsDigit(s[i])
  }

  function Print(n: nat): (s: bytes)
    ensures IsNumeral(s)
  {
    if n < 10 then [Digit(n)] else Print(n / 10) + [Digit(n % 10)]
  }

  /** The value of a run of digits; leading zeros are allowed. */
  function Value(s: bytes): nat
    requires forall i :: 0 <= i < |s| ==> IsDigit(s[i])
  {
    if s == [] then 0 else Value(s[..|s| - 1]) * 10 + DigitValue(s[|s| - 1])
  }

  /** Digits are '0' to '9', most significant first, ten for each place. */
  lemma Positional(s: bytes, d: nat)
    requires d < 10 && forall i :: 0 <= i < |s| ==> 0x30 <= s[i] <= 0x39
    ensures Value([]) == 0 && Value(s + [(0x30 + d) as byte]) == Value(s) * 10 + d
  {
    assert (s + [(0x30 + d) as byte])[..|s|] == s;
  }

  /** No leading zeros are printed. */
  lemma {:induction false} PrintsNoZeros(n: nat)
    ensures n > 0 ==> Print(n)[0] != 0x30
    ensures n < 10 <==> |Print(n)| == 1
    ensures forall i :: 0 <= i < |Print(n)| ==> 0x30 <= Print(n)[i] <= 0x39
  {
    if n >= 10 {
      PrintsNoZeros(n / 10);
    }
  }

  lemma {:induction false} ValueOfPrint(n: nat)
    ensures Value(Print(n)) == n
  {
    var s := Print(n);
    if n < 10 {
      assert s[..|s| - 1] == [];
    } else {
      ValueOfPrint(n / 10);
      assert s[..|s| - 1] == Print(n / 10);
    }
  }
}
