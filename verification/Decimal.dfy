/** Decimal numbers in ASCII: `to_string` and `parse::<u32>`. */
module Decimal {
  import opened Wrappers

  type Byte = x: int | 0 <= x < 0x100

  const MAX_U32: nat := 0xFFFF_FFFF

  predicate IsDigit(b: Byte) {
    48 <= b <= 57
  }

  predicate AllDigits(bytes: seq<Byte>) {
    forall i :: 0 <= i < |bytes| ==> IsDigit(bytes[i])
  }

  function LastDigit(n: nat): (d: Byte)
    ensures IsDigit(d)
  {
    48 + n % 10
  }

  function Digits(n: nat): (bytes: seq<Byte>)
    ensures |bytes| > 0 && AllDigits(bytes)
  {
    if n < 10 then [48 + n] else Digits(n / 10) + [LastDigit(n)]
  }

  function Value(bytes: seq<Byte>): nat
    requires AllDigits(bytes)
  {
    if bytes == [] then 0 else 10 * Value(bytes[..|bytes| - 1]) + (bytes[|bytes| - 1] - 48)
  }

  /** None for an empty or non-numeric text and for a number that needs more than 32 bits. */
  function ParseU32(bytes: seq<Byte>): Option<nat> {
    if bytes == [] || !AllDigits(bytes) || Value(bytes) > MAX_U32 then None else Some(Value(bytes))
  }

  lemma ValueAppend(bytes: seq<Byte>, d: Byte)
    requires AllDigits(bytes) && IsDigit(d)
    ensures AllDigits(bytes + [d]) && Value(bytes + [d]) == 10 * Value(bytes) + (d - 48)
  {
    assert (bytes + [d])[..|bytes|] == bytes;
  }

  lemma LastDigitValue(n: nat)
    ensures 10 * (n / 10) + (LastDigit(n) - 48) == n
  {
  }

  lemma {:induction false} ValueOfDigits(n: nat)
    ensures Value(Digits(n)) == n
  {
    if n < 10 {
      assert Value([]) == 0;
      assert [48 + n][..0] == [];
    } else {
      ValueOfDigits(n / 10);
      ValueAppend(Digits(n / 10), LastDigit(n));
      LastDigitValue(n);
    }
  }

  lemma ParseOfDigits(n: nat)
    requires n <= MAX_U32
    ensures ParseU32(Digits(n)) == Some(n)
  {
    ValueOfDigits(n);
  }

  /** `n` without its last `k` digits. */
  function Shorn(n: nat, k: nat): nat {
    if k == 0 then n else Shorn(n / 10, k - 1)
  }

  /** The digits stand in their places, and none leads in vain. */
  lemma {:induction false} DigitsInPlace(n: nat, k: nat)
    requires k < |Digits(n)|
    ensures Digits(n)[|Digits(n)| - 1 - k] == 48 + Shorn(n, k) % 10
    ensures n != 0 ==> Shorn(n, k) != 0
  {
    if n >= 10 && k > 0 {
      DigitsInPlace(n / 10, k - 1);
    }
  }

  /** `saturating_sub`. */
  function SaturatingSub(a: nat, b: nat): nat {
    if a < b then 0 else a - b
  }
}
