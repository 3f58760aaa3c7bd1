/** Vocabulary shared by every component: failure values, bytes, UTF-16 code
    units and the fixed-width integer bounds of the original program. */
module Common {

  datatype Option<+T> = None | Some(value: T)

  datatype Result<+T, +E> = Ok(value: T) | Err(error: E)

  type Byte = b: int | 0 <= b < 0x100

  /** One UTF-16 code unit. */
  type Unit = u: int | 0 <= u < 0x1_0000

  const U64_MAX: nat := 0xFFFF_FFFF_FFFF_FFFF
  const U128_MAX: nat := 0xFFFF_FFFF_FFFF_FFFF_FFFF_FFFF_FFFF_FFFF
  const NANOS_PER_SECOND: nat := 1_000_000_000

  function Min(a: int, b: int): int { if a <= b then a else b }

  function Max(a: int, b: int): int { if a <= b then b else a }

  // ---------------------------------------------------------------- numbers

  /** The number that decimal digits denote, read from left to right. */
  function Decimal(digits: seq<nat>): nat
  {
    if digits == [] then 0 else 10 * Decimal(digits[..|digits| - 1]) + digits[|digits| - 1]
  }

  function Power10(n: nat): nat { if n == 0 then 1 else 10 * Power10(n - 1) }

  /** Every digit counts by its place. */
  function ByPlace(digits: seq<nat>): nat
  {
    if digits == [] then 0 else digits[0] * Power10(|digits| - 1) + ByPlace(digits[1..])
  }

  lemma {:induction false} ByPlaceAppend(digits: seq<nat>, last: nat)
    ensures ByPlace(digits + [last]) == 10 * ByPlace(digits) + last
    decreases |digits|
  {
    if digits == [] {
      assert digits + [last] == [last] && ByPlace([last][1..]) == 0;
    } else {
      var n := |digits| - 1;
      assert (digits + [last])[1..] == digits[1..] + [last];
      ByPlaceAppend(digits[1..], last);
      assert digits[0] * (10 * Power10(n)) == 10 * (digits[0] * Power10(n));
    }
  }

  lemma {:induction false} DecimalIsByPlace(digits: seq<nat>)
    ensures Decimal(digits) == ByPlace(digits)
    decreases |digits|
  {
    if digits != [] {
      var init := digits[..|digits| - 1];
      DecimalIsByPlace(init);
      ByPlaceAppend(init, digits[|digits| - 1]);
      assert digits == init + [digits[|digits| - 1]];
    }
  }
}
