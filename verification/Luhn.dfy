/** The account-number validator (`detection/tier1.py`). */
module Luhn {

  type Digit = d: int | 0 <= d <= 9

  const LUHN_MODULUS := 10
  const LUHN_DOUBLE_CAP := 9

  function Contribution(d: Digit, doubled: bool): int {
    if !doubled then d
    else if d * 2 > LUHN_DOUBLE_CAP then d * 2 - LUHN_DOUBLE_CAP else d * 2
  }

  /** The checksum as ISO/IEC 7812-1 (Annex B) states it: from the right, every second digit doubled. */
  function ChecksumFromRight(digits: seq<Digit>, doubled: bool): int {
    if digits == [] then 0
    else Contribution(digits[|digits| - 1], doubled) + ChecksumFromRight(digits[..|digits| - 1], !doubled)
  }

  predicate Accepted(digits: seq<Digit>) {
    ChecksumFromRight(digits, false) % LUHN_MODULUS == 0
  }

  /** The left-to-right loop, which finds the doubled positions by the parity of the length. */
  method LuhnCheck(digits: seq<Digit>) returns (ok: bool)
    ensures ok <==> Accepted(digits)
  {
    var total := 0;
    var parity := |digits| % 2;
    for index := 0 to |digits|
      invariant total == ChecksumFromRight(digits[..index], index % 2 != parity)
    {
      var value: int := digits[index];
      if index % 2 == parity {
        value := value * 2;
        if value > LUHN_DOUBLE_CAP { value := value - LUHN_DOUBLE_CAP; }
      }
      assert digits[..index + 1][..index] == digits[..index];
      total := total + value;
    }
    assert digits[..|digits|] == digits;
    ok := total % LUHN_MODULUS == 0;
  }

  /** The checksum of the first n digits, one digit off the end. */
  lemma ChecksumOfPrefix(digits: seq<Digit>, n: nat, doubled: bool)
    requires 0 < n <= |digits|
    ensures ChecksumFromRight(digits[..n], doubled)
         == Contribution(digits[n - 1], doubled) + ChecksumFromRight(digits[..n - 1], !doubled)
  {
    assert digits[..n][..n - 1] == digits[..n - 1];
  }

  /** A worked example: the check digit of 7992739871 is 3. */
  lemma WorkedExample(d: Digit)
    ensures Accepted([7, 9, 9, 2, 7, 3, 9, 8, 7, 1, d]) <==> d == 3
  {
    var digits: seq<Digit> := [7, 9, 9, 2, 7, 3, 9, 8, 7, 1, d];
    assert digits[..11] == digits && digits[..0] == [];
    ChecksumOfPrefix(digits, 11, false);
    ChecksumOfPrefix(digits, 10, true);
    ChecksumOfPrefix(digits, 9, false);
    ChecksumOfPrefix(digits, 8, true);
    ChecksumOfPrefix(digits, 7, false);
    ChecksumOfPrefix(digits, 6, true);
    ChecksumOfPrefix(digits, 5, false);
    ChecksumOfPrefix(digits, 4, true);
    ChecksumOfPrefix(digits, 3, false);
    ChecksumOfPrefix(digits, 2, true);
    ChecksumOfPrefix(digits, 1, false);
    assert ChecksumFromRight(digits, false) == 67 + d;
  }

  // ---------- error detection ----------

  /** Whether the digit at i is doubled when the checksum starts at the right with `doubled`. */
  predicate IsDoubled(n: nat, i: nat, doubled: bool)
    requires i < n
  {
    ((n - 1 - i) % 2 == 0) == doubled
  }

  lemma {:induction false} ReplaceShiftsChecksum(digits: seq<Digit>, i: nat, d: Digit, doubled: bool)
    requires i < |digits|
    ensures ChecksumFromRight(digits[i := d], doubled) - ChecksumFromRight(digits, doubled)
         == Contribution(d, IsDoubled(|digits|, i, doubled)) - Contribution(digits[i], IsDoubled(|digits|, i, doubled))
  {
    var n := |digits| - 1;
    if i == n {
      assert digits[i := d][..n] == digits[..n];
    } else {
      assert digits[i := d][..n] == digits[..n][i := d];
      ReplaceShiftsChecksum(digits[..n], i, d, !doubled);
    }
  }

  /** Changing one digit of any string changes the checksum modulo ten, so an accepted string becomes rejected. */
  lemma SingleDigitErrorDetected(digits: seq<Digit>, i: nat, d: Digit)
    requires i < |digits| && Accepted(digits)
    ensures Accepted(digits[i := d]) <==> d == digits[i]
  {
    ReplaceShiftsChecksum(digits, i, d, false);
    var doubled := IsDoubled(|digits|, i, false);
    ContributionIsInjective(d, digits[i], doubled);
    hide Contribution, ChecksumFromRight, IsDoubled;
    SmallShift(ChecksumFromRight(digits, false), Contribution(d, doubled) - Contribution(digits[i], doubled));
  }

  /** A shift of fewer than ten keeps a multiple of ten only if it is none. */
  lemma SmallShift(sum: int, shift: int)
    requires sum % 10 == 0 && -10 < shift < 10
    ensures (sum + shift) % 10 == 0 <==> shift == 0
  {
  }

  lemma ContributionIsInjective(a: Digit, b: Digit, doubled: bool)
    ensures 0 <= Contribution(a, doubled) <= 9
    ensures Contribution(a, doubled) == Contribution(b, doubled) <==> a == b
  {
  }

  /** Swapping two neighbours of an accepted string goes unnoticed exactly for equal digits and for the pair 0, 9. */
  lemma AdjacentSwapDetected(digits: seq<Digit>, i: nat)
    requires i + 1 < |digits| && Accepted(digits)
    ensures Accepted(digits[i := digits[i + 1]][i + 1 := digits[i]])
            <==> digits[i] == digits[i + 1] || {digits[i], digits[i + 1]} == {0, 9}
  {
    var a, b := digits[i], digits[i + 1];
    var once := digits[i := b];
    ReplaceShiftsChecksum(digits, i, b, false);
    ReplaceShiftsChecksum(once, i + 1, a, false);
    assert {a, b} == {0, 9} <==> (a == 0 && b == 9) || (a == 9 && b == 0) by {
      assert a in {a, b} && b in {a, b};
      if {a, b} == {0, 9} { assert 0 in {a, b} && 9 in {a, b}; }
    }
    SwapArithmetic(a, b, ChecksumFromRight(digits, false), IsDoubled(|digits|, i, false));
  }

  /** How much doubling adds to a digit. */
  function Excess(d: Digit): int {
    Contribution(d, true) - Contribution(d, false)
  }

  lemma ExcessDiffers(a: Digit, b: Digit)
    ensures -10 < Excess(b) - Excess(a) < 10
    ensures Excess(a) == Excess(b) <==> a == b || (a == 0 && b == 9) || (a == 9 && b == 0)
  {
  }

  lemma SwapArithmetic(a: Digit, b: Digit, sum: int, doubled: bool)
    requires sum % 10 == 0
    ensures var shift := Contribution(b, doubled) - Contribution(a, doubled)
                       + Contribution(a, !doubled) - Contribution(b, !doubled);
            (sum + shift) % 10 == 0 <==> a == b || (a == 0 && b == 9) || (a == 9 && b == 0)
  {
    hide Contribution;
    ExcessDiffers(a, b);
    SmallShift(sum, if doubled then Excess(b) - Excess(a) else Excess(a) - Excess(b));
  }

  /** Every digit string has exactly one check digit that completes it to an accepted one. */
  lemma CheckDigitExistsOnce(digits: seq<Digit>) returns (check: Digit)
    ensures forall d: Digit :: Accepted(digits + [d]) <==> d == check
  {
    var sum := ChecksumFromRight(digits, true);
    check := (10 - sum % 10) % 10;
    forall d: Digit ensures Accepted(digits + [d]) <==> d == check {
      assert (digits + [d])[..|digits|] == digits;
      assert ChecksumFromRight(digits + [d], false) == d + sum;
    }
  }
}
