/** The Luhn check: the left-to-right loop, the right-to-left definition of ISO/IEC 7812-1 Annex B, and
    the errors it detects. */
module Luhn {
  import opened Basics

  /** Digit characters and their values; the digit class covers every script, so both are parameters. */
  datatype Numerals = Numerals(digit: char -> bool, value: char -> nat) {
    ghost predicate Valid() {
      && (forall c | digit(c) :: value(c) <= 9)
      && !digit(' ') && !digit('-')
    }
  }

  ghost predicate AreDigits(ds: seq<nat>) {
    forall i | 0 <= i < |ds| :: ds[i] <= 9
  }

  /** The digits of a text, separators skipped. */
  function Digits(num: Numerals, text: string): (ds: seq<nat>)
    requires num.Valid()
    ensures AreDigits(ds) && |ds| <= |text|
  {
    if |text| == 0 then []
    else (if num.digit(text[0]) then [num.value(text[0])] else []) + Digits(num, text[1..])
  }

  /** In a text of digits, each digit has its own value. */
  lemma {:induction false} DigitsAt(num: Numerals, text: string, i: nat)
    requires num.Valid() && i < |text| && forall k | 0 <= k < |text| :: num.digit(text[k])
    ensures |Digits(num, text)| == |text| && Digits(num, text)[i] == num.value(text[i])
    decreases |text|
  {
    var rest := text[1..];
    if |rest| > 0 {
      DigitsAt(num, rest, if i > 0 then i - 1 else 0);
    } else {
      assert Digits(num, rest) == [];
    }
  }

  /** Twice a digit, its own digits added up. */
  function Doubled(d: nat): nat {
    if 2 * d > 9 then 2 * d - 9 else 2 * d
  }

  /** Right to left: the last digit counts once, the one before it twice, and so on. */
  function RightSum(ds: seq<nat>, double: bool): nat {
    if |ds| == 0 then 0
    else
      var last := ds[|ds| - 1];
      (if double then Doubled(last) else last) + RightSum(ds[..|ds| - 1], !double)
  }

  /** At least thirteen digits whose right-to-left sum is a multiple of ten. */
  predicate Valid(ds: seq<nat>) {
    |ds| >= 13 && RightSum(ds, false) % 10 == 0
  }

  /** Digit `i` of `n` is doubled: its distance from the right end is odd. */
  predicate IsDoubled(i: nat, n: nat) {
    i % 2 == n % 2
  }

  /** The weight of every digit, left to right. */
  function LeftSum(ds: seq<nat>, k: nat): nat
    requires k <= |ds|
  {
    if k == 0 then 0
    else LeftSum(ds, k - 1) + (if IsDoubled(k - 1, |ds|) then Doubled(ds[k - 1]) else ds[k - 1])
  }

  /** The two directions agree on every prefix, at the prefix's own doubling phase. */
  lemma {:induction false} LeftIsRight(ds: seq<nat>, k: nat)
    requires k <= |ds|
    ensures LeftSum(ds, k) == RightSum(ds[..k], (|ds| - k) % 2 == 1)
  {
    if k > 0 {
      LeftIsRight(ds, k - 1);
      assert ds[..k][..k - 1] == ds[..k - 1];
      assert IsDoubled(k - 1, |ds|) <==> (|ds| - k) % 2 == 1;
    }
  }

  /** The validator's loop. */
  method LuhnValid(num: Numerals, text: string) returns (ok: bool)
    requires num.Valid()
    ensures ok == Valid(Digits(num, text))
  {
    var numbers := Digits(num, text);
    if |numbers| < 13 {
      return false;
    }
    var checksum := 0;
    var parity := |numbers| % 2;
    for index := 0 to |numbers|
      invariant checksum == LeftSum(numbers, index)
    {
      var digit := numbers[index];
      if index % 2 == parity {
        digit := digit * 2;
        if digit > 9 {
          digit := digit - 9;
        }
      }
      checksum := checksum + digit;
    }
    LeftIsRight(numbers, |numbers|);
    assert numbers[..|numbers|] == numbers;
    ok := checksum % 10 == 0;
  }

  // ---- Separators -----------------------------------------------------------------------------

  lemma {:induction false} DigitsAppend(num: Numerals, a: string, b: string)
    requires num.Valid()
    ensures Digits(num, a + b) == Digits(num, a) + Digits(num, b)
  {
    if |a| == 0 {
      AppendNil(b);
      AppendNil(Digits(num, b));
    } else {
      DigitsAppend(num, a[1..], b);
      AppendUncons(a, b);
      Associative(if num.digit(a[0]) then [num.value(a[0])] else [], Digits(num, a[1..]), Digits(num, b));
    }
  }

  /** A separator put anywhere changes nothing. */
  lemma SeparatorsIgnored(num: Numerals, a: string, c: char, b: string)
    requires num.Valid() && !num.digit(c)
    ensures Valid(Digits(num, a + [c] + b)) == Valid(Digits(num, a + b))
  {
    DigitsAppend(num, a + [c], b);
    DigitsAppend(num, a, [c]);
    DigitsAppend(num, a, b);
    assert |[c][1..]| == 0;
    assert Digits(num, [c]) == [];
    AppendNil(Digits(num, a));
  }

  // ---- Errors detected ------------------------------------------------------------------------

  /** The weight of digit `d` at distance `r` from the right end. */
  function Weight(d: nat, r: nat): nat {
    if r % 2 == 1 then Doubled(d) else d
  }

  /** Changing one digit changes the sum by the change of its weight. */
  lemma {:induction false} SumAfterUpdate(ds: seq<nat>, double: bool, i: nat, d: nat)
    requires i < |ds|
    ensures var r := |ds| - 1 - i + (if double then 1 else 0);
            RightSum(ds[i := d], double) + Weight(ds[i], r) == RightSum(ds, double) + Weight(d, r)
  {
    var n := |ds| - 1;
    var es := ds[i := d];
    if i == n {
      assert es[..n] == ds[..n];
    } else {
      assert es[..n] == ds[..n][i := d] && es[n] == ds[n];
      SumAfterUpdate(ds[..n], !double, i, d);
    }
  }

  lemma WeightIsInjective(a: nat, b: nat, r: nat)
    requires a <= 9 && b <= 9 && a != b
    ensures Weight(a, r) <= 9 && Weight(b, r) <= 9 && Weight(a, r) != Weight(b, r)
  {
  }

  lemma SmallShift(sum: nat, shifted: nat, up: nat, down: nat)
    requires shifted + down == sum + up && up <= 9 && down <= 9 && up != down
    requires sum % 10 == 0
    ensures shifted % 10 != 0
  {
  }

  /** Every substitution of a single digit is detected. */
  lemma SubstitutionDetected(ds: seq<nat>, i: nat, d: nat)
    requires AreDigits(ds) && i < |ds| && d <= 9 && d != ds[i]
    requires Valid(ds)
    ensures !Valid(ds[i := d])
  {
    var r := |ds| - 1 - i;
    SumAfterUpdate(ds, false, i, d);
    WeightIsInjective(ds[i], d, r);
    SmallShift(RightSum(ds, false), RightSum(ds[i := d], false), Weight(d, r), Weight(ds[i], r));
  }

  function Swapped(ds: seq<nat>, i: nat): seq<nat>
    requires i + 1 < |ds|
  {
    ds[i := ds[i + 1]][i + 1 := ds[i]]
  }

  lemma SumAfterSwap(ds: seq<nat>, i: nat)
    requires i + 1 < |ds|
    ensures var a, b, r := ds[i], ds[i + 1], |ds| - 2 - i;
            RightSum(Swapped(ds, i), false) + (Weight(a, r + 1) + Weight(b, r))
            == RightSum(ds, false) + (Weight(b, r + 1) + Weight(a, r))
  {
    SumAfterTwoUpdates(ds, i, ds[i + 1], ds[i]);
  }

  lemma SumAfterTwoUpdates(ds: seq<nat>, i: nat, x: nat, y: nat)
    requires i + 1 < |ds|
    ensures var r := |ds| - 2 - i;
            RightSum(ds[i := x][i + 1 := y], false) + (Weight(ds[i], r + 1) + Weight(ds[i + 1], r))
            == RightSum(ds, false) + (Weight(x, r + 1) + Weight(y, r))
  {
    var r := |ds| - 2 - i;
    var once := ds[i := x];
    var twice := once[i + 1 := y];
    assert RightSum(once, false) + Weight(ds[i], r + 1) == RightSum(ds, false) + Weight(x, r + 1) by {
      SumAfterUpdate(ds, false, i, x);
    }
    assert RightSum(twice, false) + Weight(ds[i + 1], r) == RightSum(once, false) + Weight(y, r) by {
      SumAfterUpdate(once, false, i + 1, y);
    }
  }

  /** One digit counts once and its neighbour twice; exchanging them goes unnoticed for 0 and 9 only. */
  lemma WeightsSwap(a: nat, b: nat, r: nat, sum: nat, swapped: nat)
    requires a <= 9 && b <= 9 && sum % 10 == 0
    requires swapped + (Weight(a, r + 1) + Weight(b, r)) == sum + (Weight(b, r + 1) + Weight(a, r))
    ensures swapped % 10 == 0 <==> a == b || (a == 0 && b == 9) || (a == 9 && b == 0)
  {
    var shift := Doubled(b) + a - Doubled(a) - b;
    if r % 2 == 0 {
      assert swapped == sum + shift;
    } else {
      assert swapped == sum - shift;
    }
    assert -9 <= shift <= 9 && (shift == 0 <==> a == b || (a == 0 && b == 9) || (a == 9 && b == 0));
  }

  /** A swap of two adjacent digits goes undetected exactly when they are equal, or are 0 and 9. */
  lemma SwapDetected(ds: seq<nat>, i: nat)
    requires AreDigits(ds) && i + 1 < |ds| && Valid(ds)
    ensures var (a, b) := (ds[i], ds[i + 1]);
            Valid(Swapped(ds, i)) <==> a == b || (a == 0 && b == 9) || (a == 9 && b == 0)
  {
    SumAfterSwap(ds, i);
    WeightsSwap(ds[i], ds[i + 1], |ds| - 2 - i, RightSum(ds, false), RightSum(Swapped(ds, i), false));
  }

  /** The check digit that completes a prefix. */
  function CheckDigit(prefix: seq<nat>): (d: nat)
    ensures d <= 9
  {
    (10 - RightSum(prefix, true) % 10) % 10
  }

  /** Every prefix of twelve or more digits has exactly one valid check digit. */
  lemma OneCheckDigit(prefix: seq<nat>, d: nat)
    requires |prefix| >= 12 && d <= 9
    ensures Valid(prefix + [d]) <==> d == CheckDigit(prefix)
  {
    var ds := prefix + [d];
    assert ds[..|ds| - 1] == prefix;
    assert RightSum(ds, false) == d + RightSum(prefix, true);
    SumIsMultiple(d, RightSum(prefix, true));
  }

  lemma SumIsMultiple(d: nat, sum: nat)
    requires d <= 9
    ensures (d + sum) % 10 == 0 <==> d == (10 - sum % 10) % 10
  {
  }
}
