/** The bit-serial 64-by-32 divider of `lib/ia32/math.c`, and the exact range of divisors for
    which it agrees with the plain `/` and `%` used on the other architectures. */
module Divide {
  const WORD := 0x1_0000_0000
  const DOUBLE_WORD := 0x1_0000_0000_0000_0000
  const TOP_BIT := 0x8000_0000

  type uint32 = x: int | 0 <= x < 0x1_0000_0000
  type uint64 = x: int | 0 <= x < 0x1_0000_0000_0000_0000

  /** What the loop carries: the dividend, whose freed low bits collect the quotient, and `Rem`. */
  datatype Registers = Registers(dividend: uint64, rem: uint32)

  /** `2 * x + carryIn` on a word of `2 * half` values: the top bit is lost... */
  function Rotate(x: nat, carryIn: nat, half: nat): nat
    requires x < 2 * half
  {
    if x >= half then 2 * (x - half) + carryIn else 2 * x + carryIn
  }

  /** ...unless the caller passes it on. */
  function Carry(x: nat, half: nat): nat {
    if x >= half then 1 else 0
  }

  function Subtract(x: uint32, y: uint32): uint32 {
    if x < y then x - y + WORD else x - y
  }

  /** One iteration: shift `Rem:Dividend` left by one, dropping any bit that leaves `Rem`, and
      subtract the divisor if it fits. */
  function BitStep(r: Registers, divisor: uint32): Registers {
    var shifted := Rotate(r.dividend, 0, DOUBLE_WORD / 2);
    var rem := Rotate(r.rem, Carry(r.dividend, DOUBLE_WORD / 2), WORD / 2);
    if rem >= divisor then Registers(shifted + 1, rem - divisor) else Registers(shifted, rem)
  }

  function BitSteps(r: Registers, divisor: uint32, n: nat): Registers {
    if n == 0 then r else BitStep(BitSteps(r, divisor, n - 1), divisor)
  }

  function Result(dividend: uint64, divisor: uint32): Registers {
    BitSteps(Registers(dividend, 0), divisor, 64)
  }

  function Glue(hi: uint32, lo: uint32): uint64 {
    hi * WORD + lo
  }

  lemma RotateWords(hi: uint32, lo: uint32)
    ensures Carry(Glue(hi, lo), DOUBLE_WORD / 2) == Carry(hi, WORD / 2)
    ensures var hi', lo' := Rotate(hi, Carry(lo, WORD / 2), WORD / 2), Rotate(lo, 0, WORD / 2);
            hi' < WORD && lo' + 1 < WORD && Rotate(Glue(hi, lo), 0, DOUBLE_WORD / 2) == Glue(hi', lo')
  {
  }

  /** The assembler block: `rem:hi:lo` is shifted left, compared and reduced. */
  method StepWords(lo0: uint32, hi0: uint32, rem0: uint32, divisor: uint32)
    returns (lo: uint32, hi: uint32, rem: uint32)
    ensures Registers(Glue(hi, lo), rem) == BitStep(Registers(Glue(hi0, lo0), rem0), divisor)
  {
    RotateWords(hi0, lo0);
    lo := Rotate(lo0, 0, WORD / 2);                              // shll $1, lo
    hi := Rotate(hi0, Carry(lo0, WORD / 2), WORD / 2);           // rcll $1, hi
    rem := Rotate(rem0, Carry(hi0, WORD / 2), WORD / 2);         // rcll $1, rem
    var fits := !(rem < divisor);                                // cmp; cmc
    var mask: uint32 := if fits then WORD - 1 else 0;            // sbb eax, eax
    lo := Subtract(lo, mask);                                    // sub eax, lo
    var subtrahend: uint32 := if mask == 0 then 0 else divisor;  // and divisor, eax
    rem := Subtract(rem, subtrahend);                            // sub eax, rem
  }

  /** `DivU64x32` on the two words of the dividend. */
  method DivU64x32(dividend: uint64, divisor: uint32) returns (quotient: uint64, remainder: uint32)
    ensures Registers(quotient, remainder) == Result(dividend, divisor)
    ensures 0 < divisor <= TOP_BIT ==> quotient == dividend / divisor && remainder == dividend % divisor
  {
    hide BitStep;
    var lo: uint32, hi: uint32 := dividend % WORD, dividend / WORD;
    var rem: uint32 := 0;
    for bit := 0 to 64
      invariant Registers(Glue(hi, lo), rem) == BitSteps(Registers(dividend, 0), divisor, bit)
    {
      lo, hi, rem := StepWords(lo, hi, rem, divisor);
    }
    quotient, remainder := Glue(hi, lo), rem;
    if 0 < divisor <= TOP_BIT {
      ResultDivides(dividend, divisor);
    }
  }

  function Pow2(n: nat): (p: nat)
    ensures p > 0
  {
    if n == 0 then 1 else 2 * Pow2(n - 1)
  }

  lemma Pow2Words()
    ensures Pow2(63) == DOUBLE_WORD / 2 && Pow2(64) == DOUBLE_WORD
  {
    assert Pow2(8) == 0x100;
    assert Pow2(16) == 0x1_0000;
    assert Pow2(24) == 0x100_0000;
    assert Pow2(32) == WORD;
    assert Pow2(40) == 0x100 * WORD;
    assert Pow2(48) == 0x1_0000 * WORD;
    assert Pow2(56) == 0x100_0000 * WORD;
  }

  predicate Fits(r: Registers, divisor: uint32) {
    2 * r.rem + Carry(r.dividend, DOUBLE_WORD / 2) >= divisor
  }

  /** One step keeps the balance `consumed + q == (product + rem) * 2^64 + dividend`. */
  lemma StepBalance(r: Registers, divisor: uint32, consumed: nat, q: nat, product: nat)
    requires r.rem < divisor <= TOP_BIT
    requires consumed + q == (product + r.rem) * DOUBLE_WORD + r.dividend
    ensures BitStep(r, divisor).rem < divisor
    ensures var s := BitStep(r, divisor);
            if Fits(r, divisor)
            then 2 * consumed + (2 * q + 1) == (2 * product + divisor + s.rem) * DOUBLE_WORD + s.dividend
            else 2 * consumed + 2 * q == (2 * product + s.rem) * DOUBLE_WORD + s.dividend
  {
  }

  /** After `n` steps the bits shifted out so far have been divided: they are `q * divisor + rem`,
      and `q` sits in the low bits of the dividend. */
  lemma {:induction false} StepsDivide(dividend: uint64, divisor: uint32, n: nat) returns (q: nat)
    requires 0 < divisor <= TOP_BIT
    ensures q < Pow2(n)
    ensures var r := BitSteps(Registers(dividend, 0), divisor, n);
            && r.rem < divisor
            && dividend * Pow2(n) + q == (q * divisor + r.rem) * DOUBLE_WORD + r.dividend
  {
    hide BitStep;
    if n == 0 {
      q := 0;
    } else {
      var half := StepsDivide(dividend, divisor, n - 1);
      var r := BitSteps(Registers(dividend, 0), divisor, n - 1);
      StepBalance(r, divisor, dividend * Pow2(n - 1), half, half * divisor);
      q := if Fits(r, divisor) then 2 * half + 1 else 2 * half;
      Doubling(dividend, Pow2(n - 1), half, divisor);
    }
  }

  lemma Doubling(a: nat, p: nat, h: nat, d: nat)
    ensures a * (2 * p) == 2 * (a * p)
    ensures 2 * h * d == 2 * (h * d)
    ensures (2 * h + 1) * d == 2 * (h * d) + d
  {
  }

  lemma QuotientUnique(a: nat, b: nat, q: nat, r: nat)
    requires b > 0 && r < b && a == q * b + r
    ensures q == a / b && r == a % b
  {
    var q', r' := a / b, a % b;
    assert (q - q') * b == r' - r;
    if q > q' {
      assert (q - q') * b >= b by { ProductAtLeast(q - q', b); }
    } else if q < q' {
      assert (q' - q) * b >= b by { ProductAtLeast(q' - q, b); }
    }
  }

  lemma ProductAtLeast(k: nat, b: nat)
    requires k >= 1
    ensures k * b >= b
  {
  }

  lemma ResultDivides(dividend: uint64, divisor: uint32)
    requires 0 < divisor <= TOP_BIT
    ensures Result(dividend, divisor) == Registers(dividend / divisor, dividend % divisor)
  {
    hide BitSteps;
    var q := StepsDivide(dividend, divisor, 64);
    var r := Result(dividend, divisor);
    Pow2Words();
    assert dividend == q * divisor + r.rem && q == r.dividend;
    QuotientUnique(dividend, divisor, q, r.rem);
  }

  /** While the bits shifted out stay below the divisor nothing is subtracted. */
  lemma {:induction false} StepsShift(dividend: uint64, divisor: uint32, n: nat)
    requires dividend * Pow2(n) < divisor * DOUBLE_WORD
    ensures var r := BitSteps(Registers(dividend, 0), divisor, n);
            dividend * Pow2(n) == r.rem * DOUBLE_WORD + r.dividend
  {
    if n > 0 {
      Doubling(dividend, Pow2(n - 1), 0, 0);
      StepsShift(dividend, divisor, n - 1);
      ShiftBalance(BitSteps(Registers(dividend, 0), divisor, n - 1), divisor, dividend * Pow2(n - 1));
    }
  }

  lemma ShiftBalance(r: Registers, divisor: uint32, consumed: nat)
    requires consumed == r.rem * DOUBLE_WORD + r.dividend && 2 * consumed < divisor * DOUBLE_WORD
    ensures var s := BitStep(r, divisor); 2 * consumed == s.rem * DOUBLE_WORD + s.dividend
  {
  }

  lemma LastStep(r: Registers, divisor: uint32, n: nat)
    requires n > 0
    ensures BitSteps(r, divisor, n) == BitStep(BitSteps(r, divisor, n - 1), divisor)
  {
  }

  /** Past 2^31 the step that forms `2 * Rem + 1` loses its top bit: 2 * divisor - 1 divides wrongly. */
  lemma LargeDivisorFails(divisor: uint32)
    requires divisor > TOP_BIT
    ensures Result(2 * divisor - 1, divisor) == Registers(0, 2 * divisor - 1 - WORD)
    ensures (2 * divisor - 1) / divisor == 1
  {
    hide BitSteps;
    Pow2Words();
    StepsShift(2 * divisor - 1, divisor, 63);
    LastStep(Registers(2 * divisor - 1, 0), divisor, 64);
    assert BitSteps(Registers(2 * divisor - 1, 0), divisor, 63) == Registers(DOUBLE_WORD / 2, divisor - 1);
    QuotientUnique(2 * divisor - 1, divisor, 1, divisor - 1);
  }

  ghost predicate DividesAll(divisor: uint32)
    requires divisor > 0
  {
    forall dividend: uint64 ::
      Result(dividend, divisor) == Registers(dividend / divisor, dividend % divisor)
  }

  /** The routine is right for every dividend exactly when the divisor is at most 2^31. */
  lemma DividesAllIff(divisor: uint32)
    requires divisor > 0
    ensures DividesAll(divisor) <==> divisor <= TOP_BIT
  {
    hide Result;
    if divisor <= TOP_BIT {
      forall dividend: uint64
        ensures Result(dividend, divisor) == Registers(dividend / divisor, dividend % divisor)
      {
        ResultDivides(dividend, divisor);
      }
    } else {
      LargeDivisorFails(divisor);
    }
  }
}
