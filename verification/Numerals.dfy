/** What the characters of a number amount to, digit by digit: the texts `lib/print.c` writes and `lib/str.c`
    reads, said without the functions that write and read them. */
module Numerals {
  import opened Chars
  import opened Format
  import opened Numbers
  import opened RoundTrips

  // ----- characters and what they amount to

  /** The decimal value of digits, commas passed over. */
  function Amount(t: Text): int {
    if t == [] then 0
    else
      var front, c := Amount(t[..|t| - 1]), t[|t| - 1];
      if c == 44 then front else 10 * front + c - 48
  }

  function HexDigitAmount(c: int): int {
    if c <= 57 then c - 48 else if c <= 70 then c - 55 else c - 87
  }

  /** The hexadecimal value of digits in either case. */
  function HexAmount(t: Text): int {
    if t == [] then 0
    else
      16 * HexAmount(t[..|t| - 1]) + HexDigitAmount(t[|t| - 1])
  }

  /** Decimal digits that amount to `m`, no zero in front; with commas, one at every fourth place from the right
      and none in front. */
  ghost predicate IsDecimal(t: Text, comma: bool, m: nat) {
    && t != [] && t[0] != 44 && (t[0] == 48 ==> |t| == 1) && Amount(t) == m
    && forall i :: 0 <= i < |t| ==> if comma && (|t| - i) % 4 == 0 then t[i] == 44 else 48 <= t[i] <= 57
  }

  /** The same with a minus sign in front when the number is negative. */
  ghost predicate IsSigned(t: Text, comma: bool, n: int) {
    if n < 0 then t != [] && t[0] == 45 && IsDecimal(t[1..], comma, -n) else IsDecimal(t, comma, n)
  }

  /** Hexadecimal digits in upper case. */
  ghost predicate UpperHex(t: Text) {
    forall i :: 0 <= i < |t| ==> 48 <= t[i] <= 57 || 65 <= t[i] <= 70
  }

  /** Upper-case hexadecimal digits that amount to `m`, no zero in front. */
  ghost predicate IsHex(t: Text, m: nat) {
    t != [] && UpperHex(t) && (t[0] == 48 ==> |t| == 1) && HexAmount(t) == m
  }

  // ----- writing

  lemma AmountPush(t: Text, c: Char16)
    ensures Amount(t + [c]) == if c == 44 then Amount(t) else 10 * Amount(t) + c - 48
    ensures HexAmount(t + [c]) == 16 * HexAmount(t) + HexDigitAmount(c)
  {
    assert (t + [c])[..|t|] == t;
  }

  lemma {:induction false} DigitsAmount(v: nat)
    ensures Amount(Digits(v, 10)) == v
    ensures v > 0 ==> Digits(v, 10) != [] && Digits(v, 10)[0] != 48
    decreases v
  {
    hide Digits, Amount;
    if v == 0 {
      NoDigits(10);
      NothingAmounts();
    } else {
      DigitsStep(v, 10);
      DigitsAmount(v / 10);
      AmountPush(Digits(v / 10, 10), DigitChar(v % 10));
      if v < 10 {
        NoDigits(10);
      }
    }
  }

  lemma NothingAmounts()
    ensures Amount([]) == 0 && HexAmount([]) == 0
  {
  }

  lemma {:induction false} HexDigitsAmount(v: nat)
    ensures HexAmount(Digits(v, 16)) == v && UpperHex(Digits(v, 16))
    ensures v > 0 ==> Digits(v, 16) != [] && Digits(v, 16)[0] != 48
    decreases v
  {
    hide Digits, HexAmount;
    if v == 0 {
      NoDigits(16);
      NothingAmounts();
    } else {
      DigitsStep(v, 16);
      HexDigitsAmount(v / 16);
      AmountPush(Digits(v / 16, 16), DigitChar(v % 16));
      if v < 16 {
        NoDigits(16);
      }
    }
  }

  /** `ValueToHex` writes upper-case digits that amount to the value. */
  lemma NumeralIsHex(v: nat)
    ensures IsHex(Numeral(v, 16), v)
  {
    hide Digits;
    HexDigitsAmount(v);
    if v == 0 {
      AmountPush([], 48);
      NothingAmounts();
      assert [] + [48] == [48];
    }
  }

  lemma WrittenStep(d: Text, comma: bool, k: nat)
    requires 0 < k <= |d|
    ensures Written(d, comma, 0) == []
    ensures var w := Written(d, comma, k - 1);
            || Written(d, comma, k) == w + [d[k - 1]]
            || Written(d, comma, k) == w + [44] + [d[k - 1]]
  {
  }

  /** Commas do not count. */
  lemma {:induction false} WrittenAmount(d: Text, comma: bool, k: nat)
    requires k <= |d| && 44 !in d
    ensures Amount(Written(d, comma, k)) == Amount(d[..k])
    decreases k
  {
    hide Amount, Written;
    if k > 0 {
      WrittenAmount(d, comma, k - 1);
      WrittenStep(d, comma, k);
      var w, c := Written(d, comma, k - 1), d[k - 1];
      assert d[..k] == d[..k - 1] + [c];
      AmountPush(d[..k - 1], c);
      AmountPush(w, 44);
      AmountPush(w, c);
      AmountPush(w + [44], c);
    } else {
      NothingWritten(d, comma);
    }
  }

  lemma {:induction false} WrittenCharacters(d: Text, comma: bool, k: nat)
    requires k <= |d|
    ensures forall c :: c in Written(d, comma, k) ==> c in d || c == 44
    decreases k
  {
    if k > 0 {
      WrittenCharacters(d, comma, k - 1);
    }
  }

  lemma WrittenIsDecimal(m: nat, comma: bool)
    requires m > 0
    ensures var d := Digits(m, 10); IsDecimal(Written(d, comma, |d|), comma, m)
  {
    hide Digits, Written, Amount;
    var d := Digits(m, 10);
    DigitsAmount(m);
    DigitsPlain(m);
    WrittenAmount(d, comma, |d|);
    WrittenCharacters(d, comma, |d|);
    WrittenKeepsFirst(d, comma);
    var w := Written(d, comma, |d|);
    forall i | 0 <= i < |w|
      ensures w[i] == 44 || 48 <= w[i] <= 57
    {
      assert w[i] in w;
    }
    assert d[..|d|] == d;
    if comma {
      CommaDigits(m);
      ShortNumeral(m);
    } else {
      WrittenPlain(d, |d|);
    }
  }

  /** A numeral with more than one digit does not begin with a zero, with or without commas. */
  lemma ShortNumeral(m: nat)
    requires m > 0
    ensures Digits(m, 10) != [] && Digits(m, 10)[0] != 48
  {
    DigitsAmount(m);
  }

  /** `ValueToString` writes the sign and the digits of the value, with commas if asked for. */
  lemma DecimalIsSigned(v: int64, comma: bool)
    ensures IsSigned(DecimalText(v, comma), comma, v)
  {
    hide Digits, Written, Amount;
    if v == 0 {
      AmountPush([], 48);
      NothingAmounts();
      assert [] + [48] == [48];
    } else {
      WrittenIsDecimal(Magnitude(v), comma);
      var d := Digits(Magnitude(v), 10);
      var w := Written(d, comma, |d|);
      assert ([45] + w)[1..] == w && [] + w == w;
    }
  }

  /** Digits without commas are the numeral of what they amount to. */
  lemma {:induction false} DecimalIsNumeral(t: Text, m: nat)
    requires IsDecimal(t, false, m)
    ensures t == Numeral(m, 10)
    decreases |t|
  {
    hide IsDecimal, Numeral;
    if |t| > 1 {
      var k := DecimalFront(t, m);
      DecimalIsNumeral(t[..|t| - 1], k);
      NumeralPush(k, m % 10);
    } else {
      OneDigit(t, m);
    }
  }

  lemma OneDigit(t: Text, m: nat)
    requires IsDecimal(t, false, m) && |t| <= 1
    ensures t == Numeral(m, 10)
  {
    AmountPush([], t[0]);
    NothingAmounts();
    assert t == [] + [t[0]];
    NumeralPush(0, m);
  }

  lemma DecimalFront(t: Text, m: nat) returns (k: nat)
    requires IsDecimal(t, false, m) && |t| > 1
    ensures k > 0 && IsDecimal(t[..|t| - 1], false, k) && 10 * k + m % 10 == m
    ensures t == t[..|t| - 1] + [48 + m % 10]
  {
    hide Amount;
    var front, c := t[..|t| - 1], t[|t| - 1];
    assert t == front + [c];
    AmountPush(front, c);
    AmountIsNat(front);
    k := Amount(front);
  }

  lemma NumeralPush(k: nat, d: nat)
    requires d < 10
    ensures Numeral(10 * k + d, 10) == if k == 0 then [48 + d] else Numeral(k, 10) + [48 + d]
  {
    hide Digits;
    if 10 * k + d > 0 {
      DigitsStep(10 * k + d, 10);
      assert (10 * k + d) / 10 == k && (10 * k + d) % 10 == d;
      NoDigits(10);
    }
  }

  lemma {:induction false} AmountIsNat(t: Text)
    requires forall i :: 0 <= i < |t| ==> 48 <= t[i] <= 57
    ensures Amount(t) >= 0 && (t != [] && t[0] != 48 ==> Amount(t) > 0)
    decreases |t|
  {
    if t != [] {
      AmountIsNat(t[..|t| - 1]);
    }
  }

  // ----- reading

  predicate HexDigit(c: Char16) {
    48 <= c <= 57 || 65 <= c <= 70 || 97 <= c <= 102
  }

  /** Any number of blanks, then digits up to the first character that is none: `xtoi` returns what those digits
      amount to modulo 2^64, letters in either case. */
  lemma XtoiReads(n: nat, t: Text, rest: Text)
    requires forall i :: 0 <= i < |t| ==> HexDigit(t[i])
    requires rest != [] ==> !HexDigit(rest[0]) && (t == [] ==> rest[0] != 32)
    ensures HexAmount(t) >= 0
    ensures XtoiValue(Repeat(32, n) + t + rest) == HexAmount(t) % 0x1_0000_0000_0000_0000
  {
    hide Parse, HexAmount, SkipSpaces, Repeat;
    assert Repeat(32, n) + t + rest == Repeat(SPACE, n) + (t + rest);
    SkipPadding(n, t + rest);
    NoBlanks(t + rest);
    ParseHex(t, rest);
    ParseEnds(rest, 16, HexAmount(t) % UINT64_RANGE);
  }

  lemma NoBlanks(t: Text)
    requires t != [] ==> t[0] != SPACE
    ensures SkipSpaces(t) == t
  {
  }

  lemma ParseEnds(t: Text, base: nat, u: uint64)
    requires t != [] ==> DigitValue(t[0], base) < 0
    ensures Parse(t, base, u) == u
  {
  }

  lemma {:induction false} ParseHex(t: Text, rest: Text)
    requires forall i :: 0 <= i < |t| ==> HexDigit(t[i])
    ensures HexAmount(t) >= 0
    ensures Parse(t + rest, 16, 0) == Parse(rest, 16, HexAmount(t) % UINT64_RANGE)
    decreases |t|
  {
    hide Parse, HexAmount;
    if t == [] {
      NothingAmounts();
      assert t + rest == rest;
    } else {
      var front, c := t[..|t| - 1], t[|t| - 1];
      ParseHex(front, [c] + rest);
      assert t + rest == front + ([c] + rest) && t == front + [c];
      AmountPush(front, c);
      ParseStep(c, rest, 16, HexAmount(front) % UINT64_RANGE);
      ModStep(HexAmount(front), 16, DigitValue(c, 16));
    }
  }

  /** The same for `Atoi` and decimal digits. */
  lemma AtoiReads(n: nat, t: Text, rest: Text)
    requires forall i :: 0 <= i < |t| ==> 48 <= t[i] <= 57
    requires rest != [] ==> !(48 <= rest[0] <= 57) && (t == [] ==> rest[0] != 32)
    ensures Amount(t) >= 0
    ensures AtoiValue(Repeat(32, n) + t + rest) == Amount(t) % 0x1_0000_0000_0000_0000
  {
    hide Parse, Amount, SkipSpaces, Repeat;
    assert Repeat(32, n) + t + rest == Repeat(SPACE, n) + (t + rest);
    SkipPadding(n, t + rest);
    NoBlanks(t + rest);
    ParseDecimal(t, rest);
    ParseEnds(rest, 10, Amount(t) % UINT64_RANGE);
  }

  lemma {:induction false} ParseDecimal(t: Text, rest: Text)
    requires forall i :: 0 <= i < |t| ==> 48 <= t[i] <= 57
    ensures Amount(t) >= 0
    ensures Parse(t + rest, 10, 0) == Parse(rest, 10, Amount(t) % UINT64_RANGE)
    decreases |t|
  {
    hide Parse, Amount;
    if t == [] {
      NothingAmounts();
      assert t + rest == rest;
    } else {
      var front, c := t[..|t| - 1], t[|t| - 1];
      ParseDecimal(front, [c] + rest);
      assert t + rest == front + ([c] + rest) && t == front + [c];
      AmountPush(front, c);
      ParseStep(c, rest, 10, Amount(front) % UINT64_RANGE);
      ModStep(Amount(front), 10, DigitValue(c, 10));
    }
  }
}
