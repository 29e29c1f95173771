/** Number text: `ValueToHex` and `ValueToString` of `lib/print.c`, `xtoi` and `Atoi` of `lib/str.c`,
    with a 64-bit `UINTN`. */
module Numbers {
  import opened Chars
  import Divide

  type uint64 = Divide.uint64
  type int64 = v: int | -0x8000_0000_0000_0000 <= v < 0x8000_0000_0000_0000

  const UINT64_RANGE := 0x1_0000_0000_0000_0000
  const ZERO: Char16 := 48
  const MINUS: Char16 := 45
  const COMMA: Char16 := 44

  // ----- numerals

  function DigitChar(d: nat): Char16
    requires d < 16
  {
    if d < 10 then ZERO + d else 55 + d
  }

  /** The numeral of `v`, most significant digit first; zero has no digits. */
  function Digits(v: nat, base: nat): Text
    requires (base == 10 || base == 16)
  {
    if v == 0 then [] else Digits(v / base, base) + [DigitChar(v % base)]
  }

  function Numeral(v: nat, base: nat): Text
    requires (base == 10 || base == 16)
  {
    if v == 0 then [ZERO] else Digits(v, base)
  }

  lemma DigitsStep(v: nat, base: nat)
    requires v > 0 && (base == 10 || base == 16)
    ensures v / base < v && v / base * base + v % base == v
    ensures Digits(v, base) == Digits(v / base, base) + [DigitChar(v % base)]
  {
    if base == 10 {
    } else {
    }
  }

  lemma NoDigits(base: nat)
    requires base == 10 || base == 16
    ensures Digits(0, base) == []
  {
  }

  lemma {:induction false} DigitsLength(v: nat, base: nat, n: nat)
    requires (base == 10 || base == 16) && v < Power(base, n)
    ensures |Digits(v, base)| <= n
    decreases n
  {
    hide Digits;
    if v == 0 {
      NoDigits(base);
    } else {
      DigitsStep(v, base);
      if base == 10 {
        assert v / 10 < Power(10, n - 1);
      } else {
        assert v / 16 < Power(16, n - 1);
      }
      DigitsLength(v / base, base, n - 1);
    }
  }

  function Power(base: nat, n: nat): (p: nat)
    ensures base > 0 ==> p > 0
  {
    if n == 0 then 1 else base * Power(base, n - 1)
  }

  lemma WordLengths(v: uint64)
    ensures |Digits(v, 16)| <= 16 && |Digits(v, 10)| <= 20
  {
    assert Power(16, 4) == 0x1_0000;
    assert Power(16, 8) == 0x1_0000_0000;
    assert Power(16, 12) == 0x1_0000_0000_0000;
    assert Power(16, 16) == UINT64_RANGE;
    assert Power(10, 5) == 100000;
    assert Power(10, 10) == 10000000000;
    assert Power(10, 15) == 1000000000000000;
    assert Power(10, 20) == 100000000000000000000;
    DigitsLength(v, 16, 16);
    DigitsLength(v, 10, 20);
  }

  function Reversed(s: Text): (r: Text)
    ensures |r| == |s|
    ensures forall i :: 0 <= i < |s| ==> r[i] == s[|s| - 1 - i]
  {
    if s == [] then [] else Reversed(s[1..]) + [s[0]]
  }

  lemma {:induction false} ReversedPush(s: Text, c: Char16)
    ensures Reversed(s + [c]) == [c] + Reversed(s)
  {
    assert forall i :: 0 <= i <= |s| ==> Reversed(s + [c])[i] == ([c] + Reversed(s))[i];
  }

  lemma NothingReversed()
    ensures Reversed([]) == []
  {
  }

  /** A buffer holds `text`, its terminator, and is otherwise as it was. */
  ghost predicate Holds(now: Text, before: Text, text: Text) {
    && |now| == |before| && |text| < |now|
    && now[..|text|] == text && now[|text|] == NUL
    && now[|text| + 1..] == before[|text| + 1..]
  }

  // ----- writing numbers

  /** The first loop of `ValueToHex`: digits into `str`, least significant first. */
  method HexDigits(value: uint64) returns (str: array<Char16>, p1: nat)
    ensures fresh(str) && p1 <= str.Length == 30
    ensures Reversed(str[..p1]) == Digits(value, 16)
  {
    hide Digits, Reversed;
    WordLengths(value);
    NothingReversed();
    NoDigits(16);
    str, p1 := new Char16[30], 0;
    var v := value;
    while v != 0
      invariant 0 <= p1 <= 16
      invariant Digits(value, 16) == Digits(v, 16) + Reversed(str[..p1])
      decreases v
    {
      ghost var before := str[..p1];
      str[p1] := DigitChar(v % 16);
      p1 := p1 + 1;
      assert str[..p1] == before + [DigitChar(v % 16)];
      ReversedPush(before, DigitChar(v % 16));
      DigitsStep(v, 16);
      v := v / 16;
    }
  }

  /** The second loop of `ValueToHex`: the digits back to front. */
  method WriteBackwards(buffer: array<Char16>, str: array<Char16>, n: nat)
    requires n <= str.Length && n < buffer.Length && str != buffer
    modifies buffer
    ensures forall i :: 0 <= i < n ==> buffer[i] == old(str[n - 1 - i])
    ensures forall i :: n <= i < buffer.Length ==> buffer[i] == old(buffer[i])
  {
    var p1, p2 := n, 0;
    while p1 != 0
      invariant 0 <= p1 <= n && p2 == n - p1
      invariant forall i :: 0 <= i < p2 ==> buffer[i] == str[n - 1 - i]
      invariant forall i :: p2 <= i < buffer.Length ==> buffer[i] == old(buffer[i])
    {
      p1 := p1 - 1;
      buffer[p2] := str[p1];
      p2 := p2 + 1;
    }
  }

  method ValueToHex(buffer: array<Char16>, v: uint64)
    requires buffer.Length > |Numeral(v, 16)|
    modifies buffer
    ensures Holds(buffer[..], old(buffer[..]), Numeral(v, 16))
  {
    hide Digits, Reversed;
    if v == 0 {
      buffer[0] := ZERO;
      buffer[1] := NUL;
      return;
    }
    var str, p1 := HexDigits(v);
    WriteBackwards(buffer, str, p1);
    assert buffer[..p1] == Reversed(str[..p1]);
    buffer[p1] := NUL;
  }

  /** The digit loop of `ValueToString`. */
  method DecimalDigits(value: uint64) returns (str: array<Char16>, p1: nat)
    ensures fresh(str) && p1 <= str.Length == 40
    ensures Reversed(str[..p1]) == Digits(value, 10)
  {
    hide Digits, Reversed, Divide.Result;
    WordLengths(value);
    NothingReversed();
    NoDigits(10);
    str, p1 := new Char16[40], 0;
    var v := value;
    while v != 0
      invariant 0 <= p1 <= 20
      invariant Digits(value, 10) == Digits(v, 10) + Reversed(str[..p1])
      decreases v
    {
      ghost var before := str[..p1];
      var q, r := Divide.DivU64x32(v, 10);
      str[p1] := r + ZERO;
      p1 := p1 + 1;
      assert str[..p1] == before + [DigitChar(v % 10)];
      ReversedPush(before, DigitChar(v % 10));
      DigitsStep(v, 10);
      v := q;
    }
  }

  /** The text after `k` digits of `d` have been written, with commas if asked for. */
  function Written(d: Text, comma: bool, k: nat): Text
    requires k <= |d|
  {
    if k == 0 then []
    else Written(d, comma, k - 1)
         + (if CommaBefore(d, comma, k - 1) then [COMMA] else []) + [d[k - 1]]
  }

  predicate CommaBefore(d: Text, comma: bool, k: nat)
    requires k < |d|
  {
    comma && k > 0 && (|d| - k) % 3 == 0
  }

  lemma {:induction false} WrittenPrefix(d: Text, comma: bool, k: nat)
    requires k <= |d|
    ensures Written(d, comma, k) <= Written(d, comma, |d|)
    decreases |d| - k
  {
    if k < |d| {
      WrittenPrefix(d, comma, k + 1);
      assert Written(d, comma, k) <= Written(d, comma, k + 1);
    }
  }

  /** Where the next digit, and the comma in front of it, go in the whole text. */
  lemma WrittenNext(d: Text, comma: bool, k: nat)
    requires k < |d|
    ensures var at := |Written(d, comma, k)| + (if CommaBefore(d, comma, k) then 1 else 0);
            && at + 1 == |Written(d, comma, k + 1)| <= |Written(d, comma, |d|)|
            && Written(d, comma, |d|)[at] == d[k]
            && (CommaBefore(d, comma, k) ==> Written(d, comma, |d|)[at - 1] == COMMA)
  {
    WrittenPrefix(d, comma, k + 1);
  }

  function Magnitude(v: int64): uint64 {
    if v < 0 then 0 - v else v
  }

  function DecimalText(v: int64, comma: bool): Text {
    var d := Digits(Magnitude(v), 10);
    if v == 0 then [ZERO] else (if v < 0 then [MINUS] else []) + Written(d, comma, |d|)
  }

  /** The output loop of `ValueToString`: digits back to front, a comma when the counter runs out. */
  method WriteDigits(buffer: array<Char16>, start: nat, str: array<Char16>, n: nat, comma: bool)
    returns (p2: nat)
    requires n <= 20 && n <= str.Length && str != buffer
    requires start + |Written(Reversed(str[..n]), comma, n)| < buffer.Length
    modifies buffer
    ensures var text := Written(Reversed(old(str[..n])), comma, n);
            && p2 == start + |text|
            && (forall i :: start <= i < p2 ==> buffer[i] == text[i - start])
            && (forall i :: 0 <= i < buffer.Length && !(start <= i < p2) ==> buffer[i] == old(buffer[i]))
  {
    hide Written;
    var ca := [3, 1, 2];
    ghost var d := Reversed(str[..n]);
    ghost var text := Written(d, comma, n);
    var p1 := n;
    p2 := start;
    var c := (if comma then ca[p1 % 3] else 999) + 1;
    NothingWritten(d, comma);
    while p1 != 0
      invariant 0 <= p1 <= n
      invariant start <= p2 == start + |Written(d, comma, n - p1)| <= start + |text|
      invariant forall i :: start <= i < p2 ==> buffer[i] == text[i - start]
      invariant forall i :: 0 <= i < buffer.Length && !(start <= i < p2) ==> buffer[i] == old(buffer[i])
      invariant comma ==> c == (if p1 % 3 == 0 then (if p1 == n then 4 else 1) else p1 % 3 + 1)
      invariant !comma ==> c == 1000 - (n - p1)
    {
      WrittenNext(d, comma, n - p1);
      c := c - 1;
      if c == 0 {
        buffer[p2] := COMMA;
        p2 := p2 + 1;
        c := 3;
      }
      p1 := p1 - 1;
      buffer[p2] := str[p1];
      p2 := p2 + 1;
    }
  }

  lemma NothingWritten(d: Text, comma: bool)
    ensures Written(d, comma, 0) == []
  {
  }

  /** `ValueToString`.  Negating the lowest value wraps back to itself, and its bits read as
      unsigned are its magnitude, so `Magnitude` is what the digit loop sees for every input. */
  method ValueToString(buffer: array<Char16>, comma: bool, v: int64)
    requires buffer.Length > |DecimalText(v, comma)|
    modifies buffer
    ensures Holds(buffer[..], old(buffer[..]), DecimalText(v, comma))
  {
    hide Digits, Written;
    if v == 0 {
      buffer[0] := ZERO;
      buffer[1] := NUL;
      return;
    }
    var p2 := 0;
    if v < 0 {
      buffer[0] := MINUS;
      p2 := 1;
    }
    var str, p1 := DecimalDigits(Magnitude(v));
    WordLengths(Magnitude(v));
    ghost var sign := buffer[..p2];
    ghost var d := Digits(Magnitude(v), 10);
    var end := WriteDigits(buffer, p2, str, p1, comma);
    assert buffer[..end] == sign + Written(d, comma, |d|);
    buffer[end] := NUL;
  }

  // ----- reading numbers

  /** The value of a digit, hexadecimal letters in either case; -1 for any other character. */
  function DigitValue(c: Char16, base: nat): (d: int)
    ensures -1 <= d < 16
  {
    if 48 <= c <= 57 then c - 48
    else if base == 16 && 65 <= c <= 70 then c - 55
    else if base == 16 && 97 <= c <= 102 then c - 87
    else -1
  }

  function SkipSpaces(s: Text): Text {
    if s != [] && s[0] == SPACE then SkipSpaces(s[1..]) else s
  }

  /** The leading digits, folded into `u` modulo 2^64. */
  function Parse(s: Text, base: nat, u: uint64): uint64 {
    if s == [] || DigitValue(s[0], base) < 0 then u
    else Parse(s[1..], base, (u * base + DigitValue(s[0], base)) % UINT64_RANGE)
  }

  function XtoiValue(s: Text): uint64 { Parse(SkipSpaces(s), 16, 0) }

  function AtoiValue(s: Text): uint64 { Parse(SkipSpaces(s), 10, 0) }

  method SkipBlanks(str: Text) returns (i: nat)
    requires IsString(str)
    ensures i <= |str| && str[i..] == SkipSpaces(str)
  {
    i := 0;
    while At(str, i) == SPACE
      invariant i <= |str| && SkipSpaces(str[i..]) == SkipSpaces(str)
      decreases |str| - i
    {
      assert str[i..][1..] == str[i + 1..];
      i := i + 1;
    }
  }

  lemma ShiftOr(u: uint64, d: nat)
    requires d < 16
    ensures u * 16 % UINT64_RANGE + d == (u * 16 + d) % UINT64_RANGE
  {
  }

  method xtoi(str: Text) returns (u: uint64)
    requires IsString(str)
    ensures u == XtoiValue(str)
  {
    var i := SkipBlanks(str);
    u := 0;
    while true
      invariant i <= |str| && Parse(str[i..], 16, u) == XtoiValue(str)
      decreases |str| - i
    {
      var c := At(str, i);
      if c == NUL {
        break;
      }
      assert str[i..][1..] == str[i + 1..];
      i := i + 1;
      if 97 <= c <= 102 {
        c := c - 32;
      }
      if 48 <= c <= 57 || 65 <= c <= 70 {
        var d := c - (if c >= 65 then 55 else 48);
        ShiftOr(u, d);
        u := u * 16 % UINT64_RANGE + d;
      } else {
        break;
      }
    }
  }

  method Atoi(str: Text) returns (u: uint64)
    requires IsString(str)
    ensures u == AtoiValue(str)
  {
    var i := SkipBlanks(str);
    u := 0;
    while true
      invariant i <= |str| && Parse(str[i..], 10, u) == AtoiValue(str)
      decreases |str| - i
    {
      var c := At(str, i);
      if c == NUL {
        break;
      }
      assert str[i..][1..] == str[i + 1..];
      i := i + 1;
      if 48 <= c <= 57 {
        u := (u * 10 + c - 48) % UINT64_RANGE;
      } else {
        break;
      }
    }
  }

  /** The leading digits without any limit on the size of the number. */
  function Value(s: Text, base: nat, u: nat): nat {
    if s == [] || DigitValue(s[0], base) < 0 then u
    else Value(s[1..], base, u * base + DigitValue(s[0], base))
  }

  lemma Remainder(n: nat, k: nat, e: nat)
    requires n == k * UINT64_RANGE + e && e < UINT64_RANGE
    ensures n % UINT64_RANGE == e
  {
  }

  lemma ModStep(u: nat, base: nat, d: nat)
    requires base == 10 || base == 16
    ensures (u % UINT64_RANGE * base + d) % UINT64_RANGE == (u * base + d) % UINT64_RANGE
  {
    var q, r := u / UINT64_RANGE, u % UINT64_RANGE;
    var x := r * base + d;
    var k, e := x / UINT64_RANGE, x % UINT64_RANGE;
    if base == 10 {
      Remainder(u * 10 + d, 10 * q + k, e);
    } else {
      Remainder(u * 16 + d, 16 * q + k, e);
    }
  }

  /** Reducing at every digit is the same as reducing the whole number once. */
  lemma {:induction false} ParseIsModular(s: Text, base: nat, u: nat)
    requires base == 10 || base == 16
    ensures Parse(s, base, u % UINT64_RANGE) == Value(s, base, u) % UINT64_RANGE
    decreases |s|
  {
    if s != [] && DigitValue(s[0], base) >= 0 {
      ModStep(u, base, DigitValue(s[0], base));
      ParseIsModular(s[1..], base, u * base + DigitValue(s[0], base));
    }
  }

  // ----- round trips

  lemma DigitBack(d: nat, base: nat)
    requires d < base <= 16 && (base == 10 || base == 16)
    ensures DigitValue(DigitChar(d), base) == d
  {
  }

  lemma ParseStep(c: Char16, rest: Text, base: nat, u: uint64)
    requires DigitValue(c, base) >= 0 && base <= 16
    ensures Parse([c] + rest, base, u) == Parse(rest, base, (u * base + DigitValue(c, base)) % UINT64_RANGE)
  {
    assert ([c] + rest)[1..] == rest;
  }

  /** Reading a numeral gives its value and goes on with what follows it. */
  lemma {:induction false} ParseNumeral(v: uint64, base: nat, rest: Text)
    requires base == 10 || base == 16
    ensures Parse(Digits(v, base) + rest, base, 0) == Parse(rest, base, v)
    decreases v, 1
  {
    if v == 0 {
      assert Digits(v, base) + rest == rest;
    } else {
      ParseNumeralStep(v, base, rest);
    }
  }

  lemma {:induction false} ParseNumeralStep(v: uint64, base: nat, rest: Text)
    requires v > 0 && (base == 10 || base == 16)
    ensures Parse(Digits(v, base) + rest, base, 0) == Parse(rest, base, v)
    decreases v, 0
  {
    hide Digits, Parse, DigitValue, DigitChar;
    var c := DigitChar(v % base);
    DigitsStep(v, base);
    ParseNumeral(v / base, base, [c] + rest);
    assert Digits(v, base) + rest == Digits(v / base, base) + ([c] + rest);
    DigitBack(v % base, base);
    ParseStep(c, rest, base, v / base);
  }

  lemma {:induction false} DigitsStart(v: nat, base: nat)
    requires v > 0 && (base == 10 || base == 16)
    ensures Digits(v, base) != [] && Digits(v, base)[0] != SPACE
    decreases v
  {
    hide Digits;
    DigitsStep(v, base);
    if v / base > 0 {
      DigitsStart(v / base, base);
    } else {
      NoDigits(base);
    }
  }

  lemma HexRoundTrip(v: uint64)
    ensures XtoiValue(Numeral(v, 16)) == v
  {
    if v == 0 {
      assert Parse([ZERO], 16, 0) == Parse([ZERO][1..], 16, 0);
    } else {
      hide Digits;
      DigitsStart(v, 16);
      ParseNumeral(v, 16, []);
      assert Digits(v, 16) + [] == Digits(v, 16);
    }
  }

  // ----- commas

  function NoCommas(s: Text): Text {
    if s == [] then [] else (if s[0] == COMMA then [] else [s[0]]) + NoCommas(s[1..])
  }

  lemma {:induction false} NoCommasAppend(s: Text, t: Text)
    ensures NoCommas(s + t) == NoCommas(s) + NoCommas(t)
    decreases |s|
  {
    if s == [] {
      assert s + t == t;
    } else {
      assert (s + t)[1..] == s[1..] + t;
      NoCommasAppend(s[1..], t);
    }
  }

  lemma {:induction false} WrittenKeepsDigits(d: Text, comma: bool, k: nat)
    requires k <= |d| && COMMA !in d
    ensures NoCommas(Written(d, comma, k)) == d[..k]
    decreases k
  {
    hide NoCommas;
    OneKept(COMMA);
    if k > 0 {
      WrittenKeepsDigits(d, comma, k - 1);
      var w := Written(d, comma, k - 1);
      var sep := if CommaBefore(d, comma, k - 1) then [COMMA] else [];
      NoCommasAppend(w, sep);
      NoCommasAppend(w + sep, [d[k - 1]]);
      OneKept(d[k - 1]);
      assert d[..k] == d[..k - 1] + [d[k - 1]];
    }
  }

  lemma OneKept(c: Char16)
    ensures NoCommas([]) == [] && NoCommas([c]) == if c == COMMA then [] else [c]
  {
    assert [c][1..] == [];
  }

  lemma WrittenPlain(d: Text, k: nat)
    requires k <= |d|
    ensures Written(d, false, k) == d[..k]
  {
    if k > 0 {
      WrittenPlain(d, k - 1);
    }
  }

  /** Where commas stand among the first `k` digits, counted from the end of the whole text. */
  lemma {:induction false} CommaPlaces(d: Text, k: nat)
    requires 0 < k <= |d| && COMMA !in d
    ensures var w, total := Written(d, true, k), |d| + (|d| - 1) / 3;
            && |w| == total - (|d| - k) - (|d| - k) / 3
            && forall i :: 0 <= i < |w| ==> (w[i] == COMMA <==> (total - i) % 4 == 0)
    decreases k
  {
    if k > 1 {
      CommaPlaces(d, k - 1);
      var m := |d| - (k - 1);
      assert m == 3 * (m / 3) + m % 3;
    } else {
      assert Written(d, true, 0) == [];
      assert Written(d, true, 1) == [d[0]];
    }
  }

  lemma {:induction false} DigitsPlain(v: nat)
    ensures forall i :: 0 <= i < |Digits(v, 10)| ==> 48 <= Digits(v, 10)[i] <= 57
    decreases v
  {
    if v > 0 {
      DigitsPlain(v / 10);
    }
  }

  /** With commas the text is the sign and the plain numeral with a comma exactly before each group of three
      digits counted from the right. */
  lemma CommaText(v: int64)
    ensures var t, sign := DecimalText(v, true), if v < 0 then 1 else 0;
            && |t| > sign && (v < 0 ==> t[0] == MINUS)
            && NoCommas(t[sign..]) == Numeral(Magnitude(v), 10)
            && forall i :: sign <= i < |t| ==> (t[i] == COMMA <==> (|t| - i) % 4 == 0)
  {
    hide Digits, Written;
    var m, t := Magnitude(v), DecimalText(v, true);
    var d := Digits(m, 10);
    if m == 0 {
      assert t[0..] == [ZERO] && [ZERO][1..] == [];
    } else {
      CommaDigits(m);
      if v < 0 {
        assert t == [MINUS] + Written(d, true, |d|) && t[1..] == Written(d, true, |d|);
      } else {
        assert t == [] + Written(d, true, |d|) == Written(d, true, |d|) == t[0..];
      }
    }
  }

  lemma CommaDigits(m: nat)
    requires m > 0
    ensures var d := Digits(m, 10);
            var w := Written(d, true, |d|);
            && w != [] && NoCommas(w) == d
            && forall i :: 0 <= i < |w| ==> (w[i] == COMMA <==> (|w| - i) % 4 == 0)
  {
    hide Digits, Written;
    var d := Digits(m, 10);
    DigitsPlain(m);
    DigitsStart(m, 10);
    WrittenKeepsDigits(d, true, |d|);
    WrittenKeepsFirst(d, true);
    CommaPlaces(d, |d|);
  }

  lemma {:induction false} ParseStops(s: Text, k: nat, u: uint64)
    requires k < |s| && DigitValue(s[k], 10) < 0
    ensures Parse(s, 10, u) == Parse(s[..k], 10, u)
    decreases k
  {
    if k > 0 {
      assert s[..k][1..] == s[1..][..k - 1];
      ParseStops(s[1..], k - 1, (u * 10 + DigitValue(s[0], 10)) % UINT64_RANGE);
    }
  }

  lemma {:induction false} ParseSmall(s: Text, u: uint64)
    requires |s| <= 3
    requires u < (if |s| == 3 then 1 else if |s| == 2 then 10 else if |s| == 1 then 100 else 1000)
    ensures Parse(s, 10, u) < 1000
    decreases |s|
  {
    hide Parse;
    ParseUnfold(s, u);
    if s != [] && DigitValue(s[0], 10) >= 0 {
      ParseSmall(s[1..], u * 10 + DigitValue(s[0], 10));
    }
  }

  lemma ParseUnfold(s: Text, u: uint64)
    ensures if s == [] || DigitValue(s[0], 10) < 0 then Parse(s, 10, u) == u
            else Parse(s, 10, u) == Parse(s[1..], 10, (u * 10 + DigitValue(s[0], 10)) % UINT64_RANGE)
  {
  }

  /** `n` digits are enough exactly for the values below `base` to the `n`. */
  lemma {:induction false} DigitsShort(v: nat, n: nat)
    ensures v < Power(10, n) <==> |Digits(v, 10)| <= n
    decreases n
  {
    if v > 0 && n > 0 {
      DigitsShort(v / 10, n - 1);
    }
  }

  lemma FirstComma(v: int64) returns (t: Text, k: nat)
    requires v >= 1000
    ensures t == DecimalText(v, true) && t != [] && t[0] != SPACE
    ensures k <= 3 && k < |t| && t[k] == COMMA
  {
    hide Digits, Written;
    var d := Digits(v, 10);
    t := DecimalText(v, true);
    assert [] + Written(d, true, |d|) == Written(d, true, |d|) == t;
    DigitsStart(v, 10);
    WrittenKeepsFirst(d, true);
    LongText(v);
    CommaDigits(v);
    k := |t| % 4;
    FullGroups(|t|);
  }

  lemma LongText(v: nat)
    requires v >= 1000
    ensures var d := Digits(v, 10); |Written(d, true, |d|)| > 3
  {
    hide Digits, Written;
    var d := Digits(v, 10);
    assert Power(10, 3) == 1000;
    DigitsShort(v, 3);
    DigitsPlain(v);
    CommaPlaces(d, |d|);
  }

  lemma FullGroups(n: nat)
    ensures (n - n % 4) % 4 == 0
  {
    assert n - n % 4 == 4 * (n / 4);
  }

  lemma CommaStopsAtoi(v: int64)
    requires v >= 1000
    ensures AtoiValue(DecimalText(v, true)) < 1000
  {
    hide DecimalText, Parse;
    var t, k := FirstComma(v);
    ParseStops(t, k, 0);
    ParsePrefixSmall(t[..k]);
  }

  lemma {:induction false} ParsePrefixSmall(s: Text)
    requires |s| <= 3
    ensures Parse(s, 10, 0) < 1000
  {
    ParseSmall(s, 0);
  }

  lemma PlainRoundTrip(v: int64, comma: bool)
    requires v > 0 && (!comma || v < 1000)
    ensures AtoiValue(DecimalText(v, comma)) == v
  {
    hide Digits, Written, Parse;
    var d := Digits(v, 10);
    assert Power(10, 3) == 1000;
    DigitsShort(v, 3);
    DigitsStart(v, 10);
    if comma {
      WrittenShort(d);
    } else {
      WrittenPlain(d, |d|);
    }
    assert DecimalText(v, comma) == d + [] == d;
    ParseNumeral(v, 10, []);
    ParseNothing(v);
  }

  lemma ParseNothing(u: uint64)
    ensures Parse([], 10, u) == u
  {
  }

  /** `Atoi` reads back what `ValueToString` wrote exactly for non-negative values whose text has no
      comma: it stops at a sign and at the first comma. */
  lemma DecimalRoundTripIff(v: int64, comma: bool)
    ensures AtoiValue(DecimalText(v, comma)) == v <==> v >= 0 && (!comma || v < 1000)
  {
    if v > 0 {
      if comma && v >= 1000 {
        CommaStopsAtoi(v);
      } else {
        PlainRoundTrip(v, comma);
      }
    } else if v == 0 {
      assert DecimalText(v, comma) == [ZERO] && [ZERO][1..] == [];
      ParseNothing(0);
      assert Parse([ZERO], 10, 0) == Parse([ZERO][1..], 10, 0);
    } else {
      assert DecimalText(v, comma)[0] == MINUS;
    }
  }

  lemma WrittenKeepsFirst(d: Text, comma: bool)
    requires d != []
    ensures Written(d, comma, |d|) != [] && Written(d, comma, |d|)[0] == d[0]
  {
    WrittenPrefix(d, comma, 1);
    assert Written(d, comma, 0) == [];
    assert Written(d, comma, 1) == [d[0]];
  }

  lemma {:induction false} WrittenShortPrefix(d: Text, k: nat)
    requires k <= |d| <= 3
    ensures Written(d, true, k) == d[..k]
    decreases k
  {
    if k > 0 {
      WrittenShortPrefix(d, k - 1);
      assert !CommaBefore(d, true, k - 1);
      assert d[..k] == d[..k - 1] + [d[k - 1]];
    }
  }

  lemma WrittenShort(d: Text)
    requires |d| <= 3
    ensures Written(d, true, |d|) == d
  {
    WrittenShortPrefix(d, |d|);
  }
}
