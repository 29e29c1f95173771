/** From the print engine back through the parsers: numbers printed with a format are read back. */
module RoundTrips {
  import opened Chars
  import opened Format
  import opened FormatLaws
  import opened Numbers
  import opened Wrappers

  // ----- a width in a format

  /** Reading the decimal digits of a number in a format gives the number. */
  lemma {:induction false} NumberDigits(v: uint64, rest: Text)
    requires v > 0
    ensures var d := Digits(v, 10);
            && d != [] && IsDigit(d[0]) && d[0] != ZERO
            && Number(d + rest, 1, d[0] - 48) == Number(d + rest, |d|, v)
    decreases v
  {
    hide Digits, Number;
    var d, front, c := Digits(v, 10), Digits(v / 10, 10), DigitChar(v % 10);
    DigitsStep(v, 10);
    if v < 10 {
      NoDigits(10);
      assert d == [c];
    } else {
      NumberDigits(v / 10, [c] + rest);
      assert d + rest == front + ([c] + rest);
      NumberStep(d + rest, |front|, v / 10, v % 10);
    }
  }

  lemma NumberStep(fmt: Text, i: nat, w: uint64, digit: nat)
    requires i < |fmt| && digit < 10 && fmt[i] == DigitChar(digit) && w * 10 + digit < UINT64_RANGE
    ensures Number(fmt, i, w) == Number(fmt, i + 1, w * 10 + digit)
  {
  }

  /** A width written in decimal is the width of the item, or its field width, also when it is left out. */
  lemma WidthReads(w: uint64, rest: Text, item: Item, args: seq<Arg>, a: Attributes)
    requires rest != [] && !IsDigit(rest[0]) && (w == 0 ==> item.SetWidth(0) == item)
    ensures var d := Digits(w, 10);
            Scan(d + rest, 0, item, args, a) == Shift(Scan(rest, 0, item.SetWidth(w), args, a), |d|)
  {
    hide Digits, Scan;
    var d := Digits(w, 10);
    ScanShift(d, rest, 0, item.SetWidth(w), args, a);
    if w == 0 {
      NoDigits(10);
      assert d + rest == rest;
    } else {
      NumberDigits(w, rest);
      assert (d + rest)[|d|] == rest[0];
      assert Modified(d + rest, 0, item, args) == Some(Step(|d|, item.SetWidth(w), args));
      ScanModified(d + rest, item, args, a);
    }
  }

  lemma ScanModified(fmt: Text, item: Item, args: seq<Arg>, a: Attributes)
    requires fmt != [] && IsModifier(fmt[0]) && Modified(fmt, 0, item, args).Some?
    ensures var step := Modified(fmt, 0, item, args).value;
            Scan(fmt, 0, item, args, a) == Scan(fmt, step.next, step.item, step.args, a)
  {
    hide Modified;
  }

  // ----- padding

  lemma {:induction false} SkipPadding(n: nat, t: Text)
    ensures SkipSpaces(Repeat(SPACE, n) + t) == SkipSpaces(t)
    decreases n
  {
    if n == 0 {
      assert Repeat(SPACE, 0) + t == t;
    } else {
      assert Repeat(SPACE, n) + t == Repeat(SPACE, n - 1) + ([SPACE] + t);
      SkipPadding(n - 1, [SPACE] + t);
      assert ([SPACE] + t)[1..] == t;
    }
  }

  lemma {:induction false} ParsePadding(n: nat, t: Text, base: nat)
    requires base == 10 || base == 16
    ensures Parse(Repeat(ZERO, n) + t, base, 0) == Parse(t, base, 0)
    decreases n
  {
    if n == 0 {
      assert Repeat(ZERO, 0) + t == t;
    } else {
      assert Repeat(ZERO, n) + t == Repeat(ZERO, n - 1) + ([ZERO] + t);
      ParsePadding(n - 1, [ZERO] + t, base);
      ParseStep(ZERO, t, base, 0);
    }
  }

  /** Padding in front of a numeral does not change what the parsers read. */
  lemma PaddingReads(pad: Char16, n: nat, t: Text, base: nat)
    requires (pad == SPACE || pad == ZERO) && t != [] && t[0] != SPACE && (base == 10 || base == 16)
    ensures Parse(SkipSpaces(Repeat(pad, n) + t), base, 0) == Parse(t, base, 0)
  {
    if pad == SPACE {
      SkipPadding(n, t);
    } else {
      ParsePadding(n, t, base);
      assert (Repeat(pad, n) + t)[0] != SPACE;
    }
  }

  // ----- round trips

  /** `%` with a width, with or without zeros in front of it, and a conversion behind it. */
  function NumberFormat(zero: bool, w: uint64, conversion: Text): Text {
    [PERCENT] + ((if zero then [ZERO] else []) + (Digits(w, 10) + conversion))
  }

  lemma NumberFormatScans(zero: bool, w: uint64, conversion: Text, args: seq<Arg>, a: Attributes)
    requires conversion != [] && !IsDigit(conversion[0])
    ensures var fmt := NumberFormat(zero, w, conversion);
            var item := NEW_ITEM.(width := w, pad := if zero then ZERO else SPACE);
            Scan(fmt, 1, NEW_ITEM, args, a) == Shift(Scan(conversion, 0, item, args, a), |fmt| - |conversion|)
  {
    hide Digits, Scan;
    var body := Digits(w, 10) + conversion;
    var flag := if zero then [ZERO] else [];
    var item := NEW_ITEM.(pad := if zero then ZERO else SPACE);
    WidthReads(w, conversion, item, args, a);
    ScanShift([PERCENT], flag + body, 0, NEW_ITEM, args, a);
    if zero {
      ScanModified(flag + body, NEW_ITEM, args, a);
      ScanShift(flag, body, 0, item, args, a);
    } else {
      assert flag + body == body;
    }
  }

  lemma RenderOne(fmt: Text, args: seq<Arg>, a: Attributes, item: Item, text: Text, left: seq<Arg>)
    requires fmt != [] && fmt[0] == PERCENT && Scan(fmt, 1, NEW_ITEM, args, a) == Field(|fmt|, left, item, text)
    ensures Render(fmt, 0, args, a) == Some(Layout(item, text))
  {
    hide Scan, Layout;
    assert Layout(item, text) + [] == Layout(item, text);
  }

  lemma LongDecimal(item: Item, bits: uint64, a: Attributes)
    requires !item.comma
    ensures Scan([108, 100], 0, item, [Word(bits)], a)
         == Field(2, [], item.(long := true), DecimalText(Signed64(bits), false))
  {
    hide DecimalText;
    var args := [Word(bits)];
    assert args[1..] == [];
    assert Scan([108, 100], 1, item.(long := true), args, a) == Conversion(100, 2, item.(long := true), args);
  }

  /** Without a field width an item is padded on the left only. */
  lemma LayoutPadded(item: Item, text: Text)
    requires item.fieldWidth == UNLIMITED && |text| <= UNLIMITED && item.padBefore
    ensures Layout(item, text) == Repeat(item.pad, Gap(|text|, item.width)) + text
  {
    var padded := Repeat(item.pad, Gap(|text|, item.width)) + text;
    assert Repeat(SPACE, 0) + padded == padded;
  }

  /** A non-negative number printed with `%ld`, any width and any padding is read back by `Atoi`. */
  lemma PrintedDecimalReadsBack(zero: bool, w: uint64, v: uint64, a: Attributes)
    requires v < 0x8000_0000_0000_0000
    ensures var out := Render(NumberFormat(zero, w, [108, 100]), 0, [Word(v)], a);
            out.Some? && |out.value| >= w && AtoiValue(out.value) == v
  {
    hide Scan, Digits, DecimalText, Layout, Parse, SkipSpaces, Repeat, NumberFormat;
    var fmt := NumberFormat(zero, w, [108, 100]);
    var item := NEW_ITEM.(width := w, pad := if zero then ZERO else SPACE);
    var text := DecimalText(v, false);
    NumberFormatScans(zero, w, [108, 100], [Word(v)], a);
    LongDecimal(item, v, a);
    FormatBegins(zero, w, [108, 100]);
    RenderOne(fmt, [Word(v)], a, item.(long := true), text, []);
    DecimalIsString(v, false);
    LayoutPadded(item.(long := true), text);
    DecimalBegins(v);
    PaddingReads(item.pad, Gap(|text|, w), text, 10);
    NothingToSkip(text);
    DecimalRoundTripIff(v, false);
  }

  lemma FormatBegins(zero: bool, w: uint64, conversion: Text)
    ensures var fmt := NumberFormat(zero, w, conversion); |fmt| > |conversion| && fmt[0] == PERCENT
  {
    hide Digits;
  }

  lemma DecimalBegins(v: int64)
    requires v >= 0
    ensures DecimalText(v, false) != [] && DecimalText(v, false)[0] != SPACE
  {
    hide Digits, Written;
    if v > 0 {
      var d := Digits(v, 10);
      DigitsStart(v, 10);
      WrittenPlain(d, |d|);
      assert DecimalText(v, false) == [] + d;
    }
  }

  lemma NothingToSkip(t: Text)
    requires t != [] && t[0] != SPACE
    ensures SkipSpaces(t) == t
  {
  }

  lemma LongHex(bits: uint64, a: Attributes)
    ensures Scan([PERCENT, 108, 88], 1, NEW_ITEM, [Word(bits)], a)
         == Field(3, [], NEW_ITEM.(long := true, width := 16, pad := ZERO), Numeral(bits, 16))
  {
    hide Numeral;
    var args := [Word(bits)];
    assert args[1..] == [];
    assert Scan([PERCENT, 108, 88], 2, NEW_ITEM.(long := true), args, a)
        == Conversion(88, 3, NEW_ITEM.(long := true), args);
  }

  /** Any number printed with `%lX` takes exactly 16 characters, and `xtoi` reads it back. */
  lemma PrintedHexReadsBack(v: uint64, a: Attributes)
    ensures var out := Render([PERCENT, 108, 88], 0, [Word(v)], a);
            out.Some? && |out.value| == 16 && XtoiValue(out.value) == v
  {
    hide Scan, Digits, Numeral, Layout, Parse, SkipSpaces, Repeat;
    var item, text := NEW_ITEM.(long := true, width := 16, pad := ZERO), Numeral(v, 16);
    LongHex(v, a);
    RenderOne([PERCENT, 108, 88], [Word(v)], a, item, text, []);
    HexIsString(v);
    LayoutPadded(item, text);
    HexBegins(v);
    PaddingReads(ZERO, Gap(|text|, 16), text, 16);
    NothingToSkip(text);
    HexRoundTrip(v);
  }

  lemma HexBegins(v: uint64)
    ensures Numeral(v, 16) != [] && Numeral(v, 16)[0] != SPACE
  {
    hide Digits;
    if v > 0 {
      DigitsStart(v, 16);
    }
  }
}
