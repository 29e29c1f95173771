/** What the attribute letters promise, and the width of pointers: when the print engine keeps to it. */
module Colours {
  import opened Chars
  import opened Format
  import opened FormatLaws
  import opened Numbers
  import opened Wrappers

  // ----- "for this field only"

  /** The letters of a directive that lead back to the attribute it started with: none; one, if there is an
      attribute to go back to or the letter changes nothing; of several only the last two count. */
  predicate LeadsBack(before: nat, names: seq<nat>) {
    || names == []
    || if |names| == 1 then before != 0 || names[0] == 0
       else if names[|names| - 2] != 0 then names[|names| - 2] == before
       else names[|names| - 1] == before
  }

  lemma RestoredIff(before: nat, names: seq<nat>)
    ensures Restored([before] + names) == before <==> LeadsBack(before, names)
  {
  }

  /** Every field of the format leaves the attribute it found. */
  predicate FieldsOnly(fmt: Text, i: nat, args: seq<Arg>, a: Attributes, attr: nat)
    requires i <= |fmt| && Render(fmt, i, args, a).Some?
    decreases |fmt| - i
  {
    if i == |fmt| then true
    else if fmt[i] != PERCENT then FieldsOnly(fmt, i + 1, args, a, attr)
    else
      var d := Scan(fmt, i + 1, NEW_ITEM, args, a);
      var after := AttrAfter(fmt, i + 1, d, a, attr);
      (d.Field? ==> after == attr) && FieldsOnly(fmt, d.next, d.args, a, after)
  }

  /** The letters of every field lead back; `attr` is the last lasting attribute. */
  predicate LettersFit(fmt: Text, i: nat, args: seq<Arg>, a: Attributes, attr: nat)
    requires i <= |fmt| && Render(fmt, i, args, a).Some?
    decreases |fmt| - i
  {
    if i == |fmt| then true
    else if fmt[i] != PERCENT then LettersFit(fmt, i + 1, args, a, attr)
    else
      var d := Scan(fmt, i + 1, NEW_ITEM, args, a);
      if d.Field? then LeadsBack(attr, Named(fmt[i + 1..d.next], a)) && LettersFit(fmt, d.next, d.args, a, attr)
      else LettersFit(fmt, d.next, d.args, a, d.attr)
  }

  /** The promise of the lower-case letters is kept throughout a format exactly when its letters fit. */
  lemma {:induction false} FieldsOnlyIff(fmt: Text, i: nat, args: seq<Arg>, a: Attributes, attr: nat)
    requires i <= |fmt| && Render(fmt, i, args, a).Some?
    ensures FieldsOnly(fmt, i, args, a, attr) <==> LettersFit(fmt, i, args, a, attr)
    decreases |fmt| - i
  {
    hide Scan, Layout, Named, Restored, LeadsBack;
    if i < |fmt| {
      if fmt[i] != PERCENT {
        FieldsOnlyIff(fmt, i + 1, args, a, attr);
      } else {
        var d := Scan(fmt, i + 1, NEW_ITEM, args, a);
        if d.Field? {
          RestoredIff(attr, Named(fmt[i + 1..d.next], a));
          FieldsOnlyIff(fmt, d.next, d.args, a, attr);
        } else {
          FieldsOnlyIff(fmt, d.next, d.args, a, d.attr);
        }
      }
    }
  }

  /** The last attribute a format sets to last. */
  function Lasting(fmt: Text, i: nat, args: seq<Arg>, a: Attributes, attr: nat): nat
    requires i <= |fmt| && Render(fmt, i, args, a).Some?
    decreases |fmt| - i
  {
    if i == |fmt| then attr
    else if fmt[i] != PERCENT then Lasting(fmt, i + 1, args, a, attr)
    else
      var d := Scan(fmt, i + 1, NEW_ITEM, args, a);
      Lasting(fmt, d.next, d.args, a, if d.Colour? then d.attr else attr)
  }

  /** Where the letters fit, only the lasting attributes are seen after the format. */
  lemma {:induction false} OnlyLastingStays(fmt: Text, i: nat, args: seq<Arg>, a: Attributes, attr: nat)
    requires i <= |fmt| && Render(fmt, i, args, a).Some? && LettersFit(fmt, i, args, a, attr)
    ensures FinalAttr(fmt, i, args, a, attr) == Lasting(fmt, i, args, a, attr)
    decreases |fmt| - i
  {
    hide Scan, Layout, Named, Restored, LeadsBack;
    if i < |fmt| {
      if fmt[i] != PERCENT {
        OnlyLastingStays(fmt, i + 1, args, a, attr);
      } else {
        var d := Scan(fmt, i + 1, NEW_ITEM, args, a);
        if d.Field? {
          RestoredIff(attr, Named(fmt[i + 1..d.next], a));
          OnlyLastingStays(fmt, d.next, d.args, a, attr);
        } else {
          OnlyLastingStays(fmt, d.next, d.args, a, d.attr);
        }
      }
    }
  }

  /** `%hed` leaves the highlight attribute set. */
  lemma TwoLetters(bits: uint64, a: Attributes, before: nat)
    requires a.highlight != 0 && a.highlight != before
    ensures var fmt := [PERCENT, 104, 101, 100];
            && Render(fmt, 0, [Word(bits)], a).Some?
            && FinalAttr(fmt, 0, [Word(bits)], a, before) == a.highlight
            && Lasting(fmt, 0, [Word(bits)], a, before) == before
            && !LettersFit(fmt, 0, [Word(bits)], a, before)
  {
    hide WordText, Layout, Named;
    var fmt, args := [PERCENT, 104, 101, 100], [Word(bits)];
    assert Scan(fmt, 3, NEW_ITEM, args, a) == Conversion(100, 4, NEW_ITEM, args);
    assert Scan(fmt, 2, NEW_ITEM, args, a) == Scan(fmt, 3, NEW_ITEM, args, a);
    assert Scan(fmt, 1, NEW_ITEM, args, a) == Scan(fmt, 2, NEW_ITEM, args, a);
    NothingNamed(fmt, 1, a);
    NamedPush(fmt, 1, 1, a);
    NamedPush(fmt, 1, 2, a);
    NamedPush(fmt, 1, 3, a);
    assert Named(fmt[1..4], a) == [a.highlight, a.error];
    assert [before] + [a.highlight, a.error] == [before, a.highlight, a.error];
    assert Render(fmt, 4, args[1..], a) == Some([]);
  }

  // ----- E, H and N

  /** Where the attribute is not zero, a lasting letter is a directive of its own and prints nothing. */
  lemma LetterEnds(c: Char16, g: Text, args: seq<Arg>, a: Attributes)
    requires SetsLasting(c) && Attribute(c, a) != 0
    ensures Render([PERCENT, c] + g, 0, args, a) == Render(g, 0, args, a)
  {
    var f: Text := [PERCENT, c];
    assert Scan(f, 1, NEW_ITEM, args, a) == Colour(2, args, Attribute(c, a));
    NothingToRender(f, args, a);
    hide Scan, Layout, Render, Left;
    RenderAppend(f, g, 0, args, a);
    assert Render(g, 0, args, a).Some? ==> [] + Render(g, 0, args, a).value == Render(g, 0, args, a).value;
  }

  lemma NothingToRender(f: Text, args: seq<Arg>, a: Attributes)
    requires |f| == 2 && f[0] == PERCENT && Scan(f, 1, NEW_ITEM, args, a).Colour?
    requires Scan(f, 1, NEW_ITEM, args, a).args == args
    ensures Render(f, 0, args, a) == Some([]) && Left(f, 0, args, a) == args
  {
    hide Scan;
    assert Render(f, 2, args, a) == Some([]) && Left(f, 2, args, a) == args;
  }

  /** Where it is zero, the directive goes on as if the letter were not there. */
  lemma LetterIgnored(c: Char16, g: Text, args: seq<Arg>, a: Attributes)
    requires SetsLasting(c) && Attribute(c, a) == 0
    ensures Render([PERCENT, c] + g, 0, args, a) == Render([PERCENT] + g, 0, args, a)
  {
    var one: Text := [PERCENT];
    var two: Text := [PERCENT, c];
    SkipLetter(two + g, args, a);
    ScanShift(two, g, 0, NEW_ITEM, args, a);
    ScanShift(one, g, 0, NEW_ITEM, args, a);
    var d := Scan(g, 0, NEW_ITEM, args, a);
    FirstDirective(two + g, args, a);
    FirstDirective(one + g, args, a);
    hide Scan, Layout, Render, SetsLasting, Attribute;
    if !d.Bad? {
      RenderShift(two, g, d.next, d.args, a);
      RenderShift(one, g, d.next, d.args, a);
    }
  }

  lemma SkipLetter(f: Text, args: seq<Arg>, a: Attributes)
    requires |f| >= 2 && SetsLasting(f[1]) && Attribute(f[1], a) == 0
    ensures Scan(f, 1, NEW_ITEM, args, a) == Scan(f, 2, NEW_ITEM, args, a)
  {
  }

  lemma FirstDirective(f: Text, args: seq<Arg>, a: Attributes)
    requires f != [] && f[0] == PERCENT
    ensures var d := Scan(f, 1, NEW_ITEM, args, a);
            Render(f, 0, args, a) ==
            match d
            case Bad => None
            case Colour(next, left, _) => Render(f, next, left, a)
            case Field(next, left, item, text) =>
              match Render(f, next, left, a)
              case None => None
              case Some(rest) => Some(Layout(item, text) + rest)
  {
    hide Scan, Layout;
  }

  /** A lasting letter is a directive of its own, in front of every format, exactly when its attribute is not
      zero. */
  lemma LastingLetterIff(c: Char16, a: Attributes)
    requires SetsLasting(c)
    ensures Attribute(c, a) != 0 <==>
            forall g: Text, args :: Render([PERCENT, c] + g, 0, args, a) == Render(g, 0, args, a)
  {
    hide Render;
    if Attribute(c, a) != 0 {
      forall g: Text, args
        ensures Render([PERCENT, c] + g, 0, args, a) == Render(g, 0, args, a)
      {
        LetterEnds(c, g, args, a);
      }
    } else {
      var g: Text := [100];
      LetterIgnored(c, g, [], a);
      LetterNeedsWord(a);
    }
  }

  lemma LetterNeedsWord(a: Attributes)
    ensures var g: Text := [100];
            Render([PERCENT] + g, 0, [], a) == None && Render(g, 0, [], a).Some?
  {
    var g: Text := [100];
    var f: Text := [PERCENT, 100];
    assert [PERCENT] + g == f;
    assert Scan(f, 1, NEW_ITEM, [], a) == Conversion(100, 2, NEW_ITEM, []) == Bad;
    assert Render(g, 1, [], a) == Some([]);
  }

  /** Without attributes, as in strings and pools, no directive ends in a lasting letter. */
  lemma {:induction false} NeverColour(fmt: Text, i: nat, item: Item, args: seq<Arg>)
    requires i <= |fmt|
    ensures !Scan(fmt, i, item, args, NO_ATTRIBUTES).Colour?
    decreases |fmt| - i
  {
    hide Modified;
    if i < |fmt| {
      var c := fmt[i];
      if IsModifier(c) {
        var m := Modified(fmt, i, item, args);
        if m.Some? {
          NeverColour(fmt, m.value.next, m.value.item, m.value.args);
        }
      } else if SetsForField(c) || SetsLasting(c) {
        NeverColour(fmt, i + 1, item, args);
      }
    }
  }

  /** `%Ed` prints the letter d on a console, and a number into a string. */
  lemma LetterTaken(bits: uint64, a: Attributes)
    requires a.error != 0
    ensures Render([PERCENT, 69, 100], 0, [Word(bits)], a) == Some([100])
    ensures Render([PERCENT, 69, 100], 0, [Word(bits)], NO_ATTRIBUTES)
         == Some(Layout(NEW_ITEM, DecimalText(Signed32(bits), false)))
  {
    hide Layout, DecimalText;
    var fmt, args, left := [PERCENT, 69, 100], [Word(bits)], [];
    assert args[1..] == left;
    assert Render(fmt, 3, args, a) == Some([]) && Render(fmt, 3, left, NO_ATTRIBUTES) == Some([]);
    assert Scan(fmt, 1, NEW_ITEM, args, a) == Colour(2, args, a.error);
    var plain: Text := [100];
    assert plain + [] == plain;
    assert Render(fmt, 2, args, a) == Some(plain);
    assert Scan(fmt, 2, NEW_ITEM, args, NO_ATTRIBUTES) == Conversion(100, 3, NEW_ITEM, args);
    assert Scan(fmt, 1, NEW_ITEM, args, NO_ATTRIBUTES) == Scan(fmt, 2, NEW_ITEM, args, NO_ATTRIBUTES);
    var out := Layout(NEW_ITEM, DecimalText(Signed32(bits), false));
    assert out + [] == out;
  }

  // ----- pointers

  /** `0x` and the sixteen digits of a pointer. */
  const FULL_WIDTH := 18

  lemma {:induction false} HexDigitsIff(v: nat, n: nat)
    ensures |Digits(v, 16)| <= n <==> v < Power(16, n)
    decreases n
  {
    hide Digits;
    if v == 0 {
      NoDigits(16);
    } else {
      DigitsStep(v, 16);
      if n > 0 {
        HexDigitsIff(v / 16, n - 1);
      }
    }
  }

  /** `%p`, with or without `l`. */
  function PointerFormat(long: bool): Text {
    if long then [PERCENT, 108, 112] else [PERCENT, 112]
  }

  lemma PointerText(long: bool, bits: uint64, a: Attributes)
    ensures Render(PointerFormat(long), 0, [Word(bits)], a) == Some([48, 120] + Numeral(HexValue(bits, long), 16))
  {
    hide Numeral, Layout;
    var fmt, args, left := PointerFormat(long), [Word(bits)], [];
    var item, text := NEW_ITEM.(long := long, pad := ZERO), [48, 120] + Numeral(HexValue(bits, long), 16);
    assert args[1..] == left;
    var before := NEW_ITEM.(long := long);
    assert Scan(fmt, |fmt| - 1, before, args, a) == Conversion(112, |fmt|, before, args);
    assert Scan(fmt, 1, NEW_ITEM, args, a) == Field(|fmt|, left, item, text);
    assert Render(fmt, |fmt|, left, a) == Some([]);
    HexIsString(HexValue(bits, long));
    Unpadded(item, text);
    assert text + [] == text;
  }

  /** An item of width zero and no field width goes out as it is. */
  lemma Unpadded(item: Item, text: Text)
    requires item.width == 0 && item.fieldWidth == UNLIMITED && |text| <= UNLIMITED
    ensures Layout(item, text) == text
  {
    assert Repeat(item.pad, 0) + text == text && Repeat(SPACE, 0) == [];
    assert [] + text == text && text + [] == text;
  }

  /** A pointer fills its intended width exactly when it is 64 bits wide and its first digit is not zero. */
  lemma PointerWidthIff(long: bool, bits: uint64, a: Attributes)
    ensures var out := Render(PointerFormat(long), 0, [Word(bits)], a);
            && out.Some? && |out.value| <= FULL_WIDTH
            && (|out.value| == FULL_WIDTH <==> long && bits >= 0x1000_0000_0000_0000)
  {
    hide Render, Digits;
    var v := HexValue(bits, long);
    PointerText(long, bits, a);
    HexIsString(v);
    assert Power(16, 15) == 0x1000_0000_0000_0000;
    HexDigitsIff(v, 15);
  }

  // ----- u and -

  /** The unsigned decimal the `u` conversion promises. */
  function UnsignedText(v: uint64, comma: bool): Text {
    var d := Digits(v, 10);
    if v == 0 then [ZERO] else Written(d, comma, |d|)
  }

  /** A long `u` prints the unsigned decimal exactly for values below 2^63; the others start with a minus. */
  lemma UnsignedIff(bits: uint64, item: Item)
    requires item.long
    ensures WordText(117, item, bits) == UnsignedText(bits, item.comma) <==> bits < 0x8000_0000_0000_0000
  {
    hide Digits, Written;
    var d := Digits(bits, 10);
    if bits >= 0x8000_0000_0000_0000 {
      DigitsStart(bits, 10);
      DigitsPlain(bits);
      WrittenKeepsFirst(d, item.comma);
      assert WordText(117, item, bits)[0] == MINUS;
      assert UnsignedText(bits, item.comma)[0] == d[0] != MINUS;
    } else if bits > 0 {
      assert [] + Written(d, item.comma, |d|) == Written(d, item.comma, |d|);
    }
  }

  /** The same through a format. */
  lemma UnsignedPrintedIff(bits: uint64, a: Attributes)
    ensures Render([PERCENT, 108, 117], 0, [Word(bits)], a) == Some(UnsignedText(bits, false)) <==>
            bits < 0x8000_0000_0000_0000
  {
    hide DecimalText, UnsignedText, Layout;
    var fmt, args, left := [PERCENT, 108, 117], [Word(bits)], [];
    var item := NEW_ITEM.(long := true);
    var text := DecimalText(Signed64(bits), false);
    assert args[1..] == left;
    assert Scan(fmt, 2, item, args, a) == Conversion(117, 3, item, args);
    assert Scan(fmt, 1, NEW_ITEM, args, a) == Field(3, left, item, text);
    assert Render(fmt, 3, left, a) == Some([]);
    DecimalIsString(Signed64(bits), false);
    Unpadded(item, text);
    assert text + [] == text;
    UnsignedIff(bits, item);
  }

  /** Without a field width `-` changes nothing: it only moves the outer spaces. */
  lemma MinusAlone(item: Item, text: Text)
    requires item.fieldWidth == UNLIMITED
    ensures Layout(item.(padBefore := false), text) == Layout(item.(padBefore := true), text)
  {
    var padded := Repeat(item.pad, Gap(|Clipped(text, item)|, Max(item.width, |Clipped(text, item)|)))
                  + Clipped(text, item);
    assert [] + padded == padded == padded + [];
  }

  /** With `-` the item stands on the left exactly when it fills its width, or consists of pads itself. */
  lemma LeftJustifiedIff(item: Item, text: Text)
    requires !item.padBefore
    ensures var clip := Clipped(text, item);
            clip <= Layout(item, text) <==>
            |clip| >= item.width || forall i :: 0 <= i < |clip| ==> clip[i] == item.pad
  {
    hide Repeat;
    var clip, n := Clipped(text, item), Gap(|Clipped(text, item)|, Max(item.width, |Clipped(text, item)|));
    var padded := Repeat(item.pad, n) + clip;
    assert padded <= Layout(item, text);
    assert clip <= Layout(item, text) <==> clip <= padded;
    if n == 0 {
      assert Repeat(item.pad, 0) == [];
      assert padded == clip;
    } else {
      if clip <= padded {
        PadsOnly(clip, item.pad, n);
      }
      if forall i :: 0 <= i < |clip| ==> clip[i] == item.pad {
        assert forall i :: 0 <= i < |clip| ==> padded[i] == clip[i];
        assert padded[..|clip|] == clip;
      }
    }
  }

  /** A text that begins the pads in front of it is all pads. */
  lemma PadsOnly(clip: Text, pad: Char16, n: nat)
    requires n > 0 && clip <= Repeat(pad, n) + clip
    ensures forall i :: 0 <= i < |clip| ==> clip[i] == pad
  {
    var padded := Repeat(pad, n) + clip;
    assert forall i :: 0 <= i < |clip| ==> clip[i] == padded[i];
    var i := 0;
    while i < |clip|
      invariant 0 <= i <= |clip| && forall j :: 0 <= j < i ==> clip[j] == pad
    {
      assert padded[i] == if i < n then pad else clip[i - n];
      i := i + 1;
    }
  }
}
