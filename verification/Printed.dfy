/** What each directive prints, by the characters that come out and the arguments that are left. */
module Printed {
  import opened Chars
  import opened Colours
  import opened Format
  import opened FormatLaws
  import opened Numbers
  import opened Numerals
  import opened RoundTrips
  import opened Wrappers

  /** The format prints just that, and leaves those arguments. */
  ghost predicate Prints(fmt: Text, args: seq<Arg>, a: Attributes, out: Text, more: seq<Arg>) {
    Render(fmt, 0, args, a) == Some(out) && Left(fmt, 0, args, a) == more
  }

  lemma OneDirective(fmt: Text, args: seq<Arg>, a: Attributes, item: Item, text: Text, more: seq<Arg>)
    requires fmt != [] && fmt[0] == PERCENT && Scan(fmt, 1, NEW_ITEM, args, a) == Field(|fmt|, more, item, text)
    ensures Prints(fmt, args, a, Layout(item, text), more)
  {
    hide Scan, Layout;
    RenderOne(fmt, args, a, item, text, more);
    RenderDone(fmt, more, a);
    assert Left(fmt, |fmt|, more, a) == more;
  }

  // ----- modifiers

  /** Modifier characters without digits, and the words their stars take. */
  predicate Modifiers(x: Text, words: seq<Arg>)
    decreases |x|
  {
    if x == [] then words == []
    else if x[0] == 42 then words != [] && words[0].Word? && Modifiers(x[1..], words[1..])
    else (x[0] == 44 || x[0] == 45 || x[0] == 46 || x[0] == 48 || x[0] == 108) && Modifiers(x[1..], words)
  }

  /** The item after the modifiers. */
  function After(x: Text, item: Item, words: seq<Arg>): Item
    requires Modifiers(x, words)
    decreases |x|
  {
    if x == [] then item
    else if x[0] == 42 then After(x[1..], item.SetWidth(words[0].bits), words[1..])
    else After(x[1..], OneMore(x[0], item), words)
  }

  function OneMore(c: Char16, item: Item): Item {
    if c == 44 then item.(comma := true)
    else if c == 45 then item.(padBefore := false)
    else if c == 46 then item.(toField := true)
    else if c == 48 then item.(pad := 48)
    else item.(long := true)
  }

  /** Modifiers are read one after the other, whatever follows them. */
  lemma {:induction false} ScanModifiers(x: Text, words: seq<Arg>, g: Text, item: Item, args: seq<Arg>, a: Attributes)
    requires Modifiers(x, words)
    ensures Scan(x + g, 0, item, words + args, a) == Shift(Scan(g, 0, After(x, item, words), args, a), |x|)
    decreases |x|
  {
    hide Scan;
    if x == [] {
      assert x + g == g && words + args == args;
    } else {
      var c, rest := x[0], x[1..];
      assert x + g == [c] + (rest + g) && x == [c] + rest;
      ScanModified(x + g, item, words + args, a);
      if c == 42 {
        assert (words + args)[1..] == words[1..] + args;
        ScanModifiers(rest, words[1..], g, item.SetWidth(words[0].bits), args, a);
        ScanShift([c], rest + g, 0, item.SetWidth(words[0].bits), words[1..] + args, a);
      } else {
        ScanModifiers(rest, words, g, OneMore(c, item), args, a);
        ScanShift([c], rest + g, 0, OneMore(c, item), words + args, a);
      }
    }
  }

  lemma {:induction false} LeftShift(f: Text, g: Text, k: nat, args: seq<Arg>, a: Attributes)
    requires k <= |g| && Render(g, k, args, a).Some?
    ensures Render(f + g, |f| + k, args, a).Some? && Left(f + g, |f| + k, args, a) == Left(g, k, args, a)
    decreases |g| - k
  {
    hide Scan, Layout;
    RenderShift(f, g, k, args, a);
    if k < |g| {
      assert (f + g)[|f| + k] == g[k];
      if g[k] != PERCENT {
        LeftShift(f, g, k + 1, args, a);
      } else {
        ScanShift(f, g, k + 1, NEW_ITEM, args, a);
        var d := Scan(g, k + 1, NEW_ITEM, args, a);
        LeftShift(f, g, d.next, d.args, a);
      }
    }
  }

  lemma FirstLeft(f: Text, args: seq<Arg>, a: Attributes)
    requires f != [] && f[0] == PERCENT && Render(f, 0, args, a).Some?
    ensures var d := Scan(f, 1, NEW_ITEM, args, a);
            !d.Bad? && Render(f, d.next, d.args, a).Some? && Left(f, 0, args, a) == Left(f, d.next, d.args, a)
  {
    hide Scan, Layout;
  }

  /** Two directives that come to the same item in front of the same rest print the same. */
  lemma SameRest(f: Text, fArgs: seq<Arg>, h: Text, hArgs: seq<Arg>, g: Text, item: Item, args: seq<Arg>, a: Attributes)
    requires f != [] && f[0] == PERCENT && h != [] && h[0] == PERCENT
    requires Scan(f + g, 1, NEW_ITEM, fArgs, a) == Shift(Scan(g, 0, item, args, a), |f|)
    requires Scan(h + g, 1, NEW_ITEM, hArgs, a) == Shift(Scan(g, 0, item, args, a), |h|)
    ensures Render(f + g, 0, fArgs, a) == Render(h + g, 0, hArgs, a)
    ensures Render(f + g, 0, fArgs, a).Some? ==> Left(f + g, 0, fArgs, a) == Left(h + g, 0, hArgs, a)
  {
    hide Scan, Layout, Render, Left;
    var d := Scan(g, 0, item, args, a);
    FirstDirective(f + g, fArgs, a);
    FirstDirective(h + g, hArgs, a);
    if !d.Bad? {
      RenderShift(f, g, d.next, d.args, a);
      RenderShift(h, g, d.next, d.args, a);
      if Render(f + g, 0, fArgs, a).Some? {
        FirstLeft(f + g, fArgs, a);
        FirstLeft(h + g, hArgs, a);
        LeftShift(f, g, d.next, d.args, a);
        LeftShift(h, g, d.next, d.args, a);
      }
    }
  }

  /** `%` and modifiers, and what follows them. */
  lemma ScanDirective(x: Text, words: seq<Arg>, g: Text, args: seq<Arg>, a: Attributes)
    requires Modifiers(x, words)
    ensures Scan([37] + x + g, 1, NEW_ITEM, words + args, a)
         == Shift(Scan(g, 0, After(x, NEW_ITEM, words), args, a), |[37] + x|)
  {
    hide Scan, After;
    assert [37] + x + g == [37] + (x + g);
    ScanModifiers(x, words, g, NEW_ITEM, args, a);
    ScanShift([37], x + g, 0, NEW_ITEM, words + args, a);
  }

  lemma {:induction false} NumberAmount(t: Text, g: Text)
    requires t != [] && forall i :: 0 <= i < |t| ==> 48 <= t[i] <= 57
    ensures Amount(t) >= 0
    ensures Number(t + g, 1, t[0] - 48) == Number(t + g, |t|, Amount(t) % UINT64_RANGE)
    decreases |t|
  {
    hide Amount, Number;
    var front, c := t[..|t| - 1], t[|t| - 1];
    assert t == front + [c];
    AmountModulo(front, c);
    if front == [] {
      NothingAmounts();
    } else {
      NumberAmount(front, [c] + g);
      assert t + g == front + ([c] + g);
      OneDigitMore(t + g, |front|, Amount(front) % UINT64_RANGE);
    }
  }

  lemma AmountModulo(t: Text, c: Char16)
    requires 48 <= c <= 57 && forall i :: 0 <= i < |t| ==> 48 <= t[i] <= 57
    ensures Amount(t) >= 0 && Amount(t + [c]) >= 0
    ensures (Amount(t) % UINT64_RANGE * 10 + c - 48) % UINT64_RANGE == Amount(t + [c]) % UINT64_RANGE
  {
    hide Amount;
    AmountIsNat(t);
    AmountPush(t, c);
    ModStep(Amount(t), 10, c - 48);
  }

  lemma OneDigitMore(fmt: Text, i: nat, w: uint64)
    requires i < |fmt| && 48 <= fmt[i] <= 57
    ensures Number(fmt, i, w) == Number(fmt, i + 1, (w * 10 + fmt[i] - 48) % UINT64_RANGE)
  {
  }

  lemma DigitsEnd(fmt: Text, i: nat, w: uint64)
    requires i < |fmt| && !(48 <= fmt[i] <= 57)
    ensures Number(fmt, i, w) == (w, i)
  {
  }

  /** Digits that do not begin with a zero set the width to what they amount to, modulo 2^64. */
  lemma DigitsSetWidth(t: Text, g: Text, item: Item, args: seq<Arg>, a: Attributes)
    requires t != [] && t[0] != 48 && forall i :: 0 <= i < |t| ==> 48 <= t[i] <= 57
    requires g != [] && !(48 <= g[0] <= 57)
    ensures Amount(t) >= 0
    ensures Scan(t + g, 0, item, args, a)
         == Shift(Scan(g, 0, item.SetWidth(Amount(t) % UINT64_RANGE), args, a), |t|)
  {
    hide Scan, Amount, Number;
    NumberAmount(t, g);
    var w: uint64 := Amount(t) % UINT64_RANGE;
    assert (t + g)[0] == t[0] && (t + g)[|t|] == g[0];
    DigitsEnd(t + g, |t|, w);
    assert Modified(t + g, 0, item, args) == Some(Step(|t|, item.SetWidth(w), args));
    ScanModified(t + g, item, args, a);
    ScanShift(t, g, 0, item.SetWidth(w), args, a);
  }

  /** Digits that do not begin with a zero mean what a star means with what they amount to, modulo 2^64, as its
      argument. */
  lemma DigitsAreStar(x: Text, words: seq<Arg>, t: Text, g: Text, args: seq<Arg>, a: Attributes)
    requires Modifiers(x, words)
    requires t != [] && t[0] != 48 && forall i :: 0 <= i < |t| ==> 48 <= t[i] <= 57
    requires g != [] && !(48 <= g[0] <= 57)
    ensures Amount(t) >= 0
    ensures var w := Word(Amount(t) % 0x1_0000_0000_0000_0000);
            && Render([37] + x + t + g, 0, words + args, a) == Render([37] + x + [42] + g, 0, words + [w] + args, a)
            && (Render([37] + x + t + g, 0, words + args, a).Some? ==>
                  Left([37] + x + t + g, 0, words + args, a) == Left([37] + x + [42] + g, 0, words + [w] + args, a))
  {
    hide Scan, Render, Left, After, Amount, Modifiers;
    var item := After(x, NEW_ITEM, words);
    var star: Text := [42];
    ScanDirective(x, words, t + g, args, a);
    DigitsSetWidth(t, g, item, args, a);
    var w: uint64 := Amount(t) % UINT64_RANGE;
    assert [37] + x + t + g == [37] + x + (t + g);
    assert words + [Word(w)] + args == words + ([Word(w)] + args);
    assert [37] + x + star + g == [37] + x + (star + g);
    ScanDirective(x, words, star + g, [Word(w)] + args, a);
    OneStar(w, g, item, args, a);
    SameRest([37] + x + t, words + args, [37] + x + star, words + [Word(w)] + args, g, item.SetWidth(w), args, a);
  }

  lemma OneStar(w: uint64, g: Text, item: Item, args: seq<Arg>, a: Attributes)
    ensures var star: Text := [42];
            Scan(star + g, 0, item, [Word(w)] + args, a) == Shift(Scan(g, 0, item.SetWidth(w), args, a), 1)
  {
    hide Scan;
    var star: Text, none: Text := [42], [];
    assert star[1..] == none && Modifiers(star, [Word(w)]);
    ScanModifiers(star, [Word(w)], g, item, args, a);
  }

  /** The letters e, h and n print nothing, wherever they stand in a directive; nor do E, H and N when the
      attribute they name is zero. */
  lemma LetterPrintsNothing(x: Text, words: seq<Arg>, c: Char16, g: Text, args: seq<Arg>, a: Attributes)
    requires Modifiers(x, words)
    requires || c == 101 || c == 104 || c == 110
             || (c == 69 && a.error == 0) || (c == 72 && a.highlight == 0) || (c == 78 && a.norm == 0)
    ensures Render([37] + x + [c] + g, 0, words + args, a) == Render([37] + x + g, 0, words + args, a)
    ensures Render([37] + x + g, 0, words + args, a).Some? ==>
              Left([37] + x + [c] + g, 0, words + args, a) == Left([37] + x + g, 0, words + args, a)
  {
    hide Render, Left, After, Modifiers;
    var item := After(x, NEW_ITEM, words);
    var one: Text := [c];
    ScanDirective(x, words, one + g, args, a);
    ScanDirective(x, words, g, args, a);
    assert [37] + x + one + g == [37] + x + (one + g);
    assert Scan(one + g, 0, item, args, a) == Scan(one + g, 1, item, args, a);
    hide Scan;
    ScanShift(one, g, 0, item, args, a);
    SameRest([37] + x + one, words + args, [37] + x, words + args, g, item, args, a);
  }

  /** E, H and N with an attribute that is not zero end their directive, which prints nothing. */
  lemma LetterEndsDirective(x: Text, words: seq<Arg>, c: Char16, args: seq<Arg>, a: Attributes, before: nat)
    requires Modifiers(x, words)
    requires (c == 69 && a.error != 0) || (c == 72 && a.highlight != 0) || (c == 78 && a.norm != 0)
    ensures Prints([37] + x + [c], words + args, a, [], args)
    ensures FinalAttr([37] + x + [c], 0, words + args, a, before)
         == if c == 69 then a.error else if c == 72 then a.highlight else a.norm
  {
    hide Left, After, Modifiers;
    var one: Text := [c];
    var f := [37] + x + one;
    ScanDirective(x, words, one, args, a);
    var d := Scan(f, 1, NEW_ITEM, words + args, a);
    assert d == Colour(|f|, args, if c == 69 then a.error else if c == 72 then a.highlight else a.norm);
    hide Scan;
    RenderDone(f, args, a);
    FirstDirective(f, words + args, a);
    FirstLeft(f, words + args, a);
    NothingLeftOver(f, args, a);
    FinalAttrStep(f, 0, words + args, a, before);
    FinalAttrStep(f, |f|, args, a, d.attr);
  }

  lemma NothingLeftOver(f: Text, args: seq<Arg>, a: Attributes)
    ensures Render(f, |f|, args, a).Some? && Left(f, |f|, args, a) == args
  {
  }

  // ----- conversions, with every combination of modifiers

  /** The modifiers of a directive; widths come as arguments. */
  function Mods(zero: bool, minus: bool, w: Option<uint64>, f: Option<uint64>, comma: bool, long: bool): Text {
    (if zero then [48] else []) + (if minus then [45] else []) + (if w.Some? then [42] else [])
    + (if f.Some? then [46, 42] else []) + (if comma then [44] else []) + (if long then [108] else [])
  }

  function Widths(w: Option<uint64>, f: Option<uint64>): seq<Arg> {
    (if w.Some? then [Word(w.value)] else []) + (if f.Some? then [Word(f.value)] else [])
  }

  /** An item of at most `f` characters, with pads in front up to `w` and spaces up to `f` on its other side, or
      with `minus` behind it.  The highest width means no field. */
  function Placed(text: Text, pad: Char16, w: nat, f: nat, minus: bool): Text {
    var n := if |text| < f then |text| else f;
    var room := if n < w then w else n;
    var pads := Repeat(pad, room - n);
    var spaces := Repeat(32, if f == 0xFFFF_FFFF_FFFF_FFFF || f < room then 0 else f - room);
    if minus then pads + text[..n] + spaces else spaces + pads + text[..n]
  }

  lemma LayoutIsPlaced(item: Item, text: Text)
    ensures Layout(item, text) == Placed(text, item.pad, item.width, item.fieldWidth, !item.padBefore)
  {
    hide Repeat;
    var clip := Clipped(text, item);
    var room := Max(item.width, |clip|);
    var pads, outer := Repeat(item.pad, Gap(|clip|, room)), Repeat(SPACE, Gap(room, FieldRoom(text, item)));
    assert outer + (pads + clip) == outer + pads + clip;
    if item.fieldWidth == UNLIMITED {
      assert Repeat(SPACE, 0) == outer;
    }
  }

  lemma {:induction false} AfterAppend(x: Text, xWords: seq<Arg>, y: Text, yWords: seq<Arg>, item: Item)
    requires Modifiers(x, xWords) && Modifiers(y, yWords)
    ensures Modifiers(x + y, xWords + yWords)
    ensures After(x + y, item, xWords + yWords) == After(y, After(x, item, xWords), yWords)
    decreases |x|
  {
    if x == [] {
      assert x + y == y && xWords + yWords == yWords;
    } else {
      assert (x + y)[1..] == x[1..] + y;
      if x[0] == 42 {
        assert (xWords + yWords)[1..] == xWords[1..] + yWords;
        AfterAppend(x[1..], xWords[1..], y, yWords, item.SetWidth(xWords[0].bits));
      } else {
        AfterAppend(x[1..], xWords, y, yWords, OneMore(x[0], item));
      }
    }
  }

  lemma OneFlag(on: bool, c: Char16, item: Item)
    requires c == 44 || c == 45 || c == 46 || c == 48 || c == 108
    ensures var x: Text := if on then [c] else [];
            Modifiers(x, []) && After(x, item, []) == if on then OneMore(c, item) else item
  {
    if on {
      var x: Text := [c];
      assert x[1..] == [];
    }
  }

  lemma OneWidth(w: Option<uint64>, item: Item)
    ensures var x: Text, words: seq<Arg> := if w.Some? then [42] else [], if w.Some? then [Word(w.value)] else [];
            Modifiers(x, words) && After(x, item, words) == if w.Some? then item.SetWidth(w.value) else item
  {
    if w.Some? {
      var x: Text := [42];
      assert x[1..] == [] && [Word(w.value)][1..] == [];
    }
  }

  /** The item the modifiers make. */
  lemma AfterMods(zero: bool, minus: bool, w: Option<uint64>, f: Option<uint64>, comma: bool, long: bool)
    ensures var x, words := Mods(zero, minus, w, f, comma, long), Widths(w, f);
            && Modifiers(x, words)
            && After(x, NEW_ITEM, words)
            == Item(if w.Some? then w.value else 0, if f.Some? then f.value else UNLIMITED, f.Some?,
                    if zero then 48 else 32, !minus, comma, long)
  {
    hide Modifiers, After;
    var z: Text, m: Text := if zero then [48] else [], if minus then [45] else [];
    var s: Text, sWords: seq<Arg> := if w.Some? then [42] else [], if w.Some? then [Word(w.value)] else [];
    var item := NEW_ITEM.(pad := if zero then 48 else 32, padBefore := !minus);
    OneFlag(zero, 48, NEW_ITEM);
    OneFlag(minus, 45, NEW_ITEM.(pad := if zero then 48 else 32));
    var none: seq<Arg> := [];
    assert none + none == none && none + sWords == sWords;
    AfterAppend(z, none, m, none, NEW_ITEM);
    OneWidth(w, item);
    AfterAppend(z + m, none, s, sWords, NEW_ITEM);
    item := item.(width := if w.Some? then w.value else 0);
    AfterField(f, comma, long, item);
    AfterAppend(z + m + s, sWords, Mods(false, false, None, f, comma, long), Widths(None, f), NEW_ITEM);
    assert sWords + Widths(None, f) == Widths(w, f);
    ModsInTwo(zero, minus, w, f, comma, long);
  }

  lemma ModsInTwo(zero: bool, minus: bool, w: Option<uint64>, f: Option<uint64>, comma: bool, long: bool)
    ensures Mods(zero, minus, w, f, comma, long)
         == (if zero then [48] else []) + (if minus then [45] else []) + (if w.Some? then [42] else [])
            + Mods(false, false, None, f, comma, long)
  {
  }

  lemma AfterField(f: Option<uint64>, comma: bool, long: bool, item: Item)
    requires !item.toField && item.fieldWidth == UNLIMITED && !item.comma && !item.long
    ensures var x, words := Mods(false, false, None, f, comma, long), Widths(None, f);
            && Modifiers(x, words)
            && After(x, item, words)
            == item.(fieldWidth := if f.Some? then f.value else UNLIMITED, toField := f.Some?, comma := comma,
                     long := long)
  {
    hide Modifiers, After;
    var dot: Text, star: Text := if f.Some? then [46] else [], if f.Some? then [42] else [];
    var words: seq<Arg> := if f.Some? then [Word(f.value)] else [];
    var c: Text, l: Text := if comma then [44] else [], if long then [108] else [];
    OneFlag(f.Some?, 46, item);
    OneWidth(f, item.(toField := f.Some?));
    AfterAppend(dot, [], star, words, item);
    var next := item.(fieldWidth := if f.Some? then f.value else UNLIMITED, toField := f.Some?);
    OneFlag(comma, 44, next);
    OneFlag(long, 108, next.(comma := comma));
    AfterAppend(c, [], l, [], next);
    AfterAppend(dot + star, words, c + l, [], item);
    assert [] + words == words && words + [] == words;
    assert [] + words == Widths(None, f);
    assert dot + star + (c + l) == Mods(false, false, None, f, comma, long);
  }

  /** Where the modifiers of a directive put the text of its conversion. */
  function Spot(text: Text, zero: bool, minus: bool, w: Option<uint64>, f: Option<uint64>): Text {
    Placed(text, if zero then 48 else 32, if w.Some? then w.value else 0,
           if f.Some? then f.value else 0xFFFF_FFFF_FFFF_FFFF, minus)
  }

  /** Without a width and a field the text goes out as it is. */
  lemma PlainSpot(text: Text, zero: bool, minus: bool)
    requires |text| <= 0xFFFF_FFFF_FFFF_FFFF
    ensures Spot(text, zero, minus, None, None) == text
  {
    assert Repeat(32, 0) + Repeat(if zero then 48 else 32, 0) + text == text;
    assert Repeat(if zero then 48 else 32, 0) + text + Repeat(32, 0) == text;
  }

  lemma OneConversion(zero: bool, minus: bool, w: Option<uint64>, f: Option<uint64>, comma: bool, long: bool,
                      c: Char16, args: seq<Arg>, a: Attributes, more: seq<Arg>) returns (item: Item)
    requires !IsModifier(c) && !SetsForField(c) && !SetsLasting(c)
    ensures item == Item(if w.Some? then w.value else 0, if f.Some? then f.value else UNLIMITED, f.Some?,
                         if zero then 48 else 32, !minus, comma, long)
    ensures var fmt, d := [37] + Mods(zero, minus, w, f, comma, long) + [c], Conversion(c, 1, item, args);
            d.Field? && d.args == more ==>
              Prints(fmt, Widths(w, f) + args, a,
                     Placed(d.text, d.item.pad, d.item.width, d.item.fieldWidth, !d.item.padBefore), more)
  {
    hide Layout, Conversion, Placed, Mods, Widths, Prints;
    AfterMods(zero, minus, w, f, comma, long);
    var x, words := Mods(zero, minus, w, f, comma, long), Widths(w, f);
    var one: Text := [c];
    item := After(x, NEW_ITEM, words);
    ScanDirective(x, words, one, args, a);
    var fmt, d := [37] + x + one, Conversion(c, 1, item, args);
    assert Scan(one, 0, item, args, a) == d;
    hide Scan;
    if d.Field? && d.args == more {
      OneDirective(fmt, words + args, a, d.item, d.text, more);
      LayoutIsPlaced(d.item, d.text);
    }
  }

  /** `%s` and `%a` print the string, or `(null)` for a null pointer. */
  lemma StringPrinted(zero: bool, minus: bool, w: Option<uint64>, f: Option<uint64>, comma: bool, long: bool,
                      s: Option<Text>, more: seq<Arg>, a: Attributes)
    ensures var text := if s.Some? then s.value else [40, 110, 117, 108, 108, 41];
            var x, out := [37] + Mods(zero, minus, w, f, comma, long), Spot(text, zero, minus, w, f);
            && Prints(x + [115], Widths(w, f) + ([Wide(s)] + more), a, out, more)
            && Prints(x + [97], Widths(w, f) + ([Narrow(s)] + more), a, out, more)
  {
    hide Placed, Mods, Widths, Prints;
    assert ([Wide(s)] + more)[1..] == more && ([Narrow(s)] + more)[1..] == more;
    var item := OneConversion(zero, minus, w, f, comma, long, 115, [Wide(s)] + more, a, more);
    item := OneConversion(zero, minus, w, f, comma, long, 97, [Narrow(s)] + more, a, more);
  }

  /** `%c` prints the low 16 bits as a character, or nothing for zero. */
  lemma CharacterPrinted(zero: bool, minus: bool, w: Option<uint64>, f: Option<uint64>, comma: bool, long: bool,
                         v: uint64, more: seq<Arg>, a: Attributes)
    ensures var text: Text := if v % 0x1_0000 == 0 then [] else [v % 0x1_0000];
            Prints([37] + Mods(zero, minus, w, f, comma, long) + [99], Widths(w, f) + ([Word(v)] + more), a,
                   Spot(text, zero, minus, w, f), more)
  {
    hide Placed, Mods, Widths, Prints;
    assert ([Word(v)] + more)[1..] == more;
    var item := OneConversion(zero, minus, w, f, comma, long, 99, [Word(v)] + more, a, more);
  }

  /** The letters with a meaning: `%` itself, modifiers, conversions and attributes. */
  const LETTERS: set<int> := {37, 42, 44, 45, 46, 48, 49, 50, 51, 52, 53, 54, 55, 56, 57, 68, 69, 72, 78, 88, 97, 99,
                              100, 101, 102, 103, 104, 108, 110, 112, 114, 115, 116, 117, 120}

  /** `%%` prints a percent sign, any character without a meaning a question mark. */
  lemma SignPrinted(zero: bool, minus: bool, w: Option<uint64>, f: Option<uint64>, comma: bool, long: bool, c: Char16,
                    args: seq<Arg>, a: Attributes)
    requires c == 37 || c !in LETTERS
    ensures Prints([37] + Mods(zero, minus, w, f, comma, long) + [c], Widths(w, f) + args, a,
                   Spot([if c == 37 then 37 else 63], zero, minus, w, f), args)
  {
    hide Placed, Mods, Widths, Prints;
    var item := OneConversion(zero, minus, w, f, comma, long, c, args, a, args);
  }

  /** `%D`, `%f`, `%g`, `%r` and `%t` print what their formatter left. */
  lemma OtherPrinted(zero: bool, minus: bool, w: Option<uint64>, f: Option<uint64>, comma: bool, long: bool, c: Char16,
                     text: Text, more: seq<Arg>, a: Attributes)
    requires c == 68 || c == 102 || c == 103 || c == 114 || c == 116
    ensures Prints([37] + Mods(zero, minus, w, f, comma, long) + [c], Widths(w, f) + ([Other(text)] + more), a,
                   Spot(text, zero, minus, w, f), more)
  {
    hide Placed, Mods, Widths, Prints;
    assert ([Other(text)] + more)[1..] == more;
    var item := OneConversion(zero, minus, w, f, comma, long, c, [Other(text)] + more, a, more);
  }

  /** `%d` prints the low 32 bits, or with `l` all 64, as a signed number, with commas if asked for. */
  lemma SignedPrinted(zero: bool, minus: bool, w: Option<uint64>, f: Option<uint64>, comma: bool, long: bool,
                      v: uint64, more: seq<Arg>, a: Attributes) returns (text: Text)
    ensures var low := v % 0x1_0000_0000;
            IsSigned(text, comma,
                     if long then (if v < 0x8000_0000_0000_0000 then v else v as int - 0x1_0000_0000_0000_0000)
                     else if low < 0x8000_0000 then low else low - 0x1_0000_0000) && |text| <= 41
    ensures Prints([37] + Mods(zero, minus, w, f, comma, long) + [100], Widths(w, f) + ([Word(v)] + more), a,
                   Spot(text, zero, minus, w, f), more)
  {
    hide Placed, Mods, Widths, Prints, DecimalText, IsSigned;
    assert ([Word(v)] + more)[1..] == more;
    var n: int64 := if long then Signed64(v) else Signed32(v);
    text := DecimalText(n, comma);
    DecimalIsSigned(n, comma);
    DecimalIsString(n, comma);
    var item := OneConversion(zero, minus, w, f, comma, long, 100, [Word(v)] + more, a, more);
  }

  /** `%u` prints the low 32 bits as an unsigned number; with `l` it prints what `%ld` prints. */
  lemma UnsignedPrinted(zero: bool, minus: bool, w: Option<uint64>, f: Option<uint64>, comma: bool, long: bool,
                        v: uint64, more: seq<Arg>, a: Attributes) returns (text: Text)
    ensures IsSigned(text, comma, if !long then v % 0x1_0000_0000
                                  else if v < 0x8000_0000_0000_0000 then v else v as int - 0x1_0000_0000_0000_0000)
            && |text| <= 41
    ensures Prints([37] + Mods(zero, minus, w, f, comma, long) + [117], Widths(w, f) + ([Word(v)] + more), a,
                   Spot(text, zero, minus, w, f), more)
  {
    hide Placed, Mods, Widths, Prints, DecimalText, IsSigned;
    assert ([Word(v)] + more)[1..] == more;
    var n: int64 := if long then Signed64(v) else Low32(v);
    text := DecimalText(n, comma);
    DecimalIsSigned(n, comma);
    DecimalIsString(n, comma);
    var item := OneConversion(zero, minus, w, f, comma, long, 117, [Word(v)] + more, a, more);
  }

  /** `%x` prints the low 32 bits, or with `l` all 64, in hexadecimal; `%X` fills up to 8 or 16 digits with zeros,
      whatever width is asked for; `%p` puts `0x` in front and takes no width. */
  lemma HexPrinted(zero: bool, minus: bool, w: Option<uint64>, f: Option<uint64>, comma: bool, long: bool,
                   v: uint64, more: seq<Arg>, a: Attributes) returns (text: Text)
    ensures IsHex(text, if long then v else v % 0x1_0000_0000) && |text| <= if long then 16 else 8
    ensures var x, args := [37] + Mods(zero, minus, w, f, comma, long), Widths(w, f) + ([Word(v)] + more);
            var field: uint64 := if f.Some? then f.value else 0xFFFF_FFFF_FFFF_FFFF;
            && Prints(x + [120], args, a, Spot(text, zero, minus, w, f), more)
            && Prints(x + [88], args, a, Placed(text, 48, if long then 16 else 8, field, minus), more)
            && Prints(x + [112], args, a, Placed([48, 120] + text, 48, 0, field, minus), more)
  {
    hide Placed, Mods, Widths, Prints, Digits, IsHex;
    assert ([Word(v)] + more)[1..] == more;
    var n := HexValue(v, long);
    text := Numeral(n, 16);
    NumeralIsHex(n);
    HexIsString(n);
    if !long {
      assert Power(16, 8) == 0x1_0000_0000;
      HexDigitsIff(n, 8);
    }
    var item := OneConversion(zero, minus, w, f, comma, long, 120, [Word(v)] + more, a, more);
    item := OneConversion(zero, minus, w, f, comma, long, 88, [Word(v)] + more, a, more);
    item := OneConversion(zero, minus, w, f, comma, long, 112, [Word(v)] + more, a, more);
  }

  lemma NoMods(c: Char16)
    ensures [37] + Mods(false, false, None, None, false, false) + [c] == [37, c]
    ensures forall args: seq<Arg> :: Widths(None, None) + args == args
  {
  }

  /** `%s` and `%a` alone print the string as it is. */
  lemma StringAsIs(s: Text, more: seq<Arg>, a: Attributes)
    requires |s| <= 0xFFFF_FFFF_FFFF_FFFF
    ensures Prints([37, 115], [Wide(Some(s))] + more, a, s, more)
    ensures Prints([37, 97], [Narrow(Some(s))] + more, a, s, more)
    ensures Prints([37, 115], [Wide(None)] + more, a, [40, 110, 117, 108, 108, 41], more)
    ensures Prints([37, 97], [Narrow(None)] + more, a, [40, 110, 117, 108, 108, 41], more)
  {
    hide Spot, Mods, Widths, Prints;
    NoMods(115);
    NoMods(97);
    PlainSpot(s, false, false);
    PlainSpot([40, 110, 117, 108, 108, 41], false, false);
    StringPrinted(false, false, None, None, false, false, Some(s), more, a);
    StringPrinted(false, false, None, None, false, false, None, more, a);
  }

  /** `%d`, `%x`, `%c` and `%%` alone. */
  lemma NumberAsIs(v: uint64, more: seq<Arg>, a: Attributes) returns (d: Text, x: Text)
    ensures var low := v % 0x1_0000_0000;
            && Prints([37, 100], [Word(v)] + more, a, d, more)
            && IsSigned(d, false, if low < 0x8000_0000 then low else low - 0x1_0000_0000)
            && Prints([37, 120], [Word(v)] + more, a, x, more) && IsHex(x, low)
            && Prints([37, 99], [Word(v)] + more, a, if v % 0x1_0000 == 0 then [] else [v % 0x1_0000], more)
            && Prints([37, 37], more, a, [37], more)
  {
    hide Spot, Mods, Widths, Prints, IsSigned, IsHex, Placed;
    NoMods(100);
    NoMods(120);
    NoMods(99);
    NoMods(37);
    d := SignedPrinted(false, false, None, None, false, false, v, more, a);
    x := HexPrinted(false, false, None, None, false, false, v, more, a);
    CharacterPrinted(false, false, None, None, false, false, v, more, a);
    SignPrinted(false, false, None, None, false, false, 37, more, a);
    PlainSpot(d, false, false);
    PlainSpot(x, false, false);
    PlainSpot(if v % 0x1_0000 == 0 then [] else [v % 0x1_0000], false, false);
    PlainSpot([37], false, false);
  }

  /** `%*.*s` puts the front of the string on the right of its field, `%-*.*s` on the left. */
  lemma StringInField(s: Text, w: uint64, f: uint64, more: seq<Arg>, a: Attributes)
    requires |s| <= w as int <= f as int < 0xFFFF_FFFF_FFFF_FFFF
    ensures Prints([37, 42, 46, 42, 115], [Word(w), Word(f), Wide(Some(s))] + more, a, Repeat(32, f - |s|) + s, more)
    ensures Prints([37, 45, 42, 46, 42, 115], [Word(w), Word(f), Wide(Some(s))] + more, a,
                   Repeat(32, w - |s|) + s + Repeat(32, f - w), more)
  {
    hide Prints, Mods, Widths, Spot, Repeat;
    FieldFormat(w, f);
    SpotInField(s, w, f);
    StringPrinted(false, false, Some(w), Some(f), false, false, Some(s), more, a);
    StringPrinted(false, true, Some(w), Some(f), false, false, Some(s), more, a);
    assert [Word(w), Word(f), Wide(Some(s))] + more == [Word(w), Word(f)] + ([Wide(Some(s))] + more);
  }

  lemma FieldFormat(w: uint64, f: uint64)
    ensures Widths(Some(w), Some(f)) == [Word(w), Word(f)]
    ensures [37] + Mods(false, false, Some(w), Some(f), false, false) + [115] == [37, 42, 46, 42, 115]
    ensures [37] + Mods(false, true, Some(w), Some(f), false, false) + [115] == [37, 45, 42, 46, 42, 115]
  {
  }

  lemma SpotInField(s: Text, w: uint64, f: uint64)
    requires |s| <= w as int <= f as int < 0xFFFF_FFFF_FFFF_FFFF
    ensures Spot(s, false, false, Some(w), Some(f)) == Repeat(32, f - |s|) + s
    ensures Spot(s, false, true, Some(w), Some(f)) == Repeat(32, w - |s|) + s + Repeat(32, f - w)
  {
    hide *;
    SpotParts(s, false, w, f);
    SpotParts(s, true, w, f);
    var m: nat, n: nat := f - w, w - |s|;
    RepeatSum(32, m, n);
    assert m + n == f - |s|;
  }

  lemma SpotParts(s: Text, minus: bool, w: uint64, f: uint64)
    requires |s| <= w as int <= f as int < 0xFFFF_FFFF_FFFF_FFFF
    ensures var pads, spaces := Repeat(32, w - |s|), Repeat(32, f - w);
            Spot(s, false, minus, Some(w), Some(f)) == if minus then pads + s + spaces else spaces + pads + s
  {
    hide Repeat, Placed;
    PlacedParts(s, 32, w, f, minus);
  }

  lemma PlacedParts(s: Text, pad: Char16, w: nat, f: nat, minus: bool)
    requires |s| <= w <= f < 0xFFFF_FFFF_FFFF_FFFF
    ensures var pads, spaces := Repeat(pad, w - |s|), Repeat(32, f - w);
            Placed(s, pad, w, f, minus) == if minus then pads + s + spaces else spaces + pads + s
  {
    hide Repeat;
    assert s[..|s|] == s;
  }

  lemma RepeatSum(c: Char16, m: nat, n: nat)
    ensures Repeat(c, m + n) == Repeat(c, m) + Repeat(c, n)
  {
    assert forall i :: 0 <= i < m + n ==> Repeat(c, m + n)[i] == (Repeat(c, m) + Repeat(c, n))[i];
  }

  // ----- attributes

  /** The attribute a letter names. */
  function Meant(c: Char16, a: Attributes): nat {
    if c == 101 then a.error else if c == 104 then a.highlight else a.norm
  }

  /** With one of the letters e, h and n the attribute is back where it was after the field, unless that was zero;
      of two the first stays, unless that is zero. */
  lemma FieldLetters(c: Char16, d: Char16, a: Attributes, before: nat)
    requires (c == 101 || c == 104 || c == 110) && (d == 101 || d == 104 || d == 110)
    ensures Prints([37, c, 37], [], a, [37], []) && Prints([37, c, d, 37], [], a, [37], [])
    ensures FinalAttr([37, c, 37], 0, [], a, before) == if before != 0 then before else Meant(c, a)
    ensures FinalAttr([37, c, d, 37], 0, [], a, before) == if Meant(c, a) != 0 then Meant(c, a) else Meant(d, a)
  {
    hide Layout, Named, Render, Left, FinalAttr, Restored;
    var item: Item := NEW_ITEM;
    SignPrintedPlain(a);
    var one: Text, two: Text, sign: Text := [37, c, 37], [37, c, d, 37], [37];
    var x: Text := [];
    LetterPrintsNothing(x, [], c, sign, [], a);
    LetterPrintsNothing(x, [], c, [d] + sign, [], a);
    LetterPrintsNothing(x, [], d, sign, [], a);
    assert [37] + x + [c] + sign == one && [37] + x + [c] + ([d] + sign) == two;
    assert [37] + x + ([d] + sign) == [37] + x + [d] + sign && [37] + x + sign == [37, 37];
    var none: seq<Arg> := [];
    assert none + none == none;
    LetterDirective(one, a, before);
    LetterDirective(two, a, before);
    NothingNamed(one, 1, a);
    NothingNamed(two, 1, a);
    NamedPush(one, 1, 1, a);
    NamedPush(one, 1, 2, a);
    NamedPush(two, 1, 1, a);
    NamedPush(two, 1, 2, a);
    NamedPush(two, 1, 3, a);
    assert Named(one[1..3], a) == [Meant(c, a)] && Named(two[1..4], a) == [Meant(c, a), Meant(d, a)];
    RestoredOne(before, Meant(c, a));
    RestoredTwo(before, Meant(c, a), Meant(d, a));
  }

  lemma RestoredOne(before: nat, x: nat)
    ensures Restored([before] + [x]) == if before != 0 then before else x
  {
  }

  lemma RestoredTwo(before: nat, x: nat, y: nat)
    ensures Restored([before] + [x, y]) == if x != 0 then x else y
  {
  }

  lemma SignPrintedPlain(a: Attributes)
    ensures Prints([37, 37], [], a, [37], [])
  {
    hide Spot, Mods, Widths, Prints;
    NoMods(37);
    PlainSpot([37], false, false);
    SignPrinted(false, false, None, None, false, false, 37, [], a);
  }

  /** A format that is one directive of letters and a percent sign. */
  lemma LetterDirective(f: Text, a: Attributes, before: nat)
    requires 2 < |f| <= 4 && f[0] == 37 && f[|f| - 1] == 37
    requires forall i :: 1 <= i < |f| - 1 ==> f[i] == 101 || f[i] == 104 || f[i] == 110
    requires Render(f, 0, [], a).Some?
    ensures FinalAttr(f, 0, [], a, before) == Restored([before] + Named(f[1..|f|], a))
  {
    hide Layout, Named, Render, FinalAttr, Restored;
    var n := |f|;
    assert Scan(f, n - 1, NEW_ITEM, [], a) == Conversion(37, n, NEW_ITEM, []);
    if n == 4 {
      assert Scan(f, 2, NEW_ITEM, [], a) == Scan(f, 3, NEW_ITEM, [], a);
    }
    assert Scan(f, 1, NEW_ITEM, [], a) == Scan(f, 2, NEW_ITEM, [], a);
    FinalAttrStep(f, 0, [], a, before);
    RenderDone(f, [], a);
    FinalAttrStep(f, n, [], a, Restored([before] + Named(f[1..n], a)));
  }

  /** The attribute after two formats in one is the one the second leads to from where the first ended. */
  lemma {:induction false} FinalAttrAppend(f: Text, g: Text, i: nat, args: seq<Arg>, a: Attributes, attr: nat)
    requires i <= |f| && Render(f, i, args, a).Some? && Render(g, 0, Left(f, i, args, a), a).Some?
    ensures Render(f + g, i, args, a).Some?
    ensures FinalAttr(f + g, i, args, a, attr)
         == FinalAttr(g, 0, Left(f, i, args, a), a, FinalAttr(f, i, args, a, attr))
    decreases |f| - i
  {
    hide Scan, Layout, Named, Restored, Render, FinalAttr, AttrAfter;
    RenderAppend(f, g, i, args, a);
    FinalAttrStep(f, i, args, a, attr);
    FinalAttrStep(f + g, i, args, a, attr);
    if i == |f| {
      assert Left(f, i, args, a) == args;
      FinalAttrShift(f, g, 0, args, a, attr);
    } else {
      assert (f + g)[i] == f[i];
      if f[i] != PERCENT {
        FinalAttrAppend(f, g, i + 1, args, a, attr);
      } else {
        ScanAppend(f, g, i + 1, NEW_ITEM, args, a);
        var d := Scan(f, i + 1, NEW_ITEM, args, a);
        SameAttr(f, g, i + 1, d, a, attr);
        FinalAttrAppend(f, g, d.next, d.args, a, AttrAfter(f, i + 1, d, a, attr));
      }
    }
  }

  lemma SameAttr(f: Text, g: Text, from: nat, d: Directive, a: Attributes, attr: nat)
    requires !d.Bad? && from <= d.next <= |f|
    ensures AttrAfter(f + g, from, d, a, attr) == AttrAfter(f, from, d, a, attr)
  {
    assert (f + g)[from..d.next] == f[from..d.next];
  }

  lemma {:induction false} FinalAttrShift(f: Text, g: Text, k: nat, args: seq<Arg>, a: Attributes, attr: nat)
    requires k <= |g| && Render(g, k, args, a).Some?
    ensures Render(f + g, |f| + k, args, a).Some?
    ensures FinalAttr(f + g, |f| + k, args, a, attr) == FinalAttr(g, k, args, a, attr)
    decreases |g| - k
  {
    hide Scan, Layout, Named, Restored, Render, FinalAttr, AttrAfter;
    RenderShift(f, g, k, args, a);
    FinalAttrStep(g, k, args, a, attr);
    FinalAttrStep(f + g, |f| + k, args, a, attr);
    if k < |g| {
      assert (f + g)[|f| + k] == g[k];
      if g[k] != PERCENT {
        FinalAttrShift(f, g, k + 1, args, a, attr);
      } else {
        ScanShift(f, g, k + 1, NEW_ITEM, args, a);
        var d := Scan(g, k + 1, NEW_ITEM, args, a);
        ShiftedAttr(f, g, k + 1, d, a, attr);
        FinalAttrShift(f, g, d.next, d.args, a, AttrAfter(g, k + 1, d, a, attr));
      }
    }
  }

  lemma ShiftedAttr(f: Text, g: Text, from: nat, d: Directive, a: Attributes, attr: nat)
    requires !d.Bad? && from <= d.next <= |g|
    ensures AttrAfter(f + g, |f| + from, Shift(d, |f|), a, attr) == AttrAfter(g, from, d, a, attr)
  {
    assert (f + g)[|f| + from..|f| + d.next] == g[from..d.next];
  }
}
