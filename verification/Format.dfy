/** What a format string means: the directives `_Print` of `inc/internal/va_print.h` reads, the text of
    each item, and the whole text of a format, before newlines are dressed and chunks are cut. */
module Format {
  import opened Chars
  import opened Numbers
  import opened Wrappers

  /** An argument as `VA_ARG` finds it: a word, a wide or narrow string or a null pointer to one, or a value
      whose text (less than 100 characters) a formatter outside this model leaves in the scratch buffer. */
  datatype Arg =
    | Word(bits: uint64)
    | Wide(wide: Option<Text>)
    | Narrow(narrow: Option<Text>)
    | Other(text: Text)

  predicate ProperArg(a: Arg) {
    match a
    case Word(_) => true
    case Wide(s) => s.Some? ==> IsString(s.value)
    case Narrow(s) => s.Some? ==> IsString(s.value)
    case Other(t) => IsString(t)
  }

  predicate ProperArgs(args: seq<Arg>) {
    forall a :: a in args ==> ProperArg(a)
  }

  /** The three attributes a console has; a string or pool print has none, all are zero. */
  datatype Attributes = Attributes(norm: nat, highlight: nat, error: nat)

  const NO_ATTRIBUTES := Attributes(0, 0, 0)

  /** `(UINTN) -1`: no field width given. */
  const UNLIMITED: uint64 := 0xFFFF_FFFF_FFFF_FFFF

  const PERCENT: Char16 := 37
  const NULL_TEXT: Text := [40, 110, 117, 108, 108, 41]
  const QUESTION_TEXT: Text := [63]

  datatype Item = Item(width: uint64, fieldWidth: uint64, toField: bool, pad: Char16,
                       padBefore: bool, comma: bool, long: bool)
  {
    /** The assignment `*WidthParse = w`. */
    function SetWidth(w: uint64): Item {
      if toField then this.(fieldWidth := w) else this.(width := w)
    }
  }

  const NEW_ITEM := Item(0, UNLIMITED, false, SPACE, true, false, false)

  // ----- item texts

  function Low32(bits: uint64): uint64 {
    bits % 0x1_0000_0000
  }

  function Signed64(bits: uint64): int64 {
    if bits < 0x8000_0000_0000_0000 then bits else (bits as int) - UINT64_RANGE
  }

  function Signed32(bits: uint64): int64 {
    var low := Low32(bits);
    if low < 0x8000_0000 then low else (low as int) - 0x1_0000_0000
  }

  function HexValue(bits: uint64, long: bool): uint64 {
    if long then bits else Low32(bits)
  }

  /** The conversions that take a word: c, d, u, x, X, p. */
  predicate TakesWord(c: Char16) {
    c == 99 || c == 100 || c == 117 || c == 120 || c == 88 || c == 112
  }

  /** The conversions formatted elsewhere: D, f, g, r, t. */
  predicate TakesOther(c: Char16) {
    c == 68 || c == 102 || c == 103 || c == 114 || c == 116
  }

  function WordText(c: Char16, item: Item, bits: uint64): Text
    requires TakesWord(c)
  {
    if c == 99 then
      var ch: Char16 := bits % 0x1_0000;
      if ch == NUL then [] else [ch]
    else if c == 100 then DecimalText(if item.long then Signed64(bits) else Signed32(bits), item.comma)
    else if c == 117 then DecimalText(if item.long then Signed64(bits) else Low32(bits), item.comma)
    else if c == 112 then [48, 120] + Numeral(HexValue(bits, item.long), 16)
    else Numeral(HexValue(bits, item.long), 16)
  }

  /** X pads to 8 or 16 digits with zeros; p pads with zeros to the width its size expression gives, which
      compares the pointer size with 18 and is 0. */
  function WordItem(c: Char16, item: Item): Item {
    if c == 88 then item.(width := if item.long then 16 else 8, pad := ZERO)
    else if c == 112 then item.(width := 0, pad := ZERO)
    else item
  }

  lemma {:induction false} DigitsAreString(v: nat, base: nat)
    requires base == 10 || base == 16
    ensures IsString(Digits(v, base))
  {
    if v != 0 {
      DigitsStep(v, base);
      DigitsAreString(v / base, base);
    }
  }

  lemma {:induction false} WrittenIsString(d: Text, comma: bool, k: nat)
    requires k <= |d| && IsString(d)
    ensures IsString(Written(d, comma, k)) && |Written(d, comma, k)| <= 2 * k
  {
    if k > 0 {
      WrittenIsString(d, comma, k - 1);
    }
  }

  lemma DecimalIsString(v: int64, comma: bool)
    ensures IsString(DecimalText(v, comma)) && |DecimalText(v, comma)| <= 41
  {
    hide Digits, Written;
    var d := Digits(Magnitude(v), 10);
    WordLengths(Magnitude(v));
    DigitsAreString(Magnitude(v), 10);
    WrittenIsString(d, comma, |d|);
  }

  lemma HexIsString(v: uint64)
    ensures IsString(Numeral(v, 16)) && |Numeral(v, 16)| <= 16
  {
    hide Digits;
    WordLengths(v);
    DigitsAreString(v, 16);
  }

  /** A converted word fits the scratch buffer and has no terminator inside. */
  lemma WordTextIsString(c: Char16, item: Item, bits: uint64)
    requires TakesWord(c)
    ensures IsString(WordText(c, item, bits)) && |WordText(c, item, bits)| < 98
  {
    hide DecimalText, Numeral;
    DecimalIsString(if item.long then Signed64(bits) else Signed32(bits), item.comma);
    DecimalIsString(if item.long then Signed64(bits) else Low32(bits), item.comma);
    HexIsString(HexValue(bits, item.long));
  }

  // ----- directives

  datatype Directive =
    | Bad                                                             // unfinished, or a wrong argument
    | Field(next: nat, args: seq<Arg>, item: Item, text: Text)        // an item to lay out
    | Colour(next: nat, args: seq<Arg>, attr: nat)                    // a lasting change of attribute

  predicate IsDigit(c: Char16) {
    48 <= c <= 57
  }

  /** The characters that only change how the item will look. */
  predicate IsModifier(c: Char16) {
    c == 44 || c == 45 || c == 42 || c == 46 || c == 108 || IsDigit(c)
  }

  /** The digits from `i` on folded into `w` modulo 2^64, and the index after them. */
  function Number(fmt: Text, i: nat, w: uint64): (r: (uint64, nat))
    requires i <= |fmt|
    ensures i <= r.1 <= |fmt|
    decreases |fmt| - i
  {
    if i == |fmt| || !IsDigit(fmt[i]) then (w, i)
    else Number(fmt, i + 1, (w * 10 + fmt[i] - 48) % UINT64_RANGE)
  }

  /** E, H and N name an attribute that lasts; e, h and n one for this field only. */
  function Attribute(c: Char16, a: Attributes): nat {
    if c == 69 || c == 101 then a.error else if c == 72 || c == 104 then a.highlight else a.norm
  }

  predicate SetsLasting(c: Char16) {
    c == 69 || c == 72 || c == 78
  }

  predicate SetsForField(c: Char16) {
    c == 101 || c == 104 || c == 110
  }

  /** The attributes a stretch of a directive names for its field, in order. */
  function Named(s: Text, a: Attributes): seq<nat>
    decreases |s|
  {
    if s == [] then []
    else
      var c := s[|s| - 1];
      Named(s[..|s| - 1], a) + (if SetsForField(c) then [Attribute(c, a)] else [])
  }

  lemma NamedPush(fmt: Text, from: nat, i: nat, a: Attributes)
    requires from <= i < |fmt|
    ensures Named(fmt[from..i + 1], a)
         == Named(fmt[from..i], a) + (if SetsForField(fmt[i]) then [Attribute(fmt[i], a)] else [])
  {
    assert fmt[from..i + 1][..i - from] == fmt[from..i];
  }

  lemma {:induction false} NamedPlain(fmt: Text, from: nat, i: nat, j: nat, a: Attributes)
    requires from <= i <= j <= |fmt|
    requires forall k :: i <= k < j ==> !SetsForField(fmt[k])
    ensures Named(fmt[from..j], a) == Named(fmt[from..i], a)
    decreases j
  {
    if i < j {
      NamedPlain(fmt, from, i, j - 1, a);
      NamedPush(fmt, from, j - 1, a);
    }
  }

  lemma NothingNamed(fmt: Text, from: nat, a: Attributes)
    requires from <= |fmt|
    ensures Named(fmt[from..from], a) == []
  {
  }

  /** The attribute before the last change, or zero. */
  function Previous(trail: seq<nat>): nat
    requires trail != []
  {
    if |trail| > 1 then trail[|trail| - 2] else 0
  }

  /** Where the attribute is after a field, given the one before and those the directive set in turn: back
      one step, if the attribute there is not zero. */
  function Restored(trail: seq<nat>): nat
    requires trail != []
  {
    if Previous(trail) != 0 then Previous(trail) else trail[|trail| - 1]
  }

  datatype Step = Step(next: nat, item: Item, args: seq<Arg>)

  /** What a modifier, with the digits or the argument it takes, makes of the item. */
  function Modified(fmt: Text, i: nat, item: Item, args: seq<Arg>): (r: Option<Step>)
    requires i < |fmt| && IsModifier(fmt[i])
    ensures r.Some? ==> i < r.value.next <= |fmt|
  {
    var c := fmt[i];
    if c == 44 then Some(Step(i + 1, item.(comma := true), args))
    else if c == 45 then Some(Step(i + 1, item.(padBefore := false), args))
    else if c == 46 then Some(Step(i + 1, item.(toField := true), args))
    else if c == 48 then Some(Step(i + 1, item.(pad := ZERO), args))
    else if c == 108 then Some(Step(i + 1, item.(long := true), args))
    else if c == 42 then
      if args == [] || !args[0].Word? then None else Some(Step(i + 1, item.SetWidth(args[0].bits), args[1..]))
    else
      var n := Number(fmt, i + 1, c - 48);
      Some(Step(n.1, item.SetWidth(n.0), args))
  }

  /** The directive whose characters go on at `i`. */
  function Scan(fmt: Text, i: nat, item: Item, args: seq<Arg>, a: Attributes): (d: Directive)
    requires i <= |fmt|
    ensures d.Field? ==> i < d.next <= |fmt|
    ensures d.Colour? ==> i < d.next <= |fmt|
    decreases |fmt| - i
  {
    if i == |fmt| then Bad
    else
      var c := fmt[i];
      if IsModifier(c) then
        match Modified(fmt, i, item, args)
        case None => Bad
        case Some(step) => Scan(fmt, step.next, step.item, step.args, a)
      else if SetsForField(c) || (SetsLasting(c) && Attribute(c, a) == 0) then Scan(fmt, i + 1, item, args, a)
      else if SetsLasting(c) then Colour(i + 1, args, Attribute(c, a))
      else Conversion(c, i + 1, item, args)
  }

  lemma ScanStep(fmt: Text, i: nat, item: Item, args: seq<Arg>, a: Attributes)
    requires i < |fmt| && !Scan(fmt, i, item, args, a).Bad?
    ensures var c, d := fmt[i], Scan(fmt, i, item, args, a);
            if IsModifier(c) then
              var m := Modified(fmt, i, item, args);
              m.Some? && d == Scan(fmt, m.value.next, m.value.item, m.value.args, a)
            else if SetsForField(c) || (SetsLasting(c) && Attribute(c, a) == 0) then
              d == Scan(fmt, i + 1, item, args, a)
            else if SetsLasting(c) then d == Colour(i + 1, args, Attribute(c, a))
            else d == Conversion(c, i + 1, item, args)
  {
    hide Conversion, Modified;
  }

  lemma ScanEnd(fmt: Text, item: Item, args: seq<Arg>, a: Attributes)
    ensures Scan(fmt, |fmt|, item, args, a).Bad?
  {
  }

  /** The characters that end a directive with an item. */
  function Conversion(c: Char16, next: nat, item: Item, args: seq<Arg>): (d: Directive)
    ensures d.Bad? || (d.Field? && d.next == next)
  {
    if c == PERCENT then Field(next, args, item, [PERCENT])
    else if c == 97 then
      if args == [] || !args[0].Narrow? then Bad
      else Field(next, args[1..], item, if args[0].narrow.Some? then args[0].narrow.value else NULL_TEXT)
    else if c == 115 then
      if args == [] || !args[0].Wide? then Bad
      else Field(next, args[1..], item, if args[0].wide.Some? then args[0].wide.value else NULL_TEXT)
    else if TakesWord(c) then
      if args == [] || !args[0].Word? then Bad
      else Field(next, args[1..], WordItem(c, item), WordText(c, item, args[0].bits))
    else if TakesOther(c) then
      if args == [] || !args[0].Other? then Bad
      else Field(next, args[1..], item, args[0].text)
    else Field(next, args, item, QUESTION_TEXT)
  }

  // ----- layout

  function Repeat(c: Char16, n: nat): (r: Text)
    ensures |r| == n && forall i :: 0 <= i < n ==> r[i] == c
  {
    if n == 0 then [] else Repeat(c, n - 1) + [c]
  }

  function Max(a: nat, b: nat): nat {
    if a < b then b else a
  }

  /** The trips of a loop that counts `from` up to `to`. */
  function Gap(from: nat, to: nat): nat {
    if from < to then to - from else 0
  }

  function Clipped(text: Text, item: Item): (r: Text)
    ensures r <= text && |r| == if |text| < item.fieldWidth then |text| else item.fieldWidth
  {
    if |text| <= item.fieldWidth then text else text[..item.fieldWidth]
  }

  /** The field an item is given: its own field width, or just the room of the clipped text. */
  function FieldRoom(text: Text, item: Item): nat {
    if item.fieldWidth == UNLIMITED then |Clipped(text, item)| else item.fieldWidth
  }

  /** What `PITEM` puts out: the padded item, and spaces up to the field on the side PadBefore says. */
  function Layout(item: Item, text: Text): Text {
    var clip := Clipped(text, item);
    var width := Max(item.width, |clip|);
    var padded := Repeat(item.pad, Gap(|clip|, width)) + clip;
    var outer := Repeat(SPACE, Gap(width, FieldRoom(text, item)));
    if item.padBefore then outer + padded else padded + outer
  }

  /** The outer spaces, on the side PadBefore says. */
  function Outer(here: bool, width: nat, room: nat): Text {
    if here then Repeat(SPACE, Gap(width, room)) else []
  }

  /** The layout in the order the loops of `PITEM` put it out. */
  lemma LayoutParts(before: Text, item: Item, text: Text, n: nat, width: nat, room: nat)
    requires n <= |text| && text[..n] == Clipped(text, item)
    requires width == Max(item.width, n) && room == FieldRoom(text, item)
    ensures var front, back := Outer(item.padBefore, width, room), Outer(!item.padBefore, width, room);
            var padding := Repeat(item.pad, Gap(n, width));
            && before + front + padding + text[..n] + back == before + Layout(item, text)
            && |front| + |padding| + n + |back| == |Layout(item, text)|
  {
    hide Repeat;
    var front, back := Outer(item.padBefore, width, room), Outer(!item.padBefore, width, room);
    var padding := Repeat(item.pad, Gap(n, width));
    assert front + padding + text[..n] + back == Layout(item, text) by {
      if item.padBefore {
        assert front + (padding + text[..n]) == front + padding + text[..n] + [];
      } else {
        assert padding + text[..n] + back == [] + padding + text[..n] + back;
      }
    }
    Regroup(before, front, padding, text[..n], back);
  }

  lemma Regroup(before: Text, front: Text, padding: Text, clip: Text, back: Text)
    ensures before + front + padding + clip + back == before + (front + padding + clip + back)
  {
  }

  lemma LayoutLength(item: Item, text: Text)
    ensures |Layout(item, text)| == Max(Max(|Clipped(text, item)|, item.width), FieldRoom(text, item))
  {
  }

  /** The clipped item stands, whole and once, at the right end of the padded part. */
  lemma LayoutHoldsItem(item: Item, text: Text)
    ensures var clip, out := Clipped(text, item), Layout(item, text);
            var end := if item.padBefore then |out| else Max(item.width, |clip|);
            && |clip| <= end <= |out| && out[end - |clip|..end] == clip
            && (forall i :: end <= i < |out| ==> out[i] == SPACE)
            && (forall i :: 0 <= i < end - |clip| ==> out[i] == SPACE || out[i] == item.pad)
  {
  }

  // ----- the whole text

  /** The text of the format from `i` on, or nothing when a directive is unfinished or lacks its argument. */
  function Render(fmt: Text, i: nat, args: seq<Arg>, a: Attributes): Option<Text>
    requires i <= |fmt|
    decreases |fmt| - i
  {
    if i == |fmt| then Some([])
    else if fmt[i] != PERCENT then
      match Render(fmt, i + 1, args, a)
      case None => None
      case Some(rest) => Some([fmt[i]] + rest)
    else
      match Scan(fmt, i + 1, NEW_ITEM, args, a)
      case Bad => None
      case Colour(next, left, _) => Render(fmt, next, left, a)
      case Field(next, left, item, text) =>
        match Render(fmt, next, left, a)
        case None => None
        case Some(rest) => Some(Layout(item, text) + rest)
  }

  /** The attribute after a directive that starts at `from`. */
  function AttrAfter(fmt: Text, from: nat, d: Directive, a: Attributes, attr: nat): nat
    requires !d.Bad? && from <= d.next <= |fmt|
  {
    if d.Field? then Restored([attr] + Named(fmt[from..d.next], a)) else d.attr
  }

  /** The attribute after the format. */
  function FinalAttr(fmt: Text, i: nat, args: seq<Arg>, a: Attributes, attr: nat): nat
    requires i <= |fmt| && Render(fmt, i, args, a).Some?
    decreases |fmt| - i
  {
    if i == |fmt| then attr
    else if fmt[i] != PERCENT then FinalAttr(fmt, i + 1, args, a, attr)
    else
      var d := Scan(fmt, i + 1, NEW_ITEM, args, a);
      FinalAttr(fmt, d.next, d.args, a, AttrAfter(fmt, i + 1, d, a, attr))
  }

  lemma FinalAttrStep(fmt: Text, i: nat, args: seq<Arg>, a: Attributes, attr: nat)
    requires i <= |fmt| && Render(fmt, i, args, a).Some?
    ensures i == |fmt| ==> FinalAttr(fmt, i, args, a, attr) == attr
    ensures i < |fmt| && fmt[i] != PERCENT ==>
              && Render(fmt, i + 1, args, a).Some?
              && FinalAttr(fmt, i, args, a, attr) == FinalAttr(fmt, i + 1, args, a, attr)
    ensures i < |fmt| && fmt[i] == PERCENT ==>
              var d := Scan(fmt, i + 1, NEW_ITEM, args, a);
              && !d.Bad? && Render(fmt, d.next, d.args, a).Some?
              && FinalAttr(fmt, i, args, a, attr)
              == FinalAttr(fmt, d.next, d.args, a, AttrAfter(fmt, i + 1, d, a, attr))
  {
    hide Scan, Layout, Named, Restored;
  }

  /** No directive changes an attribute for its field. */
  predicate Calm(fmt: Text, i: nat, args: seq<Arg>, a: Attributes)
    requires i <= |fmt| && Render(fmt, i, args, a).Some?
    decreases |fmt| - i
  {
    if i == |fmt| then true
    else if fmt[i] != PERCENT then Calm(fmt, i + 1, args, a)
    else
      var d := Scan(fmt, i + 1, NEW_ITEM, args, a);
      Named(fmt[i + 1..d.next], a) == [] && Calm(fmt, d.next, d.args, a)
  }

  lemma RenderStep(fmt: Text, i: nat, args: seq<Arg>, a: Attributes)
    requires i < |fmt| && Render(fmt, i, args, a).Some?
    ensures fmt[i] != PERCENT ==>
              && Render(fmt, i + 1, args, a).Some?
              && Render(fmt, i, args, a).value == [fmt[i]] + Render(fmt, i + 1, args, a).value
              && Calm(fmt, i, args, a) == Calm(fmt, i + 1, args, a)
    ensures fmt[i] == PERCENT ==>
              var d := Scan(fmt, i + 1, NEW_ITEM, args, a);
              && !d.Bad? && Render(fmt, d.next, d.args, a).Some?
              && Render(fmt, i, args, a).value
              == (if d.Field? then Layout(d.item, d.text) else []) + Render(fmt, d.next, d.args, a).value
              && Calm(fmt, i, args, a) == (Named(fmt[i + 1..d.next], a) == [] && Calm(fmt, d.next, d.args, a))
  {
    hide Scan, Layout, Named;
  }

  lemma RenderDone(fmt: Text, args: seq<Arg>, a: Attributes)
    ensures Render(fmt, |fmt|, args, a) == Some([])
  {
  }
}
