/** The print engine of `inc/internal/va_print.h`: a format is read directive by directive, and its text goes
    through a buffer of 200 characters that is flushed into a string or a pool. */
module Print {
  import opened Chars
  import opened Format
  import opened Newlines
  import opened Numbers
  import opened Pool
  import opened Wrappers

  // ----- chunks

  /** The lengths of the output at which a chunk ended. */
  ghost function Cuts(chunks: seq<Text>): set<nat> {
    if chunks == [] then {} else Cuts(chunks[..|chunks| - 1]) + {|Concat(chunks)|}
  }

  lemma ChunkPush(chunks: seq<Text>, chunk: Text)
    ensures Concat(chunks + [chunk]) == Concat(chunks) + chunk
    ensures Cuts(chunks + [chunk]) == Cuts(chunks) + {|Concat(chunks)| + |chunk|}
  {
    hide Concat;
    ConcatPush(chunks, chunk);
    assert (chunks + [chunk])[..|chunks|] == chunks;
  }

  lemma NoChunks()
    ensures Concat([]) == [] && Cuts([]) == {}
  {
  }

  /** Every chunk is a string that fits the buffer with its terminator. */
  ghost predicate ShortChunks(chunks: seq<Text>) {
    forall c :: c in chunks ==> |c| < PRINT_STRING_LEN && IsString(c)
  }

  /** Every chunk is a full buffer. */
  ghost predicate FullChunks(chunks: seq<Text>) {
    forall c :: c in chunks ==> |c| == PRINT_STRING_LEN - 1
  }

  lemma {:induction false} ChunksAreString(chunks: seq<Text>)
    requires ShortChunks(chunks)
    ensures IsString(Concat(chunks))
  {
    if chunks != [] {
      ChunksAreString(chunks[1..]);
    }
  }

  lemma ShortPush(chunks: seq<Text>, chunk: Text)
    requires ShortChunks(chunks) && |chunk| < PRINT_STRING_LEN && IsString(chunk)
    ensures ShortChunks(chunks + [chunk])
    ensures FullChunks(chunks) && |chunk| == PRINT_STRING_LEN - 1 ==> FullChunks(chunks + [chunk])
  {
  }

  /** One more character, dressed or not, after more cuts. */
  lemma Dressed(text: Text, out: Text, cuts: set<nat>, c: Char16, longer: Text, more: set<nat>)
    requires Faithful(text, out, cuts) && cuts <= more
    requires || (longer == out + [c] && (c == LF ==> MayOmit(out, cuts)))
             || (longer == out + [CR, LF] && c == LF && MayInsert(out, cuts))
    ensures Faithful(text + [c], longer, more)
  {
    hide Faithful;
    FaithfulMoreCuts(text, out, cuts, more);
    if longer == out + [c] {
      if c == LF {
        FaithfulBare(text, out, more);
      } else {
        FaithfulPlain(text, out, more, c);
      }
    } else {
      FaithfulReturn(text, out, more);
    }
  }

  // ----- reading directives

  /** The digit loop: a width, and the index behind it. */
  method ReadNumber(fmt: Text, first: nat) returns (w: uint64, i: nat)
    requires IsString(fmt) && first < |fmt| && IsDigit(fmt[first])
    ensures first < i <= |fmt| && (w, i) == Number(fmt, first + 1, fmt[first] - 48)
    ensures forall k :: first <= k < i ==> IsDigit(fmt[k])
  {
    var c := fmt[first];
    w, i := c - 48, first + 2;
    c := At(fmt, first + 1);
    while IsDigit(c)
      invariant first + 2 <= i <= |fmt| + 1 && c == At(fmt, i - 1)
      invariant forall k :: first <= k < i - 1 ==> IsDigit(fmt[k])
      invariant Number(fmt, i - 1, w) == Number(fmt, first + 1, fmt[first] - 48)
      decreases |fmt| + 1 - i
    {
      w := (w * 10 + c - 48) % UINT64_RANGE;
      c := At(fmt, i);
      i := i + 1;
    }
    i := i - 1;
  }

  /** The cases that set a field of the item. */
  method ReadModifier(fmt: Text, at: nat, was: Item, args: seq<Arg>)
    returns (i: nat, item: Item, left: seq<Arg>)
    requires IsString(fmt) && at < |fmt| && IsModifier(fmt[at])
    requires was.pad != NUL && ProperArgs(args) && Modified(fmt, at, was, args).Some?
    ensures Modified(fmt, at, was, args) == Some(Step(i, item, left))
    ensures item.pad != NUL && ProperArgs(left)
    ensures forall k :: at <= k < i ==> !SetsForField(fmt[k])
  {
    var c := fmt[at];
    i, item, left := at + 1, was, args;
    if c == 44 {
      item := item.(comma := true);
    } else if c == 45 {
      item := item.(padBefore := false);
    } else if c == 42 {
      item, left := item.SetWidth(left[0].bits), left[1..];
    } else if c == 46 {
      item := item.(toField := true);
    } else if c == 48 {
      item := item.(pad := ZERO);
    } else if c == 108 {
      item := item.(long := true);
    } else {
      var w;
      w, i := ReadNumber(fmt, at);
      item := item.SetWidth(w);
    }
  }

  /** The scratch buffer holds a text and its terminator. */
  ghost predicate InScratch(scratch: Text, text: Text) {
    |text| < |scratch| && scratch[..|text|] == text && scratch[|text|] == NUL
  }

  lemma HoldsInScratch(now: Text, before: Text, text: Text)
    requires Holds(now, before, text)
    ensures InScratch(now, text)
  {
  }

  method PutChar(scratch: array<Char16>, c: Char16)
    requires scratch.Length == PRINT_ITEM_BUFFER_LEN
    modifies scratch
    ensures InScratch(scratch[..], if c == NUL then [] else [c])
  {
    scratch[0], scratch[1] := c, NUL;
  }

  method PutDecimal(scratch: array<Char16>, v: int64, comma: bool)
    requires scratch.Length == PRINT_ITEM_BUFFER_LEN
    modifies scratch
    ensures InScratch(scratch[..], DecimalText(v, comma))
  {
    hide DecimalText, InScratch, Holds;
    DecimalIsString(v, comma);
    ValueToString(scratch, comma, v);
    HoldsInScratch(scratch[..], old(scratch[..]), DecimalText(v, comma));
  }

  method PutHex(scratch: array<Char16>, v: uint64)
    requires scratch.Length == PRINT_ITEM_BUFFER_LEN
    modifies scratch
    ensures InScratch(scratch[..], Numeral(v, 16))
  {
    hide Numeral, InScratch, Holds;
    HexIsString(v);
    ValueToHex(scratch, v);
    HoldsInScratch(scratch[..], old(scratch[..]), Numeral(v, 16));
  }

  /** The number goes to `Scratch + 2`, and `0x` in front of it. */
  method PutPointer(scratch: array<Char16>, v: uint64)
    requires scratch.Length == PRINT_ITEM_BUFFER_LEN
    modifies scratch
    ensures InScratch(scratch[..], [48, 120] + Numeral(v, 16))
  {
    hide Numeral, Holds;
    HexIsString(v);
    var rest := new Char16[98];
    ghost var before := rest[..];
    ValueToHex(rest, v);
    HoldsInScratch(rest[..], before, Numeral(v, 16));
    forall i | 0 <= i < 98 {
      scratch[i + 2] := rest[i];
    }
    scratch[0], scratch[1] := 48, 120;
    assert scratch[..] == [48, 120] + rest[..];
  }

  /** The conversions that format a word into the scratch buffer. */
  method ConvertWord(c: Char16, item: Item, bits: uint64) returns (done: Item, source: Text)
    requires TakesWord(c)
    ensures done == WordItem(c, item) && source == WordText(c, item, bits) && IsString(source)
  {
    hide Numeral, DecimalText, IsString;
    WordTextIsString(c, item, bits);
    var scratch := new Char16[PRINT_ITEM_BUFFER_LEN];
    done := item;
    ghost var text := WordText(c, item, bits);
    if c == 99 {
      PutChar(scratch, bits % 0x1_0000);
    } else if c == 100 {
      PutDecimal(scratch, if item.long then Signed64(bits) else Signed32(bits), item.comma);
    } else if c == 117 {
      PutDecimal(scratch, if item.long then Signed64(bits) else Low32(bits), item.comma);
    } else if c == 112 {
      done := item.(width := 0, pad := ZERO);
      PutPointer(scratch, HexValue(bits, item.long));
    } else {
      if c == 88 {
        done := item.(width := if item.long then 16 else 8, pad := ZERO);
      }
      PutHex(scratch, HexValue(bits, item.long));
    }
    assert InScratch(scratch[..], text);
    var n := StrLen(scratch, |text|);
    source := scratch[..n];
  }

  /** The characters that name an item. */
  method Convert(c: Char16, ghost next: nat, item: Item, args: seq<Arg>)
    returns (done: Item, source: Text, left: seq<Arg>)
    requires ProperArgs(args) && item.pad != NUL
    requires Conversion(c, next, item, args).Field?
    ensures Conversion(c, next, item, args) == Field(next, left, done, source)
    ensures IsString(source) && ProperArgs(left) && done.pad != NUL
  {
    hide WordText;
    assert args != [] ==> ProperArg(args[0]);
    done, left := item, args;
    if c == 97 {
      source, left := if args[0].narrow.Some? then args[0].narrow.value else NULL_TEXT, args[1..];
    } else if c == 115 {
      source, left := if args[0].wide.Some? then args[0].wide.value else NULL_TEXT, args[1..];
    } else if TakesWord(c) {
      done, source := ConvertWord(c, item, args[0].bits);
      left := args[1..];
    } else if TakesOther(c) {
      source, left := args[0].text, args[1..];
    } else {
      source := if c == PERCENT then [PERCENT] else QUESTION_TEXT;
    }
  }

  class PrintState {
    const buffer: array<Char16>
    var pos: nat
    var len: nat
    var attr: nat
    var restoreAttr: nat
    const attrs: Attributes
    const sink: PoolPrint
    const pooled: bool          // whether `Output` is `_PoolPrint`, or else `_SPrint`

    ghost var text: Text        // the text put out so far, before newlines are dressed
    ghost var chunks: seq<Text>
    ghost var even: bool        // no attribute change has flushed the buffer early
    ghost const limit: nat      // no more text than this is to come
    ghost const start: PoolState // what the sink had been sent before
    ghost const target: array?<Char16>   // a string does not move,
    ghost const most: nat                // nor change its size

    constructor (sink: PoolPrint, pooled: bool, attrs: Attributes, attr: nat, ghost limit: nat)
      requires sink.Sound(pooled) && (pooled || sink.sent == [])
      requires !pooled && sink.maxlen > 0 ==> sink.str != null && Min(sink.maxlen, 2 * limit) < sink.str.Length
      ensures Valid() && fresh(buffer) && text == [] && chunks == [] && even
      ensures this.sink == sink && this.pooled == pooled && this.attrs == attrs && this.attr == attr
      ensures this.limit == limit && start == sink.State()
      ensures target == sink.str && most == sink.maxlen
    {
      buffer := new Char16[PRINT_STRING_LEN];
      pos, len, this.attr, restoreAttr := 0, 0, attr, 0;
      this.attrs, this.sink, this.pooled := attrs, sink, pooled;
      text, chunks, even, this.limit := [], [], true, limit;
      start, target, most := sink.State(), sink.str, sink.maxlen;
      new;
      NoChunks();
    }

    /** All that was put out, flushed or not. */
    ghost function Out(): Text
      reads `pos, `chunks, buffer
      requires pos <= buffer.Length
    {
      Concat(chunks) + buffer[..pos]
    }

    /** The sink is where those chunks lead to. */
    ghost predicate Received(flushed: seq<Text>)
      reads sink, sink.Owned()
    {
      && sink.Sound(pooled)
      && if pooled then sink.State() == AppendedAll(start, flushed, sink.refuses)
         else && start.held == [] && sink.sent == Concat(flushed) && sink.str == target && sink.maxlen == most
              && (most > 0 ==> sink.str != null && Min(most, 2 * limit) < sink.str.Length)
    }

    ghost predicate Filled()
      reads `pos, `len, `chunks, `even, buffer, sink, sink.Owned()
    {
      && buffer.Length == PRINT_STRING_LEN && pos < PRINT_STRING_LEN && sink.str != buffer
      && len == |Concat(chunks)| + pos && IsString(buffer[..pos]) && ShortChunks(chunks)
      && (even ==> FullChunks(chunks)) && Received(chunks)
    }

    ghost predicate Steady()
      reads `pos, `len, `chunks, `even, buffer, sink, sink.Owned()
    {
      && Filled() && pos < PRINT_STRING_LEN - 1
      && (pos == 0 && len > 0 ==> len in Cuts(chunks))
    }

    ghost predicate Valid()
      reads `pos, `len, `text, `chunks, `even, buffer, sink, sink.Owned()
    {
      Steady() && |text| <= limit && Faithful(text, Out(), Cuts(chunks))
    }

    /** The call of `Output` in `PFLUSH`. */
    method Send()
      requires Filled() && len <= 2 * limit
      modifies buffer, sink, sink.Owned()
      ensures Received(chunks + [buffer[..pos]]) && fresh(sink.Owned() - old(sink.Owned()))
      ensures sink.str != buffer && buffer[..pos] == old(buffer[..pos])
      ensures !pooled && most > 0 ==> sink.str != null && sink.len < sink.str.Length && sink.str[sink.len] == NUL
    {
      hide Concat, Cuts, ShortChunks, FullChunks, PoolPrint.Sound, Appended, AppendedAll;
      ghost var chunk := buffer[..pos];
      buffer[pos] := NUL;
      assert buffer[..pos] == chunk;
      ChunkPush(chunks, chunk);
      AppendedPush(start, chunks, chunk, sink.refuses);
      sink.Output(pooled, buffer, pos);
    }

    /** `PFLUSH`. */
    method PFLUSH()
      requires Filled() && len <= 2 * limit
      modifies `pos, `chunks, `even, buffer, sink, sink.Owned()
      ensures Steady() && pos == 0 && fresh(sink.Owned() - old(sink.Owned()))
      ensures chunks == old(chunks) + [old(buffer[..pos])] && Out() == old(Out())
      ensures even == (old(even) && old(pos) == PRINT_STRING_LEN - 1)
      ensures Cuts(old(chunks)) <= Cuts(chunks) && len in Cuts(chunks)
      ensures !pooled && most > 0 ==> sink.str != null && sink.len < sink.str.Length && sink.str[sink.len] == NUL
    {
      hide Concat, Cuts, ShortChunks, FullChunks, PrintState.Received;
      ghost var chunk := buffer[..pos];
      ChunkPush(chunks, chunk);
      ShortPush(chunks, chunk);
      Send();
      chunks := chunks + [chunk];
      even := even && pos == PRINT_STRING_LEN - 1;
      pos := 0;
      assert Concat(chunks) + buffer[..pos] == Concat(chunks);
    }

    /** The store of `PPUTC`: the character into the buffer, and the buffer out when it is full. */
    method Store(c: Char16)
      requires Steady() && len < 2 * limit && c != NUL
      modifies `pos, `len, `chunks, `even, buffer, sink, sink.Owned()
      ensures Steady() && fresh(sink.Owned() - old(sink.Owned()))
      ensures Out() == old(Out()) + [c] && len == old(len) + 1 && even == old(even)
      ensures Cuts(old(chunks)) <= Cuts(chunks)
    {
      hide Concat, Cuts, FullChunks, PoolPrint.Sound;
      ghost var before := buffer[..pos];
      buffer[pos] := c;
      pos, len := pos + 1, len + 1;
      assert buffer[..pos] == before + [c];
      assert Out() == old(Out()) + [c];
      if pos >= PRINT_STRING_LEN - 1 {
        PFLUSH();
      }
    }

    /** The character `PPUTC` looks back at.  Right after a flush it lies in front of the buffer: it may be any. */
    method LastChar() returns (last: Char16)
      requires Steady()
      ensures last == CR ==> MayOmit(Out(), Cuts(chunks))
      ensures last != CR ==> MayInsert(Out(), Cuts(chunks))
    {
      hide Concat, Cuts, FullChunks, PrintState.Received;
      if len == 0 {
        last := NUL;
      } else if pos > 0 {
        last := buffer[pos - 1];
      } else {
        last := *;
      }
    }

    /** `PPUTC`. */
    method PPUTC(c: Char16)
      requires Valid() && |text| < limit && c != NUL
      modifies `pos, `len, `text, `chunks, `even, buffer, sink, sink.Owned()
      ensures Valid() && fresh(sink.Owned() - old(sink.Owned()))
      ensures text == old(text) + [c] && even == old(even)
    {
      hide Concat, Cuts, Faithful, FullChunks, MayInsert, MayOmit, PrintState.Received;
      FaithfulLength(text, Out(), Cuts(chunks));
      ghost var out, cuts := Out(), Cuts(chunks);
      var last := LastChar();
      if c == LF && last != CR {
        Store(CR);
        Store(c);
        assert Out() == out + [CR, LF];
      } else {
        Store(c);
      }
      Dressed(text, out, cuts, c, Out(), Cuts(chunks));
      text := text + [c];
    }

    /** `PFLUSH` between two characters of the text. */
    method Flush()
      requires Valid()
      modifies `pos, `chunks, `even, buffer, sink, sink.Owned()
      ensures Valid() && pos == 0 && len == |Concat(chunks)| && fresh(sink.Owned() - old(sink.Owned()))
      ensures chunks == old(chunks) + [old(buffer[..pos])] && Out() == old(Out())
      ensures chunks != [] && (old(even) ==> FullChunks(chunks[..|chunks| - 1]))
      ensures !pooled && most > 0 ==> sink.str != null && sink.len < sink.str.Length && sink.str[sink.len] == NUL
    {
      hide Concat, Cuts, Faithful, ShortChunks, FullChunks, PrintState.Received;
      ghost var out, cuts, was := Out(), Cuts(chunks), chunks;
      FaithfulLength(text, out, cuts);
      PFLUSH();
      assert chunks[..|chunks| - 1] == was;
      assert Faithful(text, Out(), Cuts(chunks)) by {
        FaithfulMoreCuts(text, out, cuts, Cuts(chunks));
      }
    }

    /** `PSETATTR`, except for the call that tells a console. */
    method PSETATTR(a: nat)
      requires Valid()
      modifies `pos, `chunks, `even, `attr, `restoreAttr, buffer, sink, sink.Owned()
      ensures Valid() && fresh(sink.Owned() - old(sink.Owned()))
      ensures pos == 0 && chunks == old(chunks) + [old(buffer[..pos])]
      ensures attr == a && restoreAttr == old(attr)
    {
      hide PrintState.Valid;
      Flush();
      restoreAttr := attr;
      attr := a;
    }

    /** The padding loops of `PITEM`. */
    method PutRun(c: Char16, from: nat, to: nat)
      requires Valid() && c != NUL && |text| + Gap(from, to) <= limit
      modifies `pos, `len, `text, `chunks, `even, buffer, sink, sink.Owned()
      ensures Valid() && fresh(sink.Owned() - old(sink.Owned()))
      ensures text == old(text) + Repeat(c, Gap(from, to)) && even == old(even)
    {
      hide PrintState.Valid;
      var i := from;
      while i < to
        invariant from <= i && Valid() && fresh(sink.Owned() - old(sink.Owned()))
        invariant text == old(text) + Repeat(c, Gap(from, Min(i, to))) && even == old(even)
      {
        PPUTC(c);
        i := i + 1;
      }
    }

    /** The spaces up to the field, if this is the side they go. */
    method PutOuter(here: bool, width: nat, fieldWidth: nat)
      requires Valid() && |text| + |Outer(here, width, fieldWidth)| <= limit
      modifies `pos, `len, `text, `chunks, `even, buffer, sink, sink.Owned()
      ensures Valid() && fresh(sink.Owned() - old(sink.Owned()))
      ensures text == old(text) + Outer(here, width, fieldWidth) && even == old(even)
    {
      hide PrintState.Valid, Repeat;
      if here {
        PutRun(SPACE, width, fieldWidth);
      }
    }

    /** The first loop of `PITEM`: how much of the item goes out. */
    method ItemLength(item: Item, source: Text) returns (n: nat)
      requires IsString(source)
      ensures n <= |source| && source[..n] == Clipped(source, item)
    {
      n := 0;
      while n < item.fieldWidth
        invariant n <= |source| && n <= item.fieldWidth
      {
        var c := At(source, n);
        n := n + 1;
        if c == NUL {
          n := n - 1;
          break;
        }
      }
    }

    /** The loop of `PITEM` that adds the item. */
    method PutItem(source: Text, n: nat)
      requires Valid() && IsString(source) && n <= |source| && |text| + n <= limit
      modifies `pos, `len, `text, `chunks, `even, buffer, sink, sink.Owned()
      ensures Valid() && fresh(sink.Owned() - old(sink.Owned()))
      ensures text == old(text) + source[..n] && even == old(even)
    {
      hide PrintState.Valid;
      var index := 0;
      while index < n
        invariant index <= n && Valid() && fresh(sink.Owned() - old(sink.Owned()))
        invariant text == old(text) + source[..index] && even == old(even)
      {
        PPUTC(At(source, index));
        index := index + 1;
      }
    }

    /** `PITEM`. */
    method PITEM(item: Item, source: Text)
      requires Valid() && item.pad != NUL && IsString(source)
      requires |text| + |Layout(item, source)| <= limit
      modifies `pos, `len, `text, `chunks, `even, buffer, sink, sink.Owned()
      ensures Valid() && fresh(sink.Owned() - old(sink.Owned()))
      ensures text == old(text) + Layout(item, source) && even == old(even)
    {
      hide PrintState.Valid, Repeat, Layout, Clipped, Outer;
      var n := ItemLength(item, source);
      var fieldWidth: nat := item.fieldWidth;
      if item.fieldWidth == UNLIMITED {
        fieldWidth := n;
      }
      var width: nat := item.width;
      if n > width {
        width := n;
      }
      LayoutParts(text, item, source, n, width, fieldWidth);
      PutOuter(item.padBefore, width, fieldWidth);
      PutRun(item.pad, n, width);
      PutItem(source, n);
      PutOuter(!item.padBefore, width, fieldWidth);
    }

    /** The inner loop of `_Print` with the item it ends in, and what follows it: one directive. */
    method ReadDirective(fmt: Text, from: nat, args: seq<Arg>) returns (i: nat, left: seq<Arg>)
      requires Valid() && IsString(fmt) && ProperArgs(args) && from <= |fmt|
      requires var d := Scan(fmt, from, NEW_ITEM, args, attrs);
               d.Colour? || (d.Field? && |text| + |Layout(d.item, d.text)| <= limit)
      modifies `pos, `len, `text, `chunks, `even, `attr, `restoreAttr, buffer, sink, sink.Owned()
      ensures Valid() && fresh(sink.Owned() - old(sink.Owned())) && ProperArgs(left)
      ensures var d := Scan(fmt, from, NEW_ITEM, args, attrs);
              && i == d.next && left == d.args
              && text == (if d.Field? then old(text) + Layout(d.item, d.text) else old(text))
              && attr == AttrAfter(fmt, from, d, attrs, old(attr))
      ensures Named(fmt[from..i], attrs) == [] && attrs == NO_ATTRIBUTES ==> even == old(even)
    {
      hide PrintState.Valid, Layout, Scan, Conversion, Modified, Named;
      ghost var d := Scan(fmt, from, NEW_ITEM, args, attrs);
      var item := NEW_ITEM;
      restoreAttr := 0;
      i, left := from, args;
      NothingNamed(fmt, from, attrs);
      ScanEnd(fmt, item, args, attrs);
      ghost var trail := [attr];
      while At(fmt, i) != NUL
        invariant from <= i < |fmt| && trail == [old(attr)] + Named(fmt[from..i], attrs)
        invariant attr == trail[|trail| - 1] && restoreAttr == Previous(trail) && (|trail| == 1 ==> even == old(even))
        invariant Scan(fmt, i, item, left, attrs) == d
        invariant Valid() && fresh(sink.Owned() - old(sink.Owned())) && text == old(text)
        invariant item.pad != NUL && ProperArgs(left)
        decreases |fmt| - i
      {
        var c := At(fmt, i);
        ghost var here := i;
        i := i + 1;
        ScanStep(fmt, here, item, left, attrs);
        NamedPush(fmt, from, here, attrs);
        if IsModifier(c) {
          i, item, left := ReadModifier(fmt, i - 1, item, left);
          NamedPlain(fmt, from, here, i, attrs);
        } else if SetsForField(c) {
          PSETATTR(Attribute(c, attrs));
          trail := trail + [attr];
        } else if SetsLasting(c) {
          if Attribute(c, attrs) != 0 {
            PSETATTR(Attribute(c, attrs));
            restoreAttr := 0;
            break;
          }
        } else {
          var source;
          item, source, left := Convert(c, i, item, left);
          PITEM(item, source);
          break;
        }
        ScanEnd(fmt, item, left, attrs);
      }
      if restoreAttr != 0 {
        PSETATTR(restoreAttr);
      }
    }

    /** One turn of the outer loop of `_Print`: a plain character or a directive. */
    method PrintNext(fmt: Text, from: nat, args: seq<Arg>) returns (i: nat, left: seq<Arg>)
      requires Valid() && IsString(fmt) && ProperArgs(args) && from < |fmt|
      requires Render(fmt, from, args, attrs).Some?
      requires |text| + |Render(fmt, from, args, attrs).value| <= limit
      modifies `pos, `len, `text, `chunks, `even, `attr, `restoreAttr, buffer, sink, sink.Owned()
      ensures Valid() && fresh(sink.Owned() - old(sink.Owned()))
      ensures from < i <= |fmt| && ProperArgs(left) && Render(fmt, i, left, attrs).Some?
      ensures text + Render(fmt, i, left, attrs).value == old(text) + Render(fmt, from, args, attrs).value
      ensures FinalAttr(fmt, i, left, attrs, attr) == FinalAttr(fmt, from, args, attrs, old(attr))
      ensures old(even) && attrs == NO_ATTRIBUTES && Calm(fmt, from, args, attrs) ==>
                even && Calm(fmt, i, left, attrs)
    {
      hide Scan, Layout, Render, Named, Calm, FinalAttr, AttrAfter, PrintState.Valid;
      var c := At(fmt, from);
      RenderStep(fmt, from, args, attrs);
      FinalAttrStep(fmt, from, args, attrs, attr);
      i, left := from + 1, args;
      if c != PERCENT {
        PPUTC(c);
      } else {
        i, left := ReadDirective(fmt, i, left);
      }
    }

    /** `_Print`: the whole format, and the last flush. */
    method Print(fmt: Text, args: seq<Arg>) returns (n: nat)
      requires Valid() && text == [] && IsString(fmt) && ProperArgs(args)
      requires Render(fmt, 0, args, attrs).Some? && limit == |Render(fmt, 0, args, attrs).value|
      modifies `pos, `len, `text, `chunks, `even, `attr, `restoreAttr, buffer, sink, sink.Owned()
      ensures Valid() && fresh(sink.Owned() - old(sink.Owned()))
      ensures text == Render(fmt, 0, args, attrs).value && pos == 0 && n == |Concat(chunks)| && chunks != []
      ensures !pooled && most > 0 ==> sink.str != null && sink.len < sink.str.Length && sink.str[sink.len] == NUL
      ensures attr == FinalAttr(fmt, 0, args, attrs, old(attr))
      ensures old(even) && attrs == NO_ATTRIBUTES && Calm(fmt, 0, args, attrs) ==> FullChunks(chunks[..|chunks| - 1])
    {
      hide Concat, Render, Calm, FinalAttr, FullChunks, PrintState.Valid;
      ghost var full := Render(fmt, 0, args, attrs).value;
      var i, left := 0, args;
      while At(fmt, i) != NUL
        invariant i <= |fmt| && ProperArgs(left)
        invariant Valid() && fresh(sink.Owned() - old(sink.Owned()))
        invariant Render(fmt, i, left, attrs).Some? && text + Render(fmt, i, left, attrs).value == full
        invariant FinalAttr(fmt, i, left, attrs, attr) == FinalAttr(fmt, 0, args, attrs, old(attr))
        invariant old(even) && attrs == NO_ATTRIBUTES && Calm(fmt, 0, args, attrs) ==> even && Calm(fmt, i, left, attrs)
        decreases |fmt| - i
      {
        assert |text| + |Render(fmt, i, left, attrs).value| == |full|;
        i, left := PrintNext(fmt, i, left);
      }
      RenderDone(fmt, left, attrs);
      FinalAttrStep(fmt, i, left, attrs, attr);
      Flush();
      n := len;
    }
  }
}
