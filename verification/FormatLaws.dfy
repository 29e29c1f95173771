/** Formats compose: printing one format and then another is printing the two written in one. */
module FormatLaws {
  import opened Chars
  import opened Format
  import opened Numbers
  import opened Wrappers

  lemma {:induction false} NumberAppend(f: Text, g: Text, i: nat, w: uint64)
    requires i <= |f| && Number(f, i, w).1 < |f|
    ensures Number(f + g, i, w) == Number(f, i, w)
    decreases |f| - i
  {
    if i < |f| && IsDigit(f[i]) {
      NumberAppend(f, g, i + 1, (w * 10 + f[i] - 48) % UINT64_RANGE);
    }
  }

  lemma {:induction false} NumberShift(f: Text, g: Text, k: nat, w: uint64)
    requires k <= |g|
    ensures Number(f + g, |f| + k, w) == (Number(g, k, w).0, |f| + Number(g, k, w).1)
    decreases |g| - k
  {
    if k < |g| && IsDigit(g[k]) {
      NumberShift(f, g, k + 1, (w * 10 + g[k] - 48) % UINT64_RANGE);
    }
  }

  /** A finished directive does not see what follows it. */
  lemma {:induction false} ScanAppend(f: Text, g: Text, i: nat, item: Item, args: seq<Arg>, a: Attributes)
    requires i <= |f| && !Scan(f, i, item, args, a).Bad?
    ensures Scan(f + g, i, item, args, a) == Scan(f, i, item, args, a)
    decreases |f| - i
  {
    hide Conversion, Modified;
    assert (f + g)[i] == f[i];
    if IsModifier(f[i]) {
      var step := Modified(f, i, item, args).value;
      ScanAppend(f, g, step.next, step.item, step.args, a);
      ModifiedAppend(f, g, i, item, args);
    } else if SetsForField(f[i]) || (SetsLasting(f[i]) && Attribute(f[i], a) == 0) {
      ScanAppend(f, g, i + 1, item, args, a);
    }
  }

  lemma ModifiedAppend(f: Text, g: Text, i: nat, item: Item, args: seq<Arg>)
    requires i < |f| && IsModifier(f[i])
    requires Modified(f, i, item, args).Some? && Modified(f, i, item, args).value.next < |f|
    ensures Modified(f + g, i, item, args) == Modified(f, i, item, args)
  {
    if IsDigit(f[i]) && f[i] != 48 {
      NumberAppend(f, g, i + 1, f[i] - 48);
    }
  }

  lemma ModifiedShift(f: Text, g: Text, k: nat, item: Item, args: seq<Arg>)
    requires k < |g| && IsModifier(g[k])
    ensures var here, there := Modified(g, k, item, args), Modified(f + g, |f| + k, item, args);
            && there.Some? == here.Some?
            && (here.Some? ==> there.value == here.value.(next := |f| + here.value.next))
  {
    if IsDigit(g[k]) && g[k] != 48 {
      NumberShift(f, g, k + 1, g[k] - 48);
    }
  }

  function Shift(d: Directive, n: nat): Directive {
    match d
    case Bad => Bad
    case Field(next, args, item, text) => Field(n + next, args, item, text)
    case Colour(next, args, attr) => Colour(n + next, args, attr)
  }

  lemma ConversionShift(c: Char16, next: nat, n: nat, item: Item, args: seq<Arg>)
    ensures Conversion(c, n + next, item, args) == Shift(Conversion(c, next, item, args), n)
  {
    hide WordText, WordItem;
  }

  /** A directive does not see what is in front of it. */
  lemma {:induction false} ScanShift(f: Text, g: Text, k: nat, item: Item, args: seq<Arg>, a: Attributes)
    requires k <= |g|
    ensures Scan(f + g, |f| + k, item, args, a) == Shift(Scan(g, k, item, args, a), |f|)
    decreases |g| - k
  {
    hide Conversion, Modified;
    if k < |g| {
      assert (f + g)[|f| + k] == g[k];
      if IsModifier(g[k]) {
        ModifiedShift(f, g, k, item, args);
        if Modified(g, k, item, args).Some? {
          var step := Modified(g, k, item, args).value;
          ScanShift(f, g, step.next, step.item, step.args, a);
        }
      } else if SetsForField(g[k]) || (SetsLasting(g[k]) && Attribute(g[k], a) == 0) {
        ScanShift(f, g, k + 1, item, args, a);
      } else if !SetsLasting(g[k]) {
        ConversionShift(g[k], k + 1, |f|, item, args);
      }
    }
  }

  /** The arguments a format leaves. */
  function Left(fmt: Text, i: nat, args: seq<Arg>, a: Attributes): seq<Arg>
    requires i <= |fmt| && Render(fmt, i, args, a).Some?
    decreases |fmt| - i
  {
    if i == |fmt| then args
    else if fmt[i] != PERCENT then Left(fmt, i + 1, args, a)
    else
      var d := Scan(fmt, i + 1, NEW_ITEM, args, a);
      Left(fmt, d.next, d.args, a)
  }

  lemma {:induction false} RenderShift(f: Text, g: Text, k: nat, args: seq<Arg>, a: Attributes)
    requires k <= |g|
    ensures Render(f + g, |f| + k, args, a) == Render(g, k, args, a)
    decreases |g| - k
  {
    hide Scan, Layout;
    if k < |g| {
      assert (f + g)[|f| + k] == g[k];
      if g[k] != PERCENT {
        RenderShift(f, g, k + 1, args, a);
      } else {
        ScanShift(f, g, k + 1, NEW_ITEM, args, a);
        var d := Scan(g, k + 1, NEW_ITEM, args, a);
        if !d.Bad? {
          RenderShift(f, g, d.next, d.args, a);
        }
      }
    }
  }

  /** The text of two formats in one is the text of the first and then that of the second, with the
      arguments the first one left. */
  lemma {:induction false} RenderAppend(f: Text, g: Text, i: nat, args: seq<Arg>, a: Attributes)
    requires i <= |f| && Render(f, i, args, a).Some?
    ensures var first, second := Render(f, i, args, a), Render(g, 0, Left(f, i, args, a), a);
            Render(f + g, i, args, a) == if second.Some? then Some(first.value + second.value) else None
    decreases |f| - i
  {
    hide Scan, Layout;
    if i == |f| {
      RenderShift(f, g, 0, args, a);
      var second := Render(g, 0, args, a);
      assert second.Some? ==> [] + second.value == second.value;
    } else {
      assert (f + g)[i] == f[i];
      var second := Render(g, 0, Left(f, i, args, a), a);
      if f[i] != PERCENT {
        RenderAppend(f, g, i + 1, args, a);
        var rest := Render(f, i + 1, args, a).value;
        assert second.Some? ==> [f[i]] + (rest + second.value) == [f[i]] + rest + second.value;
      } else {
        ScanAppend(f, g, i + 1, NEW_ITEM, args, a);
        var d := Scan(f, i + 1, NEW_ITEM, args, a);
        RenderAppend(f, g, d.next, d.args, a);
        if d.Field? && second.Some? {
          var out, rest := Layout(d.item, d.text), Render(f, d.next, d.args, a).value;
          assert out + (rest + second.value) == out + rest + second.value;
        }
      }
    }
  }

  /** A format without directives prints itself. */
  lemma {:induction false} RenderPlain(fmt: Text, i: nat, args: seq<Arg>, a: Attributes)
    requires i <= |fmt| && PERCENT !in fmt
    ensures Render(fmt, i, args, a) == Some(fmt[i..]) && Calm(fmt, i, args, a)
    decreases |fmt| - i
  {
    if i < |fmt| {
      assert fmt[i] in fmt;
      RenderPlain(fmt, i + 1, args, a);
      assert fmt[i..] == [fmt[i]] + fmt[i + 1..];
    } else {
      assert fmt[i..] == [];
    }
  }
}
