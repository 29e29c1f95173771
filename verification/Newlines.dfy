/** What the print engine may do to a text on its way out: put a CR in front of an LF.

    It does so unless the character before the LF is a CR.  Right after a flush it cannot see that
    character (`PPUTC` of `inc/internal/va_print.h` reads in front of its buffer), and may do either. */
module Newlines {
  import opened Chars

  /** An LF may go out bare after `before`. */
  ghost predicate MayOmit(before: Text, cuts: set<nat>) {
    before != [] && (before[|before| - 1] == CR || |before| in cuts)
  }

  /** An LF may go out with a CR in front after `before`. */
  ghost predicate MayInsert(before: Text, cuts: set<nat>) {
    before == [] || before[|before| - 1] != CR || |before| in cuts
  }

  /** `out` is the text with CRs put in front of LFs; `cuts` are the lengths at which it was flushed. */
  ghost predicate Faithful(text: Text, out: Text, cuts: set<nat>)
    decreases |text|
  {
    if text == [] then out == []
    else if out == [] then false
    else
      var rest, c, n := text[..|text| - 1], text[|text| - 1], |out|;
      out[n - 1] == c &&
      if c != LF then Faithful(rest, out[..n - 1], cuts)
      else
        || (MayOmit(out[..n - 1], cuts) && Faithful(rest, out[..n - 1], cuts))
        || (n > 1 && out[n - 2] == CR && MayInsert(out[..n - 2], cuts) && Faithful(rest, out[..n - 2], cuts))
  }

  lemma FaithfulPlain(text: Text, out: Text, cuts: set<nat>, c: Char16)
    requires Faithful(text, out, cuts) && c != LF
    ensures Faithful(text + [c], out + [c], cuts)
  {
    assert (text + [c])[..|text|] == text && (out + [c])[..|out|] == out;
  }

  lemma FaithfulBare(text: Text, out: Text, cuts: set<nat>)
    requires Faithful(text, out, cuts) && MayOmit(out, cuts)
    ensures Faithful(text + [LF], out + [LF], cuts)
  {
    assert (text + [LF])[..|text|] == text && (out + [LF])[..|out|] == out;
  }

  lemma FaithfulReturn(text: Text, out: Text, cuts: set<nat>)
    requires Faithful(text, out, cuts) && MayInsert(out, cuts)
    ensures Faithful(text + [LF], out + [CR, LF], cuts)
  {
    assert (text + [LF])[..|text|] == text && (out + [CR, LF])[..|out|] == out;
  }

  /** Only cuts inside the output count. */
  lemma {:induction false} FaithfulMoreCuts(text: Text, out: Text, cuts: set<nat>, more: set<nat>)
    requires Faithful(text, out, cuts) && forall k :: k in cuts && k < |out| ==> k in more
    ensures Faithful(text, out, more)
    decreases |text|
  {
    if text != [] {
      var rest, n := text[..|text| - 1], |out|;
      if Faithful(rest, out[..n - 1], cuts) {
        FaithfulMoreCuts(rest, out[..n - 1], cuts, more);
      }
      if n > 1 && Faithful(rest, out[..n - 2], cuts) {
        FaithfulMoreCuts(rest, out[..n - 2], cuts, more);
      }
    }
  }

  lemma {:induction false} FaithfulLength(text: Text, out: Text, cuts: set<nat>)
    requires Faithful(text, out, cuts)
    ensures |text| <= |out| <= 2 * |text|
    decreases |text|
  {
    if text != [] {
      var rest, n := text[..|text| - 1], |out|;
      if Faithful(rest, out[..n - 1], cuts) {
        FaithfulLength(rest, out[..n - 1], cuts);
      } else {
        FaithfulLength(rest, out[..n - 2], cuts);
      }
    }
  }

  /** No terminator comes in or gets lost. */
  lemma {:induction false} FaithfulIsString(text: Text, out: Text, cuts: set<nat>)
    requires Faithful(text, out, cuts)
    ensures IsString(text) <==> IsString(out)
    decreases |text|
  {
    if text != [] {
      var rest, n := text[..|text| - 1], |out|;
      assert text == rest + [text[|text| - 1]] && out == out[..n - 1] + [out[n - 1]];
      if Faithful(rest, out[..n - 1], cuts) {
        FaithfulIsString(rest, out[..n - 1], cuts);
      } else {
        assert out == out[..n - 2] + [CR, LF];
        FaithfulIsString(rest, out[..n - 2], cuts);
      }
    }
  }

  /** Without an LF the text goes out as it is. */
  lemma {:induction false} FaithfulExact(text: Text, out: Text, cuts: set<nat>)
    requires Faithful(text, out, cuts) && LF !in text
    ensures out == text
    decreases |text|
  {
    if text != [] {
      FaithfulExact(text[..|text| - 1], out[..|out| - 1], cuts);
    }
  }

  // ----- texts up to CRs

  function DropReturns(s: Text): (r: Text)
    ensures r <= s
  {
    if s != [] && s[|s| - 1] == CR then DropReturns(s[..|s| - 1]) else s
  }

  /** The text without the runs of CR directly in front of an LF. */
  function Stripped(s: Text): Text
    decreases |s|
  {
    if s == [] then []
    else
      var rest, c := s[..|s| - 1], s[|s| - 1];
      Stripped(if c == LF then DropReturns(rest) else rest) + [c]
  }

  lemma {:induction false} FaithfulDrop(text: Text, out: Text, cuts: set<nat>)
    requires Faithful(text, out, cuts)
    ensures Faithful(DropReturns(text), DropReturns(out), cuts)
    decreases |text|
  {
    if text != [] && text[|text| - 1] == CR {
      FaithfulDrop(text[..|text| - 1], out[..|out| - 1], cuts);
    }
  }

  /** However the output was cut, it is the text up to CRs in front of LFs. */
  lemma {:induction false} FaithfulStripped(text: Text, out: Text, cuts: set<nat>)
    requires Faithful(text, out, cuts)
    ensures Stripped(out) == Stripped(text)
    decreases |text|
  {
    if text != [] {
      var rest, c, n := text[..|text| - 1], text[|text| - 1], |out|;
      if c != LF {
        FaithfulStripped(rest, out[..n - 1], cuts);
      } else if MayOmit(out[..n - 1], cuts) && Faithful(rest, out[..n - 1], cuts) {
        FaithfulDrop(rest, out[..n - 1], cuts);
        FaithfulStripped(DropReturns(rest), DropReturns(out[..n - 1]), cuts);
      } else {
        assert out[..n - 1][..n - 2] == out[..n - 2];
        FaithfulDrop(rest, out[..n - 2], cuts);
        FaithfulStripped(DropReturns(rest), DropReturns(out[..n - 2]), cuts);
      }
    }
  }

  /** The output when nothing is flushed in between: a CR in front of every LF that has none. */
  function Canonical(text: Text): Text {
    if text == [] then []
    else
      var out, c := Canonical(text[..|text| - 1]), text[|text| - 1];
      if c == LF && (out == [] || out[|out| - 1] != CR) then out + [CR, LF] else out + [c]
  }

  /** One character more: an LF that does not follow a CR gets one. */
  lemma CanonicalPush(text: Text, c: Char16)
    ensures Canonical([]) == []
    ensures Canonical(text + [c])
         == Canonical(text) + if c == 10 && (text == [] || text[|text| - 1] != 13) then [13, 10] else [c]
  {
    hide Canonical;
    NothingCanonical();
    assert (text + [c])[..|text|] == text;
    CanonicalStep(text + [c]);
    CanonicalIsFaithful(text, {});
    SameEnd(text, Canonical(text), {});
  }

  lemma NothingCanonical()
    ensures Canonical([]) == []
  {
  }

  /** In the canonical output every LF follows a CR. */
  lemma {:induction false} CanonicalLines(text: Text)
    ensures forall i :: 0 <= i < |Canonical(text)| && Canonical(text)[i] == 10 ==> i > 0 && Canonical(text)[i - 1] == 13
    decreases |text|
  {
    hide Canonical;
    if text == [] {
      NothingCanonical();
    } else {
      CanonicalLines(text[..|text| - 1]);
      CanonicalStep(text);
    }
  }

  /** A text goes out unchanged exactly when every LF in it already follows a CR. */
  lemma {:induction false} CanonicalSameIff(text: Text)
    ensures Canonical(text) == text <==> forall i :: 0 <= i < |text| && text[i] == 10 ==> i > 0 && text[i - 1] == 13
    ensures |Canonical(text)| >= |text|
    decreases |text|
  {
    hide Canonical;
    if text == [] {
      NothingCanonical();
    } else {
      var rest, c := text[..|text| - 1], text[|text| - 1];
      assert text == rest + [c];
      CanonicalSameIff(rest);
      CanonicalPush(rest, c);
      if forall i :: 0 <= i < |text| && text[i] == 10 ==> i > 0 && text[i - 1] == 13 {
        assert forall i :: 0 <= i < |rest| ==> rest[i] == text[i];
      }
      if Canonical(text) == text {
        CanonicalLines(text);
      }
    }
  }

  /** Whatever the flushes, a bare LF comes only right after one. */
  lemma {:induction false} FaithfulLines(text: Text, out: Text, cuts: set<nat>)
    requires Faithful(text, out, cuts)
    ensures forall i :: 0 <= i < |out| && out[i] == 10 && i !in cuts ==> i > 0 && out[i - 1] == 13
    decreases |text|
  {
    hide Faithful;
    if text == [] {
      NoText(out, cuts);
    } else {
      var rest, n := text[..|text| - 1], |out|;
      FaithfulStep(text, out, cuts);
      if n > 0 && Faithful(rest, out[..n - 1], cuts) {
        FaithfulLines(rest, out[..n - 1], cuts);
      }
      if n > 1 && Faithful(rest, out[..n - 2], cuts) {
        FaithfulLines(rest, out[..n - 2], cuts);
      }
    }
  }

  // ----- when the output is determined

  /** No LF comes right after a flush of the canonical output. */
  predicate Clear(text: Text, cuts: set<nat>) {
    forall i :: 0 <= i < |text| && text[i] == LF && Canonical(text[..i]) != [] ==> |Canonical(text[..i])| !in cuts
  }

  lemma ClearStep(text: Text, cuts: set<nat>)
    requires text != []
    ensures var rest := text[..|text| - 1];
            Clear(text, cuts) <==>
            Clear(rest, cuts)
            && (text[|text| - 1] == LF && Canonical(rest) != [] ==> |Canonical(rest)| !in cuts)
  {
    hide Canonical;
    var rest := text[..|text| - 1];
    assert forall i :: 0 <= i < |rest| ==> rest[..i] == text[..i] && rest[i] == text[i];
  }

  lemma CanonicalStep(text: Text)
    requires text != []
    ensures var out, c := Canonical(text[..|text| - 1]), text[|text| - 1];
            Canonical(text) == if c == LF && (out == [] || out[|out| - 1] != CR) then out + [CR, LF] else out + [c]
  {
  }

  /** What one more character may make of a faithful output. */
  lemma FaithfulStep(text: Text, out: Text, cuts: set<nat>)
    requires text != [] && Faithful(text, out, cuts)
    ensures var rest, c, n := text[..|text| - 1], text[|text| - 1], |out|;
            || (n > 0 && out == out[..n - 1] + [c] && Faithful(rest, out[..n - 1], cuts)
                && (c == LF ==> MayOmit(out[..n - 1], cuts)))
            || (n > 1 && c == LF && out == out[..n - 2] + [CR, LF] && Faithful(rest, out[..n - 2], cuts)
                && MayInsert(out[..n - 2], cuts))
  {
  }

  lemma NoText(out: Text, cuts: set<nat>)
    requires Faithful([], out, cuts)
    ensures out == [] == Canonical([])
  {
  }

  /** With no LF right after a flush a CR goes in front of exactly the LFs that have none. */
  lemma {:induction false} ClearIsCanonical(text: Text, out: Text, cuts: set<nat>)
    requires Faithful(text, out, cuts) && Clear(text, cuts)
    ensures out == Canonical(text)
    decreases |text|
  {
    hide Faithful, Clear, Canonical;
    if text == [] {
      NoText(out, cuts);
    } else {
      var rest, n := text[..|text| - 1], |out|;
      FaithfulStep(text, out, cuts);
      ClearStep(text, cuts);
      CanonicalStep(text);
      if n > 0 && Faithful(rest, out[..n - 1], cuts) {
        ClearIsCanonical(rest, out[..n - 1], cuts);
      }
      if n > 1 && Faithful(rest, out[..n - 2], cuts) {
        ClearIsCanonical(rest, out[..n - 2], cuts);
      }
    }
  }

  lemma {:induction false} CanonicalIsFaithful(text: Text, cuts: set<nat>)
    ensures Faithful(text, Canonical(text), cuts)
    decreases |text|
  {
    if text != [] {
      var rest, c := text[..|text| - 1], text[|text| - 1];
      CanonicalIsFaithful(rest, cuts);
      assert text == rest + [c];
      Dress(rest, Canonical(rest), cuts, c);
    }
  }

  /** The usual rule for one more character: it keeps an output faithful. */
  lemma Dress(text: Text, out: Text, cuts: set<nat>, c: Char16)
    requires Faithful(text, out, cuts)
    ensures var more := if c == LF && (out == [] || out[|out| - 1] != CR) then out + [CR, LF] else out + [c];
            Faithful(text + [c], more, cuts)
  {
    hide Faithful;
    if c != LF {
      FaithfulPlain(text, out, cuts, c);
    } else if out == [] || out[|out| - 1] != CR {
      FaithfulReturn(text, out, cuts);
    } else {
      FaithfulBare(text, out, cuts);
    }
  }

  /** Text and output end in the same character. */
  lemma SameEnd(text: Text, out: Text, cuts: set<nat>)
    requires Faithful(text, out, cuts)
    ensures if text == [] then out == [] else out != [] && out[|out| - 1] == text[|text| - 1]
  {
  }

  /** An LF right after a flush can go out either way, and so can the whole text. */
  lemma {:induction false} OtherOutput(text: Text, cuts: set<nat>) returns (out: Text)
    requires !Clear(text, cuts)
    ensures Faithful(text, out, cuts) && out != Canonical(text)
    decreases |text|
  {
    hide Faithful, Clear, Canonical;
    NothingUnclear(cuts);
    var rest, c := text[..|text| - 1], text[|text| - 1];
    assert text == rest + [c];
    ClearStep(text, cuts);
    CanonicalStep(text);
    CanonicalIsFaithful(rest, cuts);
    var canonical := Canonical(rest);
    if Clear(rest, cuts) {
      if canonical[|canonical| - 1] == CR {
        FaithfulReturn(rest, canonical, cuts);
        out := canonical + [CR, LF];
      } else {
        FaithfulBare(rest, canonical, cuts);
        out := canonical + [LF];
      }
      assert |out| != |Canonical(text)|;
    } else {
      var before := OtherOutput(rest, cuts);
      Dress(rest, before, cuts, c);
      SameEnd(rest, before, cuts);
      SameEnd(rest, canonical, cuts);
      out := if c == LF && (before == [] || before[|before| - 1] != CR) then before + [CR, LF] else before + [c];
      var m := |out| - |before|;
      assert before == out[..|out| - m];
      assert out == Canonical(text) ==> before == canonical;
    }
  }

  lemma NothingUnclear(cuts: set<nat>)
    ensures Clear([], cuts)
  {
  }

  /** The flushes leave one output, the canonical one, if and only if no LF comes right after one. */
  lemma DeterminedIff(text: Text, cuts: set<nat>)
    ensures Clear(text, cuts) <==> forall out :: Faithful(text, out, cuts) ==> out == Canonical(text)
  {
    hide Faithful, Clear, Canonical;
    if Clear(text, cuts) {
      forall out | Faithful(text, out, cuts)
        ensures out == Canonical(text)
      {
        ClearIsCanonical(text, out, cuts);
      }
    } else {
      var out := OtherOutput(text, cuts);
    }
  }
}
