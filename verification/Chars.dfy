/** The 16-bit characters and NUL-terminated strings the library works on. */
module Chars {
  type Char16 = c: int | 0 <= c < 0x1_0000

  type Text = seq<Char16>

  const NUL: Char16 := 0
  const LF: Char16 := 10
  const CR: Char16 := 13
  const SPACE: Char16 := 32

  /** The characters of a NUL-terminated string, the terminator not included. */
  predicate IsString(s: Text) {
    NUL !in s
  }

  /** Reading through a pointer into a string: the terminator follows the last character. */
  function At(s: Text, i: nat): Char16
    requires i <= |s|
  {
    if i < |s| then s[i] else NUL
  }

  function Concat(pieces: seq<Text>): Text {
    if pieces == [] then [] else pieces[0] + Concat(pieces[1..])
  }

  lemma {:induction false} ConcatSplit(a: seq<Text>, b: seq<Text>)
    ensures Concat(a + b) == Concat(a) + Concat(b)
    decreases |a|
  {
    if a == [] {
      assert a + b == b;
    } else {
      assert (a + b)[1..] == a[1..] + b;
      ConcatSplit(a[1..], b);
    }
  }

  lemma ConcatPush(a: seq<Text>, last: Text)
    ensures Concat(a + [last]) == Concat(a) + last
  {
    ConcatSplit(a, [last]);
    assert Concat([last]) == last + Concat([last][1..]) == last;
  }
}
