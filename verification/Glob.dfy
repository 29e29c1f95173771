/** `MetaMatch` of `lib/str.c`: backtracking match of a string against a pattern with `*`, `?`
    and `[...]`, tied to what a pattern denotes. */
module Glob {
  import opened Chars

  const STAR: Char16 := 42
  const DASH: Char16 := 45
  const QUESTION: Char16 := 63
  const OPEN: Char16 := 91
  const CLOSE: Char16 := 93

  datatype Token = AnyRun | AnyOne | OneOf(body: Text) | Exactly(c: Char16)

  // ----- reading a pattern

  /** The index of the first `]` at or after the start, or the length when there is none. */
  function CloseAt(p: Text): (k: nat)
    ensures k <= |p| && CLOSE !in p[..k]
    ensures k < |p| ==> p[k] == CLOSE
  {
    if p == [] || p[0] == CLOSE then 0
    else
      var k := 1 + CloseAt(p[1..]);
      assert p[..k] == [p[0]] + p[1..][..k - 1];
      k
  }

  /** Every `[` that starts a set has its `]`. */
  predicate Closed(p: Text)
    decreases |p|
  {
    if p == [] then true
    else if p[0] == OPEN then CloseAt(p[1..]) < |p[1..]| && Closed(p[1..][CloseAt(p[1..]) + 1..])
    else Closed(p[1..])
  }

  function Tokens(p: Text): seq<Token>
    requires Closed(p)
    decreases |p|
  {
    if p == [] then []
    else if p[0] == OPEN then
      var k := CloseAt(p[1..]);
      [OneOf(p[1..][..k])] + Tokens(p[1..][k + 1..])
    else
      [PlainToken(p[0])] + Tokens(p[1..])
  }

  function PlainToken(c: Char16): Token {
    if c == STAR then AnyRun else if c == QUESTION then AnyOne else Exactly(c)
  }

  // ----- what a pattern denotes

  /** Position `i` of a set admits `c`: a plain character admits itself; `-` admits the range from
      the character before it (or from the lowest) to the one after it, and that one itself. */
  predicate Admits(body: Text, i: nat, c: Char16)
    requires i < |body|
  {
    if body[i] != DASH then c == body[i]
    else i + 1 < |body| && ((if i == 0 then NUL else body[i - 1]) <= c <= body[i + 1] || c == body[i + 1])
  }

  ghost predicate InSet(body: Text, c: Char16) {
    exists i :: 0 <= i < |body| && Admits(body, i, c)
  }

  ghost predicate TokenMatches(t: Token, piece: Text) {
    match t
    case AnyRun => true
    case AnyOne => |piece| == 1
    case OneOf(body) => |piece| == 1 && InSet(body, piece[0])
    case Exactly(c) => piece == [c]
  }

  ghost predicate Explains(pieces: seq<Text>, s: Text, tokens: seq<Token>) {
    && |pieces| == |tokens|
    && Concat(pieces) == s
    && forall i :: 0 <= i < |tokens| ==> TokenMatches(tokens[i], pieces[i])
  }

  /** The string is cut into one piece for each token. */
  ghost predicate Denotes(s: Text, tokens: seq<Token>) {
    exists pieces :: Explains(pieces, s, tokens)
  }

  ghost predicate Matches(s: Text, p: Text)
    requires Closed(p)
  {
    Denotes(s, Tokens(p))
  }

  // ----- first token, rest of the string

  lemma DenotesNone(s: Text)
    ensures Denotes(s, []) <==> s == []
  {
    assert s == [] ==> Explains([], s, []);
  }

  lemma DenotesCons(s: Text, t: Token, rest: seq<Token>, k: nat)
    requires k <= |s| && TokenMatches(t, s[..k]) && Denotes(s[k..], rest)
    ensures Denotes(s, [t] + rest)
  {
    var pieces :| Explains(pieces, s[k..], rest);
    var all: seq<Text> := [s[..k]] + pieces;
    assert all[1..] == pieces && s[..k] + s[k..] == s;
    assert Explains(all, s, [t] + rest);
  }

  lemma DenotesUncons(s: Text, t: Token, rest: seq<Token>) returns (k: nat)
    requires Denotes(s, [t] + rest)
    ensures k <= |s| && TokenMatches(t, s[..k]) && Denotes(s[k..], rest)
  {
    var pieces :| Explains(pieces, s, [t] + rest);
    k := |pieces[0]|;
    assert s[..k] == pieces[0] && s[k..] == Concat(pieces[1..]);
    assert TokenMatches(([t] + rest)[0], pieces[0]);
    assert forall i :: 0 <= i < |rest| ==> rest[i] == ([t] + rest)[i + 1];
    assert Explains(pieces[1..], s[k..], rest);
  }

  /** A token that takes exactly one character. */
  lemma DenotesOne(s: Text, t: Token, rest: seq<Token>)
    requires !t.AnyRun?
    ensures Denotes(s, [t] + rest) <==> s != [] && TokenMatches(t, s[..1]) && Denotes(s[1..], rest)
  {
    if Denotes(s, [t] + rest) {
      var k := DenotesUncons(s, t, rest);
      assert k == 1;
    }
    if s != [] && TokenMatches(t, s[..1]) && Denotes(s[1..], rest) {
      DenotesCons(s, t, rest, 1);
    }
  }

  lemma DenotesRun(s: Text, rest: seq<Token>)
    ensures Denotes(s, [AnyRun] + rest) <==> exists k :: 0 <= k <= |s| && Denotes(s[k..], rest)
  {
    if Denotes(s, [AnyRun] + rest) {
      var k := DenotesUncons(s, AnyRun, rest);
    }
    if k :| 0 <= k <= |s| && Denotes(s[k..], rest) {
      DenotesCons(s, AnyRun, rest, k);
    }
  }

  // ----- the matcher

  lemma MatchesNothing(s: Text)
    ensures Matches(s, []) <==> s == []
  {
    DenotesNone(s);
  }

  lemma MatchesPlain(s: Text, p: Text)
    requires Closed(p) && p != [] && p[0] != OPEN && p[0] != STAR
    ensures Closed(p[1..])
    ensures Matches(s, p) <==>
            s != [] && (p[0] == QUESTION || s[0] == p[0]) && Matches(s[1..], p[1..])
  {
    hide Denotes;
    DenotesOne(s, PlainToken(p[0]), Tokens(p[1..]));
  }

  lemma MatchesRun(s: Text, p: Text)
    requires Closed(p) && p != [] && p[0] == STAR
    ensures Closed(p[1..])
    ensures Matches(s, p) <==> exists k :: 0 <= k <= |s| && Matches(s[k..], p[1..])
  {
    hide Denotes;
    DenotesRun(s, Tokens(p[1..]));
  }

  lemma MatchesSet(s: Text, p: Text)
    requires Closed(p) && p != [] && p[0] == OPEN
    ensures var k := CloseAt(p[1..]);
            && k < |p[1..]| && Closed(p[k + 2..])
            && (Matches(s, p) <==> s != [] && InSet(p[1..][..k], s[0]) && Matches(s[1..], p[k + 2..]))
  {
    SetToken(p);
    hide Denotes, InSet, Closed, Tokens, CloseAt;
    var k := CloseAt(p[1..]);
    DenotesOne(s, OneOf(p[1..][..k]), Tokens(p[k + 2..]));
  }

  lemma SetToken(p: Text)
    requires Closed(p) && p != [] && p[0] == OPEN
    ensures var k := CloseAt(p[1..]);
            && k < |p[1..]| && Closed(p[k + 2..]) && Tokens(p) == [OneOf(p[1..][..k])] + Tokens(p[k + 2..])
  {
    hide CloseAt;
    var k := CloseAt(p[1..]);
    assert p[1..][k + 1..] == p[k + 2..];
  }

  /** `MetaMatch`: TRUE exactly when the pattern denotes the string. */
  method MetaMatch(str: Text, pattern: Text) returns (matched: bool)
    requires IsString(str) && IsString(pattern) && Closed(pattern)
    ensures matched <==> Matches(str, pattern)
    decreases |pattern|, 0
  {
    hide Matches, Closed, CloseAt, InSet;
    var s, i := 0, 0;
    assert str[0..] == str && pattern[0..] == pattern;
    while true
      invariant 0 <= s <= |str| && 0 <= i <= |pattern|
      invariant Closed(pattern[i..])
      invariant Matches(str, pattern) <==> Matches(str[s..], pattern[i..])
      decreases |pattern| - i
    {
      ghost var st, pat := str[s..], pattern[i..];
      var p := At(pattern, i);
      if p == NUL {
        assert pat == [];
        MatchesNothing(st);
        return At(str, s) == NUL;
      }
      i := i + 1;
      assert pat[1..] == pattern[i..];
      if p == STAR {
        MatchesRun(st, pat);
        matched := MatchRun(str, s, pattern, i);
        return;
      } else if p == QUESTION {
        MatchesPlain(st, pat);
        if At(str, s) == NUL {
          return false;
        }
      } else if p == OPEN {
        MatchesSet(st, pat);
        var c := At(str, s);
        if c == NUL {
          return false;
        }
        assert pat[CloseAt(pattern[i..]) + 2..] == pattern[i + CloseAt(pattern[i..]) + 1..];
        var inSet;
        inSet, i := MatchSet(pattern, i, c);
        if !inSet {
          return false;
        }
      } else {
        MatchesPlain(st, pat);
        if At(str, s) != p {
          return false;
        }
      }
      assert st[1..] == str[s + 1..];
      s := s + 1;
    }
  }

  /** The `*` case: try the rest of the pattern at every position of the string. */
  method MatchRun(str: Text, start: nat, pattern: Text, i: nat) returns (matched: bool)
    requires IsString(str) && IsString(pattern)
    requires start <= |str| && i <= |pattern| && Closed(pattern[i..])
    ensures matched <==> exists k :: 0 <= k <= |str[start..]| && Matches(str[start..][k..], pattern[i..])
    decreases |pattern| - i, 1
  {
    hide Matches, Closed;
    var s := start;
    while At(str, s) != NUL
      invariant start <= s <= |str|
      invariant forall k :: 0 <= k < s - start ==> !Matches(str[start..][k..], pattern[i..])
      decreases |str| - s
    {
      assert str[start..][s - start..] == str[s..];
      var here := MetaMatch(str[s..], pattern[i..]);
      if here {
        return true;
      }
      s := s + 1;
    }
    assert str[start..][s - start..] == str[s..];
    matched := MetaMatch(str[s..], pattern[i..]);
  }

  /** The `[` case, `i` just past the bracket: whether `c` is in the set, and the index after `]`. */
  method MatchSet(pattern: Text, i: nat, c: Char16) returns (found: bool, next: nat)
    requires IsString(pattern) && c != NUL
    requires i <= |pattern| && CloseAt(pattern[i..]) < |pattern[i..]|
    ensures found <==> InSet(pattern[i..][..CloseAt(pattern[i..])], c)
    ensures found ==> next == i + CloseAt(pattern[i..]) + 1
  {
    ghost var k := CloseAt(pattern[i..]);
    ghost var body := pattern[i..][..k];
    var l, p := NUL, NUL;
    next := i;
    while true
      invariant i <= next <= i + k
      invariant forall j :: 0 <= j < next - i ==> !Admits(body, j, c)
      invariant next - i > 0 && body[next - i - 1] == DASH ==> next < i + k && l == body[next - i]
      invariant next - i > 0 && body[next - i - 1] != DASH ==> l == body[next - i - 1]
      invariant next == i ==> l == NUL
      decreases i + k - next
    {
      p := At(pattern, next);
      next := next + 1;
      if p == NUL {
        break;
      }
      if p == CLOSE {
        return false, next;
      }
      if p == DASH {
        p := At(pattern, next);
        if p == NUL || p == CLOSE {
          return false, next;
        }
        if l <= c <= p {
          assert Admits(body, next - 1 - i, c);
          break;
        }
      }
      l := p;
      if c == p {
        assert Admits(body, next - 1 - i, c);
        break;
      }
    }
    while p != NUL && p != CLOSE
      invariant next <= i + k + 1 && p != NUL
      invariant p == CLOSE ==> next == i + k + 1
      invariant p != CLOSE ==> next <= i + k
      decreases i + k + 1 - next
    {
      p := At(pattern, next);
      next := next + 1;
    }
    found := true;
  }

  // ----- patterns compose

  lemma DenotesSplit(s: Text, a: seq<Token>, b: seq<Token>) returns (k: nat)
    requires Denotes(s, a + b)
    ensures k <= |s| && Denotes(s[..k], a) && Denotes(s[k..], b)
  {
    var pieces :| Explains(pieces, s, a + b);
    var left, right := pieces[..|a|], pieces[|a|..];
    assert pieces == left + right;
    ConcatSplit(left, right);
    k := |Concat(left)|;
    assert s[..k] == Concat(left) && s[k..] == Concat(right);
    assert forall i :: 0 <= i < |a| ==> a[i] == (a + b)[i];
    assert forall i :: 0 <= i < |b| ==> b[i] == (a + b)[|a| + i];
    assert Explains(left, s[..k], a) && Explains(right, s[k..], b);
  }

  lemma DenotesJoin(s: Text, t: Text, a: seq<Token>, b: seq<Token>)
    requires Denotes(s, a) && Denotes(t, b)
    ensures Denotes(s + t, a + b)
  {
    var left :| Explains(left, s, a);
    var right :| Explains(right, t, b);
    ConcatSplit(left, right);
    assert Explains(left + right, s + t, a + b);
  }

  lemma {:induction false} CloseAtBody(body: Text, rest: Text)
    requires CLOSE !in body
    ensures CloseAt(body + [CLOSE] + rest) == |body|
    decreases |body|
  {
    if body != [] {
      assert (body + [CLOSE] + rest)[1..] == body[1..] + [CLOSE] + rest;
      CloseAtBody(body[1..], rest);
    }
  }

  function Bracketed(body: Text): Text {
    [OPEN] + body + [CLOSE]
  }

  lemma TokensOfSet(body: Text, rest: Text)
    requires CLOSE !in body && Closed(rest)
    ensures Closed(Bracketed(body) + rest)
    ensures Tokens(Bracketed(body) + rest) == [OneOf(body)] + Tokens(rest)
  {
    var p := Bracketed(body) + rest;
    assert p[1..] == body + [CLOSE] + rest;
    CloseAtBody(body, rest);
    assert p[1..][..|body|] == body && p[1..][|body| + 1..] == rest;
  }

  lemma TokensOfPlain(c: Char16, rest: Text)
    requires c != OPEN && Closed(rest)
    ensures Closed([c] + rest) && Tokens([c] + rest) == [PlainToken(c)] + Tokens(rest)
  {
    assert ([c] + rest)[1..] == rest;
  }

  /** In front of any closed pattern, `head` reads as the token `t`. */
  ghost predicate ReadsAs(head: Text, t: Token) {
    forall q: Text :: Closed(q) ==> Closed(head + q) && Tokens(head + q) == [t] + Tokens(q)
  }

  lemma SetReadsAs(body: Text)
    requires CLOSE !in body
    ensures ReadsAs(Bracketed(body), OneOf(body))
  {
    hide Closed, Tokens, Bracketed;
    forall q: Text | Closed(q)
      ensures Closed(Bracketed(body) + q) && Tokens(Bracketed(body) + q) == [OneOf(body)] + Tokens(q)
    {
      TokensOfSet(body, q);
    }
  }

  lemma PlainReadsAs(c: Char16)
    requires c != OPEN
    ensures ReadsAs([c], PlainToken(c))
  {
    hide Closed, Tokens;
    forall q: Text | Closed(q)
      ensures Closed([c] + q) && Tokens([c] + q) == [PlainToken(c)] + Tokens(q)
    {
      TokensOfPlain(c, q);
    }
  }

  lemma FirstToken(p: Text) returns (head: Text, t: Token, rest: Text)
    requires Closed(p) && p != []
    ensures p == head + rest && |rest| < |p| && Closed(rest) && ReadsAs(head, t)
  {
    hide ReadsAs, Tokens;
    if p[0] == OPEN {
      var k := CloseAt(p[1..]);
      var body := p[1..][..k];
      head, t, rest := Bracketed(body), OneOf(body), p[1..][k + 1..];
      SetReadsAs(body);
    } else {
      head, t, rest := [p[0]], PlainToken(p[0]), p[1..];
      PlainReadsAs(p[0]);
    }
  }

  lemma ReadHead(head: Text, t: Token, q: Text)
    requires ReadsAs(head, t) && Closed(q)
    ensures Closed(head + q) && Tokens(head + q) == [t] + Tokens(q)
  {
  }

  lemma NoTokens()
    ensures Closed([]) && Tokens([]) == []
  {
  }

  lemma {:induction false} TokensAppend(p: Text, q: Text)
    requires Closed(p) && Closed(q)
    ensures Closed(p + q) && Tokens(p + q) == Tokens(p) + Tokens(q)
    decreases |p|
  {
    hide ReadsAs, Closed, Tokens;
    if p == [] {
      NoTokens();
      assert p + q == q;
    } else {
      var head, t, rest := FirstToken(p);
      TokensAppend(rest, q);
      ReadHead(head, t, rest);
      ReadHead(head, t, rest + q);
      assert p + q == head + (rest + q);
    }
  }

  /** A pattern made of two closed patterns matches exactly the strings that can be cut in two. */
  lemma MatchesCompose(s: Text, p: Text, q: Text)
    requires Closed(p) && Closed(q)
    ensures Closed(p + q)
    ensures Matches(s, p + q) <==> exists k :: 0 <= k <= |s| && Matches(s[..k], p) && Matches(s[k..], q)
  {
    hide Denotes, Tokens, Closed;
    TokensAppend(p, q);
    if Matches(s, p + q) {
      var k := DenotesSplit(s, Tokens(p), Tokens(q));
    }
    if k :| 0 <= k <= |s| && Matches(s[..k], p) && Matches(s[k..], q) {
      DenotesJoin(s[..k], s[k..], Tokens(p), Tokens(q));
      assert s[..k] + s[k..] == s;
    }
  }

  // ----- what each kind of pattern matches, by its characters

  lemma NothingMatches(s: Text)
    ensures Closed([]) && (Matches(s, []) <==> s == [])
  {
    MatchesNothing(s);
  }

  /** `*` matches every string. */
  lemma StarMatches(s: Text)
    ensures Closed([42]) && Matches(s, [42])
  {
    var p: Text, none: Text := [42], [];
    assert p[1..] == none;
    MatchesRun(s, p);
    MatchesNothing(s[|s|..]);
  }

  /** `?` matches exactly the strings of one character, any other character outside sets just itself. */
  lemma CharacterMatches(s: Text, c: Char16)
    requires c != 42 && c != 91
    ensures Closed([c]) && (Matches(s, [c]) <==> if c == 63 then |s| == 1 else s == [c])
  {
    var p: Text, none: Text := [c], [];
    assert p[1..] == none && Closed(none) && Closed(p);
    MatchesPlain(s, p);
    if s != [] {
      MatchesNothing(s[1..]);
      assert s == [s[0]] + s[1..];
    }
  }

  lemma BracketedParts(body: Text)
    ensures [91] + body + [93] == Bracketed(body) + []
  {
  }

  /** A set matches single characters only. */
  lemma SetMatches(s: Text, body: Text)
    requires CLOSE !in body
    ensures Closed([91] + body + [93])
    ensures Matches(s, [91] + body + [93]) <==> |s| == 1 && InSet(body, s[0])
  {
    hide Matches, InSet, Closed, Tokens, CloseAt, Bracketed;
    NoTokens();
    BracketedParts(body);
    var p: Text, none: Text := [91] + body + [93], [];
    TokensOfSet(body, none);
    CloseAtBody(body, none);
    assert p[1..] == body + [CLOSE] + none && p[1..][..|body|] == body && p[|body| + 2..] == none;
    MatchesSet(s, p);
    if s != [] {
      MatchesNothing(s[1..]);
    }
  }

  /** A set without `-` matches the characters it lists. */
  lemma ListMatches(s: Text, body: Text)
    requires 45 !in body && 93 !in body
    ensures Closed([91] + body + [93])
    ensures Matches(s, [91] + body + [93]) <==> |s| == 1 && s[0] in body
  {
    SetMatches(s, body);
    if |s| == 1 && s[0] in body {
      var i :| 0 <= i < |body| && body[i] == s[0];
      assert Admits(body, i, s[0]);
    }
  }

  /** A range matches what lies between its ends, and the ends, also when they are the wrong way round. */
  lemma RangeMatches(s: Text, lo: Char16, hi: Char16)
    requires lo != 45 && lo != 93 && hi != 45 && hi != 93
    ensures Closed([91, lo, 45, hi, 93])
    ensures Matches(s, [91, lo, 45, hi, 93]) <==> |s| == 1 && (s[0] == lo || lo <= s[0] <= hi || s[0] == hi)
  {
    var body: Text := [lo, 45, hi];
    assert [91, lo, 45, hi, 93] == [91] + body + [93];
    SetMatches(s, body);
    if |s| == 1 {
      assert Admits(body, 0, s[0]) <==> s[0] == lo;
      assert Admits(body, 1, s[0]) <==> lo <= s[0] <= hi || s[0] == hi;
    }
  }

  /** A `-` in front means a range from the lowest character; one at the end means nothing. */
  lemma OpenRangeMatches(s: Text, c: Char16)
    requires c != 45 && c != 93
    ensures Closed([91, 45, c, 93]) && Closed([91, c, 45, 93]) && Closed([91, 45, 93])
    ensures Matches(s, [91, 45, c, 93]) <==> |s| == 1 && s[0] <= c
    ensures Matches(s, [91, c, 45, 93]) <==> s == [c]
    ensures !Matches(s, [91, 45, 93])
  {
    var front: Text, back: Text, dash: Text := [45, c], [c, 45], [45];
    assert [91, 45, c, 93] == [91] + front + [93];
    assert [91, c, 45, 93] == [91] + back + [93];
    assert [91, 45, 93] == [91] + dash + [93];
    SetMatches(s, front);
    SetMatches(s, back);
    SetMatches(s, dash);
    if |s| == 1 {
      assert Admits(front, 0, s[0]) <==> s[0] <= c;
      assert Admits(back, 0, s[0]) <==> s[0] == c;
    }
  }

  /** A set can be cut at any of its characters but `-`, which then belongs to both parts: lists, ranges that
      share an end, and ranges behind each other add up. */
  lemma SetCut(s: Text, x: Text, m: Char16, y: Text)
    requires m != 45 && m != 93 && 93 !in x && 93 !in y
    ensures Closed([91] + (x + [m] + y) + [93])
    ensures Closed([91] + (x + [m]) + [93]) && Closed([91] + ([m] + y) + [93])
    ensures Matches(s, [91] + (x + [m] + y) + [93]) <==>
            Matches(s, [91] + (x + [m]) + [93]) || Matches(s, [91] + ([m] + y) + [93])
  {
    hide Matches, Closed;
    var all, left, right := x + [m] + y, x + [m], [m] + y;
    SetMatches(s, all);
    SetMatches(s, left);
    SetMatches(s, right);
    if |s| == 1 {
      InSetCut(x, m, y, s[0]);
    }
  }

  lemma InSetCut(x: Text, m: Char16, y: Text, c: Char16)
    requires m != DASH
    ensures InSet(x + [m] + y, c) <==> InSet(x + [m], c) || InSet([m] + y, c)
  {
    var all, left, right, n := x + [m] + y, x + [m], [m] + y, |x|;
    forall i | 0 <= i < |left|
      ensures Admits(all, i, c) <==> Admits(left, i, c)
    {
    }
    forall i | 0 <= i < |right|
      ensures Admits(all, n + i, c) <==> Admits(right, i, c)
    {
    }
    if InSet(all, c) {
      var i :| 0 <= i < |all| && Admits(all, i, c);
      assert if i <= n then Admits(left, i, c) else Admits(right, i - n, c);
    }
    if i :| 0 <= i < |left| && Admits(left, i, c) {
      assert Admits(all, i, c);
    }
    if i :| 0 <= i < |right| && Admits(right, i, c) {
      assert Admits(all, n + i, c);
    }
  }

  /** Two and more `-` in a row are the ends of their ranges themselves. */
  lemma DashesMatch(s: Text, front: Text, k: nat, back: Text)
    requires k > 1 && |front| <= 1 && |back| <= 1 && 45 !in front && 93 !in front && 45 !in back && 93 !in back
    ensures var p := [91] + (front + seq(k, _ => 45) + back) + [93];
            && Closed(p)
            && (Matches(s, p) <==>
                && |s| == 1
                && (|| s[0] in front || s[0] in back || s[0] == 45
                    || ((front == [] || front[0] <= s[0]) && s[0] <= 45)
                    || (back != [] && 45 <= s[0] <= back[0])))
  {
    hide Matches, Closed;
    var body: Text, n := front + seq(k, _ => 45) + back, |front|;
    assert forall i :: 0 <= i < |body| ==>
      body[i] == if i < n then front[i] else if i < n + k then 45 else back[i - n - k];
    SetMatches(s, body);
    if |s| == 1 {
      var c := s[0];
      assert n == 1 ==> (Admits(body, 0, c) <==> c in front);
      assert Admits(body, n, c) <==> ((front == [] || front[0] <= c) && c <= 45) || c == 45;
      assert back != [] ==> (Admits(body, n + k - 1, c) <==> 45 <= c <= back[0] || c in back);
      assert back != [] ==> (Admits(body, n + k, c) <==> c in back);
    }
  }
}
