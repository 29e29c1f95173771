/** Where printed text ends up: the `POOL_PRINT` record of `inc/efilib.h` and the two ways `lib/print.c`
    appends a chunk to it, cut off at a fixed size (`_SPrint`) or in a pool that grows (`_PoolPrint`). */
module Pool {
  import opened Chars

  const PRINT_STRING_LEN := 200
  const PRINT_ITEM_BUFFER_LEN := 100

  function Min(a: nat, b: nat): nat {
    if a < b then a else b
  }

  /** The string in an array has `n` characters. */
  ghost predicate HoldsString(s: Text, n: nat) {
    n < |s| && s[n] == NUL && IsString(s[..n])
  }

  method StrLen(s: array<Char16>, ghost n: nat) returns (len: nat)
    requires HoldsString(s[..], n)
    ensures len == n
  {
    len := 0;
    while s[len] != NUL
      invariant len <= n
      decreases n - len
    {
      assert s[..][len] == s[len];
      len := len + 1;
    }
  }

  /** The firmware's pool: room for `size` characters, or nothing when the firmware refuses. */
  method AllocatePool(size: nat, refused: bool) returns (p: array?<Char16>)
    ensures p == null <==> refused
    ensures p != null ==> fresh(p) && p.Length == size
  {
    if refused {
      p := null;
    } else {
      p := new Char16[size];
    }
  }

  /** A new pool with the first characters of the old one, as many as it has room for and are asked for. */
  method ReallocatePool(oldSize: nat, newSize: nat, oldPool: array?<Char16>, refused: bool)
    returns (p: array?<Char16>)
    requires oldPool != null ==> oldSize <= oldPool.Length
    requires oldPool == null ==> oldSize == 0
    ensures p == null <==> refused || newSize == 0
    ensures p != null ==> fresh(p) && p.Length == newSize
    ensures p != null && oldPool != null ==> p[..Min(oldSize, newSize)] == oldPool[..Min(oldSize, newSize)]
  {
    p := null;
    if newSize != 0 {
      p := AllocatePool(newSize, refused);
    }
    if oldPool != null && p != null {
      forall i | 0 <= i < Min(oldSize, newSize) {
        p[i] := oldPool[i];
      }
    }
  }

  /** An array `now` that held `initial` has the front of what was sent as its text: only that and the place
      of the terminator behind it may have changed. */
  ghost predicate Front(now: Text, len: nat, maxlen: nat, sent: Text, initial: Text) {
    && len == Min(|sent|, maxlen) && len < |now| == |initial|
    && now[..len] == sent[..len] && now[len + 1..] == initial[len + 1..]
  }

  /** `now` is `before` with `chunk` and a terminator from `l0` on, as far as up to `l1`. */
  ghost predicate Took(now: Text, before: Text, l0: nat, l1: nat, chunk: Text) {
    && l0 <= l1 < |now| == |before| && l1 - l0 <= |chunk|
    && now[..l1] == before[..l0] + chunk[..l1 - l0]
    && now[l1] == NUL && now[l1 + 1..] == before[l1 + 1..]
  }

  lemma TookAll(now: Text, before: Text, l0: nat, l1: nat, chunk: Text)
    requires l0 <= l1 < |now| == |before| && l1 - l0 <= |chunk|
    requires forall i :: 0 <= i < l0 ==> now[i] == before[i]
    requires forall i :: l0 <= i < l1 ==> now[i] == chunk[i - l0]
    requires now[l1] == NUL
    requires forall i :: l1 < i < |now| ==> now[i] == before[i]
    ensures Took(now, before, l0, l1, chunk)
  {
    assert now[..l1] == before[..l0] + chunk[..l1 - l0];
  }

  lemma FrontKept(now: Text, before: Text, l0: nat, l1: nat, chunk: Text, maxlen: nat, sent: Text, initial: Text)
    requires Front(before, l0, maxlen, sent, initial) && Took(now, before, l0, l1, chunk)
    requires l1 == Min(l0 + |chunk|, maxlen)
    ensures Front(now, l1, maxlen, sent + chunk, initial)
  {
    if l0 == |sent| {
      assert (sent + chunk)[..l1] == sent + chunk[..l1 - l0];
    } else {
      assert (sent + chunk)[..l0] == sent[..l0];
    }
    assert before[l1 + 1..] == before[l0 + 1..][l1 - l0..];
    assert initial[l1 + 1..] == initial[l0 + 1..][l1 - l0..];
  }

  // ----- a growing pool

  /** What a growing pool holds, its room, and how many allocations it has asked for. */
  datatype PoolState = PoolState(held: Text, room: nat, asked: nat)

  /** A chunk sent to a growing pool; `refuses(k)` is what the firmware does with its allocation number `k`. */
  function Appended(st: PoolState, chunk: Text, refuses: nat -> bool): PoolState {
    if |st.held| + |chunk| < st.room then st.(held := st.held + chunk)
    else if refuses(st.asked) then PoolState([], 0, st.asked + 1)
    else PoolState(st.held + chunk, |st.held| + |chunk| + 1 + PRINT_STRING_LEN, st.asked + 1)
  }

  function AppendedAll(st: PoolState, chunks: seq<Text>, refuses: nat -> bool): PoolState {
    if chunks == [] then st
    else Appended(AppendedAll(st, chunks[..|chunks| - 1], refuses), chunks[|chunks| - 1], refuses)
  }

  lemma AppendedPush(st: PoolState, chunks: seq<Text>, chunk: Text, refuses: nat -> bool)
    ensures AppendedAll(st, [], refuses) == st
    ensures AppendedAll(st, chunks + [chunk], refuses) == Appended(AppendedAll(st, chunks, refuses), chunk, refuses)
  {
    assert (chunks + [chunk])[..|chunks|] == chunks;
  }

  lemma {:induction false} AppendedInTwo(st: PoolState, x: seq<Text>, y: seq<Text>, refuses: nat -> bool)
    ensures AppendedAll(st, x + y, refuses) == AppendedAll(AppendedAll(st, x, refuses), y, refuses)
    decreases |y|
  {
    if y == [] {
      assert x + y == x;
    } else {
      var front, last := y[..|y| - 1], y[|y| - 1];
      assert x + y == (x + front) + [last];
      AppendedInTwo(st, x, front, refuses);
      AppendedPush(st, x + front, last, refuses);
    }
  }

  /** The firmware refuses none of the allocations from number `from` up to number `to`. */
  ghost predicate Grants(refuses: nat -> bool, from: nat, to: nat) {
    forall k :: from <= k < to ==> !refuses(k)
  }

  /** While nothing is refused, all of what was sent is there, with room left. */
  lemma {:induction false} AllGranted(st: PoolState, chunks: seq<Text>, refuses: nat -> bool)
    ensures var end := AppendedAll(st, chunks, refuses);
            && st.asked <= end.asked <= st.asked + |chunks|
            && (Grants(refuses, st.asked, end.asked) ==>
                  end.held == st.held + Concat(chunks) && (chunks != [] ==> |end.held| < end.room))
    decreases |chunks|
  {
    hide Concat, AppendedAll, Appended, Grants;
    if chunks == [] {
      NothingSent(st);
      AppendedPush(st, [], [], refuses);
    } else {
      var front, last := chunks[..|chunks| - 1], chunks[|chunks| - 1];
      assert chunks == front + [last];
      AllGranted(st, front, refuses);
      AppendedPush(st, front, last, refuses);
      OneGranted(AppendedAll(st, front, refuses), last, refuses, st.asked);
      ConcatPush(front, last);
      assert st.held + (Concat(front) + last) == st.held + Concat(front) + last;
    }
  }

  lemma OneGranted(st: PoolState, chunk: Text, refuses: nat -> bool, from: nat)
    requires from <= st.asked
    ensures var end := Appended(st, chunk, refuses);
            && st.asked <= end.asked <= st.asked + 1
            && (Grants(refuses, from, end.asked) ==>
                  Grants(refuses, from, st.asked) && end.held == st.held + chunk && |end.held| < end.room)
  {
  }

  lemma NothingSent(st: PoolState)
    ensures st.held + Concat([]) == st.held
  {
  }

  /** While there is room no allocation is asked for. */
  lemma {:induction false} NoGrowth(st: PoolState, chunks: seq<Text>, refuses: nat -> bool)
    requires |st.held| + |Concat(chunks)| < st.room
    ensures AppendedAll(st, chunks, refuses) == st.(held := st.held + Concat(chunks))
    decreases |chunks|
  {
    hide Concat;
    if chunks == [] {
      NothingSent(st);
    } else {
      var front, last := chunks[..|chunks| - 1], chunks[|chunks| - 1];
      assert chunks == front + [last];
      ConcatPush(front, last);
      NoGrowth(st, front, refuses);
      assert st.held + (Concat(front) + last) == st.held + Concat(front) + last;
    }
  }

  /** When something is refused, only the chunks behind the one of the last refusal are there: no pool at all when
      that was the last chunk, and a pool with all of the others otherwise. */
  lemma {:induction false} LastRefusal(st: PoolState, chunks: seq<Text>, refuses: nat -> bool) returns (lost: nat)
    requires !Grants(refuses, st.asked, AppendedAll(st, chunks, refuses).asked)
    ensures 0 < lost <= |chunks|
    ensures var point, end := AppendedAll(st, chunks[..lost], refuses), AppendedAll(st, chunks, refuses);
            && st.asked < point.asked <= end.asked && refuses(point.asked - 1)
            && Grants(refuses, point.asked, end.asked)
            && end.held == Concat(chunks[lost..]) && (end.room == 0 <==> lost == |chunks|)
    decreases |chunks|
  {
    hide Concat;
    var front, last := chunks[..|chunks| - 1], chunks[|chunks| - 1];
    var before, end := AppendedAll(st, front, refuses), AppendedAll(st, chunks, refuses);
    AllGranted(st, front, refuses);
    if end.asked > before.asked && refuses(before.asked) {
      lost := |chunks|;
      assert chunks[..lost] == chunks && chunks[lost..] == [];
      NothingSent(end);
      assert end.held + Concat([]) == end.held;
    } else {
      lost := LastRefusal(st, front, refuses);
      assert chunks[..lost] == front[..lost] && chunks[lost..] == front[lost..] + [last];
      ConcatPush(front[lost..], last);
    }
  }

  class PoolPrint {
    var str: array?<Char16>
    var len: nat
    var maxlen: nat
    const refuses: nat -> bool // what the firmware does with the allocations that are asked for, one after another
    var asked: nat             // how many that have been
    ghost var sent: Text       // everything appended, as far back as nothing was thrown away
    ghost const initial: Text  // what the array held at first

    /** `str`, `len` and `maxlen` as given, with nothing written yet. */
    constructor (str: array?<Char16>, maxlen: nat, refuses: nat -> bool)
      requires str == null ==> maxlen == 0
      requires str != null ==> str.Length > 0
      ensures this.str == str && len == 0 && this.maxlen == maxlen && sent == []
      ensures this.refuses == refuses && asked == 0
      ensures initial == if str == null then [] else str[..]
    {
      this.str, len, this.maxlen := str, 0, maxlen;
      this.refuses, asked, sent := refuses, 0, [];
      initial := if str == null then [] else str[..];
    }

    ghost function Owned(): set<object>
      reads this
    {
      if str == null then {} else {str}
    }

    ghost function State(): PoolState
      reads this
    {
      PoolState(sent, maxlen, asked)
    }

    /** The state of a string of fixed size. */
    ghost predicate Bounded()
      reads this, Owned()
    {
      && len == Min(|sent|, maxlen)
      && (maxlen > 0 ==> str != null && Front(str[..], len, maxlen, sent, initial))
      && (maxlen == 0 && str != null ==> str[..] == initial)
    }

    /** The state of a growing pool: all of what was sent, terminated, with room left over. */
    ghost predicate Growing()
      reads this, Owned()
    {
      if str == null then len == 0 && maxlen == 0 && sent == []
      else str.Length == maxlen && len < maxlen && str[..len] == sent && str[len] == NUL
    }

    /** `_SPrint`. */
    method SPrint(buffer: array<Char16>, ghost n: nat)
      requires buffer != str && HoldsString(buffer[..], n) && len <= maxlen
      requires maxlen > 0 ==> str != null && Min(len + n, maxlen) < str.Length
      modifies this`len, this`sent, Owned()
      ensures len == Min(old(len) + n, maxlen) && sent == old(sent) + buffer[..n]
      ensures maxlen > 0 ==> Took(str[..], old(str[..]), old(len), len, buffer[..n]) && str[len] == NUL
      ensures maxlen == 0 && str != null ==> str[..] == old(str[..])
      ensures old(Bounded()) ==> Bounded()
    {
      hide Took, Front;
      var k := StrLen(buffer, n);
      if len + k > maxlen {
        k := maxlen - len;
      }
      if maxlen > 0 {
        forall i | 0 <= i < k {
          str[len + i] := buffer[i];
        }
      }
      len := len + k;
      if len < maxlen {
        str[len] := NUL;
      } else if maxlen > 0 {
        str[maxlen] := NUL;
      }
      sent := sent + buffer[..n];
      if maxlen > 0 {
        TookAll(str[..], old(str[..]), old(len), len, buffer[..n]);
        if old(Bounded()) {
          FrontKept(str[..], old(str[..]), old(len), len, buffer[..n], maxlen, old(sent), initial);
        }
      }
    }

    /** `_PoolPrint`.  A refused growth has thrown the text away, and the chunk goes nowhere. */
    method PoolPrint(buffer: array<Char16>, ghost n: nat)
      requires Growing() && buffer != str && HoldsString(buffer[..], n)
      modifies this, Owned()
      ensures Growing() && fresh(Owned() - old(Owned()))
      ensures old(len) + n < old(maxlen) ==>
                str == old(str) && maxlen == old(maxlen) && asked == old(asked) && sent == old(sent) + buffer[..n]
      ensures old(len) + n >= old(maxlen) && !refuses(old(asked)) ==>
                && str != null && maxlen == old(len) + n + 1 + PRINT_STRING_LEN && asked == old(asked) + 1
                && sent == old(sent) + buffer[..n]
      ensures old(len) + n >= old(maxlen) && refuses(old(asked)) ==>
                str == null && len == maxlen == 0 && asked == old(asked) + 1 && sent == []
    {
      var k := StrLen(buffer, n);
      var newlen := len + k + 1;
      ghost var refused := false;
      if newlen > maxlen {
        newlen := newlen + PRINT_STRING_LEN;
        maxlen := newlen;
        str := ReallocatePool(len, maxlen, str, refuses(asked));
        asked := asked + 1;
        if str == null {
          len, maxlen := 0, 0;
          refused := true;
        }
      }
      SPrint(buffer, n);
      if refused {
        sent := [];
      }
    }

    ghost predicate Sound(pooled: bool)
      reads this, Owned()
    {
      if pooled then Growing() else Bounded()
    }

    /** One of the two, as the print state says. */
    method Output(pooled: bool, buffer: array<Char16>, ghost n: nat)
      requires Sound(pooled) && buffer != str && HoldsString(buffer[..], n)
      requires !pooled && maxlen > 0 ==> Min(maxlen, |sent| + n) < str.Length
      modifies this, Owned()
      ensures Sound(pooled) && fresh(Owned() - old(Owned()))
      ensures if pooled then State() == Appended(old(State()), buffer[..n], refuses)
              else sent == old(sent) + buffer[..n] && str == old(str) && maxlen == old(maxlen) && asked == old(asked)
      ensures !pooled && maxlen > 0 ==> str != null && len < str.Length && str[len] == NUL
    {
      hide Took, Front;
      if pooled {
        PoolPrint(buffer, n);
      } else {
        SPrint(buffer, n);
      }
    }
  }
}
