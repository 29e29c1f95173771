/** Printing into a string or a pool: `lib/va_print.c`, and `CatPrint` of `lib/print.c`. */
module VaPrint {
  import opened Chars
  import opened Format
  import opened FormatLaws
  import opened Newlines
  import opened Numbers
  import opened Pool
  import opened Print

  /** The format is closed and its arguments are there. */
  ghost predicate Printable(fmt: Text, args: seq<Arg>) {
    IsString(fmt) && ProperArgs(args) && Render(fmt, 0, args, NO_ATTRIBUTES).Some?
  }

  ghost function Meaning(fmt: Text, args: seq<Arg>): Text
    requires Printable(fmt, args)
  {
    Render(fmt, 0, args, NO_ATTRIBUTES).value
  }

  /** A format in two parts means what the parts mean, one after the other. */
  lemma MeaningAppend(f: Text, g: Text, args: seq<Arg>)
    requires Printable(f, args) && Printable(g, Left(f, 0, args, NO_ATTRIBUTES))
    ensures Printable(f + g, args)
    ensures Meaning(f + g, args) == Meaning(f, args) + Meaning(g, Left(f, 0, args, NO_ATTRIBUTES))
  {
    hide Render, Left;
    RenderAppend(f, g, 0, args, NO_ATTRIBUTES);
  }

  /** The chunks carry the text of the format; without attribute changes all but the last are full. */
  ghost predicate Carries(chunks: seq<Text>, fmt: Text, args: seq<Arg>)
    requires Printable(fmt, args)
  {
    && chunks != [] && ShortChunks(chunks) && Faithful(Meaning(fmt, args), Concat(chunks), Cuts(chunks))
    && (Calm(fmt, 0, args, NO_ATTRIBUTES) ==> FullChunks(chunks[..|chunks| - 1]))
  }

  /** Whatever the chunks were, the output is the text up to CRs in front of LFs. */
  lemma CarriedText(chunks: seq<Text>, fmt: Text, args: seq<Arg>)
    requires Printable(fmt, args) && Carries(chunks, fmt, args)
    ensures Stripped(Concat(chunks)) == Stripped(Meaning(fmt, args))
    ensures |Meaning(fmt, args)| <= |Concat(chunks)| <= 2 * |Meaning(fmt, args)|
    ensures IsString(Concat(chunks))
    ensures LF !in Meaning(fmt, args) ==> Concat(chunks) == Meaning(fmt, args)
  {
    hide Stripped, Faithful;
    var text, out, cuts := Meaning(fmt, args), Concat(chunks), Cuts(chunks);
    FaithfulStripped(text, out, cuts);
    FaithfulLength(text, out, cuts);
    ChunksAreString(chunks);
    if LF !in text {
      FaithfulExact(text, out, cuts);
    }
  }

  /** After so many characters the buffer has just been full. */
  predicate BufferFull(k: nat) {
    k > 0 && k % (PRINT_STRING_LEN - 1) == 0
  }

  lemma {:induction false} FullCuts(chunks: seq<Text>)
    requires FullChunks(chunks)
    ensures |Concat(chunks)| == (PRINT_STRING_LEN - 1) * |chunks|
    ensures forall k :: k in Cuts(chunks) ==> BufferFull(k)
  {
    hide Concat, Cuts, BufferFull;
    if chunks == [] {
      NoChunks();
    } else {
      var rest, last := chunks[..|chunks| - 1], chunks[|chunks| - 1];
      assert chunks == rest + [last];
      ChunkPush(rest, last);
      FullCuts(rest);
      FullBuffers(|chunks|);
    }
  }

  lemma FullBuffers(n: nat)
    requires n > 0
    ensures BufferFull((PRINT_STRING_LEN - 1) * n)
  {
  }

  /** No LF falls right behind a full buffer of the canonical output. */
  predicate LinesClear(text: Text) {
    forall i :: 0 <= i < |text| && text[i] == LF ==> !BufferFull(|Canonical(text[..i])|)
  }

  /** Without attribute changes the output is cut at every 199th character and nowhere else.  When no LF
      falls there it is determined: a CR goes in front of exactly the LFs that have none. */
  lemma CalmOutput(chunks: seq<Text>, fmt: Text, args: seq<Arg>)
    requires Printable(fmt, args) && Carries(chunks, fmt, args) && Calm(fmt, 0, args, NO_ATTRIBUTES)
    ensures forall k :: k in Cuts(chunks) ==> BufferFull(k) || k == |Concat(chunks)|
    ensures LinesClear(Meaning(fmt, args)) ==> Concat(chunks) == Canonical(Meaning(fmt, args))
  {
    hide Faithful, Render, Canonical, Calm, Concat, Cuts, BufferFull;
    var front, last := chunks[..|chunks| - 1], chunks[|chunks| - 1];
    assert chunks == front + [last];
    ChunkPush(front, last);
    FullCuts(front);
    var text, out := Meaning(fmt, args), Concat(chunks);
    if LinesClear(text) {
      var inside := set k | k in Cuts(chunks) && k < |out|;
      FaithfulMoreCuts(text, out, Cuts(chunks), inside);
      assert Clear(text, inside);
      ClearIsCanonical(text, out, inside);
    }
  }

  // ----- an LF right behind a full buffer

  /** The first `n` buffers of an output. */
  ghost function Blocks(out: Text, n: nat): (chunks: seq<Text>)
    requires (PRINT_STRING_LEN - 1) * n <= |out|
    ensures |chunks| == n && FullChunks(chunks)
  {
    if n == 0 then [] else Blocks(out, n - 1) + [out[(PRINT_STRING_LEN - 1) * (n - 1)..(PRINT_STRING_LEN - 1) * n]]
  }

  lemma {:induction false} BlocksJoin(out: Text, n: nat)
    requires (PRINT_STRING_LEN - 1) * n <= |out| && IsString(out)
    ensures Concat(Blocks(out, n)) == out[..(PRINT_STRING_LEN - 1) * n] && ShortChunks(Blocks(out, n))
    ensures forall k: nat :: BufferFull(k) && k <= (PRINT_STRING_LEN - 1) * n ==> k in Cuts(Blocks(out, n))
  {
    hide Concat, Cuts;
    if n == 0 {
      NoChunks();
    } else {
      var rest, last := Blocks(out, n - 1), out[(PRINT_STRING_LEN - 1) * (n - 1)..(PRINT_STRING_LEN - 1) * n];
      BlocksJoin(out, n - 1);
      ChunkPush(rest, last);
      ShortPush(rest, last);
      forall k: nat | BufferFull(k) && k <= (PRINT_STRING_LEN - 1) * n
        ensures k in Cuts(Blocks(out, n))
      {
        NextFull(k, n);
      }
    }
  }

  lemma NextFull(k: nat, n: nat)
    requires n > 0 && BufferFull(k) && k <= (PRINT_STRING_LEN - 1) * n
    ensures k <= (PRINT_STRING_LEN - 1) * (n - 1) || k == (PRINT_STRING_LEN - 1) * n
  {
    var j := k / (PRINT_STRING_LEN - 1);
    assert k == (PRINT_STRING_LEN - 1) * j;
  }

  /** Every output that is faithful around cuts at full buffers can be carried by chunks. */
  lemma CarriedInBlocks(fmt: Text, args: seq<Arg>, out: Text, cuts: set<nat>) returns (chunks: seq<Text>)
    requires Printable(fmt, args) && Faithful(Meaning(fmt, args), out, cuts) && IsString(out)
    requires forall k :: k in cuts ==> BufferFull(k)
    ensures Carries(chunks, fmt, args) && Concat(chunks) == out
  {
    hide Faithful, Render, Concat, Cuts, Calm, BufferFull, FullChunks, ShortChunks;
    var n := |out| / (PRINT_STRING_LEN - 1);
    var front, last := Blocks(out, n), out[(PRINT_STRING_LEN - 1) * n..];
    BlocksJoin(out, n);
    ChunkPush(front, last);
    ShortPush(front, last);
    chunks := front + [last];
    assert chunks[..|chunks| - 1] == front;
    assert out[..(PRINT_STRING_LEN - 1) * n] + last == out;
    forall k | k in cuts && k < |out|
      ensures k in Cuts(chunks)
    {
      NextFull(k, n + 1);
    }
    FaithfulMoreCuts(Meaning(fmt, args), out, cuts, Cuts(chunks));
  }

  /** When an LF falls right behind a full buffer, chunks can carry another output as well. */
  lemma OtherCalmOutput(chunks: seq<Text>, fmt: Text, args: seq<Arg>) returns (other: seq<Text>)
    requires Printable(fmt, args) && Carries(chunks, fmt, args) && !LinesClear(Meaning(fmt, args))
    ensures Carries(other, fmt, args) && Concat(other) != Canonical(Meaning(fmt, args))
  {
    hide Faithful, Render, Canonical, Calm, Concat, Cuts;
    var text := Meaning(fmt, args);
    ChunksAreString(chunks);
    FaithfulIsString(text, Concat(chunks), Cuts(chunks));
    var cuts := set k: nat | k <= 2 * |text| && BufferFull(k);
    var i :| 0 <= i < |text| && text[i] == LF && BufferFull(|Canonical(text[..i])|);
    CanonicalIsFaithful(text[..i], cuts);
    FaithfulLength(text[..i], Canonical(text[..i]), cuts);
    assert !Clear(text, cuts);
    var out := OtherOutput(text, cuts);
    FaithfulIsString(text, out, cuts);
    other := CarriedInBlocks(fmt, args, out, cuts);
  }

  /** A format without attribute letters has one output, the canonical one, if and only if none of the LFs
      of its text falls right behind a full buffer. */
  lemma CalmOutputIff(chunks: seq<Text>, fmt: Text, args: seq<Arg>)
    requires Printable(fmt, args) && Carries(chunks, fmt, args) && Calm(fmt, 0, args, NO_ATTRIBUTES)
    ensures LinesClear(Meaning(fmt, args)) <==>
            forall c :: Carries(c, fmt, args) ==> Concat(c) == Canonical(Meaning(fmt, args))
  {
    hide Render, Carries, Canonical, Calm, Concat, LinesClear;
    if LinesClear(Meaning(fmt, args)) {
      forall c | Carries(c, fmt, args)
        ensures Concat(c) == Canonical(Meaning(fmt, args))
      {
        CalmOutput(c, fmt, args);
      }
    } else {
      var other := OtherCalmOutput(chunks, fmt, args);
    }
  }

  /** The shortest such format, 199 plain characters and an LF, has two outputs. */
  lemma LineAtFullBuffer() returns (fmt: Text, one: seq<Text>, other: seq<Text>)
    ensures fmt == Repeat(SPACE, PRINT_STRING_LEN - 1) + [LF]
    ensures Printable(fmt, []) && Calm(fmt, 0, [], NO_ATTRIBUTES)
    ensures Carries(one, fmt, []) && Carries(other, fmt, []) && Concat(one) != Concat(other)
  {
    hide Render, Faithful, Canonical, Carries, Concat, Calm, Repeat;
    var n := PRINT_STRING_LEN - 1;
    var plain := Repeat(SPACE, n);
    fmt := plain + [LF];
    RenderPlain(fmt, 0, [], NO_ATTRIBUTES);
    assert fmt[0..] == fmt && fmt[..n] == plain;
    CanonicalIsFaithful(fmt, {});
    FaithfulIsString(fmt, Canonical(fmt), {});
    one := CarriedInBlocks(fmt, [], Canonical(fmt), {});
    CanonicalIsFaithful(plain, {});
    FaithfulExact(plain, Canonical(plain), {});
    assert fmt[n] == LF && BufferFull(|Canonical(fmt[..n])|);
    other := OtherCalmOutput(one, fmt, []);
  }

  /** `_PoolCatPrint`. */
  method PoolCatPrint(fmt: Text, args: seq<Arg>, spc: PoolPrint, pooled: bool)
    returns (ghost chunks: seq<Text>)
    requires Printable(fmt, args) && spc.Sound(pooled) && (pooled || spc.sent == [])
    requires !pooled && spc.maxlen > 0 ==>
               spc.str != null && Min(spc.maxlen, 2 * |Meaning(fmt, args)|) < spc.str.Length
    modifies spc, spc.Owned()
    ensures spc.Sound(pooled) && fresh(spc.Owned() - old(spc.Owned()))
    ensures Carries(chunks, fmt, args)
    ensures if pooled then spc.State() == AppendedAll(old(spc.State()), chunks, spc.refuses)
            else spc.sent == Concat(chunks) && spc.str == old(spc.str) && spc.maxlen == old(spc.maxlen)
    ensures !pooled && spc.maxlen > 0 ==> spc.len < spc.str.Length && spc.str[spc.len] == NUL
  {
    hide Render, Calm, Concat, Cuts, Faithful, PoolPrint.Sound, AppendedAll;
    var ps := new PrintState(spc, pooled, NO_ATTRIBUTES, 0, |Meaning(fmt, args)|);
    var n := ps.Print(fmt, args);
    chunks := ps.chunks;
    assert ps.Out() == Concat(chunks);
  }

  /** `StrSize / sizeof(CHAR16) - 1`, which wraps around for the sizes 0 and 1. */
  function MaxLen(strSize: uint64): uint64 {
    if strSize < 2 then UINT64_RANGE - 1 else strSize / 2 - 1
  }

  /** `UnicodeVSPrint`. */
  method UnicodeVSPrint(str: array<Char16>, strSize: uint64, fmt: Text, args: seq<Arg>)
    returns (n: nat, ghost chunks: seq<Text>)
    requires Printable(fmt, args)
    requires str.Length > 0 && strSize / 2 <= str.Length
    requires strSize < 2 ==> 2 * |Meaning(fmt, args)| < str.Length
    modifies str
    ensures Carries(chunks, fmt, args)
    ensures var out := Concat(chunks);
            && n == Min(|out|, if strSize < 2 then UINT64_RANGE - 1 else strSize / 2 - 1) < str.Length
            && str[..n] == out[..n]
            && str[n + 1..] == old(str[n + 1..])
            && str[n] == if strSize == 2 || strSize == 3 then old(str[n]) else NUL
    ensures Calm(fmt, 0, args, NO_ATTRIBUTES) && LinesClear(Meaning(fmt, args)) ==>
              && n == Min(|Canonical(Meaning(fmt, args))|, if strSize < 2 then UINT64_RANGE - 1 else strSize / 2 - 1)
              && str[..n] == Canonical(Meaning(fmt, args))[..n]
  {
    hide Render, Calm, Concat, Cuts, Faithful, Canonical, LinesClear;
    var spc := new PoolPrint(str, MaxLen(strSize), k => false);
    chunks := PoolCatPrint(fmt, args, spc, false);
    n := spc.len;
    if Calm(fmt, 0, args, NO_ATTRIBUTES) {
      CalmOutput(chunks, fmt, args);
    }
  }

  /** What a growing pool holds after these chunks, said by the outcomes of the allocations: all of it when none
      was refused, and otherwise just the chunks behind the one of the last refusal, for which there is no pool
      when it was the last. */
  ghost predicate Kept(before: PoolState, after: PoolState, chunks: seq<Text>, refuses: nat -> bool, lost: nat) {
    && lost <= |chunks| && before.asked <= after.asked <= before.asked + |chunks|
    && (lost == 0 <==> forall k :: before.asked <= k < after.asked ==> !refuses(k))
    && after.held == (if lost == 0 then before.held else []) + Concat(chunks[lost..])
    && (after.room == 0 <==> lost == |chunks|)
    && (|before.held| + |Concat(chunks)| < before.room ==> after.asked == before.asked && after.room == before.room)
  }

  lemma PoolKeeps(before: PoolState, chunks: seq<Text>, refuses: nat -> bool) returns (lost: nat)
    requires chunks != []
    ensures Kept(before, AppendedAll(before, chunks, refuses), chunks, refuses, lost)
  {
    hide Concat, AppendedAll, Appended;
    var after := AppendedAll(before, chunks, refuses);
    AllGranted(before, chunks, refuses);
    if |before.held| + |Concat(chunks)| < before.room {
      NoGrowth(before, chunks, refuses);
    }
    if Grants(refuses, before.asked, after.asked) {
      lost := 0;
      assert chunks[0..] == chunks;
    } else {
      lost := LastRefusal(before, chunks, refuses);
      assert [] + Concat(chunks[lost..]) == Concat(chunks[lost..]);
    }
  }

  /** `VPoolPrint`.  A growth that is refused takes what was printed so far with it; what is printed after
      that may again find room, so the pool may hold just an end of the output. */
  method VPoolPrint(fmt: Text, args: seq<Arg>, refuses: nat -> bool)
    returns (str: array?<Char16>, ghost n: nat, ghost chunks: seq<Text>, ghost asked: nat, ghost lost: nat)
    requires Printable(fmt, args)
    ensures Carries(chunks, fmt, args)
    ensures lost <= |chunks| && asked <= |chunks|
    ensures lost == 0 <==> forall k :: 0 <= k < asked ==> !refuses(k)
    ensures str == null <==> lost == |chunks|
    ensures str != null ==> fresh(str) && HoldsString(str[..], n) && str[..n] == Concat(chunks[lost..])
  {
    hide Render, Calm, Concat, Cuts, Faithful, AppendedAll;
    var spc := new PoolPrint(null, 0, refuses);
    ghost var before := spc.State();
    chunks := PoolCatPrint(fmt, args, spc, true);
    lost := PoolKeeps(before, chunks, refuses);
    str, n, asked := spc.str, spc.len, spc.asked;
    ChunksAreString(chunks[lost..]);
  }

  /** `CatPrint`. */
  method CatPrint(spc: PoolPrint, fmt: Text, args: seq<Arg>)
    returns (str: array?<Char16>, ghost chunks: seq<Text>, ghost lost: nat)
    requires Printable(fmt, args) && spc.Growing()
    modifies spc, spc.Owned()
    ensures spc.Growing() && fresh(spc.Owned() - old(spc.Owned())) && str == spc.str
    ensures Carries(chunks, fmt, args)
    ensures lost <= |chunks| && old(spc.asked) <= spc.asked <= old(spc.asked) + |chunks|
    ensures lost == 0 <==> forall k :: old(spc.asked) <= k < spc.asked ==> !spc.refuses(k)
    ensures str == null <==> lost == |chunks|
    ensures spc.sent == (if lost == 0 then old(spc.sent) else []) + Concat(chunks[lost..])
    ensures |old(spc.sent)| + |Concat(chunks)| < old(spc.maxlen) ==> spc.asked == old(spc.asked)
    ensures spc.State() == AppendedAll(old(spc.State()), chunks, spc.refuses)
  {
    hide Render, Calm, Concat, Cuts, Faithful, AppendedAll;
    chunks := PoolCatPrint(fmt, args, spc, true);
    lost := PoolKeeps(old(spc.State()), chunks, spc.refuses);
    str := spc.str;
  }

  /** A run of `CatPrint` calls. */
  datatype Call = Call(fmt: Text, args: seq<Arg>)

  ghost predicate AllPrintable(calls: seq<Call>) {
    forall c :: c in calls ==> Printable(c.fmt, c.args)
  }

  /** What each call printed carries its text. */
  ghost predicate AllCarry(calls: seq<Call>, printed: seq<seq<Text>>)
    requires AllPrintable(calls)
  {
    |printed| == |calls| && forall k :: 0 <= k < |calls| ==> Carries(printed[k], calls[k].fmt, calls[k].args)
  }

  /** The chunks of all calls in a row. */
  ghost function AllChunks(printed: seq<seq<Text>>): seq<Text> {
    if printed == [] then [] else AllChunks(printed[..|printed| - 1]) + printed[|printed| - 1]
  }

  lemma AllChunksPush(printed: seq<seq<Text>>, chunks: seq<Text>)
    ensures AllChunks([]) == [] && AllChunks(printed + [chunks]) == AllChunks(printed) + chunks
  {
    assert (printed + [chunks])[..|printed|] == printed;
  }

  /** When no growth is refused, the pool ends up with all of it, untruncated and terminated; otherwise with all
      that came behind the last refusal. */
  method CatPrintAll(spc: PoolPrint, calls: seq<Call>) returns (ghost printed: seq<seq<Text>>, ghost lost: nat)
    requires AllPrintable(calls) && spc.Growing()
    modifies spc, spc.Owned()
    ensures spc.Growing() && fresh(spc.Owned() - old(spc.Owned()))
    ensures AllCarry(calls, printed)
    ensures lost == 0 <==> forall k :: old(spc.asked) <= k < spc.asked ==> !spc.refuses(k)
    ensures lost <= |AllChunks(printed)| && (calls != [] ==> (spc.str == null <==> lost == |AllChunks(printed)|))
    ensures spc.str != null ==>
              && spc.len < spc.maxlen == spc.str.Length && spc.str[spc.len] == NUL
              && spc.str[..spc.len]
              == (if lost == 0 then old(spc.sent) else []) + Concat(AllChunks(printed)[lost..])
  {
    hide Printable, Carries, Concat, AllChunks, AppendedAll;
    printed := [];
    AllChunksPush([], []);
    AppendedPush(spc.State(), [], [], spc.refuses);
    var k := 0;
    while k < |calls|
      invariant k <= |calls| && |printed| == k && (k > 0 ==> AllChunks(printed) != [])
      invariant spc.Growing() && fresh(spc.Owned() - old(spc.Owned()))
      invariant forall j :: 0 <= j < k ==> Carries(printed[j], calls[j].fmt, calls[j].args)
      invariant spc.State() == AppendedAll(old(spc.State()), AllChunks(printed), spc.refuses)
    {
      assert calls[k] in calls;
      var str, chunks, rest := CatPrint(spc, calls[k].fmt, calls[k].args);
      AllChunksPush(printed, chunks);
      AppendedInTwo(old(spc.State()), AllChunks(printed), chunks, spc.refuses);
      CarriesSome(chunks, calls[k].fmt, calls[k].args);
      printed := printed + [chunks];
      k := k + 1;
    }
    lost := 0;
    if calls != [] {
      lost := PoolKeeps(old(spc.State()), AllChunks(printed), spc.refuses);
    } else {
      NothingAdded(spc.sent);
    }
  }

  lemma CarriesSome(chunks: seq<Text>, fmt: Text, args: seq<Arg>)
    requires Printable(fmt, args) && Carries(chunks, fmt, args)
    ensures chunks != []
  {
  }

  lemma NothingAdded(text: Text)
    ensures AllChunks([]) == [] && text + Concat([]) == text
  {
  }
}
