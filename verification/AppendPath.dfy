/** `AppendDevicePath` and `AppendDevicePathNode` of `lib/dpath.c`: what they write, when it fits the
    memory they allocate, and what it parses to. */
module AppendPath {
  import opened Memory
  import opened DevicePath

  /** What the loop writes: each instance, `Src2` with its own terminator, and an End Instance. */
  function Appended(instances: seq<seq<byte>>, src2: seq<byte>): seq<byte> {
    if instances == [] then []
    else instances[0] + src2 + END_INST + Appended(instances[1..], src2)
  }

  /** The last End Instance is overwritten with an End Entire. */
  function Result(instances: seq<seq<byte>>, src2: seq<byte>): seq<byte> {
    var a := Appended(instances, src2);
    if |a| < HEADER then a else a[..|a| - HEADER] + END_PATH
  }

  lemma {:induction false} AppendedSplit(a: seq<seq<byte>>, b: seq<seq<byte>>, src2: seq<byte>)
    ensures Appended(a + b, src2) == Appended(a, src2) + Appended(b, src2)
    decreases |a|
  {
    if a == [] {
      assert a + b == b;
    } else {
      assert (a + b)[1..] == a[1..] + b;
      AppendedSplit(a[1..], b, src2);
    }
  }

  lemma AppendedOne(i: seq<byte>, src2: seq<byte>)
    ensures Appended([i], src2) == i + src2 + END_INST
  {
    assert [i][1..] == [];
    assert Appended([], src2) == [];
  }

  /** In all, the size of `Src1` and `Src2` once for every instance. */
  lemma {:induction false} AppendedSize(instances: seq<seq<byte>>, src2: seq<byte>)
    ensures |Appended(instances, src2)| == TotalSize(instances) + |instances| * |src2|
    decreases |instances|
  {
    if instances != [] {
      AppendedSize(instances[1..], src2);
      assert |instances| * |src2| == |src2| + |instances[1..]| * |src2|;
    }
  }

  lemma ResultSize(instances: seq<seq<byte>>, src2: seq<byte>)
    requires instances != []
    ensures |Result(instances, src2)| == TotalSize(instances) + |instances| * |src2|
  {
    AppendedSize(instances, src2);
    AppendedLong(instances, src2);
  }

  lemma ProductsFit(size1: nat, k: nat, size2: nat, total: nat)
    requires k >= 1 && total <= size1
    ensures total + k * size2 <= size1 * k + size2 <==> (k - 1) * (size2 - size1) <= size1 - total
    ensures k == 1 || size2 <= size1 ==> total + k * size2 <= size1 * k + size2
    ensures total == size1 ==> (total + k * size2 <= size1 * k + size2 <==> k == 1 || size2 <= size1)
  {
    var d := k - 1;
    assert k * size2 == d * size2 + size2 && size1 * k == size1 + d * size1;
    assert d * (size2 - size1) == d * size2 - d * size1;
    if size2 <= size1 {
      assert d * (size2 - size1) <= 0;
    } else if d >= 1 {
      assert d * (size2 - size1) >= 1 * (size2 - size1);
    }
  }

  /** What `AppendDevicePath` allocates for the instances it counted. */
  function Allocated(src1: seq<byte>, instances: seq<seq<byte>>, src2: seq<byte>): nat
    requires Chain(src1) && Chain(src2)
  {
    SizeOf(src1) * |instances| + SizeOf(src2)
  }

  /** The allocation multiplies the wrong size.  What is written for the instances walked fits it if and only if
      what `Src2` is longer than `Src1`, once for every instance but the first, is no more than what the walk
      left out of `Src1`. */
  lemma FitsIff(src1: seq<byte>, src2: seq<byte>)
    requires WellFormed(src1) && Chain(src1) && Chain(src2)
    ensures var k, total := |Iterated(src1)|, TotalSize(Iterated(src1));
            && total <= SizeOf(src1)
            && (|Result(Iterated(src1), src2[..SizeOf(src2)])| <= Allocated(src1, Iterated(src1), src2) <==>
                (k - 1) * (SizeOf(src2) - SizeOf(src1)) <= SizeOf(src1) - total)
  {
    hide Iterated, Result, SizeOf;
    IteratedTotal(src1);
    IteratedSome(src1);
    ResultSize(Iterated(src1), src2[..SizeOf(src2)]);
    ProductsFit(SizeOf(src1), |Iterated(src1)|, SizeOf(src2), TotalSize(Iterated(src1)));
  }

  /** For instances that come back whole: exactly for one instance, or a `Src2` no longer than `Src1`. */
  lemma ShortFitsIff(src1: seq<byte>, src2: seq<byte>)
    requires WellFormed(src1) && Chain(src1) && Short(src1) && Chain(src2)
    ensures |Result(Iterated(src1), src2[..SizeOf(src2)])| <= Allocated(src1, Iterated(src1), src2) <==>
            |Instances(src1)| == 1 || SizeOf(src2) <= SizeOf(src1)
  {
    hide Iterated, Instances, Result, SizeOf, Short;
    IteratedIff(src1);
    SizesAddUp(src1);
    ResultSize(Instances(src1), src2[..SizeOf(src2)]);
    ProductsFit(SizeOf(src1), |Instances(src1)|, SizeOf(src2), SizeOf(src1));
  }

  /** Two empty instances and a `Src2` of 12 bytes: 32 bytes are written into 28. */
  lemma Overrun() returns (src1: seq<byte>, src2: seq<byte>)
    ensures WellFormed(src1) && Chain(src1) && Short(src1) && Chain(src2) && Instances(src1) == [[], []]
    ensures Allocated(src1, Iterated(src1), src2) == 28
    ensures |Result(Iterated(src1), src2[..SizeOf(src2)])| == 32
  {
    TwoEnds();
    src1 := Joined(END_PATH, END_PATH);
    IteratedIff(src1);
    var node: seq<byte> := [1, 1, 8, 0, 0, 0, 0, 0];
    NodeThenEnd(node);
    src2 := node + END_PATH;
    assert src2[..12] == src2;
    ResultSize(Instances(src1), src2);
    TwoSizes([], []);
  }

  /** One instance of 514 nodes is walked as two: with a `Src2` one node longer 6188 bytes are written into
      6184. */
  lemma LongOverrun(n: nat) returns (src1: seq<byte>, src2: seq<byte>)
    requires n == 514
    ensures WellFormed(src1) && Chain(src1) && |Instances(src1)| == 1 && NodeCount(src1) == n && Chain(src2)
    ensures Allocated(src1, Iterated(src1), src2) == 6184
    ensures |Result(Iterated(src1), src2[..SizeOf(src2)])| == 6188
  {
    hide LongPath, Iterated, Instances, Result, SizeOf, WellFormed, Chain, NodeCount, TotalSize;
    src1, src2 := LongPath(n), LongPath(n + 1);
    LongPathNodes(n);
    LongPathNodes(n + 1);
    LongPathWalked(n);
    ResultSize(Iterated(src1), src2[..SizeOf(src2)]);
    TwoSizes(src1[..2052], []);
  }

  lemma TwoSizes(a: seq<byte>, b: seq<byte>)
    ensures TotalSize([a, b]) == |a| + |b| + 2 * HEADER
  {
    assert [a, b][1..] == [b] && [b][1..] == [];
    assert TotalSize([]) == 0;
    assert TotalSize([b]) == |b| + HEADER;
  }

  lemma TwoEnds()
    ensures var r := Joined(END_PATH, END_PATH);
            WellFormed(r) && Chain(r) && Short(r) && SizeOf(r) == 8 && Instances(r) == [[], []]
  {
    EndAlone();
    assert Path(END_PATH);
    assert Instances(END_PATH) == [[]];
    JoinedPath(END_PATH, END_PATH);
    JoinedInstances(END_PATH, END_PATH);
    JoinedShort(END_PATH, END_PATH);
  }

  /** `behind` is the memory behind the allocation: what is written past it ends up there.  All of
      `Src1` is copied when its instances are short, `DevicePath.IteratedIff`. */
  method AppendDevicePath(src1: seq<byte>, has1: bool, src2: seq<byte>, has2: bool, outOfPool: bool, behind: seq<byte>)
    returns (dst: array?<byte>)
    requires has1 || has2
    requires has1 ==> WellFormed(src1) && Chain(src1)
    requires has2 ==> Chain(src2)
    requires has1 && has2 ==>
               |Result(Iterated(src1), src2[..SizeOf(src2)])| <= Allocated(src1, Iterated(src1), src2) + |behind|
    ensures dst == null <==> outOfPool
    ensures dst != null ==> fresh(dst)
    ensures dst != null && !has1 ==> dst[..] == src2[..SizeOf(src2)]
    ensures dst != null && !has2 ==> dst[..] == src1[..SizeOf(src1)]
    ensures dst != null && has1 && has2 ==>
              var result, size := Result(Iterated(src1), src2[..SizeOf(src2)]), Allocated(src1, Iterated(src1), src2);
              && dst.Length == size + |behind| && result <= dst[..]
              && (forall i :: size <= i < dst.Length && |result| <= i ==> dst[i] == behind[i - size])
  {
    hide Result, Iterated, WellFormed, Chain, SizeOf;
    if !has1 {
      dst := DuplicateDevicePath(src2, outOfPool);
      return;
    }
    if !has2 {
      dst := DuplicateDevicePath(src1, outOfPool);
      return;
    }
    var size1 := DevicePathSize(src1);
    var inst1 := DevicePathInstanceCount(src1);
    var size2 := DevicePathSize(src2);
    if outOfPool {
      return null;
    }
    var size := size1 * inst1 + size2;
    var pool := NewPool(size, behind);
    FillInstances(pool, src1, src2[..size2]);
    dst := pool;
  }

  method NewPool(size: nat, behind: seq<byte>) returns (pool: array<byte>)
    ensures fresh(pool) && pool.Length == size + |behind|
    ensures forall i :: size <= i < pool.Length ==> pool[i] == behind[i - size]
  {
    pool := new byte[size + |behind|];
    forall i | 0 <= i < |behind| {
      pool[size + i] := behind[i];
    }
  }

  /** One turn of the loop: an instance, `Src2` and an End Instance are copied to `dstPos`. */
  method CopyOne(pool: array<byte>, dstPos: nat, inst: seq<byte>, src2: seq<byte>) returns (next: nat)
    requires dstPos + |inst| + |src2| + HEADER <= pool.Length
    modifies pool
    ensures next == dstPos + |inst| + |src2| + HEADER
    ensures pool[..next] == old(pool[..dstPos]) + (inst + src2 + END_INST) && pool[next..] == old(pool[..])[next..]
  {
    next := CopyAt(pool, dstPos, inst);
    next := CopyAt(pool, next, src2);
    next := CopyAt(pool, next, END_INST);
  }

  /** `CopyMem` and the advance of `DstPos` after it. */
  method CopyAt(pool: array<byte>, at: nat, bytes: seq<byte>) returns (next: nat)
    requires at + |bytes| <= pool.Length
    modifies pool
    ensures next == at + |bytes| && pool[..next] == old(pool[..at]) + bytes && pool[next..] == old(pool[..])[next..]
  {
    CopyInto(pool, at, bytes);
    next := at + |bytes|;
  }

  /** What is still to be written from a position in `Src1` on. */
  function ToWrite(b: seq<byte>, src2: seq<byte>): seq<byte>
    requires WellFormed(b)
  {
    Appended(Iterated(b), src2)
  }

  lemma ToWriteStep(b: seq<byte>, src2: seq<byte>)
    requires WellFormed(b)
    ensures Tail(b) != [] ==> WellFormed(Tail(b))
    ensures ToWrite(b, src2) ==
            (b[..StopSize(b, 0)] + src2 + END_INST) + if Tail(b) == [] then [] else ToWrite(Tail(b), src2)
  {
    IteratedStep(b);
    hide Iterated, WellFormed, Tail, StopSize;
    AppendedOne(b[..StopSize(b, 0)], src2);
    AppendedSplit([b[..StopSize(b, 0)]], if Tail(b) == [] then [] else Iterated(Tail(b)), src2);
    assert Appended([], src2) == [];
  }

  method CopyInstances(pool: array<byte>, src1: seq<byte>, src2: seq<byte>) returns (dstPos: nat)
    requires WellFormed(src1) && |ToWrite(src1, src2)| <= pool.Length
    modifies pool
    ensures dstPos <= pool.Length && pool[..dstPos] == ToWrite(src1, src2) && pool[dstPos..] == old(pool[..])[dstPos..]
  {
    hide WellFormed, ToWrite, Tail, StopSize;
    ghost var all := ToWrite(src1, src2);
    assert src1[0..] == src1;
    var at := 0;
    dstPos := 0;
    while at >= 0
      invariant -1 <= at <= |src1| && (at >= 0 ==> WellFormed(src1[at..]))
      invariant dstPos <= |all| <= pool.Length && pool[..dstPos] == all[..dstPos]
      invariant pool[dstPos..] == old(pool[..])[dstPos..]
      invariant all[dstPos..] == if at >= 0 then ToWrite(src1[at..], src2) else []
      decreases if at >= 0 then |src1| - at + 1 else 0
    {
      ghost var here, before := src1[at..], dstPos;
      ToWriteStep(here, src2);
      var start, next, size := DevicePathInstance(src1, at);
      ghost var piece := here[..size] + src2 + END_INST;
      Advance(all, before, piece, if Tail(here) == [] then [] else ToWrite(Tail(here), src2));
      dstPos := CopyOne(pool, dstPos, src1[start..][..size], src2);
      at := next;
    }
  }

  lemma Advance(all: seq<byte>, at: nat, piece: seq<byte>, more: seq<byte>)
    requires at <= |all| && all[at..] == piece + more
    ensures at + |piece| <= |all| && all[..at + |piece|] == all[..at] + piece && all[at + |piece|..] == more
  {
    assert all == all[..at] + (piece + more);
  }

  lemma ResultOfAll(src1: seq<byte>, src2: seq<byte>)
    requires WellFormed(src1)
    ensures var all := ToWrite(src1, src2);
            && |all| >= HEADER && |Result(Iterated(src1), src2)| == |all|
            && Result(Iterated(src1), src2) == all[..|all| - HEADER] + END_PATH
  {
    hide WellFormed, Iterated;
    IteratedSome(src1);
    AppendedLong(Iterated(src1), src2);
    hide Appended;
  }

  lemma IteratedSome(b: seq<byte>)
    requires WellFormed(b)
    ensures Iterated(b) != []
  {
  }

  lemma AppendedLong(instances: seq<seq<byte>>, src2: seq<byte>)
    requires instances != []
    ensures |Appended(instances, src2)| >= HEADER
  {
  }

  /** The copy loop and the last terminator. */
  method FillInstances(pool: array<byte>, src1: seq<byte>, src2: seq<byte>)
    requires WellFormed(src1) && |Result(Iterated(src1), src2)| <= pool.Length
    modifies pool
    ensures var result := Result(Iterated(src1), src2);
            result <= pool[..] && forall i :: |result| <= i < pool.Length ==> pool[i] == old(pool[i])
  {
    hide WellFormed, Iterated, Appended, Result, ToWrite;
    ResultOfAll(src1, src2);
    ghost var before := pool[..];
    var dstPos := CopyInstances(pool, src1, src2);
    assert pool[dstPos..] == before[dstPos..];
    ghost var copied := pool[..];
    dstPos := dstPos - HEADER;
    CopyInto(pool, dstPos, END_PATH);
    assert pool[..dstPos + HEADER] == Result(Iterated(src1), src2);
    forall i | dstPos + HEADER <= i < pool.Length
      ensures pool[i] == before[i]
    {
      assert pool[..][i] == copied[dstPos + HEADER..][i - dstPos - HEADER];
      assert copied[i] == copied[dstPos + HEADER..][i - dstPos - HEADER];
      assert before[i] == before[dstPos + HEADER..][i - dstPos - HEADER];
    }
  }

  // ----- what the result parses to

  /** The nodes of the first instance. */
  function InstanceNodes(b: seq<byte>): seq<Node>
    requires WellFormed(b)
    decreases |b|
  {
    if IsEndType(b) then [] else [FirstNode(b)] + InstanceNodes(Rest(b))
  }

  /** The nodes of the first instance that the walk sees, `count` nodes on. */
  function WalkedNodes(b: seq<byte>, count: nat): seq<Node>
    requires WellFormed(b)
    decreases |b|
  {
    if IsEndType(b) || count > 512 then [] else [FirstNode(b)] + WalkedNodes(Rest(b), count + 1)
  }

  lemma {:induction false} WalkedFront(b: seq<byte>, count: nat)
    requires WellFormed(b) && count <= 513
    ensures |InstanceNodes(b)| == NodeCount(b)
    ensures WalkedNodes(b, count)
         == if NodeCount(b) + count <= 513 then InstanceNodes(b) else InstanceNodes(b)[..513 - count]
    decreases |b|
  {
    hide WellFormed, NodeCount, InstanceNodes, WalkedNodes, FirstNode, IsEndType;
    NodesCounted(b);
    WalkedStep(b, count);
    if !IsEndType(b) && count <= 512 {
      WalkedFront(Rest(b), count + 1);
      FrontStep(FirstNode(b), InstanceNodes(Rest(b)), 512 - count);
    }
  }

  lemma FrontStep(first: Node, rest: seq<Node>, n: nat)
    ensures n <= |rest| ==> ([first] + rest)[..n + 1] == [first] + rest[..n]
  {
  }

  lemma WalkedStep(b: seq<byte>, count: nat)
    requires WellFormed(b)
    ensures HasNode(b)
    ensures IsEndType(b) ==> NodeCount(b) == 0 && WalkedNodes(b, count) == InstanceNodes(b) == []
    ensures !IsEndType(b) ==>
              && WellFormed(Rest(b)) && NodeCount(b) == 1 + NodeCount(Rest(b))
              && InstanceNodes(b) == [FirstNode(b)] + InstanceNodes(Rest(b))
              && WalkedNodes(b, count)
              == if count > 512 then [] else [FirstNode(b)] + WalkedNodes(Rest(b), count + 1)
  {
    hide FirstNode;
  }

  lemma {:induction false} NodesCounted(b: seq<byte>)
    requires WellFormed(b)
    ensures |InstanceNodes(b)| == NodeCount(b)
    decreases |b|
  {
    if !IsEndType(b) {
      NodesCounted(Rest(b));
    }
  }

  /** The walk sees all nodes of the first instance exactly when there are at most 513. */
  lemma WalkedAllIff(b: seq<byte>)
    requires WellFormed(b)
    ensures WalkedNodes(b, 0) == InstanceNodes(b) <==> NodeCount(b) <= 513
  {
    WalkedFront(b, 0);
  }

  /** The nodes of the first instance that the walk sees, then `t`. */
  function Spliced(b: seq<byte>, t: seq<byte>, count: nat): seq<byte>
    requires WellFormed(b)
    decreases |b|
  {
    if IsEndType(b) || count > 512 then t else b[..Len(b)] + Spliced(Rest(b), t, count + 1)
  }

  lemma {:induction false} SplicedBytes(b: seq<byte>, t: seq<byte>, count: nat)
    requires WellFormed(b)
    ensures Spliced(b, t, count) == b[..StopSize(b, count)] + t
    decreases |b|
  {
    if IsEndType(b) || count > 512 {
      assert b[..0] + t == t;
    } else {
      SplicedBytes(Rest(b), t, count + 1);
      NodePrefix(b, Rest(b)[..StopSize(Rest(b), count + 1)], t);
    }
  }

  lemma NodeThen(b: seq<byte>, x: seq<byte>)
    requires HasNode(b)
    ensures var r := b[..Len(b)] + x;
            && HasNode(r) && Len(r) == Len(b) && IsEnd(r) == IsEnd(b) && IsEndType(r) == IsEndType(b)
            && Rest(r) == x && FirstNode(r) == FirstNode(b)
  {
    var r := b[..Len(b)] + x;
    assert r[HEADER..Len(r)] == b[HEADER..Len(b)];
  }

  /** An instance followed by a path parses to the nodes of both. */
  lemma {:induction false} InstanceThenPath(b: seq<byte>, t: seq<byte>, count: nat)
    requires WellFormed(b) && Chain(t)
    ensures Chain(Spliced(b, t, count)) && Nodes(Spliced(b, t, count)) == WalkedNodes(b, count) + Nodes(t)
    ensures SizeOf(Spliced(b, t, count)) == StopSize(b, count) + SizeOf(t)
    decreases |b|, 1
  {
    Header(b);
    hide Spliced, WalkedNodes, StopSize, WellFormed, Chain, Nodes, SizeOf;
    if IsEndType(b) || count > 512 {
      SplicedNothing(b, t, count);
    } else {
      NodeThenPath(b, t, count);
    }
  }

  lemma {:induction false} NodeThenPath(b: seq<byte>, t: seq<byte>, count: nat)
    requires WellFormed(b) && Chain(t) && !IsEndType(b) && count <= 512
    ensures Chain(Spliced(b, t, count)) && Nodes(Spliced(b, t, count)) == WalkedNodes(b, count) + Nodes(t)
    ensures SizeOf(Spliced(b, t, count)) == StopSize(b, count) + SizeOf(t)
    decreases |b|, 0
  {
    Header(b);
    SplicedNode(b, t, count);
    hide Spliced, WalkedNodes, StopSize, WellFormed, Chain, Nodes, SizeOf, FirstNode, IsEndType, IsEnd, Len;
    InstanceThenPath(Rest(b), t, count + 1);
    ChainStep(Spliced(b, t, count));
    Regroup([FirstNode(b)], WalkedNodes(Rest(b), count + 1), Nodes(t));
  }

  lemma Regroup(a: seq<Node>, b: seq<Node>, c: seq<Node>)
    ensures a + (b + c) == a + b + c
  {
  }

  lemma Header(b: seq<byte>)
    requires WellFormed(b)
    ensures HasNode(b)
  {
  }

  lemma SplicedNothing(b: seq<byte>, t: seq<byte>, count: nat)
    requires WellFormed(b) && Chain(t) && (IsEndType(b) || count > 512)
    ensures Spliced(b, t, count) == t && StopSize(b, count) == 0 && Nodes(t) == WalkedNodes(b, count) + Nodes(t)
  {
    hide Nodes, Chain;
    assert [] + Nodes(t) == Nodes(t);
  }

  lemma SplicedNode(b: seq<byte>, t: seq<byte>, count: nat)
    requires WellFormed(b) && !IsEndType(b) && count <= 512
    ensures var r := Spliced(b, t, count);
            && HasNode(r) && Len(r) == Len(b) && r[..Len(r)] == b[..Len(b)] && !IsEndType(r)
            && Rest(r) == Spliced(Rest(b), t, count + 1) && FirstNode(r) == FirstNode(b)
    ensures WellFormed(Rest(b))
    ensures WalkedNodes(b, count) == [FirstNode(b)] + WalkedNodes(Rest(b), count + 1)
    ensures StopSize(b, count) == Len(b) + StopSize(Rest(b), count + 1)
  {
    NodeThen(b, Spliced(Rest(b), t, count + 1));
  }

  lemma ChainStep(r: seq<byte>)
    requires HasNode(r) && !IsEnd(r) && Chain(Rest(r))
    ensures Chain(r) && Nodes(r) == [FirstNode(r)] + Nodes(Rest(r)) && SizeOf(r) == Len(r) + SizeOf(Rest(r))
  {
  }

  /** Bytes after a path do not change what it parses to. */
  lemma {:induction false} NodesExtend(b: seq<byte>, more: seq<byte>)
    requires Chain(b)
    ensures Chain(b + more) && Nodes(b + more) == Nodes(b) && SizeOf(b + more) == SizeOf(b)
    decreases |b|
  {
    var c := b + more;
    assert Len(c) == Len(b) && c[HEADER..Len(c)] == b[HEADER..Len(b)];
    if !IsEnd(b) {
      NodesExtend(Rest(b), more);
      assert Rest(c) == Rest(b) + more;
    }
  }

  /** The result begins with the first instance walked and all of `Src2`, terminator included. */
  lemma ResultBegins(src1: seq<byte>, src2: seq<byte>)
    requires WellFormed(src1)
    ensures Spliced(src1, src2, 0) <= Result(Iterated(src1), src2)
  {
    IteratedStep(src1);
    SplicedBytes(src1, src2, 0);
    AppendedCons(src1[..StopSize(src1, 0)], if Tail(src1) == [] then [] else Iterated(Tail(src1)), src2);
  }

  lemma AppendedCons(first: seq<byte>, others: seq<seq<byte>>, src2: seq<byte>)
    ensures first + src2 <= Result([first] + others, src2)
  {
    AppendedSplit([first], others, src2);
    AppendedOne(first, src2);
    var a := Appended([first] + others, src2);
    assert a == first + src2 + (END_INST + Appended(others, src2));
  }

  /** The result parses to the nodes of the first instance walked and those of `Src2`: the terminator of
      `Src2` hides the other instances. */
  lemma ResultNodes(src1: seq<byte>, src2: seq<byte>)
    requires WellFormed(src1) && Path(src2)
    ensures var r := Result(Iterated(src1), src2);
            Chain(r) && Nodes(r) == WalkedNodes(src1, 0) + Nodes(src2) && SizeOf(r) == StopSize(src1, 0) + |src2|
  {
    hide Result, Spliced, Iterated, Nodes, WalkedNodes, StopSize, WellFormed;
    ResultBegins(src1, src2);
    InstanceThenPath(src1, src2, 0);
    PathNodes(Spliced(src1, src2, 0), Result(Iterated(src1), src2));
  }

  lemma PathNodes(b: seq<byte>, r: seq<byte>)
    requires Chain(b) && b <= r
    ensures Chain(r) && Nodes(r) == Nodes(b) && SizeOf(r) == SizeOf(b)
  {
    NodesExtend(b, r[|b|..]);
    assert r == b + r[|b|..];
  }

  /** For one instance of at most 513 nodes the allocation is filled exactly. */
  lemma OneInstanceFills(src1: seq<byte>, src2: seq<byte>)
    requires WellFormed(src1) && |Instances(src1)| == 1 && NodeCount(src1) <= 513
    ensures Chain(src1) && Iterated(src1) == Instances(src1)
    ensures |Result(Iterated(src1), src2)| == SizeOf(src1) + |src2|
  {
    hide Iterated, Instances, Result, SizeOf, Short;
    OnlyInstance(src1);
    IteratedIff(src1);
    SizesAddUp(src1);
    ResultSize(Instances(src1), src2);
  }

  // ----- the documented promise

  /** `tail` appended to each instance. */
  function EachAppended(instances: seq<seq<byte>>, tail: seq<byte>): (r: seq<seq<byte>>)
    ensures |r| == |instances|
  {
    seq(|instances|, i requires 0 <= i < |instances| => instances[i] + tail)
  }

  lemma {:induction false} SplicedInstances(b: seq<byte>, t: seq<byte>, tail: seq<byte>, count: nat)
    requires WellFormed(b) && WellFormed(t) && Instances(t) == [tail]
    ensures WellFormed(Spliced(b, t, count))
    ensures Instances(Spliced(b, t, count)) == [b[..StopSize(b, count)] + tail]
    decreases |b|
  {
    hide Instances;
    if IsEndType(b) || count > 512 {
      assert b[..0] + tail == tail;
    } else {
      SplicedInstances(Rest(b), t, tail, count + 1);
      SplicedNode(b, t, count);
      var r, n := Spliced(b, t, count), Len(b);
      NodePrefix(b, Rest(b)[..StopSize(Rest(b), count + 1)], tail);
      SingleNode(r, Rest(b)[..StopSize(Rest(b), count + 1)] + tail);
    }
  }

  /** A node in front of a one-instance path. */
  lemma SingleNode(r: seq<byte>, only: seq<byte>)
    requires HasNode(r) && !IsEndType(r) && WellFormed(Rest(r)) && Instances(Rest(r)) == [only]
    ensures WellFormed(r) && Instances(r) == [r[..Len(r)] + only]
  {
  }

  lemma NodePrefix(b: seq<byte>, x: seq<byte>, tail: seq<byte>)
    requires HasNode(b) && x <= Rest(b)
    ensures b[..Len(b) + |x|] + tail == b[..Len(b)] + (x + tail)
  {
    assert b[..Len(b) + |x|] == b[..Len(b)] + x;
  }

  lemma {:induction false} InstancesExtend(b: seq<byte>, more: seq<byte>)
    requires WellFormed(b)
    ensures WellFormed(b + more) && Instances(b + more) == Instances(b)
    decreases |b|
  {
    var c := b + more;
    assert Len(c) == Len(b) && IsEndType(c) == IsEndType(b) && IsEnd(c) == IsEnd(b);
    if !IsEnd(b) {
      InstancesExtend(Rest(b), more);
      assert Rest(c) == Rest(b) + more && c[..Len(c)] == b[..Len(b)];
    }
  }

  /** Appending a one-instance path to every instance of `Src1`, as the comment promises, happens exactly when
      `Src1` has one instance and the walk sees all of it. */
  lemma EachInstanceIff(src1: seq<byte>, src2: seq<byte>, tail: seq<byte>)
    requires WellFormed(src1) && WellFormed(src2) && Instances(src2) == [tail]
    ensures var r := Result(Iterated(src1), src2);
            && WellFormed(r) && Instances(r) == [src1[..StopSize(src1, 0)] + tail]
            && (Instances(r) == EachAppended(Instances(src1), tail) <==>
                |Instances(src1)| == 1 && NodeCount(src1) <= 513)
  {
    var r := Result(Iterated(src1), src2);
    hide Result, Spliced, Iterated, Instances, WellFormed, InstanceSize, StopSize, Others, EachAppended, NodeCount;
    ResultBegins(src1, src2);
    SplicedInstances(src1, src2, tail, 0);
    FirstInstance(src1);
    WholeInstanceIff(src1);
    PathInstances(Spliced(src1, src2, 0), r);
    OnlyOneIff(Instances(src1), src1[..StopSize(src1, 0)], tail);
  }

  lemma OnlyOneIff(instances: seq<seq<byte>>, first: seq<byte>, tail: seq<byte>)
    requires instances != []
    ensures [first + tail] == EachAppended(instances, tail) <==> |instances| == 1 && first == instances[0]
  {
    if [first + tail] == EachAppended(instances, tail) {
      assert [first + tail][0] == EachAppended(instances, tail)[0];
      assert first == (first + tail)[..|first|] && instances[0] == (first + tail)[..|first|];
    }
  }

  /** Two empty instances and an empty `Src2`: one instance is left. */
  lemma OneInstanceLost()
    ensures var src1 := Joined(END_PATH, END_PATH);
            && WellFormed(src1) && Instances(src1) == [[], []] && Instances(END_PATH) == [[]]
            && WellFormed(Result(Iterated(src1), END_PATH))
            && Instances(Result(Iterated(src1), END_PATH)) != EachAppended(Instances(src1), [])
  {
    TwoEnds();
    EndAlone();
    var src1 := Joined(END_PATH, END_PATH);
    assert Instances(END_PATH) == [[]];
    hide Result, Iterated, Instances, WellFormed, Joined;
    EachInstanceIff(src1, END_PATH, []);
  }

  /** One instance of 514 nodes and an empty `Src2`: a node is lost. */
  lemma OneNodeLost() returns (src1: seq<byte>)
    ensures WellFormed(src1) && |Instances(src1)| == 1 && NodeCount(src1) == 514 && Instances(END_PATH) == [[]]
    ensures WellFormed(Result(Iterated(src1), END_PATH))
    ensures Instances(Result(Iterated(src1), END_PATH)) != EachAppended(Instances(src1), [])
  {
    EndAlone();
    assert Instances(END_PATH) == [[]];
    var n := 514;
    src1 := LongPath(n);
    hide LongPath, Result, Iterated, Instances, WellFormed;
    LongPathNodes(n);
    EachInstanceIff(src1, END_PATH, []);
  }

  lemma PathInstances(b: seq<byte>, r: seq<byte>)
    requires WellFormed(b) && b <= r
    ensures WellFormed(r) && Instances(r) == Instances(b)
  {
    InstancesExtend(b, r[|b|..]);
    assert r == b + r[|b|..];
  }

  // ----- one node

  /** `AppendDevicePathNode`: `Src2` is a single node without a terminator.  Of several instances only the
      first is left, as far as the walk sees it. */
  method AppendDevicePathNode(src1: seq<byte>, has1: bool, node: seq<byte>, outOfPool: bool, behind: seq<byte>)
    returns (dst: array?<byte>)
    requires HasNode(node) && Len(node) == |node| && !IsEndType(node)
    requires has1 ==> WellFormed(src1) && Chain(src1)
    requires has1 ==>
               |Result(Iterated(src1), node + END_PATH)|
               <= SizeOf(src1) * |Iterated(src1)| + |node| + HEADER + |behind|
    ensures dst == null <==> outOfPool
    ensures dst != null ==>
              && fresh(dst) && Chain(dst[..])
              && Nodes(dst[..])
              == (if has1 then WalkedNodes(src1, 0) else []) + [FirstNode(node), Node(END_TYPE, END_ENTIRE, [])]
  {
    if outOfPool {
      return null;
    }
    var temp := new byte[|node| + HEADER];
    CopyInto(temp, 0, node);
    CopyInto(temp, |node|, END_PATH);
    assert temp[..] == node + END_PATH;
    NodeThenEnd(node);
    hide Path, Chain, SizeOf, Nodes, WellFormed, Iterated, WalkedNodes, Result, FirstNode;
    ghost var terminated := temp[..];
    assert terminated[..|terminated|] == terminated;
    dst := AppendDevicePath(src1, has1, temp[..], true, false, behind);
    if has1 {
      ResultNodes(src1, terminated);
      PathNodes(Result(Iterated(src1), terminated), dst[..]);
    }
  }

  lemma EndAlone()
    ensures Chain(END_PATH) && WellFormed(END_PATH) && SizeOf(END_PATH) == HEADER
    ensures Nodes(END_PATH) == [Node(END_TYPE, END_ENTIRE, [])]
  {
    assert END_PATH[HEADER..HEADER] == [];
  }

  lemma NodeThenEnd(node: seq<byte>)
    requires HasNode(node) && Len(node) == |node| && !IsEndType(node)
    ensures Path(node + END_PATH) && WellFormed(node + END_PATH) && Chain(node + END_PATH)
    ensures SizeOf(node + END_PATH) == |node| + HEADER
    ensures Nodes(node + END_PATH) == [FirstNode(node), Node(END_TYPE, END_ENTIRE, [])]
  {
    assert node[..Len(node)] == node;
    NodeThen(node, END_PATH);
    EndAlone();
    ChainStep(node + END_PATH);
    WellFormedStep(node + END_PATH);
    hide Chain, WellFormed, SizeOf, Nodes;
  }

  lemma WellFormedStep(r: seq<byte>)
    requires HasNode(r) && !IsEndType(r) && WellFormed(Rest(r))
    ensures WellFormed(r)
  {
  }
}
