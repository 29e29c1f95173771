/** Binary device paths: the node macros of `inc/efidevp.h` and the walkers, appenders and unpacker of
    `lib/dpath.c` (section 9.3.1 of the UEFI Specification 2.4).

    A path is the bytes from its first node on; what follows its last node is not looked at. */
module DevicePath {
  import opened Memory

  const END_TYPE: byte := 0x7F
  const UNPACKED: byte := 0x80
  const END_ENTIRE: byte := 0xFF
  const END_INSTANCE: byte := 0x01
  const HEADER := 4

  /** The terminators `EndDevicePath` and `EndInstanceDevicePath`. */
  const END_PATH: seq<byte> := [END_TYPE, END_ENTIRE, 4, 0]
  const END_INST: seq<byte> := [END_TYPE, END_INSTANCE, 4, 0]

  // ----- one node

  function Len(b: seq<byte>): nat
    requires |b| >= HEADER
  {
    b[2] as int + 256 * (b[3] as int)
  }

  predicate IsEndType(b: seq<byte>)
    requires |b| >= HEADER
  {
    b[0] % UNPACKED == END_TYPE
  }

  predicate IsEnd(b: seq<byte>)
    requires |b| >= HEADER
  {
    IsEndType(b) && b[1] == END_ENTIRE
  }

  /** The first node has a header and a length that covers it and stays inside the bytes. */
  predicate HasNode(b: seq<byte>) {
    |b| >= HEADER && HEADER <= Len(b) <= |b|
  }

  /** `NextDevicePathNode`. */
  function Rest(b: seq<byte>): (r: seq<byte>)
    requires HasNode(b)
    ensures |r| < |b|
  {
    b[Len(b)..]
  }

  // ----- whole paths

  /** Nodes up to an End Entire node. */
  predicate Chain(b: seq<byte>)
    decreases |b|
  {
    HasNode(b) && (IsEnd(b) || Chain(Rest(b)))
  }

  /** A chain whose end nodes are bare headers, each ending an instance or the whole path. */
  predicate WellFormed(b: seq<byte>)
    decreases |b|
  {
    && HasNode(b)
    && (IsEndType(b) ==> Len(b) == HEADER && (b[1] == END_ENTIRE || b[1] == END_INSTANCE))
    && (IsEnd(b) || WellFormed(Rest(b)))
  }

  lemma {:induction false} WellFormedIsChain(b: seq<byte>)
    requires WellFormed(b)
    ensures Chain(b)
    decreases |b|
  {
    if !IsEnd(b) {
      WellFormedIsChain(Rest(b));
    }
  }

  /** What `DevicePathSize` measures: up to the End Entire header. */
  function SizeOf(b: seq<byte>): (n: nat)
    requires Chain(b)
    ensures HEADER <= n <= |b|
    decreases |b|
  {
    if IsEnd(b) then HEADER else Len(b) + SizeOf(Rest(b))
  }

  datatype Node = Node(kind: byte, subType: byte, payload: seq<byte>)

  function FirstNode(b: seq<byte>): Node
    requires HasNode(b)
  {
    Node(b[0], b[1], b[HEADER..Len(b)])
  }

  /** The nodes of a path, its End Entire node last. */
  function Nodes(b: seq<byte>): seq<Node>
    requires Chain(b)
    decreases |b|
  {
    [FirstNode(b)] + if IsEnd(b) then [] else Nodes(Rest(b))
  }

  /** Exactly the bytes of one well-formed path. */
  predicate Path(b: seq<byte>) {
    WellFormed(b) && Chain(b) && SizeOf(b) == |b|
  }

  /** The walk to the End Entire node. */
  method FindEnd(b: seq<byte>) returns (p: nat)
    requires Chain(b)
    ensures p + HEADER == SizeOf(b)
  {
    p := 0;
    assert b[0..] == b;
    while !IsEnd(b[p..])
      invariant p <= |b| && Chain(b[p..]) && p + SizeOf(b[p..]) == SizeOf(b)
      decreases |b| - p
    {
      assert Rest(b[p..]) == b[p + Len(b[p..])..];
      p := p + Len(b[p..]);
    }
  }

  method DevicePathSize(b: seq<byte>) returns (size: nat)
    requires Chain(b)
    ensures size == SizeOf(b)
  {
    var end := FindEnd(b);
    size := end + HEADER;
  }

  // ----- instances

  /** The bytes before the first end node. */
  function InstanceSize(b: seq<byte>): (n: nat)
    requires WellFormed(b)
    ensures n + HEADER <= |b|
    decreases |b|
  {
    if IsEndType(b) then 0 else Len(b) + InstanceSize(Rest(b))
  }

  lemma {:induction false} AfterInstance(b: seq<byte>)
    requires WellFormed(b)
    ensures var e := b[InstanceSize(b)..];
            && WellFormed(e) && IsEndType(e)
            && (IsEnd(e) || WellFormed(e[HEADER..]))
    decreases |b|
  {
    if !IsEndType(b) {
      AfterInstance(Rest(b));
      assert b[InstanceSize(b)..] == Rest(b)[InstanceSize(Rest(b))..];
    } else {
      assert b[0..] == b;
    }
  }

  /** The instances of a path, byte for byte, without their terminators: an end node closes one, any other
      node belongs to the one it is in. */
  function Instances(b: seq<byte>): (r: seq<seq<byte>>)
    requires WellFormed(b)
    ensures |r| > 0
    decreases |b|
  {
    if IsEnd(b) then [[]]
    else if IsEndType(b) then [[]] + Instances(Rest(b))
    else
      var r := Instances(Rest(b));
      [b[..Len(b)] + r[0]] + r[1..]
  }

  lemma PrependNode(b: seq<byte>, m: nat, more: seq<seq<byte>>)
    requires WellFormed(b) && !IsEndType(b) && m <= |Rest(b)|
    requires Instances(Rest(b)) == [Rest(b)[..m]] + more
    ensures Instances(b) == [b[..Len(b) + m]] + more
  {
    assert b[..Len(b) + m] == b[..Len(b)] + Rest(b)[..m];
    assert Instances(Rest(b))[1..] == more;
  }

  /** The instances after the first. */
  function Others(b: seq<byte>): seq<seq<byte>>
    requires WellFormed(b)
  {
    AfterInstance(b);
    var n := InstanceSize(b);
    if b[n + 1] == END_ENTIRE then [] else Instances(b[n + HEADER..])
  }

  lemma OthersNode(b: seq<byte>)
    requires WellFormed(b) && !IsEndType(b)
    ensures Others(b) == Others(Rest(b)) && InstanceSize(b) == Len(b) + InstanceSize(Rest(b))
  {
    hide Instances, WellFormed;
    InstanceStep(b);
    var n, m := Len(b), InstanceSize(Rest(b));
    assert Rest(b) == b[n..];
    assert b[n + m + 1] == b[n..][m + 1] && b[n + m + HEADER..] == b[n..][m + HEADER..];
  }

  lemma InstanceStep(b: seq<byte>)
    requires WellFormed(b) && !IsEndType(b)
    ensures HasNode(b) && WellFormed(Rest(b)) && InstanceSize(b) == Len(b) + InstanceSize(Rest(b))
  {
  }

  lemma OthersEnd(b: seq<byte>)
    requires WellFormed(b) && IsEndType(b)
    ensures Instances(b) == [b[..InstanceSize(b)]] + Others(b)
  {
    assert b[..0] == [] && b[HEADER..] == b[Len(b)..];
  }

  /** The first instance is what precedes the first end node, the others follow it. */
  lemma {:induction false} FirstInstance(b: seq<byte>)
    requires WellFormed(b)
    ensures Instances(b) == [b[..InstanceSize(b)]] + Others(b)
    decreases |b|
  {
    hide InstanceSize, Others, Instances;
    if IsEndType(b) {
      OthersEnd(b);
    } else {
      FirstInstance(Rest(b));
      OthersNode(b);
      PrependNode(b, InstanceSize(Rest(b)), Others(Rest(b)));
    }
  }

  /** Two paths that begin with the same node, not an End Entire one, and go on alike. */
  lemma InstancesFollow(b: seq<byte>, c: seq<byte>, more: seq<seq<byte>>)
    requires WellFormed(b) && WellFormed(c) && !IsEnd(b) && !IsEnd(c) && IsEndType(b) == IsEndType(c)
    requires b[..Len(b)] == c[..Len(c)] && Instances(Rest(c)) == Instances(Rest(b)) + more
    ensures Instances(c) == Instances(b) + more
  {
    hide WellFormed, InstanceSize;
  }

  // ----- `DevicePathInstance`

  /** Where its loop stops, `count` nodes on: at an end node, or past the 513th node. */
  function StopSize(b: seq<byte>, count: nat): (n: nat)
    requires WellFormed(b)
    ensures n + HEADER <= |b|
    decreases |b|
  {
    if IsEndType(b) || count > 512 then 0 else Len(b) + StopSize(Rest(b), count + 1)
  }

  lemma {:induction false} StopIsNode(b: seq<byte>, count: nat)
    requires WellFormed(b)
    ensures WellFormed(b[StopSize(b, count)..])
    ensures StopSize(b, count) <= InstanceSize(b)
    decreases |b|
  {
    if IsEndType(b) || count > 512 {
      assert b[0..] == b;
    } else {
      StopIsNode(Rest(b), count + 1);
      assert b[StopSize(b, count)..] == Rest(b)[StopSize(Rest(b), count + 1)..];
    }
  }

  function NodeCount(b: seq<byte>): nat
    requires WellFormed(b)
    decreases |b|
  {
    if IsEndType(b) then 0 else 1 + NodeCount(Rest(b))
  }

  /** The bytes left for the next call, or none after an End Entire (or after a node with its subtype). */
  function Tail(b: seq<byte>): (r: seq<byte>)
    requires WellFormed(b)
    ensures r != [] ==> WellFormed(r) && |r| < |b|
  {
    StopIsNode(b, 0);
    var stop := b[StopSize(b, 0)..];
    if stop[1] == END_ENTIRE then [] else Rest(stop)
  }

  /** `DevicePathInstance` from offset `at` of a path; a null result and a null next position are -1. */
  method DevicePathInstance(b: seq<byte>, at: int) returns (start: int, next: int, size: nat)
    requires -1 <= at <= |b| && (at >= 0 ==> WellFormed(b[at..]))
    ensures start == at && (at < 0 ==> next == -1)
    ensures at >= 0 ==>
              && size == StopSize(b[at..], 0) && at + size + HEADER <= |b|
              && (if Tail(b[at..]) == [] then next == -1 else at < next <= |b| && b[next..] == Tail(b[at..]))
  {
    start := at;
    if at < 0 {
      return at, -1, 0;
    }
    StopIsNode(b[at..], 0);
    var devPath := at;
    var count := 0;
    next := devPath + Len(b[devPath..]);
    while !IsEndType(b[devPath..]) && count <= 512
      invariant at <= devPath <= |b| && WellFormed(b[devPath..]) && count <= 513
      invariant devPath + StopSize(b[devPath..], count) == at + StopSize(b[at..], 0)
      invariant next == devPath + Len(b[devPath..])
      decreases |b| - devPath
    {
      assert Rest(b[devPath..]) == b[next..];
      devPath := next;
      next := devPath + Len(b[devPath..]);
      count := count + 1;
    }
    size := devPath - at;
    assert b[at..][size..] == b[devPath..];
    if b[devPath + 1] == END_ENTIRE {
      next := -1;
    } else {
      assert Rest(b[devPath..]) == b[next..];
    }
  }

  /** The call returns the whole instance exactly when it has at most 513 nodes. */
  lemma WholeInstanceIff(b: seq<byte>)
    requires WellFormed(b)
    ensures StopSize(b, 0) == InstanceSize(b) <==> NodeCount(b) <= 513
  {
    StopWithin(b, 0);
  }

  lemma {:induction false} StopWithin(b: seq<byte>, count: nat)
    requires WellFormed(b) && count <= 513
    ensures StopSize(b, count) == InstanceSize(b) <==> NodeCount(b) + count <= 513
    decreases |b|
  {
    if !IsEndType(b) && count <= 512 {
      StopWithin(Rest(b), count + 1);
    }
  }

  /** `n` nodes without payload, and the end. */
  function LongPath(n: nat): seq<byte> {
    if n == 0 then END_PATH else [1, 1, 4, 0] + LongPath(n - 1)
  }

  lemma {:induction false} LongPathNodes(n: nat)
    ensures WellFormed(LongPath(n)) && NodeCount(LongPath(n)) == n && |Instances(LongPath(n))| == 1
    ensures Chain(LongPath(n)) && SizeOf(LongPath(n)) == |LongPath(n)| == 4 * n + 4
    decreases n
  {
    if n > 0 {
      LongPathNodes(n - 1);
      assert LongPath(n)[4..] == LongPath(n - 1);
    }
  }

  /** From 514 nodes on there are well-formed instances that are cut. */
  lemma LongPathIsCut(n: nat)
    requires n >= 514
    ensures WellFormed(LongPath(n)) && NodeCount(LongPath(n)) == n
    ensures StopSize(LongPath(n), 0) < InstanceSize(LongPath(n))
  {
    LongPathNodes(n);
    hide LongPath;
    WholeInstanceIff(LongPath(n));
    StopIsNode(LongPath(n), 0);
  }

  /** Every instance has at most 513 nodes: so has what is left of it at each of its nodes. */
  predicate Short(b: seq<byte>)
    requires WellFormed(b)
    decreases |b|
  {
    NodeCount(b) <= 513 && (IsEnd(b) || Short(Rest(b)))
  }

  lemma {:induction false} ShortAfter(b: seq<byte>)
    requires WellFormed(b) && Short(b) && b[InstanceSize(b) + 1] != END_ENTIRE
    ensures WellFormed(b[InstanceSize(b) + HEADER..]) && Short(b[InstanceSize(b) + HEADER..])
    decreases |b|
  {
    if IsEndType(b) {
      assert b[HEADER..] == Rest(b);
    } else {
      var rest := Rest(b);
      assert rest[InstanceSize(rest) + 1] == b[InstanceSize(b) + 1];
      assert rest[InstanceSize(rest) + HEADER..] == b[InstanceSize(b) + HEADER..];
      ShortAfter(rest);
    }
  }

  /** What iterating the call yields. */
  function Iterated(b: seq<byte>): (r: seq<seq<byte>>)
    requires WellFormed(b)
    decreases |b|
  {
    [b[..StopSize(b, 0)]] + if Tail(b) == [] then [] else Iterated(Tail(b))
  }

  lemma ShortFirst(b: seq<byte>)
    requires WellFormed(b) && Short(b)
    ensures var n := InstanceSize(b);
            && StopSize(b, 0) == n
            && Tail(b) == (if b[n + 1] == END_ENTIRE then [] else b[n + HEADER..])
            && (b[n + 1] != END_ENTIRE ==> WellFormed(b[n + HEADER..]) && Short(b[n + HEADER..]))
  {
    var n := InstanceSize(b);
    WholeInstanceIff(b);
    AfterInstance(b);
    if b[n + 1] != END_ENTIRE {
      ShortAfter(b);
    }
    hide Short, StopSize, InstanceSize, NodeCount;
    var stop := b[n..];
    assert stop[1] == b[n + 1] && Rest(stop) == b[n + HEADER..];
  }

  lemma {:induction false} ShortFront(b: seq<byte>)
    requires WellFormed(b) && NodeCount(b) <= 513
    requires b[InstanceSize(b) + 1] != END_ENTIRE ==>
               WellFormed(b[InstanceSize(b) + HEADER..]) && Short(b[InstanceSize(b) + HEADER..])
    ensures Short(b)
    decreases |b|
  {
    if IsEndType(b) {
      assert b[HEADER..] == Rest(b);
    } else {
      var rest := Rest(b);
      assert rest[InstanceSize(rest) + 1] == b[InstanceSize(b) + 1];
      assert rest[InstanceSize(rest) + HEADER..] == b[InstanceSize(b) + HEADER..];
      ShortFront(rest);
    }
  }

  /** A path of one instance of at most 513 nodes is short. */
  lemma OnlyInstance(b: seq<byte>)
    requires WellFormed(b) && |Instances(b)| == 1 && NodeCount(b) <= 513
    ensures Short(b)
  {
    hide Short, NodeCount;
    FirstInstance(b);
    ShortFront(b);
  }

  lemma {:induction false} IteratedInstances(b: seq<byte>)
    requires WellFormed(b) && Short(b)
    ensures Iterated(b) == Instances(b)
    decreases |b|
  {
    hide WellFormed, Short, StopSize, InstanceSize, Tail;
    ShortFirst(b);
    FirstInstance(b);
    var n := InstanceSize(b);
    if b[n + 1] != END_ENTIRE {
      IteratedInstances(b[n + HEADER..]);
    }
  }

  lemma {:induction false} IteratedIsShort(b: seq<byte>)
    requires WellFormed(b) && Iterated(b) == Instances(b)
    ensures Short(b)
    decreases |b|
  {
    hide WellFormed, Short, StopSize, InstanceSize, Tail, Instances, NodeCount;
    IteratedStep(b);
    FirstInstance(b);
    StopIsNode(b, 0);
    WholeInstanceIff(b);
    var n, m := InstanceSize(b), StopSize(b, 0);
    assert Iterated(b)[0] == b[..m] && Instances(b)[0] == b[..n];
    TailAfter(b);
    if b[n + 1] != END_ENTIRE {
      assert Iterated(b)[1..] == Iterated(Tail(b)) && Instances(b)[1..] == Others(b);
      IteratedIsShort(Tail(b));
    }
    ShortFront(b);
  }

  /** Behind a whole instance the walk goes on at the next. */
  lemma TailAfter(b: seq<byte>)
    requires WellFormed(b) && StopSize(b, 0) == InstanceSize(b)
    ensures var n := InstanceSize(b);
            && Tail(b) == (if b[n + 1] == END_ENTIRE then [] else b[n + HEADER..])
            && (b[n + 1] != END_ENTIRE ==> WellFormed(b[n + HEADER..]) && Tail(b) != [])
  {
    AfterInstance(b);
    hide StopSize, InstanceSize;
    var n := InstanceSize(b);
    var stop := b[n..];
    assert stop[1] == b[n + 1];
    if stop[1] != END_ENTIRE {
      assert Rest(stop) == b[n + HEADER..];
    }
  }

  /** The iteration yields exactly the instances if and only if all of them are short. */
  lemma IteratedIff(b: seq<byte>)
    requires WellFormed(b)
    ensures Iterated(b) == Instances(b) <==> Short(b)
  {
    hide Iterated, Instances, Short;
    if Short(b) {
      IteratedInstances(b);
    }
    if Iterated(b) == Instances(b) {
      IteratedIsShort(b);
    }
  }

  lemma {:induction false} LongPathStop(n: nat, count: nat)
    requires n + count == 514 && n > 0
    ensures WellFormed(LongPath(n)) && StopSize(LongPath(n), count) == 4 * (n - 1)
    ensures LongPath(n)[4 * (n - 1)..] == LongPath(1)
    decreases n
  {
    LongPathNodes(n);
    var b, rest := LongPath(n), LongPath(n - 1);
    assert b[4..] == rest;
    if n > 1 {
      LongPathStop(n - 1, count + 1);
      assert Rest(b) == rest;
      assert b[4 * (n - 1)..] == rest[4 * (n - 2)..];
    } else {
      assert b[0..] == b;
    }
  }

  /** An instance of 514 nodes is walked as one of 513 and an empty one; the last node counts as terminator. */
  lemma LongPathWalked(n: nat)
    requires n == 514
    ensures var b := LongPath(n);
            && WellFormed(b) && 2052 <= |b| && Iterated(b) == [b[..2052], []]
  {
    LongPathNodes(n);
    LongPathStop(n, 0);
    var b, stop := LongPath(n), LongPath(1);
    LongPathNodes(1);
    assert LongPath(0) == END_PATH && stop == [1, 1, 4, 0] + END_PATH;
    hide LongPath;
    IteratedStep(b);
    assert Tail(b) == Rest(stop) == END_PATH;
    assert Iterated(END_PATH) == [[]];
  }

  /** What the walk yields is no more than the path. */
  lemma {:induction false} IteratedTotal(b: seq<byte>)
    requires WellFormed(b)
    ensures Chain(b) && TotalSize(Iterated(b)) <= SizeOf(b)
    decreases |b|
  {
    WellFormedIsChain(b);
    IteratedStep(b);
    StopIsNode(b, 0);
    SizeFromStop(b, 0);
    hide WellFormed, Iterated, StopSize;
    var stop := b[StopSize(b, 0)..];
    if Tail(b) == [] {
      assert TotalSize(Iterated(b)) == StopSize(b, 0) + HEADER;
    } else {
      IteratedTotal(Tail(b));
      assert Iterated(b)[1..] == Iterated(Tail(b));
    }
  }

  lemma {:induction false} SizeFromStop(b: seq<byte>, count: nat)
    requires WellFormed(b)
    ensures var stop := b[StopSize(b, count)..];
            && Chain(b) && Chain(stop) && SizeOf(b) == StopSize(b, count) + SizeOf(stop)
    decreases |b|
  {
    WellFormedIsChain(b);
    if IsEndType(b) || count > 512 {
      assert b[0..] == b;
    } else {
      SizeFromStop(Rest(b), count + 1);
      assert b[StopSize(b, count)..] == Rest(b)[StopSize(Rest(b), count + 1)..];
    }
  }

  lemma IteratedStep(b: seq<byte>)
    requires WellFormed(b)
    ensures Iterated(b) == [b[..StopSize(b, 0)]] + (if Tail(b) == [] then [] else Iterated(Tail(b)))
    ensures Tail(b) != [] ==> WellFormed(Tail(b))
  {
  }

  method DevicePathInstanceCount(b: seq<byte>) returns (count: nat)
    requires WellFormed(b)
    ensures count == |Iterated(b)|
    ensures Short(b) ==> count == |Instances(b)|
  {
    count := 0;
    assert b[0..] == b;
    var at, size := 0, 0;
    var start;
    while at >= 0
      invariant -1 <= at <= |b| && (at >= 0 ==> WellFormed(b[at..]))
      invariant count + (if at >= 0 then |Iterated(b[at..])| else 0) == |Iterated(b)|
      decreases if at >= 0 then |b| - at + 1 else 0
    {
      start, at, size := DevicePathInstance(b, at);
      count := count + 1;
    }
    if Short(b) {
      IteratedInstances(b);
    }
  }

  /** The instances and their terminators account for every byte. */
  function TotalSize(instances: seq<seq<byte>>): nat {
    if instances == [] then 0 else |instances[0]| + HEADER + TotalSize(instances[1..])
  }

  lemma {:induction false} SizesAddUp(b: seq<byte>)
    requires WellFormed(b)
    ensures Chain(b) && TotalSize(Instances(b)) == SizeOf(b)
    decreases |b|
  {
    WellFormedIsChain(b);
    if !IsEnd(b) {
      SizesAddUp(Rest(b));
      if IsEndType(b) {
        assert Instances(b)[1..] == Instances(Rest(b));
      } else {
        assert Instances(b)[1..] == Instances(Rest(b))[1..];
      }
    }
  }

  // ----- pool buffers

  /** `CopyMem` into a pool buffer from elsewhere. */
  method CopyInto(dst: array<byte>, at: nat, src: seq<byte>)
    requires at + |src| <= dst.Length
    modifies dst
    ensures dst[..] == old(dst[..at]) + src + old(dst[at + |src|..])
  {
    for k := 0 to |src|
      invariant forall i :: 0 <= i < dst.Length ==> dst[i] == if at <= i < at + k then src[i - at] else old(dst[i])
    {
      dst[at + k] := src[k];
    }
    assert dst[..] == old(dst[..at]) + src + old(dst[at + |src|..]);
  }

  method DuplicateDevicePath(b: seq<byte>, outOfPool: bool) returns (copy: array?<byte>)
    requires Chain(b)
    ensures copy == null <==> outOfPool
    ensures copy != null ==> fresh(copy) && copy[..] == b[..SizeOf(b)]
  {
    var size := DevicePathSize(b);
    if outOfPool {
      return null;
    }
    var pool := new byte[size];
    CopyInto(pool, 0, b[..size]);
    copy := pool;
  }

  // ----- `AppendDevicePathInstance`

  /** `s` with its End Entire turned into an End Instance, then `t`. */
  function Joined(s: seq<byte>, t: seq<byte>): seq<byte>
    requires |s| >= HEADER
  {
    s[..|s| - 4] + [s[|s| - 4], END_INSTANCE, s[|s| - 2], s[|s| - 1]] + t
  }

  /** The end header at `end` becomes an End Instance, and `inst` follows it. */
  method ContinueWith(ptr: array<byte>, end: nat, inst: seq<byte>)
    requires end + HEADER + |inst| == ptr.Length
    modifies ptr
    ensures ptr[..] == old(ptr[..])[end + 1 := END_INSTANCE][..end + HEADER] + inst
  {
    ptr[end + 1] := END_INSTANCE;
    CopyInto(ptr, end + HEADER, inst);
  }

  method JoinPaths(src: seq<byte>, inst: seq<byte>) returns (ptr: array<byte>)
    requires Path(src)
    ensures fresh(ptr) && ptr[..] == Joined(src, inst)
  {
    hide Path, Chain, SizeOf, Joined;
    ptr := new byte[|src| + |inst|];
    CopyInto(ptr, 0, src);
    ghost var pool := ptr[..];
    EndOfPool(src, pool);
    var devPath := FindEnd(ptr[..]);
    ContinueWith(ptr, devPath, inst);
    JoinBytes(src, pool, inst);
  }

  /** A missing `Src` gives a copy of the instance; the allocation is asserted to succeed. */
  method AppendDevicePathInstance(src: seq<byte>, hasSrc: bool, inst: seq<byte>) returns (ptr: array<byte>)
    requires (hasSrc ==> WellFormed(src) && Chain(src)) && WellFormed(inst) && Chain(inst)
    ensures fresh(ptr)
    ensures ptr[..] == if hasSrc then Joined(src[..SizeOf(src)], inst[..SizeOf(inst)]) else inst[..SizeOf(inst)]
  {
    hide WellFormed, Chain, SizeOf, Joined;
    if !hasSrc {
      var copy := DuplicateDevicePath(inst, false);
      return copy;
    }
    var srcSize := DevicePathSize(src);
    var instSize := DevicePathSize(inst);
    CutPath(src);
    ptr := JoinPaths(src[..srcSize], inst[..instSize]);
  }

  lemma EndOfPool(b: seq<byte>, pool: seq<byte>)
    requires Path(b) && b <= pool
    ensures Chain(pool) && SizeOf(pool) == |b|
  {
    ExtendPath(b, pool[|b|..]);
    assert pool == b + pool[|b|..];
  }

  lemma JoinBytes(s: seq<byte>, pool: seq<byte>, t: seq<byte>)
    requires HEADER <= |s| && s <= pool
    ensures pool[|s| - 3 := END_INSTANCE][..|s|] + t == Joined(s, t)
  {
  }

  lemma CutRest(b: seq<byte>)
    requires WellFormed(b) && Chain(b) && !IsEnd(b)
    ensures var c := b[..SizeOf(b)];
            && HasNode(c) && c[..Len(c)] == b[..Len(b)] && c[0] == b[0] && c[1] == b[1] && Len(c) == Len(b)
            && Rest(c) == Rest(b)[..SizeOf(Rest(b))]
  {
    var c, n := b[..SizeOf(b)], Len(b);
    assert c[..n] == b[..n];
    assert c[n..] == b[n..][..SizeOf(b[n..])];
  }

  lemma {:induction false} CutPath(b: seq<byte>)
    requires WellFormed(b)
    ensures Chain(b) && Path(b[..SizeOf(b)])
    decreases |b|
  {
    WellFormedIsChain(b);
    if !IsEnd(b) {
      CutRest(b);
      CutPath(Rest(b));
    }
  }

  /** Cutting off what follows a path leaves the path and its instances. */
  lemma {:induction false} CutInstances(b: seq<byte>)
    requires WellFormed(b)
    ensures Chain(b) && Path(b[..SizeOf(b)]) && Instances(b[..SizeOf(b)]) == Instances(b)
    decreases |b|
  {
    CutPath(b);
    var c := b[..SizeOf(b)];
    if !IsEnd(b) {
      CutRest(b);
      CutInstances(Rest(b));
      InstancesFollow(b, c, []);
    }
  }

  /** Bytes after a path are not looked at. */
  lemma {:induction false} ExtendPath(b: seq<byte>, more: seq<byte>)
    requires Path(b)
    ensures Chain(b + more) && SizeOf(b + more) == |b|
    decreases |b|
  {
    var c := b + more;
    assert Len(c) == Len(b) && IsEnd(c) == IsEnd(b);
    if !IsEnd(b) {
      ExtendPath(Rest(b), more);
      assert Rest(c) == Rest(b) + more;
    }
  }

  /** The first node of a joined path, when it is not the end of the first part, is that part's. */
  lemma JoinedRest(s: seq<byte>, t: seq<byte>)
    requires Path(s) && !IsEnd(s)
    ensures var r := Joined(s, t);
            && Path(Rest(s))
            && HasNode(r) && Len(r) == Len(s) && r[0] == s[0] && r[1] == s[1] && r[..Len(r)] == s[..Len(s)]
            && Rest(r) == Joined(Rest(s), t)
  {
    var r, n := Joined(s, t), Len(s);
    assert r[..n] == s[..n];
    assert r[n..] == Joined(s[n..], t);
  }

  lemma {:induction false} JoinedPath(s: seq<byte>, t: seq<byte>)
    requires Path(s) && Path(t)
    ensures Path(Joined(s, t)) && |Joined(s, t)| == |s| + |t|
    decreases |s|
  {
    var r := Joined(s, t);
    if IsEnd(s) {
      assert r[HEADER..] == t;
    } else {
      JoinedRest(s, t);
      hide Joined;
      JoinedPath(Rest(s), t);
    }
  }

  lemma JoinedAtEnd(s: seq<byte>, t: seq<byte>)
    requires Path(s) && IsEnd(s)
    ensures var r := Joined(s, t);
            HasNode(r) && Len(r) == HEADER && IsEndType(r) && !IsEnd(r) && Rest(r) == t
  {
  }

  /** Iterating over the joined path gives the instances of the one and then of the other. */
  lemma {:induction false} JoinedInstances(s: seq<byte>, t: seq<byte>)
    requires Path(s) && Path(t)
    ensures Path(Joined(s, t)) && Instances(Joined(s, t)) == Instances(s) + Instances(t)
    decreases |s|
  {
    hide Joined;
    JoinedPath(s, t);
    if IsEnd(s) {
      JoinedAtEnd(s, t);
    } else {
      JoinedRest(s, t);
      JoinedInstances(Rest(s), t);
      InstancesFollow(s, Joined(s, t), Instances(t));
    }
  }

  /** Short instances stay short, so iterating finds exactly these. */
  lemma {:induction false} JoinedShort(s: seq<byte>, t: seq<byte>)
    requires Path(s) && Path(t)
    ensures Path(Joined(s, t)) && (Short(Joined(s, t)) <==> Short(s) && Short(t))
    decreases |s|
  {
    JoinedPath(s, t);
    var r := Joined(s, t);
    if IsEnd(s) {
      assert r[HEADER..] == t;
    } else {
      JoinedRest(s, t);
      JoinedShort(Rest(s), t);
      JoinedNodeCount(s, t);
    }
  }

  lemma JoinedNodeCount(s: seq<byte>, t: seq<byte>)
    requires Path(s) && Path(t)
    ensures Path(Joined(s, t)) && NodeCount(Joined(s, t)) == NodeCount(s)
    decreases |s|
  {
    JoinedPath(s, t);
    if !IsEndType(s) {
      JoinedRest(s, t);
      JoinedNodeCount(Rest(s), t);
    }
  }

  /** Iterating `DevicePathInstance` over the result finds the instances of both, in order. */
  lemma JoinedIterates(s: seq<byte>, t: seq<byte>)
    requires Path(s) && Path(t) && Short(s) && Short(t)
    ensures Path(Joined(s, t)) && Iterated(Joined(s, t)) == Instances(s) + Instances(t)
  {
    hide Joined, Short, Iterated, Instances;
    JoinedShort(s, t);
    JoinedInstances(s, t);
    IteratedInstances(Joined(s, t));
  }

  // ----- `LibMatchDevicePaths`

  /** Comparing one path with an instance of another stops before the path ends: where the path has an end
      node the instance has none, so the type bytes differ. */
  lemma {:induction false} StopComparable(single: seq<byte>, b: seq<byte>, count: nat)
    requires Path(single) && WellFormed(b)
    ensures Comparable(single, b, StopSize(b, count))
    decreases |single|
  {
    var size := StopSize(b, count);
    forall k | 0 <= k < size && k <= |single| && k <= |b| && single[..k] == b[..k]
      ensures k < |single| && k < |b|
    {
      if k == |single| {
        assert forall i :: 0 <= i < k ==> single[i] == single[..k][i] == b[..k][i] == b[i];
        assert !IsEndType(single);
        var n := Len(single);
        var rest, next := Rest(single), Rest(b);
        assert rest[..k - n] == next[..k - n];
        StopComparable(rest, next, count + 1);
      }
    }
  }

  /** One turn of the loop: whether the instance at `at` begins `single`, and where the next one is. */
  method MatchInstance(multi: seq<byte>, at: nat, single: seq<byte>) returns (same: bool, next: int)
    requires at <= |multi| && WellFormed(multi[at..]) && Path(single)
    ensures same <==> multi[at..][..StopSize(multi[at..], 0)] <= single
    ensures if Tail(multi[at..]) == [] then next == -1 else at < next <= |multi| && multi[next..] == Tail(multi[at..])
  {
    ghost var here := multi[at..];
    var start, size;
    start, next, size := DevicePathInstance(multi, at);
    StopComparable(single, here, 0);
    var order := RtCompareMem(single, multi[start..], size);
    same := order == 0;
    assert here[..size] <= single <==> size <= |single| && single[..size] == here[..size];
  }

  /** TRUE exactly when the bytes of an instance of `multi`, as iterated, begin `single`. */
  method LibMatchDevicePaths(multi: seq<byte>, hasMulti: bool, single: seq<byte>, hasSingle: bool) returns (found: bool)
    requires hasMulti ==> WellFormed(multi)
    requires hasSingle ==> Path(single)
    ensures found <==> hasMulti && hasSingle && AnyPrefix(Iterated(multi), single)
    ensures hasMulti && hasSingle && Short(multi) ==>
              (found <==> AnyPrefix(Instances(multi), single))
  {
    if !hasMulti || !hasSingle {
      return false;
    }
    if Short(multi) {
      IteratedInstances(multi);
    }
    hide WellFormed, Short, Instances, Path, Iterated, Tail, StopSize;
    assert multi[0..] == multi;
    var at := 0;
    while at >= 0
      invariant -1 <= at <= |multi| && (at >= 0 ==> WellFormed(multi[at..]))
      invariant AnyPrefix(Iterated(multi), single) <==> at >= 0 && AnyPrefix(Iterated(multi[at..]), single)
      decreases if at >= 0 then |multi| - at + 1 else 0
    {
      AnyPrefixStep(multi[at..], single);
      var same;
      same, at := MatchInstance(multi, at, single);
      if same {
        return true;
      }
    }
    found := false;
  }

  ghost predicate AnyPrefix(list: seq<seq<byte>>, b: seq<byte>) {
    exists inst :: inst in list && inst <= b
  }

  lemma AnyPrefixStep(b: seq<byte>, single: seq<byte>)
    requires WellFormed(b)
    ensures AnyPrefix(Iterated(b), single) <==>
            b[..StopSize(b, 0)] <= single || (Tail(b) != [] && AnyPrefix(Iterated(Tail(b)), single))
    ensures Tail(b) != [] ==> WellFormed(Tail(b))
  {
    hide WellFormed, StopSize, Tail;
    var first, rest := b[..StopSize(b, 0)], if Tail(b) == [] then [] else Iterated(Tail(b));
    assert Iterated(b) == [first] + rest;
    assert first in [first] + rest && forall x :: x in [first] + rest <==> x == first || x in rest;
  }
}
