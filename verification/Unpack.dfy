/** `UnpackDevicePath` of `lib/dpath.c`: every node padded to the machine's alignment. */
module Unpack {
  import opened Memory
  import opened DevicePath

  predicate Multiple(n: nat, a: nat) {
    if a == 4 then n % 4 == 0 else n % 8 == 0
  }

  /** `ALIGN_SIZE`, for a `MIN_ALIGNMENT_SIZE` of 4 or 8. */
  function AlignSize(n: nat, a: nat): nat
    requires a == 4 || a == 8
  {
    var r := if a == 4 then n % 4 else n % 8;
    if r != 0 then a - r else 0
  }

  function Aligned(n: nat, a: nat): (m: nat)
    requires a == 4 || a == 8
    ensures Multiple(m, a) && n <= m < n + a
  {
    RoundsUp(n, a);
    n + AlignSize(n, a)
  }

  lemma RoundsUp(n: nat, a: nat)
    requires a == 4 || a == 8
    ensures Multiple(n + AlignSize(n, a), a) && AlignSize(n, a) < a
  {
    if a == 4 {
      Times4(if n % 4 == 0 then n / 4 else n / 4 + 1);
    } else {
      Times8(if n % 8 == 0 then n / 8 else n / 8 + 1);
    }
  }

  lemma Times4(k: nat)
    ensures 4 * k % 4 == 0
  {
  }

  lemma Times8(k: nat)
    ensures 8 * k % 8 == 0
  {
  }

  /** The first pass: the running total is rounded after each node. */
  function RoundedTotal(b: seq<byte>, total: nat, a: nat): nat
    requires Chain(b) && (a == 4 || a == 8)
    decreases |b|
  {
    var now := Aligned(total + Len(b), a);
    if IsEnd(b) then now else RoundedTotal(Rest(b), now, a)
  }

  function Zeros(n: nat): (z: seq<byte>)
    ensures |z| == n && forall i :: 0 <= i < n ==> z[i] == 0
  {
    if n == 0 then [] else [0] + Zeros(n - 1)
  }

  function Marked(t: byte): byte {
    if t < UNPACKED then t + UNPACKED else t
  }

  /** What the second pass writes for the first node: its length field keeps 16 bits. */
  function UnpackedNode(b: seq<byte>, a: nat): (r: seq<byte>)
    requires HasNode(b) && (a == 4 || a == 8)
    ensures |r| == Aligned(Len(b), a)
  {
    var size := Aligned(Len(b), a);
    [Marked(b[0]), b[1], size % 256, size / 256 % 256] + b[HEADER..Len(b)] + Zeros(size - Len(b))
  }

  function Unpacked(b: seq<byte>, a: nat): seq<byte>
    requires Chain(b) && (a == 4 || a == 8)
    decreases |b|
  {
    UnpackedNode(b, a) + if IsEnd(b) then [] else Unpacked(Rest(b), a)
  }

  lemma AlignSum4(k: nat, n: nat)
    ensures (4 * k + n) % 4 == n % 4
  {
  }

  lemma AlignSum8(k: nat, n: nat)
    ensures (8 * k + n) % 8 == n % 8
  {
  }

  lemma AlignSum(total: nat, n: nat, a: nat)
    requires (a == 4 || a == 8) && Multiple(total, a)
    ensures Aligned(total + n, a) == total + Aligned(n, a)
  {
    if a == 4 {
      AlignSum4(total / 4, n);
      assert 4 * (total / 4) == total;
    } else {
      AlignSum8(total / 8, n);
      assert 8 * (total / 8) == total;
    }
  }

  /** Rounding the running total allocates exactly what rounding each node writes. */
  lemma {:induction false} PassesAgree(b: seq<byte>, total: nat, a: nat)
    requires Chain(b) && (a == 4 || a == 8) && Multiple(total, a)
    ensures RoundedTotal(b, total, a) == total + |Unpacked(b, a)|
    decreases |b|
  {
    AlignSum(total, Len(b), a);
    if !IsEnd(b) {
      PassesAgree(Rest(b), Aligned(total + Len(b), a), a);
    }
  }

  lemma RoundedStep(b: seq<byte>, total: nat, a: nat)
    requires Chain(b) && (a == 4 || a == 8)
    ensures HasNode(b) && Aligned(total + Len(b), a) == total + Len(b) + AlignSize(total + Len(b), a)
    ensures IsEnd(b) ==> RoundedTotal(b, total, a) == Aligned(total + Len(b), a)
    ensures !IsEnd(b) ==>
              Chain(Rest(b)) && RoundedTotal(b, total, a) == RoundedTotal(Rest(b), Aligned(total + Len(b), a), a)
  {
  }

  method TotalSizePass(b: seq<byte>, a: nat) returns (size: nat)
    requires Chain(b) && (a == 4 || a == 8)
    ensures size == RoundedTotal(b, 0, a)
  {
    hide Chain, RoundedTotal, Aligned, AlignSize, IsEnd;
    size := 0;
    var src := 0;
    assert b[0..] == b;
    while true
      invariant src <= |b| && Chain(b[src..]) && RoundedTotal(b[src..], size, a) == RoundedTotal(b, 0, a)
      decreases |b| - src
    {
      RoundedStep(b[src..], size, a);
      size := size + Len(b[src..]);
      size := size + AlignSize(size, a);
      if IsEnd(b[src..]) {
        break;
      }
      assert Rest(b[src..]) == b[src + Len(b[src..])..];
      src := src + Len(b[src..]);
    }
  }

  lemma UnpackedAt(b: seq<byte>, a: nat, i: nat)
    requires HasNode(b) && (a == 4 || a == 8) && i < Aligned(Len(b), a)
    ensures var size := Aligned(Len(b), a);
            UnpackedNode(b, a)[i] ==
            if i == 0 then Marked(b[0]) else if i == 1 then b[1]
            else if i == 2 then size % 256 else if i == 3 then size / 256 % 256
            else if i < Len(b) then b[i] else 0
  {
    hide Aligned;
  }

  /** One node copied into zeroed memory, its length rounded and its type marked. */
  method WriteNode(pool: array<byte>, dest: nat, node: seq<byte>, a: nat) returns (next: nat)
    requires HasNode(node) && (a == 4 || a == 8) && dest + Aligned(Len(node), a) <= pool.Length
    requires forall i :: dest <= i < pool.Length ==> pool[i] == 0
    modifies pool
    ensures next == dest + Aligned(Len(node), a)
    ensures forall i :: 0 <= i < dest ==> pool[i] == old(pool[i])
    ensures forall i :: dest <= i < next ==> pool[i] == UnpackedNode(node, a)[i - dest]
    ensures forall i :: next <= i < pool.Length ==> pool[i] == 0
  {
    hide UnpackedNode;
    var size := Len(node);
    CopyInto(pool, dest, node[..size]);
    assert forall i :: 0 <= i < pool.Length ==> pool[i] == if dest <= i < dest + size then node[i - dest] else old(pool[i]);
    size := size + AlignSize(size, a);
    SetLength(pool, dest, size);
    pool[dest] := Marked(pool[dest]);
    next := dest + size;
    forall i | dest <= i < next
      ensures pool[i] == UnpackedNode(node, a)[i - dest]
    {
      UnpackedAt(node, a, i - dest);
    }
  }

  /** `SetDevicePathNodeLength`. */
  method SetLength(pool: array<byte>, at: nat, l: nat)
    requires at + HEADER <= pool.Length
    modifies pool
    ensures forall i :: 0 <= i < pool.Length ==>
              pool[i] == if i == at + 2 then l % 256 else if i == at + 3 then l / 256 % 256 else old(pool[i])
  {
    pool[at + 2] := l % 256;
    pool[at + 3] := l / 256 % 256;
  }

  method UnpackDevicePath(b: seq<byte>, a: nat, outOfPool: bool) returns (newPath: array?<byte>)
    requires Chain(b) && (a == 4 || a == 8)
    ensures newPath == null <==> outOfPool
    ensures newPath != null ==> fresh(newPath) && newPath[..] == Unpacked(b, a)
  {
    hide UnpackedNode, Aligned, RoundedTotal, Unpacked, Chain;
    var size := TotalSizePass(b, a);
    PassesAgree(b, 0, a);
    if outOfPool {
      return null;
    }
    var pool := new byte[size](i => 0);
    var src, dest := 0, 0;
    assert b[0..] == b;
    ghost var all := Unpacked(b, a);
    while true
      invariant 0 <= src <= |b| && 0 <= dest <= pool.Length == |all| && Chain(b[src..])
      invariant Unpacked(b[src..], a) == all[dest..]
      invariant forall i :: 0 <= i < dest ==> pool[i] == all[i]
      invariant forall i :: dest <= i < pool.Length ==> pool[i] == 0
      decreases |b| - src
    {
      ghost var here := b[src..];
      UnpackedStep(here, a);
      Follows(all, dest, UnpackedNode(here, a), if IsEnd(here) then [] else Unpacked(Rest(here), a));
      dest := WriteNode(pool, dest, b[src..], a);
      if IsEnd(b[src..]) {
        break;
      }
      assert Rest(here) == b[src + Len(here)..];
      src := src + Len(b[src..]);
    }
    assert pool[..] == all;
    newPath := pool;
  }

  lemma Follows(all: seq<byte>, at: nat, piece: seq<byte>, more: seq<byte>)
    requires at <= |all| && all[at..] == piece + more
    ensures at + |piece| <= |all| && all[at + |piece|..] == more
    ensures forall i :: 0 <= i < |piece| ==> all[at + i] == piece[i]
  {
    assert forall i :: 0 <= i < |piece| ==> all[at + i] == (piece + more)[i];
    assert all[at + |piece|..] == (piece + more)[|piece|..];
  }

  lemma UnpackedStep(b: seq<byte>, a: nat)
    requires Chain(b) && (a == 4 || a == 8)
    ensures HasNode(b) && (!IsEnd(b) ==> Chain(Rest(b)))
    ensures Unpacked(b, a) == UnpackedNode(b, a) + if IsEnd(b) then [] else Unpacked(Rest(b), a)
  {
  }

  // ----- what the result parses to

  /** The same node with its type marked and its payload padded with zeros. */
  function Padded(n: Node, a: nat): Node
    requires a == 4 || a == 8
  {
    var size := HEADER + |n.payload|;
    Node(Marked(n.kind), n.subType, n.payload + Zeros(Aligned(size, a) - size))
  }

  function PaddedAll(nodes: seq<Node>, a: nat): seq<Node>
    requires a == 4 || a == 8
  {
    if nodes == [] then [] else [Padded(nodes[0], a)] + PaddedAll(nodes[1..], a)
  }

  /** Every rounded length fits the 16-bit length field. */
  predicate LengthsFit(b: seq<byte>, a: nat)
    requires Chain(b) && (a == 4 || a == 8)
    decreases |b|
  {
    Aligned(Len(b), a) <= 0xFFFF && (IsEnd(b) || LengthsFit(Rest(b), a))
  }

  lemma FitsStep(b: seq<byte>, a: nat)
    requires Chain(b) && (a == 4 || a == 8) && LengthsFit(b, a)
    ensures HasNode(b) && Aligned(Len(b), a) <= 0xFFFF
    ensures !IsEnd(b) ==> Chain(Rest(b)) && LengthsFit(Rest(b), a)
  {
  }

  lemma LengthField(n: nat)
    requires n <= 0xFFFF
    ensures n % 256 + 256 * (n / 256 % 256) == n
  {
  }

  lemma MarkedKind(t: byte)
    ensures Marked(t) % UNPACKED == t % UNPACKED
  {
  }

  /** The first node of an unpacked path, whose rounded length fits. */
  lemma UnpackedFirst(b: seq<byte>, a: nat, more: seq<byte>)
    requires HasNode(b) && (a == 4 || a == 8) && Aligned(Len(b), a) <= 0xFFFF
    ensures var r := UnpackedNode(b, a) + more;
            && HasNode(r) && Len(r) == Aligned(Len(b), a) && Rest(r) == more && IsEnd(r) == IsEnd(b)
            && FirstNode(r) == Padded(FirstNode(b), a)
  {
    hide Aligned, Marked, Zeros;
    var r, u := UnpackedNode(b, a) + more, UnpackedNode(b, a);
    LengthField(Aligned(Len(b), a));
    MarkedKind(b[0]);
    assert r[0] == u[0] && r[1] == u[1] && r[2] == u[2] && r[3] == u[3];
    assert r[..|u|] == u && r[|u|..] == more;
    assert r[HEADER..|u|] == b[HEADER..Len(b)] + Zeros(Aligned(Len(b), a) - Len(b));
  }

  /** Node for node the result is the original with padding, when every rounded length fits. */
  lemma {:induction false} UnpackedNodes(b: seq<byte>, a: nat)
    requires Chain(b) && (a == 4 || a == 8) && LengthsFit(b, a)
    ensures Chain(Unpacked(b, a)) && Nodes(Unpacked(b, a)) == PaddedAll(Nodes(b), a)
    ensures SizeOf(Unpacked(b, a)) <= |Unpacked(b, a)|
    decreases |b|
  {
    hide UnpackedNode, Padded, FirstNode, Aligned;
    var more := if IsEnd(b) then [] else Unpacked(Rest(b), a);
    UnpackedFirst(b, a, more);
    if !IsEnd(b) {
      UnpackedNodes(Rest(b), a);
    }
    assert Nodes(b)[1..] == if IsEnd(b) then [] else Nodes(Rest(b));
  }

  /** Node by node: as many as before, each with the unpacked bit set and its type and subtype kept, its
      payload in front and zeros behind it, up to the next multiple of the alignment and no further. */
  lemma {:induction false} UnpackedEach(b: seq<byte>, a: nat, k: nat)
    requires Chain(b) && (a == 4 || a == 8) && LengthsFit(b, a)
    ensures Chain(Unpacked(b, a)) && |Nodes(Unpacked(b, a))| == |Nodes(b)|
    ensures k < |Nodes(b)| ==>
              var was, now := Nodes(b)[k], Nodes(Unpacked(b, a))[k];
              && now.kind >= 0x80 && now.kind % 0x80 == was.kind % 0x80 && now.subType == was.subType
              && was.payload <= now.payload
              && (forall i :: |was.payload| <= i < |now.payload| ==> now.payload[i] == 0)
              && |now.payload| < |was.payload| + a
              && (if a == 4 then (4 + |now.payload|) % 4 == 0 else (4 + |now.payload|) % 8 == 0)
  {
    hide Unpacked, LengthsFit, Chain, Nodes, Padded;
    UnpackedNodes(b, a);
    PaddedAllAt(Nodes(b), a, k);
    if k < |Nodes(b)| {
      PaddedParts(Nodes(b)[k], a);
    }
  }

  lemma PaddedParts(n: Node, a: nat)
    requires a == 4 || a == 8
    ensures var p := Padded(n, a);
            && p.kind >= 0x80 && p.kind % 0x80 == n.kind % 0x80 && p.subType == n.subType
            && n.payload <= p.payload && (forall i :: |n.payload| <= i < |p.payload| ==> p.payload[i] == 0)
            && 4 + |p.payload| < 4 + |n.payload| + a && Multiple(4 + |p.payload|, a)
  {
    hide AlignSize, Multiple, Aligned;
  }

  lemma {:induction false} PaddedAllAt(nodes: seq<Node>, a: nat, k: nat)
    requires a == 4 || a == 8
    ensures |PaddedAll(nodes, a)| == |nodes|
    ensures k < |nodes| ==> PaddedAll(nodes, a)[k] == Padded(nodes[k], a)
    decreases |nodes|
  {
    hide Padded;
    if nodes != [] {
      PaddedAllAt(nodes[1..], a, if k > 0 then k - 1 else 0);
    }
  }

  /** One node of five bytes and the end, byte for byte. */
  lemma UnpackedExample(x: byte)
    ensures var b := [1, 2, 5, 0, x] + [0x7F, 0xFF, 4, 0];
            Chain(b) && Unpacked(b, 4) == [0x81, 2, 8, 0, x, 0, 0, 0] + [0xFF, 0xFF, 4, 0]
  {
    hide UnpackedNode, Unpacked, Chain, Aligned, IsEnd, AlignSize;
    var b, end: seq<byte> := [1, 2, 5, 0, x] + [0x7F, 0xFF, 4, 0], [0x7F, 0xFF, 4, 0];
    assert Rest(b) == end && HasNode(end);
    ExampleEnds(b, end);
    LastOfChain(end);
    MoreOfChain(b);
    ExampleNode(b, 3, [0x81, 2, 8, 0, x, 0, 0, 0], 4);
    ExampleNode(end, 0, [0xFF, 0xFF, 4, 0], 4);
    UnpackedStep(end, 4);
    UnpackedStep(b, 4);
    assert [0xFF, 0xFF, 4, 0] + [] == [0xFF, 0xFF, 4, 0];
  }

  lemma ExampleEnds(b: seq<byte>, end: seq<byte>)
    requires |b| > 4 && b[0] == 1 && |end| == 4 && end[0] == 0x7F && end[1] == 0xFF
    ensures !IsEnd(b) && IsEnd(end) && AlignSize(5, 4) == 3 && AlignSize(4, 4) == 0
  {
  }

  lemma LastOfChain(b: seq<byte>)
    requires HasNode(b) && IsEnd(b)
    ensures Chain(b)
  {
  }

  lemma MoreOfChain(b: seq<byte>)
    requires HasNode(b) && Chain(Rest(b))
    ensures Chain(b)
  {
  }

  /** A node of small size with its bytes written out. */
  lemma ExampleNode(b: seq<byte>, pad: nat, bytes: seq<byte>, a: nat)
    requires HasNode(b) && (a == 4 || a == 8) && Len(b) < 256 && AlignSize(Len(b), a) == pad
    requires |bytes| == Len(b) + pad
    requires bytes[0] == Marked(b[0]) && bytes[1] == b[1] && bytes[2] == Len(b) + pad && bytes[3] == 0
    requires Len(b) + pad < 256
    requires forall i :: 4 <= i < |bytes| ==> bytes[i] == if i < Len(b) then b[i] else 0
    ensures UnpackedNode(b, a) == bytes
  {
    hide UnpackedNode;
    forall i | 0 <= i < |bytes|
      ensures UnpackedNode(b, a)[i] == bytes[i]
    {
      UnpackedAt(b, a, i);
    }
  }

  /** A length that rounds to 65536 is stored as zero, and the result is no path. */
  lemma {:induction false} UnpackedParsesIff(b: seq<byte>, a: nat)
    requires Chain(b) && (a == 4 || a == 8)
    ensures Chain(Unpacked(b, a)) <==> LengthsFit(b, a)
    decreases |b|
  {
    hide Aligned;
    var more := if IsEnd(b) then [] else Unpacked(Rest(b), a);
    if Aligned(Len(b), a) <= 0xFFFF {
      UnpackedFirst(b, a, more);
      if !IsEnd(b) {
        UnpackedParsesIff(Rest(b), a);
      }
    } else {
      TooLong(b, a);
      assert Len(UnpackedNode(b, a) + more) == Len(UnpackedNode(b, a)) == 0;
    }
  }

  /** A node of 65533 bytes, and the end. */
  function LongNode(zeros: seq<byte>): seq<byte> {
    [1, 1, 0xFD, 0xFF] + zeros + END_PATH
  }

  /** Such a path is well-formed, and what it unpacks to is not. */
  lemma LongNodeIsLost(a: nat) returns (b: seq<byte>)
    requires a == 4 || a == 8
    ensures Path(b) && Len(b) == 65533 && !Chain(Unpacked(b, a))
  {
    hide Zeros, Unpacked;
    var zeros := Zeros(65529);
    b := LongNode(zeros);
    assert |b| == 65537 && b[0] == 1 && b[1] == 1 && b[2] == 0xFD && b[3] == 0xFF;
    assert b[65533..] == END_PATH;
    assert Chain(END_PATH) && SizeOf(END_PATH) == HEADER;
    assert Len(b) == 65533 && Rest(b) == END_PATH;
    assert WellFormed(END_PATH) && WellFormed(b);
    assert Chain(b) && SizeOf(b) == 65537;
    assert Aligned(65533, a) == 65536;
    assert !LengthsFit(b, a);
    UnpackedParsesIff(b, a);
  }

  lemma TooLong(b: seq<byte>, a: nat)
    requires HasNode(b) && (a == 4 || a == 8) && Aligned(Len(b), a) > 0xFFFF
    ensures Len(UnpackedNode(b, a)) == 0
  {
    assert Len(b) <= 0xFFFF && Aligned(Len(b), a) == 0x1_0000;
  }

  /** The offsets of the nodes of a path. */
  function Offsets(b: seq<byte>, at: nat): seq<nat>
    requires Chain(b)
    decreases |b|
  {
    [at] + if IsEnd(b) then [] else Offsets(Rest(b), at + Len(b))
  }

  predicate AllMultiples(offsets: seq<nat>, a: nat) {
    forall o :: o in offsets ==> Multiple(o, a)
  }

  lemma OffsetsStep(u: seq<byte>, at: nat, a: nat)
    requires Chain(u) && Multiple(at, a)
    requires IsEnd(u) || AllMultiples(Offsets(Rest(u), at + Len(u)), a)
    ensures AllMultiples(Offsets(u, at), a)
  {
  }

  lemma MultipleSum(m: nat, n: nat, a: nat)
    requires Multiple(m, a) && Multiple(n, a)
    ensures Multiple(m + n, a)
  {
    if a == 4 {
      AlignSum4(m / 4, n);
      assert 4 * (m / 4) == m;
    } else {
      AlignSum8(m / 8, n);
      assert 8 * (m / 8) == m;
    }
  }

  /** Every node of the result starts at a multiple of the alignment. */
  lemma {:induction false} OffsetsAligned(b: seq<byte>, a: nat, at: nat)
    requires Chain(b) && (a == 4 || a == 8) && LengthsFit(b, a) && Multiple(at, a)
    ensures Chain(Unpacked(b, a)) && AllMultiples(Offsets(Unpacked(b, a), at), a)
    decreases |b|
  {
    hide UnpackedNode, Aligned, Offsets, AllMultiples, Multiple, Unpacked, FirstNode, Padded;
    hide Chain, LengthsFit, Rest, Len, IsEnd, HasNode;
    UnpackedParsesIff(b, a);
    UnpackedStep(b, a);
    FitsStep(b, a);
    UnpackedFirst(b, a, if IsEnd(b) then [] else Unpacked(Rest(b), a));
    if !IsEnd(b) {
      MultipleSum(at, Aligned(Len(b), a), a);
      OffsetsAligned(Rest(b), a, at + Aligned(Len(b), a));
    }
    OffsetsStep(Unpacked(b, a), at, a);
  }
}
