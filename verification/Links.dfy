/** The circular doubly linked list macros of `inc/efilink.h`. */
module Links {
  class ListEntry {
    var Flink: ListEntry
    var Blink: ListEntry

    /** `InitializeListHead`: a head that links to itself. */
    constructor ()
      ensures Ring([this])
    {
      Flink := this;
      Blink := this;
    }
  }

  function Next(i: nat, n: nat): nat
    requires i < n
  {
    if i + 1 == n then 0 else i + 1
  }

  ghost predicate Distinct(nodes: seq<ListEntry>) {
    forall i, j :: 0 <= i < j < |nodes| ==> nodes[i] != nodes[j]
  }

  ghost predicate Linked(a: ListEntry, b: ListEntry)
    reads a, b
  {
    a.Flink == b && b.Blink == a
  }

  /** `nodes` is the whole circle, read from one of its entries onwards: following `Flink` walks it
      forwards and `Blink` backwards. */
  ghost predicate Ring(nodes: seq<ListEntry>)
    reads nodes
  {
    && |nodes| > 0
    && Distinct(nodes)
    && forall i :: 0 <= i < |nodes| ==> Linked(nodes[i], nodes[Next(i, |nodes|)])
  }

  lemma LinksAgree(nodes: seq<ListEntry>, e: ListEntry)
    requires Ring(nodes) && e in nodes
    ensures e.Flink in nodes && e.Blink in nodes && e.Flink.Blink == e && e.Blink.Flink == e
  {
    var i :| 0 <= i < |nodes| && nodes[i] == e;
    var before := if i == 0 then |nodes| - 1 else i - 1;
    assert Linked(nodes[before], nodes[Next(before, |nodes|)]);
    assert Linked(nodes[i], nodes[Next(i, |nodes|)]);
  }

  /** A circle can be read from any of its entries. */
  lemma Rotate(a: seq<ListEntry>, b: seq<ListEntry>)
    requires Ring(a + b)
    ensures Ring(b + a)
  {
    var nodes, turned, n := a + b, b + a, |a + b|;
    forall i | 0 <= i < n
      ensures Linked(turned[i], turned[Next(i, n)])
    {
      var k := if i < |b| then |a| + i else i - |b|;
      assert Linked(nodes[k], nodes[Next(k, n)]);
      assert turned[i] == nodes[k];
      assert turned[Next(i, n)] == nodes[Next(k, n)];
    }
    forall i, j | 0 <= i < j < n
      ensures turned[i] != turned[j]
    {
      var k, l := if i < |b| then |a| + i else i - |b|, if j < |b| then |a| + j else j - |b|;
      assert turned[i] == nodes[k] && turned[j] == nodes[l];
    }
  }

  method InsertTailList(listHead: ListEntry, entry: ListEntry, ghost nodes: seq<ListEntry>)
    requires Ring(nodes) && listHead == nodes[0] && entry !in nodes
    modifies entry, nodes[0], nodes[|nodes| - 1]
    ensures Ring(nodes + [entry])
  {
    var head := listHead;
    assert Linked(nodes[|nodes| - 1], nodes[Next(|nodes| - 1, |nodes|)]);
    var blink := head.Blink;
    entry.Flink := head;
    entry.Blink := blink;
    blink.Flink := entry;
    head.Blink := entry;
    ghost var now, n := nodes + [entry], |nodes| + 1;
    forall i | 0 <= i < n
      ensures Linked(now[i], now[Next(i, n)])
    {
      if i < n - 1 {
        assert old(Linked(nodes[i], nodes[Next(i, n - 1)]));
      }
    }
  }

  method InsertHeadList(listHead: ListEntry, entry: ListEntry, ghost nodes: seq<ListEntry>)
    requires Ring(nodes) && listHead == nodes[0] && entry !in nodes
    modifies entry, nodes[0], nodes[Next(0, |nodes|)]
    ensures Ring([nodes[0], entry] + nodes[1..])
  {
    var head := listHead;
    assert Linked(nodes[0], nodes[Next(0, |nodes|)]);
    var flink := head.Flink;
    entry.Flink := flink;
    entry.Blink := head;
    flink.Blink := entry;
    head.Flink := entry;
    ghost var now, n := [nodes[0], entry] + nodes[1..], |nodes| + 1;
    forall i | 0 <= i < n
      ensures Linked(now[i], now[Next(i, n)])
    {
      if i > 1 {
        assert old(Linked(nodes[i - 1], nodes[Next(i - 1, n - 1)]));
      }
    }
  }

  function Without<T>(s: seq<T>, k: nat): (r: seq<T>)
    requires k < |s|
    ensures |r| == |s| - 1
  {
    s[..k] + s[k + 1..]
  }

  /** `_RemoveEntryList`; the removed entry keeps its own links. */
  method RemoveEntryList(entry: ListEntry, ghost nodes: seq<ListEntry>, ghost k: nat)
    requires Ring(nodes) && k < |nodes| && entry == nodes[k] && |nodes| > 1
    modifies nodes
    ensures Ring(Without(nodes, k))
    ensures entry.Flink == old(entry.Flink) && entry.Blink == old(entry.Blink)
  {
    ghost var a, b := nodes[..k], nodes[k + 1..];
    ghost var rest := b + a;
    assert nodes == (a + [entry]) + b;
    Rotate(a + [entry], b);
    assert b + (a + [entry]) == rest + [entry];
    RemoveLast(entry, rest);
    Rotate(b, a);
  }

  method RemoveLast(entry: ListEntry, ghost rest: seq<ListEntry>)
    requires |rest| > 0 && Ring(rest + [entry])
    modifies rest
    ensures Ring(rest)
  {
    ghost var nodes, n := rest + [entry], |rest|;
    assert Linked(nodes[n - 1], nodes[Next(n - 1, n + 1)]) && Linked(nodes[n], nodes[Next(n, n + 1)]);
    var flink := entry.Flink;
    var blink := entry.Blink;
    blink.Flink := flink;
    flink.Blink := blink;
    forall i | 0 <= i < n
      ensures Linked(rest[i], rest[Next(i, n)])
    {
      assert old(Linked(nodes[i], nodes[Next(i, n + 1)]));
    }
    assert forall i, j :: 0 <= i < j < n ==> rest[i] == nodes[i] && rest[j] == nodes[j];
  }

  /** The entry at `j` taken out and put back in front of the entry at `i`. */
  function MovedBefore<T>(s: seq<T>, j: nat, i: nat): (r: seq<T>)
    requires i < |s| && j < |s| && i != j
    ensures |r| == |s|
  {
    if j < i then s[..j] + s[j + 1..i] + [s[j]] + s[i..]
    else s[..i] + [s[j]] + s[i..j] + s[j + 1..]
  }

  lemma Reordered(rest: seq<ListEntry>, e: ListEntry, m: nat)
    requires Distinct(rest + [e]) && m <= |rest|
    ensures Distinct(rest[..m] + [e] + rest[m..])
  {
    var nodes, now := rest + [e], rest[..m] + [e] + rest[m..];
    forall i, j | 0 <= i < j < |now|
      ensures now[i] != now[j]
    {
      var k, l := if i < m then i else if i == m then |rest| else i - 1,
                  if j < m then j else if j == m then |rest| else j - 1;
      assert now[i] == nodes[k] && now[j] == nodes[l];
    }
  }

  /** The assignments of `SwapListEntries`, on the circle read so that Entry2 comes last. */
  method SwapLinks(entry1: ListEntry, entry2: ListEntry, ghost rest: seq<ListEntry>, ghost m: nat)
    requires Ring(rest + [entry2])
    requires m <= |rest| && entry1 == (rest + [entry2])[m]
    modifies rest, entry2
    ensures rest == [] ==> Ring([entry2])
    ensures 0 < m < |rest| ==> Ring(rest[..m] + [entry2] + rest[m..])
    ensures rest != [] && (m == 0 || m == |rest|) ==>
              rest[|rest| - 1].Flink == entry1 && entry1.Blink == entry2 && entry2.Flink == entry2
  {
    ghost var nodes, n := rest + [entry2], |rest|;
    assert Linked(nodes[n], nodes[Next(n, n + 1)]) && (n > 0 ==> Linked(nodes[n - 1], nodes[Next(n - 1, n + 1)]));
    assert m > 0 ==> Linked(nodes[m - 1], nodes[Next(m - 1, n + 1)]);
    var entry2Flink := entry2.Flink;
    var entry2Blink := entry2.Blink;
    var entry1Flink := entry1.Flink;
    var entry1Blink := entry1.Blink;
    assert nodes[n] == entry2 && (n > 0 ==> nodes[n - 1] == rest[n - 1] && nodes[0] == rest[0]);
    assert if n > 0 then entry2Blink == rest[n - 1] && entry2Flink == rest[0] else entry2Flink == entry2Blink == entry2;
    assert entry1Blink == if m == 0 then entry2 else rest[m - 1];
    entry2Blink.Flink := entry2Flink;
    entry2Flink.Blink := entry2Blink;
    entry2.Flink := entry1;
    entry2.Blink := entry1Blink;
    entry1Blink.Flink := entry2;
    entry1.Blink := entry2;
    if 0 < m < n {
      ghost var now := rest[..m] + [entry2] + rest[m..];
      Reordered(rest, entry2, m);
      forall i | 0 <= i < n + 1
        ensures Linked(now[i], now[Next(i, n + 1)])
      {
        if i < m - 1 {
          assert old(Linked(nodes[i], nodes[Next(i, n + 1)]));
        } else if m < i < n {
          assert old(Linked(nodes[i - 1], nodes[Next(i - 1, n + 1)]));
        }
      }
    }
  }

  /** `SwapListEntries`: "put Entry2 before Entry1".  It does so unless Entry2 already stands there, or is
      Entry1 itself; then no circle through all the entries is left, except that a lone entry stays one. */
  method SwapListEntries(entry1: ListEntry, entry2: ListEntry, ghost nodes: seq<ListEntry>, ghost i: nat, ghost j: nat)
    requires Ring(nodes) && i < |nodes| && j < |nodes|
    requires entry1 == nodes[i] && entry2 == nodes[j]
    modifies nodes
    ensures |nodes| == 1 ==> Ring(nodes)
    ensures i != j && Next(j, |nodes|) != i ==> Ring(MovedBefore(nodes, j, i))
    ensures |nodes| > 1 && (i == j || Next(j, |nodes|) == i) ==>
              forall r: seq<ListEntry> :: (forall e :: e in nodes ==> e in r) ==> !Ring(r)
  {
    ghost var rest, m := Unrolled(nodes, i, j);
    SwapLinks(entry1, entry2, rest, m);
    if |nodes| == 1 {
      assert nodes == [entry2];
    } else if i != j && Next(j, |nodes|) != i {
      RolledBack(nodes, i, j, rest, m);
    } else {
      forall r: seq<ListEntry> | forall e :: e in nodes ==> e in r
        ensures !Ring(r)
      {
        TornApart(r, entry1, rest[|rest| - 1]);
      }
    }
  }

  lemma TornApart(r: seq<ListEntry>, e: ListEntry, last: ListEntry)
    requires e in r && last in r && last.Flink == e && e.Blink != last
    ensures !Ring(r)
  {
    if Ring(r) {
      LinksAgree(r, last);
    }
  }

  /** The circle read from just after the entry at `j`, which then comes last. */
  lemma Unrolled(nodes: seq<ListEntry>, i: nat, j: nat) returns (rest: seq<ListEntry>, m: nat)
    requires Ring(nodes) && i < |nodes| && j < |nodes|
    ensures rest == nodes[j + 1..] + nodes[..j] && m == if i > j then i - j - 1 else i + |nodes| - 1 - j
    ensures Ring(rest + [nodes[j]]) && (rest + [nodes[j]])[m] == nodes[i]
  {
    var a, b := nodes[..j], nodes[j + 1..];
    rest := b + a;
    m := if i > j then i - j - 1 else i + |nodes| - 1 - j;
    assert nodes == (a + [nodes[j]]) + b;
    Rotate(a + [nodes[j]], b);
    assert b + (a + [nodes[j]]) == rest + [nodes[j]];
  }

  lemma RolledBack(nodes: seq<ListEntry>, i: nat, j: nat, rest: seq<ListEntry>, m: nat)
    requires i < |nodes| && j < |nodes| && i != j
    requires rest == nodes[j + 1..] + nodes[..j] && m == if i > j then i - j - 1 else i + |nodes| - 1 - j
    requires Ring(rest[..m] + [nodes[j]] + rest[m..])
    ensures Ring(MovedBefore(nodes, j, i))
  {
    if j < i {
      var middle := nodes[j + 1..i] + [nodes[j]] + nodes[i..];
      assert rest[..m] + [nodes[j]] + rest[m..] == middle + nodes[..j];
      Rotate(middle, nodes[..j]);
      assert MovedBefore(nodes, j, i) == nodes[..j] + middle;
    } else {
      var middle := nodes[..i] + [nodes[j]] + nodes[i..j];
      assert rest[..m] + [nodes[j]] + rest[m..] == nodes[j + 1..] + middle;
      Rotate(nodes[j + 1..], middle);
      assert MovedBefore(nodes, j, i) == middle + nodes[j + 1..];
    }
  }

  // ----- runs of the macros

  datatype ListOp =
    | InsertTail(entry: ListEntry)
    | InsertHead(entry: ListEntry)
    | Remove(entry: ListEntry)
    | Swap(entry1: ListEntry, entry2: ListEntry)
  {
    ghost function Operands(): set<ListEntry> {
      match this
      case InsertTail(e) => {e}
      case InsertHead(e) => {e}
      case Remove(e) => {e}
      case Swap(e1, e2) => {e1, e2}
    }
  }

  ghost function IndexOf(s: seq<ListEntry>, e: ListEntry): (i: nat)
    requires e in s
    ensures i < |s| && s[i] == e
  {
    var i :| 0 <= i < |s| && s[i] == e; i
  }

  /** The macro can be used on a list, its head first: a new entry is not in the list yet, the head is
      never removed or moved, and a swap is not one of the two that tear the list apart. */
  ghost predicate Legal(nodes: seq<ListEntry>, op: ListOp) {
    && nodes != []
    && match op
       case InsertTail(e) => e !in nodes
       case InsertHead(e) => e !in nodes
       case Remove(e) => e in nodes[1..]
       case Swap(e1, e2) => e1 in nodes && e2 in nodes[1..] && e1 != e2
                            && nodes[Next(IndexOf(nodes, e2), |nodes|)] != e1
  }

  /** The list, its head first, after one macro. */
  ghost function After(nodes: seq<ListEntry>, op: ListOp): seq<ListEntry>
    requires Legal(nodes, op)
  {
    match op
    case InsertTail(e) => nodes + [e]
    case InsertHead(e) => [nodes[0], e] + nodes[1..]
    case Remove(e) => Without(nodes, IndexOf(nodes, e))
    case Swap(e1, e2) =>
      var i, j := IndexOf(nodes, e1), IndexOf(nodes, e2);
      if i == 0 then Without(nodes, j) + [e2] else MovedBefore(nodes, j, i)
  }

  ghost predicate AllLegal(nodes: seq<ListEntry>, ops: seq<ListOp>)
    decreases |ops|
  {
    ops != [] ==> Legal(nodes, ops[0]) && AllLegal(After(nodes, ops[0]), ops[1..])
  }

  ghost function AfterAll(nodes: seq<ListEntry>, ops: seq<ListOp>): seq<ListEntry>
    requires AllLegal(nodes, ops)
    decreases |ops|
  {
    if ops == [] then nodes else AfterAll(After(nodes, ops[0]), ops[1..])
  }

  method Perform(head: ListEntry, op: ListOp, ghost nodes: seq<ListEntry>)
    requires Ring(nodes) && head == nodes[0] && Legal(nodes, op)
    modifies nodes, op.Operands()
    ensures Ring(After(nodes, op)) && After(nodes, op)[0] == head
  {
    match op
    case InsertTail(e) =>
      InsertTailList(head, e, nodes);
    case InsertHead(e) =>
      InsertHeadList(head, e, nodes);
    case Remove(e) =>
      ghost var k := IndexOf(nodes, e);
      NotHead(nodes, e);
      RemoveEntryList(e, nodes, k);
    case Swap(e1, e2) =>
      ghost var i, j := IndexOf(nodes, e1), IndexOf(nodes, e2);
      NotHead(nodes, e2);
      SwapListEntries(e1, e2, nodes, i, j);
      if i == 0 {
        assert MovedBefore(nodes, j, 0) == [e2] + Without(nodes, j);
        Rotate([e2], Without(nodes, j));
      }
  }

  lemma NotHead(nodes: seq<ListEntry>, e: ListEntry)
    requires Distinct(nodes) && nodes != [] && e in nodes[1..]
    ensures IndexOf(nodes, e) != 0
  {
    var k :| 0 <= k < |nodes[1..]| && nodes[1..][k] == e;
    assert nodes[k + 1] == e;
  }

  ghost function AllOperands(ops: seq<ListOp>): set<ListEntry> {
    if ops == [] then {} else ops[0].Operands() + AllOperands(ops[1..])
  }

  lemma StaysWithin(nodes: seq<ListEntry>, op: ListOp)
    requires Legal(nodes, op)
    ensures forall e :: e in After(nodes, op) ==> e in nodes || e in op.Operands()
  {
  }

  /** Every run of the macros keeps one circle, and it is the circle the operations describe. */
  method Run(head: ListEntry, ops: seq<ListOp>, ghost nodes: seq<ListEntry>)
    requires Ring(nodes) && head == nodes[0] && AllLegal(nodes, ops)
    modifies nodes, AllOperands(ops)
    ensures Ring(AfterAll(nodes, ops)) && AfterAll(nodes, ops)[0] == head
  {
    ghost var now := nodes;
    var k := 0;
    while k < |ops|
      invariant k <= |ops|
      invariant Ring(now) && now[0] == head && AllLegal(now, ops[k..])
      invariant AfterAll(now, ops[k..]) == AfterAll(nodes, ops)
      invariant forall e :: e in now ==> e in nodes || e in AllOperands(ops)
      invariant AllOperands(ops[k..]) <= AllOperands(ops)
    {
      assert ops[k..][0] == ops[k] && ops[k..][1..] == ops[k + 1..];
      StaysWithin(now, ops[k]);
      Perform(head, ops[k], now);
      now := After(now, ops[k]);
      k := k + 1;
    }
  }
}
