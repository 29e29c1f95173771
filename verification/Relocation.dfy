/** The self-relocators `gnuefi/reloc_x86_64.c`, `reloc_ia32.c` and `reloc_loongarch64.c`: one loop over
    the relocation table, storing base + addend or adding the base in place. */
module Relocation {
  import opened Memory

  // ----- little-endian words

  function Range(w: nat): (m: nat)
    ensures m > 0
  {
    if w == 0 then 1 else 256 * Range(w - 1)
  }

  function FromBytes(b: seq<byte>): (v: nat)
    ensures v < Range(|b|)
  {
    if b == [] then 0 else b[0] + 256 * FromBytes(b[1..])
  }

  function ToBytes(v: nat, w: nat): (b: seq<byte>)
    ensures |b| == w
  {
    if w == 0 then [] else [v % 256] + ToBytes(v / 256, w - 1)
  }

  lemma {:induction false} FromToBytes(v: nat, w: nat)
    requires v < Range(w)
    ensures FromBytes(ToBytes(v, w)) == v
    decreases w
  {
    if w > 0 {
      FromToBytes(v / 256, w - 1);
      assert ToBytes(v, w)[1..] == ToBytes(v / 256, w - 1);
    }
  }

  lemma {:induction false} FromBytesInjective(a: seq<byte>, b: seq<byte>)
    requires |a| == |b| && FromBytes(a) == FromBytes(b)
    ensures a == b
    decreases |a|
  {
    if a != [] {
      FromBytesInjective(a[1..], b[1..]);
      assert a == [a[0]] + a[1..] && b == [b[0]] + b[1..];
    }
  }

  function Load(mem: seq<byte>, at: nat, w: nat): (v: nat)
    requires at + w <= |mem|
    ensures v < Range(w)
  {
    FromBytes(mem[at..at + w])
  }

  function Store(mem: seq<byte>, at: nat, w: nat, v: nat): (r: seq<byte>)
    requires at + w <= |mem|
    ensures |r| == |mem|
    ensures r[at..at + w] == ToBytes(v, w)
    ensures forall i :: 0 <= i < |mem| && !(at <= i < at + w) ==> r[i] == mem[i]
  {
    mem[..at] + ToBytes(v, w) + mem[at + w..]
  }

  predicate Apart(a: nat, n: nat, b: nat, m: nat) {
    a + n <= b || b + m <= a
  }

  lemma LoadStore(mem: seq<byte>, at: nat, w: nat, v: nat)
    requires at + w <= |mem| && v < Range(w)
    ensures Load(Store(mem, at, w, v), at, w) == v
  {
    FromToBytes(v, w);
  }

  lemma LoadApart(mem: seq<byte>, mem': seq<byte>, at: nat, w: nat)
    requires |mem| == |mem'| && at + w <= |mem|
    requires forall i :: at <= i < at + w ==> mem[i] == mem'[i]
    ensures Load(mem, at, w) == Load(mem', at, w)
  {
    assert mem[at..at + w] == mem'[at..at + w];
  }

  function Little(b0: nat, b1: nat, b2: nat, b3: nat): nat {
    b0 + 0x100 * b1 + 0x1_0000 * b2 + 0x100_0000 * b3
  }

  /** Words are little-endian. */
  lemma LoadBytes(mem: seq<byte>, at: nat)
    ensures at + 4 <= |mem| ==>
              Load(mem, at, 4) == Little(mem[at], mem[at + 1], mem[at + 2], mem[at + 3])
    ensures at + 8 <= |mem| ==> Load(mem, at, 8) == Load(mem, at, 4) + 0x1_0000_0000 * Load(mem, at + 4, 4)
    ensures Range(4) == 0x1_0000_0000 && Range(8) == 0x1_0000_0000_0000_0000
  {
    hide FromBytes;
    if at + 4 <= |mem| {
      FourBytes(mem[at..at + 4]);
    }
    if at + 8 <= |mem| {
      var b := mem[at..at + 8];
      FourMore(b);
      FourBytes(b[..4]);
      FourBytes(b[4..]);
      assert b[..4] == mem[at..at + 4] && b[4..] == mem[at + 4..at + 8];
    }
    assert Range(2) == 0x1_0000 && Range(4) == 0x1_0000 * 0x1_0000;
    assert Range(6) == 0x1_0000 * Range(4) && Range(8) == 0x1_0000 * Range(6);
  }

  lemma FourBytes(b: seq<byte>)
    requires |b| == 4
    ensures FromBytes(b) == Little(b[0], b[1], b[2], b[3])
  {
    assert FromBytes(b[2..]) == b[2] + 256 * FromBytes(b[2..][1..]);
    assert b[2..][1..] == b[3..] && b[1..][1..] == b[2..];
    assert FromBytes(b[3..]) == b[3];
  }

  lemma FourMore(b: seq<byte>)
    requires |b| == 8
    ensures FromBytes(b) == FromBytes(b[..4]) + 0x1_0000_0000 * FromBytes(b[4..])
  {
    hide FromBytes;
    var c := b[1..];
    var d := c[1..];
    var e := d[1..];
    assert e[1..] == b[4..] && c == b[1..] && d == b[2..] && e == b[3..];
    FromBytesStep(b);
    FromBytesStep(c);
    FromBytesStep(d);
    FromBytesStep(e);
    FourBytes(b[..4]);
  }

  lemma FromBytesStep(b: seq<byte>)
    requires b != []
    ensures FromBytes(b) == b[0] + 256 * FromBytes(b[1..])
  {
  }

  /** Addition of two words, wrapping. */
  function WrapAdd(x: nat, y: nat, range: nat): (r: nat)
    requires x < range && y < range
    ensures r < range && (r == x + y || r == x + y - range)
  {
    if x + y < range then x + y else x + y - range
  }

  // ----- the three forms

  /** What differs between the relocators: the size of a word, the layout of a table entry, the number
      of the RELATIVE type, and whether the entry's addend or the slot's own content is added to. */
  datatype Form = Form(word: nat, entrySize: nat, typeRange: nat, relative: nat, storesAddend: bool,
                       tagTable: int, tagSize: int, tagEntry: int)

  const DT_NULL := 0

  const X86_64 := Form(8, 24, 0x1_0000_0000, 8, true, 7, 8, 9)
  const IA32 := Form(4, 8, 0x100, 8, false, 17, 18, 19)
  const LOONGARCH64 := Form(8, 24, 0x1_0000_0000, 3, false, 7, 8, 9)

  predicate Supported(f: Form) {
    f == X86_64 || f == IA32 || f == LOONGARCH64
  }

  /** One table entry; an entry without an addend field counts as addend 0. */
  datatype Entry = Entry(offset: nat, relative: bool, addend: nat)

  function ReadEntry(f: Form, mem: seq<byte>, at: nat): (e: Entry)
    requires Supported(f) && at + f.entrySize <= |mem|
    ensures e.addend < Range(f.word)
  {
    Entry(Load(mem, at, f.word),
          Load(mem, at + f.word, f.word) % f.typeRange == f.relative,
          if f.entrySize > 2 * f.word then Load(mem, at + 2 * f.word, f.word) else 0)
  }

  /** A table entry as the linker lays it out: offset, type, and an addend if the form has one. */
  function EntryBytes(f: Form, offset: nat, info: nat, addend: nat): (b: seq<byte>)
    requires Supported(f)
    ensures |b| == f.entrySize
  {
    ToBytes(offset, f.word) + ToBytes(info, f.word)
    + if f.entrySize > 2 * f.word then ToBytes(addend, f.word) else []
  }

  lemma LoadPart(mem: seq<byte>, at: nat, b: seq<byte>, k: nat, w: nat, v: nat)
    requires at + |b| <= |mem| && mem[at..at + |b|] == b
    requires k + w <= |b| && b[k..][..w] == ToBytes(v, w) && v < Range(w)
    ensures Load(mem, at + k, w) == v
  {
    hide ToBytes, FromBytes, Range;
    FromToBytes(v, w);
    assert mem[at + k..at + k + w] == b[k..][..w];
  }

  predicate TableFits(f: Form, length: nat, at: nat, relsz: int, relent: int)
    requires relent > 0
    decreases relsz
  {
    relsz <= 0 || (at + f.entrySize <= length && TableFits(f, length, at + relent, relsz - relent, relent))
  }

  function Table(f: Form, mem: seq<byte>, at: nat, relsz: int, relent: int): seq<Entry>
    requires Supported(f) && relent > 0 && TableFits(f, |mem|, at, relsz, relent)
    decreases relsz
  {
    if relsz <= 0 then [] else [ReadEntry(f, mem, at)] + Table(f, mem, at + relent, relsz - relent, relent)
  }

  /** The slot is inside the image and no byte of it belongs to a table entry. */
  predicate SlotClear(f: Form, length: nat, slot: nat, at: nat, relsz: int, relent: int)
    requires relent > 0
    decreases relsz
  {
    slot + f.word <= length &&
    (relsz <= 0 || (Apart(slot, f.word, at, f.entrySize) && SlotClear(f, length, slot, at + relent, relsz - relent, relent)))
  }

  predicate InImage(f: Form, length: nat, e: Entry) {
    e.relative ==> e.offset + f.word <= length
  }

  /** What one entry does to the image. */
  function Apply(f: Form, base: nat, mem: seq<byte>, e: Entry): (r: seq<byte>)
    requires base < Range(f.word) && e.addend < Range(f.word) && InImage(f, |mem|, e)
    ensures |r| == |mem|
  {
    if !e.relative then mem
    else Store(mem, e.offset, f.word, NewWord(f, base, mem, e))
  }

  function NewWord(f: Form, base: nat, mem: seq<byte>, e: Entry): (v: nat)
    requires base < Range(f.word) && e.addend < Range(f.word) && e.offset + f.word <= |mem|
    ensures v < Range(f.word)
  {
    WrapAdd(if f.storesAddend then e.addend else Load(mem, e.offset, f.word), base, Range(f.word))
  }

  predicate Proper(f: Form, length: nat, es: seq<Entry>) {
    forall e :: e in es ==> InImage(f, length, e) && e.addend < Range(f.word)
  }

  function ApplyAll(f: Form, base: nat, mem: seq<byte>, es: seq<Entry>): (r: seq<byte>)
    requires base < Range(f.word) && Proper(f, |mem|, es)
    ensures |r| == |mem|
    decreases |es|
  {
    if es == [] then mem else ApplyAll(f, base, Apply(f, base, mem, es[0]), es[1..])
  }

  // ----- the loop

  datatype Dyn = Dyn(tag: int, val: nat)

  datatype Status = Success | LoadError

  /** The value of the last entry with the tag, before the terminator. */
  function LastTag(dyn: seq<Dyn>, tag: int, otherwise: int): (r: int)
    ensures r == otherwise || r >= 0
  {
    if dyn == [] then otherwise
    else if dyn[|dyn| - 1].tag == tag then dyn[|dyn| - 1].val
    else LastTag(dyn[..|dyn| - 1], tag, otherwise)
  }

  function Terminator(dyn: seq<Dyn>): (k: nat)
    requires exists i :: 0 <= i < |dyn| && dyn[i].tag == DT_NULL
    ensures k < |dyn| && dyn[k].tag == DT_NULL && forall i :: 0 <= i < k ==> dyn[i].tag != DT_NULL
  {
    if dyn[0].tag == DT_NULL then 0
    else
      var i :| 0 <= i < |dyn| && dyn[i].tag == DT_NULL;
      assert dyn[1..][i - 1].tag == DT_NULL;
      1 + Terminator(dyn[1..])
  }

  function Signed(v: nat, range: nat): int {
    if v < range / 2 then v else v - range
  }

  /** What the scan of the dynamic section finds, as the code's `rel`, `relsz` and `relent`: `table` is the
      offset of the table in the image, or -1 when `rel` is null. */
  datatype Found = Found(table: int, relsz: int, relent: int)

  function Scan(f: Form, base: nat, dyn: seq<Dyn>): (r: Found)
    requires base < Range(f.word) && forall d :: d in dyn ==> d.val < Range(f.word)
    ensures r.table >= -1
  {
    var table := LastTag(dyn, f.tagTable, -1);
    LastTagIn(dyn, f.tagTable, -1);
    Found(if table == -1 || WrapAdd(table, base, Range(f.word)) == 0 then -1 else table,
          Signed(LastTag(dyn, f.tagSize, 0), Range(f.word)),
          Signed(LastTag(dyn, f.tagEntry, 0), Range(f.word)))
  }

  lemma LastTagIn(dyn: seq<Dyn>, tag: int, otherwise: int)
    ensures LastTag(dyn, tag, otherwise) == otherwise || exists d :: d in dyn && d.val == LastTag(dyn, tag, otherwise)
  {
  }

  /** Without an entry of the tag the value stays, */
  lemma {:induction false} NoSuchTag(dyn: seq<Dyn>, tag: int, otherwise: int)
    requires forall k :: 0 <= k < |dyn| ==> dyn[k].tag != tag
    ensures LastTag(dyn, tag, otherwise) == otherwise
    decreases |dyn|
  {
    if dyn != [] {
      NoSuchTag(dyn[..|dyn| - 1], tag, otherwise);
    }
  }

  /** and otherwise the last one decides. */
  lemma {:induction false} LastTagIs(dyn: seq<Dyn>, tag: int, otherwise: int, k: nat)
    requires k < |dyn| && dyn[k].tag == tag && forall j :: k < j < |dyn| ==> dyn[j].tag != tag
    ensures LastTag(dyn, tag, otherwise) == dyn[k].val
    decreases |dyn|
  {
    if k < |dyn| - 1 {
      LastTagIs(dyn[..|dyn| - 1], tag, otherwise, k);
    }
  }

  /** The last entry with the tag has the value. */
  ghost predicate Gives(dyn: seq<Dyn>, tag: int, val: nat) {
    exists k :: 0 <= k < |dyn| && dyn[k] == Dyn(tag, val) && forall j :: k < j < |dyn| ==> dyn[j].tag != tag
  }

  /** A signed table size of `n` entries, the last one perhaps in part. */
  predicate Covers(size: int, n: nat, relent: nat) {
    if n == 0 then size <= 0 else (n - 1) * relent < size <= n * relent
  }

  /** A dynamic section gives the offset of a table that is not at address zero, its size, for which a word with the
      highest bit set is negative, and the size of an entry. */
  ghost predicate Describes(f: Form, base: nat, dyn: seq<Dyn>, table: nat, size: int, relent: nat) {
    && var range := if f == IA32 then 0x1_0000_0000 else 0x1_0000_0000_0000_0000;
    && -range <= 2 * size < range && 0 < 2 * relent < range
    && table < range && table + base != 0 && table + base != range
    && Gives(dyn, if f == IA32 then 17 else 7, table)
    && Gives(dyn, if f == IA32 then 18 else 8, if size < 0 then size + range else size)
    && Gives(dyn, if f == IA32 then 19 else 9, relent)
  }

  /** The scan finds what the section gives, in whatever order. */
  lemma ScanFinds(f: Form, base: nat, dyn: seq<Dyn>, table: nat, size: int, relent: nat)
    requires Supported(f) && base < Range(f.word) && forall d :: d in dyn ==> d.val < Range(f.word)
    requires Describes(f, base, dyn, table, size, relent)
    ensures Scan(f, base, dyn) == Found(table, size, relent)
  {
    hide LastTag, Range;
    LoadBytes([], 0);
    GivesLast(dyn, f.tagTable, table, -1);
    GivesLast(dyn, f.tagSize, if size < 0 then size + Range(f.word) else size, 0);
    GivesLast(dyn, f.tagEntry, relent, 0);
  }

  /** Without a table, or with one at address zero, there is none; without an entry size it is zero. */
  lemma ScanMisses(f: Form, base: nat, dyn: seq<Dyn>)
    requires Supported(f) && base < Range(f.word) && forall d :: d in dyn ==> d.val < Range(f.word)
    ensures (forall k :: 0 <= k < |dyn| ==> dyn[k].tag != if f == IA32 then 17 else 7) ==>
              Scan(f, base, dyn).table == -1
    ensures (forall k :: 0 <= k < |dyn| ==> dyn[k].tag != if f == IA32 then 19 else 9) ==>
              Scan(f, base, dyn).relent == 0
    ensures Gives(dyn, if f == IA32 then 17 else 7, 0) && base == 0 ==> Scan(f, base, dyn).table == -1
  {
    hide LastTag, Range, Gives;
    LoadBytes([], 0);
    var table, entry := f.tagTable, f.tagEntry;
    assert table == (if f == IA32 then 17 else 7) && entry == if f == IA32 then 19 else 9;
    if forall k :: 0 <= k < |dyn| ==> dyn[k].tag != table {
      NoSuchTag(dyn, table, -1);
    }
    if forall k :: 0 <= k < |dyn| ==> dyn[k].tag != entry {
      NoSuchTag(dyn, entry, 0);
    }
    if Gives(dyn, table, 0) {
      GivesLast(dyn, table, 0, -1);
    }
  }

  lemma GivesLast(dyn: seq<Dyn>, tag: int, val: nat, otherwise: int)
    requires Gives(dyn, tag, val)
    ensures LastTag(dyn, tag, otherwise) == val
  {
    var k :| 0 <= k < |dyn| && dyn[k] == Dyn(tag, val) && forall j :: k < j < |dyn| ==> dyn[j].tag != tag;
    LastTagIs(dyn, tag, otherwise, k);
  }

  /** The first loop: the values after it, later entries winning. */
  method ScanDynamic(f: Form, base: nat, dyn: seq<Dyn>) returns (found: Found)
    requires base < Range(f.word) && (forall d :: d in dyn ==> d.val < Range(f.word))
    requires f.tagTable != f.tagSize && f.tagTable != f.tagEntry && f.tagSize != f.tagEntry
    requires exists i :: 0 <= i < |dyn| && dyn[i].tag == DT_NULL
    ensures found == Scan(f, base, dyn[..Terminator(dyn)])
  {
    var table: int, relsz: int, relent: int := -1, 0, 0;
    var i := 0;
    while dyn[i].tag != DT_NULL
      invariant 0 <= i <= Terminator(dyn)
      invariant table == LastTag(dyn[..i], f.tagTable, -1)
      invariant relsz == LastTag(dyn[..i], f.tagSize, 0)
      invariant relent == LastTag(dyn[..i], f.tagEntry, 0)
      decreases Terminator(dyn) - i
    {
      assert dyn[..i + 1][..i] == dyn[..i];
      if dyn[i].tag == f.tagTable {
        table := dyn[i].val;
      } else if dyn[i].tag == f.tagSize {
        relsz := dyn[i].val;
      } else if dyn[i].tag == f.tagEntry {
        relent := dyn[i].val;
      }
      i := i + 1;
    }
    LastTagIn(dyn[..i], f.tagTable, -1);
    found := Found(if table == -1 || WrapAdd(table, base, Range(f.word)) == 0 then -1 else table,
                   Signed(relsz, Range(f.word)), Signed(relent, Range(f.word)));
  }

  /** The table lies in the image, and the slots it names lie in the image outside the table. */
  ghost predicate Sound(f: Form, mem: seq<byte>, found: Found) {
    && Supported(f) && found.table >= 0 && found.relent > 0
    && TableFits(f, |mem|, found.table, found.relsz, found.relent)
    && SlotsClear(f, mem, found.table, found.relsz, found.relent)
  }

  ghost predicate SlotsClear(f: Form, mem: seq<byte>, at: nat, relsz: int, relent: int)
    requires Supported(f) && relent > 0 && TableFits(f, |mem|, at, relsz, relent)
  {
    forall e :: e in Table(f, mem, at, relsz, relent) && e.relative ==> SlotClear(f, |mem|, e.offset, at, relsz, relent)
  }

  lemma {:induction false} TableIsProper(f: Form, mem: seq<byte>, at: nat, relsz: int, relent: int, es: seq<Entry>)
    requires Supported(f) && relent > 0 && TableFits(f, |mem|, at, relsz, relent)
    requires forall e :: e in es ==> e in Table(f, mem, at, relsz, relent)
    requires SlotsClear(f, mem, at, relsz, relent)
    ensures Proper(f, |mem|, es)
  {
    TableAddends(f, mem, at, relsz, relent);
  }

  lemma {:induction false} TableAddends(f: Form, mem: seq<byte>, at: nat, relsz: int, relent: int)
    requires Supported(f) && relent > 0 && TableFits(f, |mem|, at, relsz, relent)
    ensures forall e :: e in Table(f, mem, at, relsz, relent) ==> e.addend < Range(f.word)
    decreases relsz
  {
    if relsz > 0 {
      TableAddends(f, mem, at + relent, relsz - relent, relent);
    }
  }

  /** A store outside the table leaves the table as it was. */
  lemma EntryKept(f: Form, mem: seq<byte>, mem': seq<byte>, slot: nat, at: nat)
    requires Supported(f) && |mem| == |mem'| && at + f.entrySize <= |mem| && Apart(slot, f.word, at, f.entrySize)
    requires forall i :: 0 <= i < |mem| && !(slot <= i < slot + f.word) ==> mem'[i] == mem[i]
    ensures ReadEntry(f, mem', at) == ReadEntry(f, mem, at)
  {
    hide Load;
    LoadApart(mem, mem', at, f.word);
    LoadApart(mem, mem', at + f.word, f.word);
    if f.entrySize > 2 * f.word {
      LoadApart(mem, mem', at + 2 * f.word, f.word);
    }
  }

  lemma TableStep(f: Form, mem: seq<byte>, at: nat, relsz: int, relent: int)
    requires Supported(f) && relent > 0 && TableFits(f, |mem|, at, relsz, relent)
    ensures relsz <= 0 ==> Table(f, mem, at, relsz, relent) == []
    ensures relsz > 0 ==>
              && at + f.entrySize <= |mem| && TableFits(f, |mem|, at + relent, relsz - relent, relent)
              && Table(f, mem, at, relsz, relent)
              == [ReadEntry(f, mem, at)] + Table(f, mem, at + relent, relsz - relent, relent)
  {
    hide ReadEntry;
  }

  lemma ClearStep(f: Form, length: nat, slot: nat, at: nat, relsz: int, relent: int)
    requires relent > 0 && relsz > 0 && SlotClear(f, length, slot, at, relsz, relent)
    ensures Apart(slot, f.word, at, f.entrySize) && SlotClear(f, length, slot, at + relent, relsz - relent, relent)
  {
  }

  lemma {:induction false} TableKept(f: Form, mem: seq<byte>, mem': seq<byte>, slot: nat, at: nat, relsz: int,
                                     relent: int)
    requires Supported(f) && relent > 0 && |mem| == |mem'| && TableFits(f, |mem|, at, relsz, relent)
    requires SlotClear(f, |mem|, slot, at, relsz, relent)
    requires forall i :: 0 <= i < |mem| && !(slot <= i < slot + f.word) ==> mem'[i] == mem[i]
    ensures Table(f, mem', at, relsz, relent) == Table(f, mem, at, relsz, relent)
    decreases relsz
  {
    hide ReadEntry, Table, TableFits, SlotClear, Apart, Supported;
    TableStep(f, mem, at, relsz, relent);
    TableStep(f, mem', at, relsz, relent);
    if relsz > 0 {
      ClearStep(f, |mem|, slot, at, relsz, relent);
      EntryKept(f, mem, mem', slot, at);
      TableKept(f, mem, mem', slot, at + relent, relsz - relent, relent);
    }
  }

  lemma RestOfTable(f: Form, mem: seq<byte>, at: nat, relsz: int, relent: int)
    requires Supported(f) && relent > 0 && relsz > 0
    requires TableFits(f, |mem|, at, relsz, relent) && SlotsClear(f, mem, at, relsz, relent)
    ensures TableFits(f, |mem|, at + relent, relsz - relent, relent)
    ensures at + f.entrySize <= |mem|
    ensures Table(f, mem, at, relsz, relent)
            == [ReadEntry(f, mem, at)] + Table(f, mem, at + relent, relsz - relent, relent)
    ensures SlotsClear(f, mem, at + relent, relsz - relent, relent)
    ensures ReadEntry(f, mem, at).relative ==>
              SlotClear(f, |mem|, ReadEntry(f, mem, at).offset, at + relent, relsz - relent, relent)
  {
    hide ReadEntry;
    var e, rest := ReadEntry(f, mem, at), Table(f, mem, at + relent, relsz - relent, relent);
    assert e in [e] + rest && forall d :: d in rest ==> d in [e] + rest;
  }

  /** One turn of the loop consumes one entry of the table. */
  lemma TurnOfLoop(f: Form, base: nat, mem: seq<byte>, at: nat, relsz: int, relent: int)
    requires Supported(f) && base < Range(f.word) && relent > 0 && relsz > 0
    requires TableFits(f, |mem|, at, relsz, relent) && SlotsClear(f, mem, at, relsz, relent)
    ensures at + f.entrySize <= |mem|
    ensures var e, es := ReadEntry(f, mem, at), Table(f, mem, at, relsz, relent);
            && Proper(f, |mem|, es) && InImage(f, |mem|, e)
            && var next := Apply(f, base, mem, e);
            && TableFits(f, |next|, at + relent, relsz - relent, relent)
            && SlotsClear(f, next, at + relent, relsz - relent, relent)
            && Proper(f, |next|, Table(f, next, at + relent, relsz - relent, relent))
            && ApplyAll(f, base, mem, es) == ApplyAll(f, base, next, Table(f, next, at + relent, relsz - relent, relent))
  {
    RestOfTable(f, mem, at, relsz, relent);
    var e, es := ReadEntry(f, mem, at), Table(f, mem, at, relsz, relent);
    var rest := Table(f, mem, at + relent, relsz - relent, relent);
    TableIsProper(f, mem, at, relsz, relent, es);
    hide ReadEntry, Table, TableFits, SlotClear, Load, WrapAdd;
    assert e in es && es[1..] == rest;
    assert forall d :: d in rest ==> d in es;
    var next := Apply(f, base, mem, e);
    if e.relative {
      TableKept(f, mem, next, e.offset, at + relent, relsz - relent, relent);
    }
  }

  /** The second loop. */
  method ApplyTable(f: Form, base: nat, table: nat, size: int, relent: int, mem: array<byte>)
    requires Supported(f) && base < Range(f.word) && relent > 0
    requires TableFits(f, mem.Length, table, size, relent) && SlotsClear(f, mem[..], table, size, relent)
    modifies mem
    ensures var es := Table(f, old(mem[..]), table, size, relent);
            Proper(f, mem.Length, es) && mem[..] == ApplyAll(f, base, old(mem[..]), es)
  {
    hide Proper, TableFits, SlotsClear, ReadEntry, ApplyAll, Table, Load, Store;
    var at, relsz := table, size;
    ghost var before, all := mem[..], Table(f, mem[..], table, size, relent);
    assert Proper(f, |before|, all) by {
      TableIsProper(f, before, table, size, relent, all);
    }
    while relsz > 0
      invariant at >= 0 && TableFits(f, mem.Length, at, relsz, relent)
      invariant SlotsClear(f, mem[..], at, relsz, relent)
      invariant Proper(f, mem.Length, Table(f, mem[..], at, relsz, relent))
      invariant ApplyAll(f, base, mem[..], Table(f, mem[..], at, relsz, relent)) == ApplyAll(f, base, before, all)
    {
      ghost var now := mem[..];
      TurnOfLoop(f, base, now, at, relsz, relent);
      EntryFits(f, mem.Length, at, relsz, relent);
      var e := ReadEntry(f, mem[..], at);
      if e.relative {
        WriteWord(mem, e.offset, f.word, NewWord(f, base, mem[..], e));
      }
      assert mem[..] == Apply(f, base, now, e);
      at := at + relent;
      relsz := relsz - relent;
    }
    NothingLeft(f, base, mem[..], at, relsz, relent);
  }

  lemma EntryFits(f: Form, length: nat, at: nat, relsz: int, relent: int)
    requires relent > 0 && relsz > 0 && TableFits(f, length, at, relsz, relent)
    ensures at + f.entrySize <= length
  {
  }

  lemma NothingLeft(f: Form, base: nat, mem: seq<byte>, at: nat, relsz: int, relent: int)
    requires Supported(f) && base < Range(f.word) && relent > 0 && relsz <= 0
    ensures TableFits(f, |mem|, at, relsz, relent) && Table(f, mem, at, relsz, relent) == []
    ensures ApplyAll(f, base, mem, []) == mem
  {
  }

  method WriteWord(mem: array<byte>, at: nat, w: nat, v: nat)
    requires at + w <= mem.Length
    modifies mem
    ensures mem[..] == Store(old(mem[..]), at, w, v)
  {
    var bytes := ToBytes(v, w);
    for k := 0 to w
      invariant forall i :: 0 <= i < mem.Length ==>
                  mem[i] == if at <= i < at + k then bytes[i - at] else old(mem[i])
    {
      mem[at + k] := bytes[k];
    }
    assert mem[..] == Store(old(mem[..]), at, w, v);
  }

  // ----- what a run leaves behind

  ghost predicate SlotsApart(f: Form, es: seq<Entry>) {
    forall i, j :: 0 <= i < j < |es| && es[i].relative && es[j].relative ==>
      Apart(es[i].offset, f.word, es[j].offset, f.word)
  }

  predicate InSlot(f: Form, e: Entry, i: nat) {
    e.relative && e.offset <= i < e.offset + f.word
  }

  /** Every slot holds its new word, computed from the image before the run, and nothing else changed. */
  ghost predicate Relocated(f: Form, base: nat, before: seq<byte>, after: seq<byte>, es: seq<Entry>)
    requires base < Range(f.word) && Proper(f, |before|, es)
  {
    && |after| == |before|
    && (forall e :: e in es && e.relative ==> Load(after, e.offset, f.word) == NewWord(f, base, before, e))
    && (forall i :: 0 <= i < |before| && (forall e :: e in es ==> !InSlot(f, e, i)) ==> after[i] == before[i])
  }

  lemma {:induction false} ApplyAllRelocates(f: Form, base: nat, mem: seq<byte>, es: seq<Entry>)
    requires base < Range(f.word) && Proper(f, |mem|, es) && SlotsApart(f, es)
    ensures Relocated(f, base, mem, ApplyAll(f, base, mem, es), es)
    decreases |es|
  {
    if es != [] {
      var e, rest := es[0], es[1..];
      var next := Apply(f, base, mem, e);
      var after := ApplyAll(f, base, next, rest);
      assert forall k :: 0 <= k < |rest| ==> rest[k] == es[k + 1];
      ApplyAllRelocates(f, base, next, rest);
      forall d | d in rest && d.relative
        ensures Load(after, d.offset, f.word) == NewWord(f, base, mem, d)
      {
        if e.relative {
          var k :| 0 <= k < |rest| && rest[k] == d;
          assert Apart(es[0].offset, f.word, es[k + 1].offset, f.word);
          LoadApart(mem, next, d.offset, f.word);
        }
      }
      if e.relative {
        LoadStore(mem, e.offset, f.word, NewWord(f, base, mem, e));
        forall i | e.offset <= i < e.offset + f.word
          ensures next[i] == after[i]
        {
          forall d | d in rest ensures !InSlot(f, d, i) {
            var k :| 0 <= k < |rest| && rest[k] == d;
            assert d.relative ==> Apart(es[0].offset, f.word, es[k + 1].offset, f.word);
          }
        }
        LoadApart(next, after, e.offset, f.word);
      }
      forall i | 0 <= i < |mem| && forall d :: d in es ==> !InSlot(f, d, i)
        ensures after[i] == mem[i]
      {
        assert !InSlot(f, e, i);
      }
    }
  }

  lemma SameSlot(a: seq<byte>, b: seq<byte>, at: nat, w: nat, i: nat)
    requires |a| == |b| && at <= i < at + w <= |a| && Load(a, at, w) == Load(b, at, w)
    ensures a[i] == b[i]
  {
    FromBytesInjective(a[at..at + w], b[at..at + w]);
    assert a[i] == a[at..at + w][i - at];
    assert b[i] == b[at..at + w][i - at];
  }

  /** Two images that agree on every slot and outside the slots are the same. */
  lemma SameImage(f: Form, a: seq<byte>, b: seq<byte>, es: seq<Entry>)
    requires |a| == |b|
    requires forall e :: e in es && e.relative ==> e.offset + f.word <= |a|
    requires forall e :: e in es && e.relative ==> Load(a, e.offset, f.word) == Load(b, e.offset, f.word)
    requires forall i :: 0 <= i < |a| && (forall e :: e in es ==> !InSlot(f, e, i)) ==> a[i] == b[i]
    ensures a == b
  {
    hide Load;
    forall i | 0 <= i < |a|
      ensures a[i] == b[i]
    {
      if e :| e in es && InSlot(f, e, i) {
        SameSlot(a, b, e.offset, f.word, i);
      }
    }
  }

  /** The order of the entries does not matter. */
  lemma OrderIrrelevant(f: Form, base: nat, mem: seq<byte>, es: seq<Entry>, es': seq<Entry>)
    requires base < Range(f.word) && Proper(f, |mem|, es)
    requires SlotsApart(f, es) && SlotsApart(f, es') && forall e :: e in es <==> e in es'
    ensures Proper(f, |mem|, es') && ApplyAll(f, base, mem, es) == ApplyAll(f, base, mem, es')
  {
    assert Proper(f, |mem|, es') by {
      forall e | e in es' ensures InImage(f, |mem|, e) && e.addend < Range(f.word) {
        assert e in es;
      }
    }
    ApplyAllRelocates(f, base, mem, es);
    ApplyAllRelocates(f, base, mem, es');
    SameImage(f, ApplyAll(f, base, mem, es), ApplyAll(f, base, mem, es'), es);
  }

  /** The table as it stands decides the relocation; running it again changes nothing, for the form that
      stores addends, and for the in-place forms exactly when there is nothing to add or nowhere to. */
  lemma IdempotentIff(f: Form, base: nat, mem: seq<byte>, es: seq<Entry>)
    requires base < Range(f.word) && Proper(f, |mem|, es) && SlotsApart(f, es)
    ensures var once := ApplyAll(f, base, mem, es);
            ApplyAll(f, base, once, es) == once <==>
            f.storesAddend || base == 0 || forall e :: e in es ==> !e.relative
  {
    var once := ApplyAll(f, base, mem, es);
    var twice := ApplyAll(f, base, once, es);
    ApplyAllRelocates(f, base, mem, es);
    ApplyAllRelocates(f, base, once, es);
    if f.storesAddend || base == 0 || forall e :: e in es ==> !e.relative {
      SameImage(f, once, twice, es);
    } else {
      var e :| e in es && e.relative;
      assert Load(twice, e.offset, f.word) == WrapAdd(Load(once, e.offset, f.word), base, Range(f.word));
    }
  }

  /** Storing base + addend and adding the base in place give the same image exactly when every slot
      already held its addend. */
  lemma FormsAgreeIff(f: Form, g: Form, base: nat, mem: seq<byte>, es: seq<Entry>)
    requires f.word == g.word && f.storesAddend && !g.storesAddend
    requires base < Range(f.word) && Proper(f, |mem|, es) && SlotsApart(f, es)
    ensures Proper(g, |mem|, es)
    ensures ApplyAll(f, base, mem, es) == ApplyAll(g, base, mem, es) <==>
            forall e :: e in es && e.relative ==> Load(mem, e.offset, f.word) == e.addend
  {
    assert Proper(g, |mem|, es) && SlotsApart(g, es) by {
      assert forall e :: InImage(f, |mem|, e) == InImage(g, |mem|, e);
    }
    ApplyAllRelocates(f, base, mem, es);
    ApplyAllRelocates(g, base, mem, es);
    var a, b := ApplyAll(f, base, mem, es), ApplyAll(g, base, mem, es);
    if forall e :: e in es && e.relative ==> Load(mem, e.offset, f.word) == e.addend {
      SameImage(f, a, b, es);
    } else {
      var e :| e in es && e.relative && Load(mem, e.offset, f.word) != e.addend;
      assert NewWord(f, base, mem, e) != NewWord(g, base, mem, e);
    }
  }

  // ----- from the bytes of a table to the words in the slots

  datatype Laid = Laid(offset: nat, info: nat, addend: nat)

  function WordSize(f: Form): nat {
    if f == IA32 then 4 else 8
  }

  function EntrySize(f: Form): nat {
    if f == IA32 then 8 else 24
  }

  /** The bytes from `at` on hold the entry: offset, type, and an addend except in the short form. */
  ghost predicate LaidAt(f: Form, mem: seq<byte>, at: nat, e: Laid) {
    && at + EntrySize(f) <= |mem|
    && Load(mem, at, WordSize(f)) == e.offset && Load(mem, at + WordSize(f), WordSize(f)) == e.info
    && (f != IA32 ==> Load(mem, at + 16, 8) == e.addend)
  }

  ghost predicate LaidOut(f: Form, mem: seq<byte>, table: nat, relent: nat, laid: seq<Laid>) {
    forall k :: 0 <= k < |laid| ==> LaidAt(f, mem, table + k * relent, laid[k])
  }

  /** R_X86_64_RELATIVE, R_386_RELATIVE or R_LARCH_RELATIVE. */
  predicate IsRelative(f: Form, e: Laid) {
    if f == IA32 then e.info % 0x100 == 8
    else e.info % 0x1_0000_0000 == if f == LOONGARCH64 then 3 else 8
  }

  /** The slots lie in the image, outside the table and apart from each other. */
  ghost predicate SlotsFree(f: Form, length: nat, table: nat, relent: nat, laid: seq<Laid>) {
    && (forall k :: 0 <= k < |laid| && IsRelative(f, laid[k]) ==>
          && laid[k].offset + WordSize(f) <= length
          && forall m :: 0 <= m < |laid| ==> Apart(laid[k].offset, WordSize(f), table + m * relent, EntrySize(f)))
    && forall k, m :: 0 <= k < m < |laid| && IsRelative(f, laid[k]) && IsRelative(f, laid[m]) ==>
          Apart(laid[k].offset, WordSize(f), laid[m].offset, WordSize(f))
  }

  ghost predicate OutsideSlots(f: Form, laid: seq<Laid>, i: nat) {
    forall k :: 0 <= k < |laid| && IsRelative(f, laid[k]) ==>
      i < laid[k].offset || laid[k].offset + WordSize(f) <= i
  }

  /** Every slot holds base + addend or, in the forms without addends in use, its old word + base, wrapping; no
      byte outside the slots has changed. */
  ghost predicate SlotsDone(f: Form, base: nat, before: seq<byte>, after: seq<byte>, laid: seq<Laid>) {
    && |after| == |before|
    && (forall k :: 0 <= k < |laid| && IsRelative(f, laid[k]) ==>
          var at, w := laid[k].offset, WordSize(f);
          && at + w <= |before|
          && Load(after, at, w) == (base + if f == X86_64 then laid[k].addend else Load(before, at, w))
                                   % (if f == IA32 then 0x1_0000_0000 else 0x1_0000_0000_0000_0000))
    && forall i :: 0 <= i < |before| && OutsideSlots(f, laid, i) ==> after[i] == before[i]
  }

  function EntryOf(f: Form, e: Laid): Entry {
    Entry(e.offset, IsRelative(f, e), if f == IA32 then 0 else e.addend)
  }

  lemma LaidReads(f: Form, mem: seq<byte>, at: nat, e: Laid)
    requires Supported(f) && LaidAt(f, mem, at, e)
    ensures ReadEntry(f, mem, at) == EntryOf(f, e)
  {
    hide Load;
  }

  /** An entry as the linker lays it out has its fields in their places, */
  lemma BytesAreLaid(f: Form, mem: seq<byte>, at: nat, e: Laid)
    requires Supported(f) && at + f.entrySize <= |mem|
    requires e.offset < Range(f.word) && e.info < Range(f.word) && e.addend < Range(f.word)
    requires mem[at..at + f.entrySize] == EntryBytes(f, e.offset, e.info, e.addend)
    ensures LaidAt(f, mem, at, e)
  {
    hide ToBytes, FromBytes, Range;
    var w, b := f.word, EntryBytes(f, e.offset, e.info, e.addend);
    assert b[..w] == ToBytes(e.offset, w) && b[w..][..w] == ToBytes(e.info, w);
    LoadPart(mem, at, b, 0, w, e.offset);
    LoadPart(mem, at, b, w, w, e.info);
    if f != IA32 {
      assert b[2 * w..][..w] == ToBytes(e.addend, w);
      LoadPart(mem, at, b, 2 * w, w, e.addend);
    }
  }

  /** and is read back field by field. */
  lemma EntryReadsBack(f: Form, mem: seq<byte>, at: nat, offset: nat, info: nat, addend: nat)
    requires Supported(f) && at + f.entrySize <= |mem|
    requires offset < Range(f.word) && info < Range(f.word) && addend < Range(f.word)
    requires mem[at..at + f.entrySize] == EntryBytes(f, offset, info, addend)
    ensures ReadEntry(f, mem, at)
         == Entry(offset, info % f.typeRange == f.relative, if f.entrySize > 2 * f.word then addend else 0)
  {
    hide ToBytes, FromBytes, Range, Load;
    BytesAreLaid(f, mem, at, Laid(offset, info, addend));
    LaidReads(f, mem, at, Laid(offset, info, addend));
  }

  /** The table read from the bytes holds exactly the entries laid out. */
  lemma {:induction false} LaidTable(f: Form, mem: seq<byte>, at: nat, size: int, relent: nat, laid: seq<Laid>)
    requires Supported(f) && relent > 0 && LaidOut(f, mem, at, relent, laid) && Covers(size, |laid|, relent)
    ensures TableFits(f, |mem|, at, size, relent)
    ensures Table(f, mem, at, size, relent) == seq(|laid|, k requires 0 <= k < |laid| => EntryOf(f, laid[k]))
    decreases |laid|
  {
    hide LaidAt, EntryOf, ReadEntry, Supported, Covers;
    CoversRest(size, |laid|, relent);
    if laid != [] {
      var rest := laid[1..];
      forall k | 0 <= k < |rest|
        ensures LaidAt(f, mem, at + relent + k * relent, rest[k])
      {
        NextPlace(at, k, relent);
      }
      LaidTable(f, mem, at + relent, size - relent, relent, rest);
      assert LaidAt(f, mem, at + 0 * relent, laid[0]);
      LaidReads(f, mem, at, laid[0]);
      LaidFits(f, mem, at, laid[0]);
    }
  }

  lemma CoversRest(size: int, n: nat, relent: nat)
    requires relent > 0 && Covers(size, n, relent)
    ensures size > 0 <==> n > 0
    ensures n > 0 ==> Covers(size - relent, n - 1, relent)
  {
    if n > 1 {
      NextPlace(0, n - 2, relent);
      NextPlace(0, n - 1, relent);
    }
  }

  lemma NextPlace(at: nat, k: nat, relent: nat)
    ensures at + relent + k * relent == at + (k + 1) * relent
  {
  }

  lemma LaidFits(f: Form, mem: seq<byte>, at: nat, e: Laid)
    requires Supported(f) && LaidAt(f, mem, at, e)
    ensures at + f.entrySize <= |mem|
  {
  }

  lemma {:induction false} FreeIsClear(f: Form, length: nat, slot: nat, at: nat, size: int, n: nat, relent: nat)
    requires Supported(f) && relent > 0 && slot + f.word <= length && Covers(size, n, relent)
    requires forall m :: 0 <= m < n ==> Apart(slot, f.word, at + m * relent, f.entrySize)
    ensures SlotClear(f, length, slot, at, size, relent)
    decreases n
  {
    hide Covers;
    CoversRest(size, n, relent);
    if n > 0 {
      forall m | 0 <= m < n - 1
        ensures Apart(slot, f.word, at + relent + m * relent, f.entrySize)
      {
        NextPlace(at, m, relent);
      }
      FreeIsClear(f, length, slot, at + relent, size - relent, n - 1, relent);
      assert Apart(slot, f.word, at + 0 * relent, f.entrySize);
    }
  }

  /** Such a table with its slots meets what `Relocate` asks for. */
  lemma LaidIsSound(f: Form, mem: seq<byte>, table: nat, size: int, relent: nat, laid: seq<Laid>)
    requires Supported(f) && relent > 0 && Covers(size, |laid|, relent)
    requires LaidOut(f, mem, table, relent, laid) && SlotsFree(f, |mem|, table, relent, laid)
    ensures Sound(f, mem, Found(table, size, relent))
  {
    hide Table, TableFits, SlotClear, Apart, Covers;
    LaidTable(f, mem, table, size, relent, laid);
    var es := Table(f, mem, table, size, relent);
    forall e | e in es && e.relative
      ensures SlotClear(f, |mem|, e.offset, table, size, relent)
    {
      var k :| 0 <= k < |es| && es[k] == e;
      FreeIsClear(f, |mem|, e.offset, table, size, |laid|, relent);
    }
  }

  /** Applying it leaves the right word in every slot. */
  lemma LaidIsDone(f: Form, base: nat, mem: seq<byte>, table: nat, size: int, relent: nat, laid: seq<Laid>)
    requires Supported(f) && base < Range(f.word) && relent > 0 && Covers(size, |laid|, relent)
    requires LaidOut(f, mem, table, relent, laid) && SlotsFree(f, |mem|, table, relent, laid)
    ensures Sound(f, mem, Found(table, size, relent))
    ensures var es := Table(f, mem, table, size, relent);
            Proper(f, |mem|, es) && SlotsDone(f, base, mem, ApplyAll(f, base, mem, es), laid)
  {
    hide Table, TableFits, SlotClear, Apart, ReadEntry, ApplyAll, Load, Covers;
    LaidIsSound(f, mem, table, size, relent, laid);
    LaidTable(f, mem, table, size, relent, laid);
    var es := Table(f, mem, table, size, relent);
    TableIsProper(f, mem, table, size, relent, es);
    assert forall k :: 0 <= k < |es| ==> es[k] == EntryOf(f, laid[k]);
    ApplyAllRelocates(f, base, mem, es);
    DoneByEntries(f, base, mem, ApplyAll(f, base, mem, es), es, laid);
  }

  lemma DoneByEntries(f: Form, base: nat, before: seq<byte>, after: seq<byte>, es: seq<Entry>, laid: seq<Laid>)
    requires Supported(f) && base < Range(f.word) && Proper(f, |before|, es) && Relocated(f, base, before, after, es)
    requires |es| == |laid| && forall k :: 0 <= k < |es| ==> es[k] == EntryOf(f, laid[k])
    ensures SlotsDone(f, base, before, after, laid)
  {
    hide Load, Range;
    LoadBytes([], 0);
    forall k | 0 <= k < |laid| && IsRelative(f, laid[k])
      ensures es[k] in es && es[k].relative
    {
    }
    forall i | 0 <= i < |before| && OutsideSlots(f, laid, i)
      ensures after[i] == before[i]
    {
      forall e | e in es
        ensures !InSlot(f, e, i)
      {
        var k :| 0 <= k < |es| && es[k] == e;
      }
    }
  }

  lemma DescribedIsDone(f: Form, base: nat, dyn: seq<Dyn>, mem: seq<byte>, table: nat, size: int, relent: nat,
                        laid: seq<Laid>)
    requires Supported(f) && base < Range(f.word) && forall d :: d in dyn ==> d.val < Range(f.word)
    requires Describes(f, base, dyn, table, size, relent) && Covers(size, |laid|, relent)
    requires LaidOut(f, mem, table, relent, laid) && SlotsFree(f, |mem|, table, relent, laid)
    ensures relent > 0 && Scan(f, base, dyn) == Found(table, size, relent)
    ensures Sound(f, mem, Scan(f, base, dyn))
    ensures var es := Table(f, mem, table, size, relent);
            Proper(f, |mem|, es) && SlotsDone(f, base, mem, ApplyAll(f, base, mem, es), laid)
  {
    hide Table, ApplyAll, LaidOut, SlotsFree, SlotsDone, Scan, Range, Covers;
    ScanFinds(f, base, dyn, table, size, relent);
    LaidIsDone(f, base, mem, table, size, relent, laid);
  }

  /** `_relocate`: nothing to do without a table, an error for half a table, otherwise every entry
      applied once, in order. */
  method Relocate(f: Form, base: nat, dyn: seq<Dyn>, mem: array<byte>) returns (status: Status)
    requires Supported(f) && base < Range(f.word) && forall d :: d in dyn ==> d.val < Range(f.word)
    requires exists i :: 0 <= i < |dyn| && dyn[i].tag == DT_NULL
    requires var found := Scan(f, base, dyn[..Terminator(dyn)]);
             found.table >= 0 && found.relent != 0 ==> Sound(f, mem[..], found)
    modifies mem
    ensures var found := Scan(f, base, dyn[..Terminator(dyn)]);
            && (status == LoadError <==> (found.table >= 0) != (found.relent != 0))
            && (found.table < 0 || found.relent == 0 ==> mem[..] == old(mem[..]))
            && (found.table >= 0 && found.relent != 0 ==>
                  var es := Table(f, old(mem[..]), found.table, found.relsz, found.relent);
                  Proper(f, mem.Length, es) && mem[..] == ApplyAll(f, base, old(mem[..]), es))
    // for every table laid out in the image
    ensures forall table: nat, size: int, relent: nat, laid: seq<Laid> ::
              && Describes(f, base, dyn[..Terminator(dyn)], table, size, relent) && Covers(size, |laid|, relent)
              && LaidOut(f, old(mem[..]), table, relent, laid) && SlotsFree(f, mem.Length, table, relent, laid) ==>
                status == Success && SlotsDone(f, base, old(mem[..]), mem[..], laid)
  {
    hide Proper, TableFits, SlotsClear, ApplyAll, Table, Scan, Terminator;
    hide Describes, Covers, LaidOut, SlotsFree, SlotsDone;
    ghost var before, section := mem[..], dyn[..Terminator(dyn)];
    forall table: nat, size: int, relent: nat, laid: seq<Laid> |
      && Describes(f, base, section, table, size, relent) && Covers(size, |laid|, relent)
      && LaidOut(f, before, table, relent, laid) && SlotsFree(f, |before|, table, relent, laid)
      ensures Scan(f, base, section) == Found(table, size, relent) && relent > 0
      ensures var es := Table(f, before, table, size, relent);
              Proper(f, |before|, es) && SlotsDone(f, base, before, ApplyAll(f, base, before, es), laid)
    {
      DescribedIsDone(f, base, section, before, table, size, relent, laid);
    }
    var found := ScanDynamic(f, base, dyn);
    if found.table < 0 && found.relent == 0 {
      return Success;
    }
    if found.table < 0 || found.relent == 0 {
      return LoadError;
    }
    ApplyTable(f, base, found.table, found.relsz, found.relent, mem);
    status := Success;
  }
}
