/** Damage to a header that gives its own size: what `CheckCrc` of `lib/crc.c` notices and what it cannot. */
module SizedHeader {
  import opened Crc

  /** `CheckCrc` reads the size from the header, so this holds while the size field is left alone. */
  lemma CheckedDamageIff(h: seq<bv8>, d: seq<bv8>, maxSize: nat, lo: nat)
    requires TABLE_HEADER_SIZE <= |h| && HeaderSizeField(h) <= |h|
    requires Accepts(h, maxSize, HeaderSizeField(h))
    requires DifferOnlyIn(h, d, lo, lo + 4) && d[HEADER_SIZE_AT..CRC32_AT] == h[HEADER_SIZE_AT..CRC32_AT]
    ensures var size := HeaderSizeField(h);
            && HeaderSizeField(d) == size
            && (Accepts(d, maxSize, size) <==>
                Xor(CrcField(h), CrcField(d))
                == Steps(Xor(Pack(Summed(h, size, lo)), Pack(Summed(d, size, lo))), StepsLeft(size, lo)))
  {
    hide Accepts, CrcField, Summed, StepsLeft, Pack, Steps, Xor, Load32;
    DamageIsOverlookedIff(h, d, maxSize, HeaderSizeField(h), lo);
  }

  /** One changed byte in front of or behind the size field is noticed by `CheckCrc`. */
  lemma OneByteChecked(h: seq<bv8>, maxSize: nat, at: nat, b: bv8)
    requires TABLE_HEADER_SIZE <= |h| && at < HeaderSizeField(h) <= |h|
    requires b != h[at] && !(HEADER_SIZE_AT <= at < CRC32_AT)
    ensures HeaderSizeField(h[at := b]) == HeaderSizeField(h)
    ensures Accepts(h, maxSize, HeaderSizeField(h)) ==> !Accepts(h[at := b], maxSize, HeaderSizeField(h))
  {
    hide Accepts, Load32;
    assert h[at := b][HEADER_SIZE_AT..CRC32_AT] == h[HEADER_SIZE_AT..CRC32_AT];
    OneByteDamage(h, maxSize, HeaderSizeField(h), at, b);
  }

  // Any register can be reached from any other by four bytes.

  function StepBack(c: bv32): bv32 {
    if c & 0x80000000 != 0 then (Xor(c, POLYNOMIAL) << 1) | 1 else c << 1
  }

  lemma TopBit(c: bv32)
    requires c & 0x80000000 != 0
    ensures Xor(c, POLYNOMIAL) & 0x80000000 == 0
  {
  }

  lemma ShiftForth(y: bv32)
    requires y & 0x80000000 == 0
    ensures (y << 1) & 1 == 0 && (y << 1) >> 1 == y
    ensures ((y << 1) | 1) & 1 == 1 && ((y << 1) | 1) >> 1 == y
  {
  }

  lemma StepForth(c: bv32)
    ensures Step(StepBack(c)) == c
  {
    hide Xor;
    if c & 0x80000000 != 0 {
      TopBit(c);
      ShiftForth(Xor(c, POLYNOMIAL));
      XorBack(POLYNOMIAL, c);
      XorSwap(POLYNOMIAL, c);
      XorSwap(Xor(c, POLYNOMIAL), POLYNOMIAL);
    } else {
      ShiftForth(c);
    }
  }

  function StepsBack(c: bv32, n: nat): bv32 {
    if n == 0 then c else StepBack(StepsBack(c, n - 1))
  }

  lemma {:induction false} StepsForth(c: bv32, n: nat)
    ensures Steps(StepsBack(c, n), n) == c
    decreases n
  {
    hide Step, StepBack;
    if n > 0 {
      StepForth(StepsBack(c, n - 1));
      StepsForth(c, n - 1);
    }
  }

  lemma PackStore(v: bv32)
    ensures Pack(Store32(v)) == v
  {
    var b := Store32(v);
    hide Store32, Prepend;
    PackFour(b);
    PrependAll(v);
  }

  lemma PackFour(b: seq<bv8>)
    requires |b| == 4
    ensures Pack(b) == Prepend(b[0], Prepend(b[1], Prepend(b[2], Prepend(b[3], 0))))
  {
    hide Prepend;
    assert b[1..][1..] == b[2..] && b[2..][1..] == b[3..] && b[3..][1..] == [];
    assert Pack([]) == 0;
    assert Pack(b[3..]) == Prepend(b[3], 0);
    assert Pack(b[2..]) == Prepend(b[2], Pack(b[3..]));
    assert Pack(b[1..]) == Prepend(b[1], Pack(b[2..]));
  }

  lemma PrependAll(v: bv32)
    ensures var b := Store32(v); Prepend(b[0], Prepend(b[1], Prepend(b[2], Prepend(b[3], 0)))) == v
  {
  }

  /** The four bytes that lead from one register to another. */
  lemma Reach(from: bv32, to: bv32) returns (w: seq<bv8>)
    ensures |w| == 4 && Divide(from, w) == to
  {
    hide Xor, Steps, Pack, Divide, Store32;
    var v := Xor(from, StepsBack(to, 32));
    w := Store32(v);
    PackStore(v);
    DivideWindow(from, w);
    XorBack(from, StepsBack(to, 32));
    StepsForth(to, 32);
  }

  /** A header: twelve bytes, a small size, the sum field, and the rest. */
  function Assembled(a: seq<bv8>, size: bv8, field: bv32, rest: seq<bv8>): (h: seq<bv8>)
    requires |a| == HEADER_SIZE_AT
    ensures |h| == 20 + |rest|
  {
    a + [size, 0, 0, 0] + Store32(field) + rest
  }

  lemma AssembledFields(a: seq<bv8>, size: bv8, field: bv32, rest: seq<bv8>, v: bv32)
    requires |a| == HEADER_SIZE_AT && |rest| >= 4
    ensures var h := Assembled(a, size, field, rest);
            && HeaderSizeField(h) == size as nat && CrcField(h) == field
            && PutCrc(h, v) == Assembled(a, size, v, rest)
  {
    hide Store32, Word;
    var h := Assembled(a, size, field, rest);
    assert h[12..16] == [size, 0, 0, 0] && h[16..20] == Store32(field) && h[20..] == rest;
    assert h[..16] == a + [size, 0, 0, 0];
    SmallWord(size);
    LoadStore32(field);
  }

  lemma SmallWord(b: bv8)
    ensures Word(b, 0, 0, 0) == b as bv32
  {
  }

  lemma AssembledParts(a: seq<bv8>, size: bv8, field: bv32, b: seq<bv8>, w: seq<bv8>, other: bv8)
    requires |a| == HEADER_SIZE_AT && |b| == 4
    ensures Assembled(a, size, field, b + w)[..24] == Assembled(a, size, field, b)
    ensures Assembled(a, size, field, b + w) == Assembled(a, size, field, b) + w
    ensures Assembled(a, size, field, b + w)[12 := other] == Assembled(a, other, field, b + w)
  {
    hide Store32;
    assert Assembled(a, size, field, b + w) == Assembled(a, size, field, b) + w;
    assert (a + [size, 0, 0, 0])[12 := other] == a + [other, 0, 0, 0];
  }

  /** Twelve bytes in front and four behind the two fields, whatever they are, can be completed to a header that
      `CheckCrc` accepts with a size of 24 and, with just that byte of the size changed, with a size of 28: four
      bytes behind lead back to the same sum. */
  lemma SizeDamageIsAccepted(a: seq<bv8>, b: seq<bv8>, maxSize: nat) returns (crc: bv32, w: seq<bv8>)
    requires |a| == HEADER_SIZE_AT && |b| == 4 && (maxSize == 0 || maxSize >= 28)
    ensures |w| == 4
    ensures var h := Assembled(a, 24, crc, b + w);
            && HeaderSizeField(h) == 24 && Accepts(h, maxSize, 24)
            && HeaderSizeField(h[12 := 28]) == 28 && Accepts(h[12 := 28], maxSize, 28)
  {
    hide Divide, Crc32, CrcField, Store32, Load32, Assembled, HeaderSizeField, PutCrc;
    var m: bv32 := 0xFFFFFFFF;
    var front, other := Assembled(a, 24, 0, b), Assembled(a, 28, 0, b);
    w := Reach(Divide(m, other), Divide(m, front));
    crc := Crc32(front);
    AssembledFields(a, 24, crc, b + w, 0);
    AssembledFields(a, 28, crc, b + w, 0);
    AssembledParts(a, 24, crc, b, w, 28);
    AssembledParts(a, 24, 0, b, w, 28);
    AssembledParts(a, 28, 0, b, w, 28);
    DivideSplit(m, other, w);
    SumsAgree(front, other + w);
    assert (other + w)[..28] == other + w;
  }

  lemma SumsAgree(a: seq<bv8>, b: seq<bv8>)
    requires Divide(0xFFFFFFFF, a) == Divide(0xFFFFFFFF, b)
    ensures Crc32(a) == Crc32(b)
  {
    hide Divide;
  }

  // ----- one such header, byte for byte

  /** Eight steps written out. */
  function Eight(c: bv32): bv32 {
    Step(Step(Step(Step(Step(Step(Step(Step(c))))))))
  }

  lemma EightSteps(c: bv32)
    ensures Steps(c, 8) == Eight(c)
  {
    hide Step;
    var d := Step(Step(Step(Step(c))));
    StepsSplit(c, 4, 4);
    assert Steps(c, 4) == d;
    assert Steps(d, 4) == Eight(c);
  }

  lemma FourBytes(x: bv32, a: bv32, b: bv32, c: bv32, y: bv32)
    requires Eight(x) == a && Eight(a) == b && Eight(b) == c && Eight(c) == y
    ensures Steps(x, 32) == y
  {
    hide Steps, Eight;
    EightSteps(x);
    EightSteps(a);
    EightSteps(b);
    EightSteps(c);
    StepsSplit(x, 8, 24);
    StepsSplit(a, 8, 16);
    StepsSplit(b, 8, 8);
  }

  lemma StepsInFront()
    ensures Steps(0xFFFFFFFF, 32) == 0xDEBB20E3
    ensures Steps(0xDEBB20E3, 32) == 0x9ADD2096
    ensures Steps(0x9ADD2096, 32) == 0x842A3990
  {
    FourBytes(0xFFFFFFFF, 0x2DFD1072, 0xBE26ED00, 0x00BE26ED, 0xDEBB20E3);
    FourBytes(0xDEBB20E3, 0x39DD08E2, 0x4E3D5E5C, 0x62932081, 0x9ADD2096);
    FourBytes(0x9ADD2096, 0x19F6EB51, 0x1C759789, 0x94784E13, 0x842A3990);
  }

  lemma StepsToShort()
    ensures Steps(0x842A3988, 32) == 0x86E9CBDA
    ensures Steps(0x86E9CBDA, 32) == 0x5F744EEC
    ensures Steps(0x5F744EEC, 32) == 0x562AAEDD
  {
    FourBytes(0x842A3988, 0xE3E7212B, 0xAC5F1E61, 0x3A190ED0, 0x86E9CBDA);
    FourBytes(0x86E9CBDA, 0x6680D201, 0x7761B044, 0x71C6E439, 0x5F744EEC);
    FourBytes(0x5F744EEC, 0xA9E3DA1D, 0x63AF8F03, 0x996AFE35, 0x562AAEDD);
  }

  lemma StepsToLong()
    ensures Steps(0x842A398C, 32) == 0x098B5C8D
    ensures Steps(0x098B5C8D, 32) == 0xDB3E4016
    ensures Steps(0xDB3E4016, 32) == 0x552C95A2
  {
    FourBytes(0x842A398C, 0xE48AE532, 0xC833DB65, 0x3D10A60C, 0x098B5C8D);
    FourBytes(0x098B5C8D, 0x930074C1, 0xECF0F252, 0x8589C02A, 0xDB3E4016);
    FourBytes(0xDB3E4016, 0xF40F8B11, 0x6A442F79, 0x29B38DB7, 0x552C95A2);
  }

  lemma StepsBehind()
    ensures Steps(0x5F744EEC, 32) == 0x562AAEDD
  {
    FourBytes(0x5F744EEC, 0xA9E3DA1D, 0x63AF8F03, 0x996AFE35, 0x562AAEDD);
  }

  lemma FeedWord(c: bv32, w: seq<bv8>, x: bv32, y: bv32)
    requires |w| == 4 && Xor(c, Pack(w)) == x && Steps(x, 32) == y
    ensures Divide(c, w) == y
  {
    hide Steps, Divide, Pack;
    DivideWindow(c, w);
  }

  lemma FeedThree(c: bv32, u: seq<bv8>, v: seq<bv8>, w: seq<bv8>)
    ensures Divide(c, u + v + w) == Divide(Divide(Divide(c, u), v), w)
  {
    hide Divide;
    DivideSplit(c, u + v, w);
    DivideSplit(c, u, v);
  }

  lemma SmallPack(b: bv8)
    ensures Pack([b, 0, 0, 0]) == b as bv32
  {
    hide Prepend;
    PackFour([b, 0, 0, 0]);
    PrependSmall(b);
  }

  lemma PrependSmall(b: bv8)
    ensures Prepend(b, Prepend(0, Prepend(0, Prepend(0, 0)))) == b as bv32
  {
  }

  lemma LastPack()
    ensures Pack([0x4E, 0xDB, 0x58, 0x0A]) == 0x0A58DB4E
  {
    hide Prepend;
    PackFour([0x4E, 0xDB, 0x58, 0x0A]);
    PrependLast();
  }

  lemma PrependLast()
    ensures Prepend(0x4E, Prepend(0xDB, Prepend(0x58, Prepend(0x0A, 0)))) == 0x0A58DB4E
  {
  }

  lemma XorConstants()
    ensures Xor(0x842A3990, 24) == 0x842A3988 && Xor(0x842A3990, 28) == 0x842A398C
    ensures Xor(0x552C95A2, 0x0A58DB4E) == 0x5F744EEC && Xor(0x562AAEDD, 0xFFFFFFFF) == 0xA9D55122
  {
  }

  const NO_BYTES: seq<bv8> := [0, 0, 0, 0]

  /** The words of a header of zeros with a small size. */
  lemma SmallHeader(size: bv8)
    ensures var z := NO_BYTES; Assembled(z + z + z, size, 0, z) == z + z + z + ([size, 0, 0, 0] + z + z)
  {
    hide Store32;
    ZeroStored();
  }

  lemma ZeroHeaderSums()
    ensures var z := NO_BYTES;
            && Divide(0xFFFFFFFF, Assembled(z + z + z, 24, 0, z)) == 0x562AAEDD
            && Divide(0xFFFFFFFF, Assembled(z + z + z, 28, 0, z)) == 0x552C95A2
  {
    hide Steps, Divide, Pack, Xor, Assembled;
    var z, m: bv32 := NO_BYTES, 0xFFFFFFFF;
    StepsInFront();
    StepsToShort();
    StepsToLong();
    XorConstants();
    SmallHeader(24);
    SmallHeader(28);
    FeedThree(m, z, z, z);
    DivideSplit(m, z + z + z, [24, 0, 0, 0] + z + z);
    DivideSplit(m, z + z + z, [28, 0, 0, 0] + z + z);
    FeedThree(0x842A3990, [24, 0, 0, 0], z, z);
    FeedThree(0x842A3990, [28, 0, 0, 0], z, z);
    SmallPack(0);
    SmallPack(24);
    SmallPack(28);
    XorSwap(0xFFFFFFFF, 0);
    FeedWord(0xFFFFFFFF, z, 0xFFFFFFFF, 0xDEBB20E3);
    XorSwap(0xDEBB20E3, 0);
    FeedWord(0xDEBB20E3, z, 0xDEBB20E3, 0x9ADD2096);
    XorSwap(0x9ADD2096, 0);
    FeedWord(0x9ADD2096, z, 0x9ADD2096, 0x842A3990);
    FeedWord(0x842A3990, [24, 0, 0, 0], 0x842A3988, 0x86E9CBDA);
    XorSwap(0x86E9CBDA, 0);
    FeedWord(0x86E9CBDA, z, 0x86E9CBDA, 0x5F744EEC);
    XorSwap(0x5F744EEC, 0);
    FeedWord(0x5F744EEC, z, 0x5F744EEC, 0x562AAEDD);
    FeedWord(0x842A3990, [28, 0, 0, 0], 0x842A398C, 0x098B5C8D);
    XorSwap(0x098B5C8D, 0);
    FeedWord(0x098B5C8D, z, 0x098B5C8D, 0xDB3E4016);
    XorSwap(0xDB3E4016, 0);
    FeedWord(0xDB3E4016, z, 0xDB3E4016, 0x552C95A2);
  }

  /** 28 bytes that `CheckCrc` accepts with a size of 24, and with that byte changed to 28. */
  lemma SizeDamageExample()
    ensures var z := NO_BYTES;
            var h := z + z + z + [24, 0, 0, 0] + [0x22, 0x51, 0xD5, 0xA9] + z + [0x4E, 0xDB, 0x58, 0x0A];
            && HeaderSizeField(h) == 24 && Accepts(h, 0, 24)
            && HeaderSizeField(h[12 := 28]) == 28 && Accepts(h[12 := 28], 0, 28)
  {
    hide Divide, Pack, Steps, Xor, CrcField, Store32, Load32, Assembled, HeaderSizeField, PutCrc;
    var z, w, m: bv32 := NO_BYTES, [0x4E, 0xDB, 0x58, 0x0A], 0xFFFFFFFF;
    var a, crc: bv32 := z + z + z, 0xA9D55122;
    ZeroHeaderSums();
    StepsBehind();
    XorConstants();
    LastPack();
    FeedWord(0x552C95A2, w, 0x5F744EEC, 0x562AAEDD);
    DivideSplit(m, Assembled(a, 28, 0, z), w);
    AssembledFields(a, 24, crc, z + w, 0);
    AssembledFields(a, 28, crc, z + w, 0);
    AssembledParts(a, 24, crc, z, w, 28);
    AssembledParts(a, 24, 0, z, w, 28);
    AssembledParts(a, 28, 0, z, w, 28);
    assert (Assembled(a, 28, 0, z) + w)[..28] == Assembled(a, 28, 0, z) + w;
    ExampleBytes();
  }

  lemma ExampleBytes()
    ensures var z := NO_BYTES;
            z + z + z + [24, 0, 0, 0] + [0x22, 0x51, 0xD5, 0xA9] + z + [0x4E, 0xDB, 0x58, 0x0A]
            == Assembled(z + z + z, 24, 0xA9D55122, z + [0x4E, 0xDB, 0x58, 0x0A])
  {
    hide Store32;
    StoredSum();
  }

  lemma StoredSum()
    ensures Store32(0xA9D55122) == [0x22, 0x51, 0xD5, 0xA9]
  {
  }
}
