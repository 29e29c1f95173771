/** The CRC-32 of `lib/crc.c` and the sealed EFI table header.

    The table-driven sum is tied to the bit-at-a-time division it speeds up (section 8 of
    RFC 1952).  Everything about errors follows from two facts about one division step:
    it is linear over xor, and it is injective.  Proofs that need only those two facts
    hide the definitions of `Xor` and `Step`. */
module Crc {
  const POLYNOMIAL: bv32 := 0xEDB88320

  function Xor(x: bv32, y: bv32): bv32 { x ^ y }

  function XorByte(a: bv8, b: bv8): bv8 { a ^ b }

  /** One step of the reflected division: shift one bit out, subtract the divisor if it was set. */
  function Step(c: bv32): bv32 {
    if c & 1 == 1 then Xor(c >> 1, POLYNOMIAL) else c >> 1
  }

  function Steps(c: bv32, n: nat): bv32
    decreases n
  {
    if n == 0 then c else Steps(Step(c), n - 1)
  }

  /** The reference form: feed one byte, least significant bit first. */
  function FeedByte(c: bv32, b: bv8): bv32 {
    Steps(Xor(c, b as bv32), 8)
  }

  function Divide(c: bv32, data: seq<bv8>): bv32
    decreases |data|
  {
    if data == [] then c else Divide(FeedByte(c, data[0]), data[1..])
  }

  /** CRC-32 as section 8 of RFC 1952 defines it. */
  function Crc32(data: seq<bv8>): bv32 {
    Xor(Divide(0xFFFFFFFF, data), 0xFFFFFFFF)
  }

  // ----- one division step is linear and injective

  lemma XorLaws(x: bv32, y: bv32, z: bv32)
    ensures Xor(x, y) == Xor(y, x)
    ensures Xor(Xor(x, y), z) == Xor(x, Xor(y, z))
    ensures Xor(x, Xor(x, y)) == y
    ensures Xor(x, x) == 0 && Xor(x, 0) == x
  {
    hide Xor;
    XorSwap(x, y);
    XorAssociates(x, y, z);
    XorBack(x, y);
  }

  lemma XorSwap(x: bv32, y: bv32)
    ensures Xor(x, y) == Xor(y, x) && Xor(x, x) == 0 && Xor(x, 0) == x
  {
  }

  lemma XorAssociates(x: bv32, y: bv32, z: bv32)
    ensures Xor(Xor(x, y), z) == Xor(x, Xor(y, z))
  {
  }

  lemma XorBack(x: bv32, y: bv32)
    ensures Xor(x, Xor(x, y)) == y
  {
  }

  lemma XorSame(x: bv32, y: bv32, z: bv32)
    ensures Xor(x, y) == Xor(x, z) <==> y == z
  {
    hide Xor;
    XorBack(x, y);
    XorBack(x, z);
  }

  lemma XorBits(x: bv32, y: bv32)
    ensures (x ^ y) >> 1 == (x >> 1) ^ (y >> 1)
    ensures (x ^ y) & 1 == (x & 1) ^ (y & 1)
    ensures x & 1 == 0 || x & 1 == 1
    ensures y & 1 == 0 || y & 1 == 1
  {
  }

  lemma XorRegroup(a: bv32, b: bv32, p: bv32)
    ensures (a ^ p) ^ b == (a ^ b) ^ p
    ensures a ^ (b ^ p) == (a ^ b) ^ p
    ensures (a ^ p) ^ (b ^ p) == a ^ b
  {
  }

  lemma StepLinear(x: bv32, y: bv32)
    ensures Step(Xor(x, y)) == Xor(Step(x), Step(y))
  {
    XorBits(x, y);
    XorRegroup(x >> 1, y >> 1, POLYNOMIAL);
  }

  lemma {:induction false} StepsLinear(x: bv32, y: bv32, n: nat)
    ensures Steps(Xor(x, y), n) == Xor(Steps(x, n), Steps(y, n))
    decreases n
  {
    hide Step, Xor;
    if n > 0 {
      StepLinear(x, y);
      StepsLinear(Step(x), Step(y), n - 1);
    }
  }

  lemma StepInjective(x: bv32, y: bv32)
    requires Step(x) == Step(y)
    ensures x == y
  {
  }

  lemma {:induction false} StepsInjective(x: bv32, y: bv32, n: nat)
    requires Steps(x, n) == Steps(y, n)
    ensures x == y
    decreases n
  {
    hide Step;
    if n > 0 {
      StepsInjective(Step(x), Step(y), n - 1);
      StepInjective(x, y);
    }
  }

  lemma {:induction false} StepsSplit(x: bv32, m: nat, n: nat)
    ensures Steps(x, m + n) == Steps(Steps(x, m), n)
    decreases m
  {
    hide Step;
    if m > 0 {
      StepsSplit(Step(x), m - 1, n);
    }
  }

  lemma ShiftOutTwo(x: bv32)
    requires x & 3 == 0
    ensures Steps(x, 2) == x >> 2
  {
    assert Step(x) == x >> 1;
    assert Step(x >> 1) == x >> 2;
    assert Steps(x, 2) == Steps(x >> 1, 1) == Steps(x >> 2, 0);
  }

  lemma ShiftOutNibble(x: bv32)
    requires x & 0xF == 0
    ensures Steps(x, 4) == x >> 4
  {
    hide Steps;
    ShiftOutTwo(x);
    ShiftOutTwo(x >> 2);
    StepsSplit(x, 2, 2);
  }

  /** A byte that is zero is shifted out without touching the divisor. */
  lemma ShiftOutByte(x: bv32)
    requires x & 0xFF == 0
    ensures Steps(x, 8) == x >> 8
  {
    hide Steps;
    ShiftOutNibble(x);
    ShiftOutNibble(x >> 4);
    StepsSplit(x, 4, 4);
  }

  // ----- the table

  function TableRows0(r: nat): (row: seq<bv32>)
    requires 0 <= r < 4
    ensures |row| == 16
  {
    match r
    case 0 =>
      [0x00000000, 0x77073096, 0xEE0E612C, 0x990951BA, 0x076DC419, 0x706AF48F, 0xE963A535, 0x9E6495A3,
       0x0EDB8832, 0x79DCB8A4, 0xE0D5E91E, 0x97D2D988, 0x09B64C2B, 0x7EB17CBD, 0xE7B82D07, 0x90BF1D91]
    case 1 =>
      [0x1DB71064, 0x6AB020F2, 0xF3B97148, 0x84BE41DE, 0x1ADAD47D, 0x6DDDE4EB, 0xF4D4B551, 0x83D385C7,
       0x136C9856, 0x646BA8C0, 0xFD62F97A, 0x8A65C9EC, 0x14015C4F, 0x63066CD9, 0xFA0F3D63, 0x8D080DF5]
    case 2 =>
      [0x3B6E20C8, 0x4C69105E, 0xD56041E4, 0xA2677172, 0x3C03E4D1, 0x4B04D447, 0xD20D85FD, 0xA50AB56B,
       0x35B5A8FA, 0x42B2986C, 0xDBBBC9D6, 0xACBCF940, 0x32D86CE3, 0x45DF5C75, 0xDCD60DCF, 0xABD13D59]
    case _ =>
      [0x26D930AC, 0x51DE003A, 0xC8D75180, 0xBFD06116, 0x21B4F4B5, 0x56B3C423, 0xCFBA9599, 0xB8BDA50F,
       0x2802B89E, 0x5F058808, 0xC60CD9B2, 0xB10BE924, 0x2F6F7C87, 0x58684C11, 0xC1611DAB, 0xB6662D3D]
  }

  function TableRows4(r: nat): (row: seq<bv32>)
    requires 4 <= r < 8
    ensures |row| == 16
  {
    match r
    case 4 =>
      [0x76DC4190, 0x01DB7106, 0x98D220BC, 0xEFD5102A, 0x71B18589, 0x06B6B51F, 0x9FBFE4A5, 0xE8B8D433,
       0x7807C9A2, 0x0F00F934, 0x9609A88E, 0xE10E9818, 0x7F6A0DBB, 0x086D3D2D, 0x91646C97, 0xE6635C01]
    case 5 =>
      [0x6B6B51F4, 0x1C6C6162, 0x856530D8, 0xF262004E, 0x6C0695ED, 0x1B01A57B, 0x8208F4C1, 0xF50FC457,
       0x65B0D9C6, 0x12B7E950, 0x8BBEB8EA, 0xFCB9887C, 0x62DD1DDF, 0x15DA2D49, 0x8CD37CF3, 0xFBD44C65]
    case 6 =>
      [0x4DB26158, 0x3AB551CE, 0xA3BC0074, 0xD4BB30E2, 0x4ADFA541, 0x3DD895D7, 0xA4D1C46D, 0xD3D6F4FB,
       0x4369E96A, 0x346ED9FC, 0xAD678846, 0xDA60B8D0, 0x44042D73, 0x33031DE5, 0xAA0A4C5F, 0xDD0D7CC9]
    case _ =>
      [0x5005713C, 0x270241AA, 0xBE0B1010, 0xC90C2086, 0x5768B525, 0x206F85B3, 0xB966D409, 0xCE61E49F,
       0x5EDEF90E, 0x29D9C998, 0xB0D09822, 0xC7D7A8B4, 0x59B33D17, 0x2EB40D81, 0xB7BD5C3B, 0xC0BA6CAD]
  }

  function TableRows8(r: nat): (row: seq<bv32>)
    requires 8 <= r < 12
    ensures |row| == 16
  {
    match r
    case 8 =>
      [0xEDB88320, 0x9ABFB3B6, 0x03B6E20C, 0x74B1D29A, 0xEAD54739, 0x9DD277AF, 0x04DB2615, 0x73DC1683,
       0xE3630B12, 0x94643B84, 0x0D6D6A3E, 0x7A6A5AA8, 0xE40ECF0B, 0x9309FF9D, 0x0A00AE27, 0x7D079EB1]
    case 9 =>
      [0xF00F9344, 0x8708A3D2, 0x1E01F268, 0x6906C2FE, 0xF762575D, 0x806567CB, 0x196C3671, 0x6E6B06E7,
       0xFED41B76, 0x89D32BE0, 0x10DA7A5A, 0x67DD4ACC, 0xF9B9DF6F, 0x8EBEEFF9, 0x17B7BE43, 0x60B08ED5]
    case 10 =>
      [0xD6D6A3E8, 0xA1D1937E, 0x38D8C2C4, 0x4FDFF252, 0xD1BB67F1, 0xA6BC5767, 0x3FB506DD, 0x48B2364B,
       0xD80D2BDA, 0xAF0A1B4C, 0x36034AF6, 0x41047A60, 0xDF60EFC3, 0xA867DF55, 0x316E8EEF, 0x4669BE79]
    case _ =>
      [0xCB61B38C, 0xBC66831A, 0x256FD2A0, 0x5268E236, 0xCC0C7795, 0xBB0B4703, 0x220216B9, 0x5505262F,
       0xC5BA3BBE, 0xB2BD0B28, 0x2BB45A92, 0x5CB36A04, 0xC2D7FFA7, 0xB5D0CF31, 0x2CD99E8B, 0x5BDEAE1D]
  }

  function TableRows12(r: nat): (row: seq<bv32>)
    requires 12 <= r < 16
    ensures |row| == 16
  {
    match r
    case 12 =>
      [0x9B64C2B0, 0xEC63F226, 0x756AA39C, 0x026D930A, 0x9C0906A9, 0xEB0E363F, 0x72076785, 0x05005713,
       0x95BF4A82, 0xE2B87A14, 0x7BB12BAE, 0x0CB61B38, 0x92D28E9B, 0xE5D5BE0D, 0x7CDCEFB7, 0x0BDBDF21]
    case 13 =>
      [0x86D3D2D4, 0xF1D4E242, 0x68DDB3F8, 0x1FDA836E, 0x81BE16CD, 0xF6B9265B, 0x6FB077E1, 0x18B74777,
       0x88085AE6, 0xFF0F6A70, 0x66063BCA, 0x11010B5C, 0x8F659EFF, 0xF862AE69, 0x616BFFD3, 0x166CCF45]
    case 14 =>
      [0xA00AE278, 0xD70DD2EE, 0x4E048354, 0x3903B3C2, 0xA7672661, 0xD06016F7, 0x4969474D, 0x3E6E77DB,
       0xAED16A4A, 0xD9D65ADC, 0x40DF0B66, 0x37D83BF0, 0xA9BCAE53, 0xDEBB9EC5, 0x47B2CF7F, 0x30B5FFE9]
    case _ =>
      [0xBDBDF21C, 0xCABAC28A, 0x53B39330, 0x24B4A3A6, 0xBAD03605, 0xCDD70693, 0x54DE5729, 0x23D967BF,
       0xB3667A2E, 0xC4614AB8, 0x5D681B02, 0x2A6F2B94, 0xB40BBE37, 0xC30C8EA1, 0x5A05DF1B, 0x2D02EF8D]
  }

  function TableRow(r: nat): (row: seq<bv32>)
    requires r < 16
    ensures |row| == 16
  {
    if r < 4 then TableRows0(r) else if r < 8 then TableRows4(r)
    else if r < 12 then TableRows8(r) else TableRows12(r)
  }

  /** `CRCTable[i]`, kept as sixteen rows of sixteen entries. */
  function CrcTable(i: bv8): bv32 {
    TableRow((i >> 4) as nat)[(i & 15) as nat]
  }

  function XorRow(row: seq<bv32>, x: bv32): (r: seq<bv32>)
    requires |row| == 16
  {
    [row[0] ^ x, row[1] ^ x, row[2] ^ x, row[3] ^ x, row[4] ^ x, row[5] ^ x, row[6] ^ x, row[7] ^ x,
     row[8] ^ x, row[9] ^ x, row[10] ^ x, row[11] ^ x, row[12] ^ x, row[13] ^ x, row[14] ^ x, row[15] ^ x]
  }

  lemma XorRowAt(row: seq<bv32>, x: bv32, j: nat)
    requires |row| == 16 && j < 16
    ensures |XorRow(row, x)| == 16 && XorRow(row, x)[j] == Xor(row[j], x)
  {
    match j
    case 0 => case 1 => case 2 => case 3 => case 4 => case 5 => case 6 => case 7 =>
    case 8 => case 9 => case 10 => case 11 => case 12 => case 13 => case 14 => case _ =>
  }

  lemma Rows0To3(r: nat)
    requires r < 4
    ensures TableRow(r) == XorRow(TableRow(0), TableRow(r)[0])
  {
    match r
    case 0 => case 1 => case 2 => case _ =>
  }

  lemma Rows4To7(r: nat)
    requires 4 <= r < 8
    ensures TableRow(r) == XorRow(TableRow(0), TableRow(r)[0])
  {
    match r
    case 4 => case 5 => case 6 => case _ =>
  }

  lemma Rows8To11(r: nat)
    requires 8 <= r < 12
    ensures TableRow(r) == XorRow(TableRow(0), TableRow(r)[0])
  {
    match r
    case 8 => case 9 => case 10 => case _ =>
  }

  lemma Rows12To15(r: nat)
    requires 12 <= r < 16
    ensures TableRow(r) == XorRow(TableRow(0), TableRow(r)[0])
  {
    match r
    case 12 => case 13 => case 14 => case _ =>
  }

  lemma RowsAreShifts(r: nat)
    requires r < 16
    ensures TableRow(r) == XorRow(TableRow(0), TableRow(r)[0])
  {
    hide TableRow, XorRow;
    if r < 4 {
      Rows0To3(r);
    } else if r < 8 {
      Rows4To7(r);
    } else if r < 12 {
      Rows8To11(r);
    } else {
      Rows12To15(r);
    }
  }

  lemma RowHeads(r: bv8)
    requires r < 16
    ensures TableRow(r as nat)[0] == Steps((r << 4) as bv32, 8)
  {
    match r
    case 0 => case 1 => case 2 => case 3 => case 4 => case 5 => case 6 => case 7 =>
    case 8 => case 9 => case 10 => case 11 => case 12 => case 13 => case 14 => case _ =>
  }

  lemma FirstRowLow(j: bv8)
    requires j < 8
    ensures TableRow(0)[j as nat] == Steps(j as bv32, 8)
  {
    match j
    case 0 => case 1 => case 2 => case 3 => case 4 => case 5 => case 6 => case _ =>
  }

  lemma FirstRowHigh(j: bv8)
    requires 8 <= j < 16
    ensures TableRow(0)[j as nat] == Steps(j as bv32, 8)
  {
    match j
    case 8 => case 9 => case 10 => case 11 => case 12 => case 13 => case 14 => case _ =>
  }

  lemma Nibbles(i: bv8)
    ensures Xor((i & 15) as bv32, ((i >> 4) << 4) as bv32) == i as bv32
    ensures i >> 4 < 16 && i & 15 < 16
  {
  }

  /** Every one of the 256 table entries is the remainder of its index. */
  lemma TableIsDivision(i: bv8)
    ensures CrcTable(i) == Steps(i as bv32, 8)
  {
    hide Step, Steps, TableRow, XorRow, Xor;
    var hi, lo := i >> 4, i & 15;
    Nibbles(i);
    RowHeads(hi);
    if lo < 8 {
      FirstRowLow(lo);
    } else {
      FirstRowHigh(lo);
    }
    StepsLinear(lo as bv32, (hi << 4) as bv32, 8);
    RowsAreShifts(hi as nat);
    XorRowAt(TableRow(0), TableRow(hi as nat)[0], lo as nat);
  }

  lemma SplitRegister(c: bv32, b: bv8)
    ensures Xor(c, b as bv32) == Xor((c >> 8) << 8, XorByte((c & 0xFF) as bv8, b) as bv32)
    ensures ((c >> 8) << 8) & 0xFF == 0
    ensures ((c >> 8) << 8) >> 8 == c >> 8
  {
  }

  /** One table lookup does the work of eight division steps. */
  lemma TableStep(c: bv32, b: bv8)
    ensures Xor(c >> 8, CrcTable(XorByte((c & 0xFF) as bv8, b))) == FeedByte(c, b)
  {
    hide Step, Steps, CrcTable, Xor, XorByte;
    var high := (c >> 8) << 8;
    var index := XorByte((c & 0xFF) as bv8, b);
    SplitRegister(c, b);
    StepsLinear(high, index as bv32, 8);
    ShiftOutByte(high);
    TableIsDivision(index);
  }

  // ----- the sum

  function LowByte(crc: bv64): bv8 { (crc & 0xFF) as bv8 }

  function ShiftAndMix(crc: bv64, entry: bv32): bv64 { (crc >> 8) ^ (entry as bv64) }

  /** The loop body of `CalculateCrc`, on the 64-bit `UINTN` register. */
  function NextRegister(crc: bv64, b: bv8): bv64 {
    ShiftAndMix(crc, CrcTable(XorByte(LowByte(crc), b)))
  }

  lemma NarrowRegister(c: bv32, entry: bv32)
    ensures ShiftAndMix(c as bv64, entry) == Xor(c >> 8, entry) as bv64
    ensures LowByte(c as bv64) == (c & 0xFF) as bv8
  {
  }

  lemma RegisterFeeds(c: bv32, b: bv8)
    ensures NextRegister(c as bv64, b) == FeedByte(c, b) as bv64
  {
    hide Xor, XorByte, FeedByte, CrcTable, ShiftAndMix, LowByte;
    NarrowRegister(c, CrcTable(XorByte(LowByte(c as bv64), b)));
    TableStep(c, b);
  }

  /** A 32-bit value in the register, and what the last line of the code takes out of it. */
  function Wide(c: bv32): bv64 { c as bv64 }

  function Finish(crc: bv64): bv32 { ((crc ^ 0xFFFFFFFF) & 0xFFFFFFFF) as bv32 }

  lemma FinishWide(c: bv32)
    ensures Finish(Wide(c)) == Xor(c, 0xFFFFFFFF)
  {
  }

  lemma StartWide()
    ensures Wide(0xFFFFFFFF) == 0xFFFFFFFF
  {
  }

  lemma WideStep(c: bv32, b: bv8)
    ensures NextRegister(Wide(c), b) == Wide(FeedByte(c, b))
  {
    hide NextRegister, FeedByte;
    RegisterFeeds(c, b);
  }

  lemma DivideFirst(c: bv32, data: seq<bv8>)
    requires data != []
    ensures Divide(c, data) == Divide(FeedByte(c, data[0]), data[1..])
  {
    hide FeedByte;
  }

  lemma NothingDivided(c: bv32)
    ensures Divide(c, []) == c
  {
  }

  /** `CalculateCrc`: the register always holds a 32-bit value, and the result is the
      bit-at-a-time division of the buffer. */
  method CalculateCrc(pt: array<bv8>, size: nat) returns (r: bv32)
    requires size <= pt.Length
    ensures r == Crc32(pt[..size])
  {
    hide Xor, FeedByte, NextRegister, Divide, Wide, Finish;
    StartWide();
    var crc: bv64 := 0xFFFFFFFF;
    ghost var c: bv32 := 0xFFFFFFFF;
    var i := 0;
    while i < size
      invariant 0 <= i <= size
      invariant crc == Wide(c)
      invariant Divide(c, pt[i..size]) == Divide(0xFFFFFFFF, pt[..size])
    {
      WideStep(c, pt[i]);
      DivideFirst(c, pt[i..size]);
      assert pt[i..size][0] == pt[i] && pt[i..size][1..] == pt[i + 1..size];
      c := FeedByte(c, pt[i]);
      crc := NextRegister(crc, pt[i]);
      i := i + 1;
    }
    assert pt[i..size] == [];
    NothingDivided(c);
    FinishWide(c);
    r := Finish(crc);
  }

  // ----- the sum is affine over xor

  function XorBytes(a: seq<bv8>, b: seq<bv8>): (r: seq<bv8>)
    requires |a| == |b|
    ensures |r| == |a|
  {
    seq(|a|, i requires 0 <= i < |a| => XorByte(a[i], b[i]))
  }

  lemma XorInterchange(x: bv32, y: bv32, a: bv8, b: bv8)
    ensures Xor(Xor(x, y), XorByte(a, b) as bv32) == Xor(Xor(x, a as bv32), Xor(y, b as bv32))
  {
  }

  lemma FeedLinear(x: bv32, y: bv32, a: bv8, b: bv8)
    ensures FeedByte(Xor(x, y), XorByte(a, b)) == Xor(FeedByte(x, a), FeedByte(y, b))
  {
    hide Xor, XorByte, Steps;
    XorInterchange(x, y, a, b);
    StepsLinear(Xor(x, a as bv32), Xor(y, b as bv32), 8);
  }

  lemma {:induction false} DivideLinear(x: bv32, y: bv32, a: seq<bv8>, b: seq<bv8>)
    requires |a| == |b|
    ensures Divide(Xor(x, y), XorBytes(a, b)) == Xor(Divide(x, a), Divide(y, b))
    decreases |a|
  {
    hide Xor, XorByte, FeedByte;
    if a != [] {
      FeedLinear(x, y, a[0], b[0]);
      DivideLinear(FeedByte(x, a[0]), FeedByte(y, b[0]), a[1..], b[1..]);
      assert XorBytes(a, b)[1..] == XorBytes(a[1..], b[1..]);
    }
  }

  lemma XorCancel(x: bv32, y: bv32, m: bv32)
    ensures Xor(Xor(x, m), Xor(y, m)) == Xor(x, y)
  {
    hide Xor;
    XorLaws(x, m, Xor(y, m));
    XorLaws(m, y, y);
    XorLaws(y, m, m);
  }

  /** The complement at both ends makes the sum affine rather than linear: three sums combine. */
  lemma CrcAffine(a: seq<bv8>, b: seq<bv8>, c: seq<bv8>)
    requires |a| == |b| == |c|
    ensures Xor(Xor(Crc32(a), Crc32(b)), Crc32(c)) == Crc32(XorBytes(XorBytes(a, b), c))
  {
    hide Xor, Divide;
    var m: bv32 := 0xFFFFFFFF;
    var x, y, z := Divide(m, a), Divide(m, b), Divide(m, c);
    XorCancel(x, y, m);
    XorLaws(Xor(x, y), z, m);
    DivideLinear(m, m, a, b);
    DivideLinear(Xor(m, m), m, XorBytes(a, b), c);
    XorLaws(m, m, m);
  }

  // ----- error detection

  lemma {:induction false} DivideSplit(c: bv32, a: seq<bv8>, b: seq<bv8>)
    ensures Divide(c, a + b) == Divide(Divide(c, a), b)
    decreases |a|
  {
    hide FeedByte;
    if a == [] {
      assert a + b == b;
    } else {
      assert (a + b)[0] == a[0] && (a + b)[1..] == a[1..] + b;
      DivideSplit(FeedByte(c, a[0]), a[1..], b);
    }
  }

  lemma {:induction false} DivideInjective(c: bv32, d: bv32, data: seq<bv8>)
    requires Divide(c, data) == Divide(d, data)
    ensures c == d
    decreases |data|
  {
    hide Xor;
    if data != [] {
      var b := data[0] as bv32;
      DivideInjective(FeedByte(c, data[0]), FeedByte(d, data[0]), data[1..]);
      StepsInjective(Xor(c, b), Xor(d, b), 8);
      XorLaws(b, c, c);
      XorLaws(b, d, d);
    }
  }

  /** Up to four bytes as one little-endian word. */
  function Pack(w: seq<bv8>): bv32
    requires |w| <= 4
  {
    if w == [] then 0 else Prepend(w[0], Pack(w[1..]))
  }

  function Prepend(b: bv8, rest: bv32): bv32 {
    Xor(b as bv32, rest << 8)
  }

  lemma PackOne(b: bv8)
    ensures Prepend(b, 0) <= 0xFF
  {
  }

  lemma PackTwo(b: bv8, rest: bv32)
    requires rest <= 0xFF
    ensures Prepend(b, rest) <= 0xFFFF
  {
  }

  lemma PackThree(b: bv8, rest: bv32)
    requires rest <= 0xFFFF
    ensures Prepend(b, rest) <= 0xFFFFFF
  {
  }

  lemma PackBound(w: seq<bv8>)
    requires |w| <= 3
    ensures Pack(w) <= (if |w| <= 1 then 0xFF else if |w| == 2 then 0xFFFF else 0xFFFFFF)
  {
    hide Prepend;
    if |w| == 1 {
      PackOne(w[0]);
    } else if |w| == 2 {
      PackBound(w[1..]);
      PackTwo(w[0], Pack(w[1..]));
    } else if |w| == 3 {
      PackBound(w[1..]);
      PackThree(w[0], Pack(w[1..]));
    }
  }

  lemma PackParts(a: bv8, b: bv8, x: bv32, y: bv32)
    requires x <= 0xFFFFFF && y <= 0xFFFFFF
    requires Prepend(a, x) == Prepend(b, y)
    ensures a == b && x == y
  {
  }

  lemma {:induction false} PackInjective(v: seq<bv8>, w: seq<bv8>)
    requires |v| == |w| <= 4 && Pack(v) == Pack(w)
    ensures v == w
    decreases |v|
  {
    hide Prepend;
    if v != [] {
      PackBound(v[1..]);
      PackBound(w[1..]);
      PackParts(v[0], w[0], Pack(v[1..]), Pack(w[1..]));
      PackInjective(v[1..], w[1..]);
      assert v == [v[0]] + v[1..] && w == [w[0]] + w[1..];
    }
  }

  lemma ShiftUp(rest: bv32)
    requires rest <= 0xFFFFFF
    ensures (rest << 8) >> 8 == rest && (rest << 8) & 0xFF == 0
  {
  }

  lemma FeedThenXor(c: bv32, b: bv8, rest: bv32)
    requires rest <= 0xFFFFFF
    ensures Xor(FeedByte(c, b), rest) == Steps(Xor(c, Prepend(b, rest)), 8)
  {
    hide Xor, Steps;
    ShiftUp(rest);
    ShiftOutByte(rest << 8);
    StepsLinear(Xor(c, b as bv32), rest << 8, 8);
    XorLaws(c, b as bv32, rest << 8);
  }

  /** Four bytes enter the register before any of them leaves it, so they act as one xor. */
  lemma {:induction false} DivideWindow(c: bv32, w: seq<bv8>)
    requires |w| <= 4
    ensures Divide(c, w) == Steps(Xor(c, Pack(w)), 8 * |w|)
    decreases |w|
  {
    hide Xor, Step, FeedByte, Prepend;
    if w == [] {
      XorLaws(c, c, c);
    } else {
      PackBound(w[1..]);
      FeedThenXor(c, w[0], Pack(w[1..]));
      DivideWindow(FeedByte(c, w[0]), w[1..]);
      StepsSplit(Xor(c, Pack(w)), 8, 8 * |w[1..]|);
    }
  }

  /** Damage confined to four consecutive bytes always changes the sum, whatever surrounds it. */
  lemma WindowDetected(prefix: seq<bv8>, v: seq<bv8>, w: seq<bv8>, suffix: seq<bv8>)
    requires |v| == |w| <= 4 && v != w
    ensures Crc32(prefix + v + suffix) != Crc32(prefix + w + suffix)
  {
    hide Xor, Steps, Pack, Divide;
    var m: bv32 := 0xFFFFFFFF;
    if Crc32(prefix + v + suffix) == Crc32(prefix + w + suffix) {
      XorLaws(m, Divide(m, prefix + v + suffix), m);
      XorLaws(m, Divide(m, prefix + w + suffix), m);
      DivideSplit(m, prefix + v, suffix);
      DivideSplit(m, prefix + w, suffix);
      DivideInjective(Divide(m, prefix + v), Divide(m, prefix + w), suffix);
      DivideSplit(m, prefix, v);
      DivideSplit(m, prefix, w);
      var c := Divide(m, prefix);
      DivideWindow(c, v);
      DivideWindow(c, w);
      StepsInjective(Xor(c, Pack(v)), Xor(c, Pack(w)), 8 * |v|);
      XorLaws(c, Pack(v), Pack(v));
      XorLaws(c, Pack(w), Pack(w));
      PackInjective(v, w);
    }
  }

  ghost predicate DifferOnlyIn(a: seq<bv8>, b: seq<bv8>, lo: nat, hi: nat) {
    |a| == |b| && forall i :: 0 <= i < |a| && !(lo <= i < hi) ==> a[i] == b[i]
  }

  lemma CrcDetectsWindow(a: seq<bv8>, b: seq<bv8>, lo: nat)
    requires DifferOnlyIn(a, b, lo, lo + 4) && a != b
    ensures Crc32(a) != Crc32(b)
  {
    hide Crc32;
    var from := if lo < |a| then lo else |a|;
    var to := if lo + 4 < |a| then lo + 4 else |a|;
    assert a == a[..from] + a[from..to] + a[to..];
    assert b == a[..from] + b[from..to] + a[to..];
    WindowDetected(a[..from], a[from..to], b[from..to], a[to..]);
  }

  // ----- the sealed table header

  /** Byte offsets of two 32-bit fields of `EFI_TABLE_HEADER`, and its size. */
  const HEADER_SIZE_AT := 12
  const CRC32_AT := 16
  const TABLE_HEADER_SIZE := 24

  function Store32(v: bv32): (r: seq<bv8>)
    ensures |r| == 4
  {
    [(v & 0xFF) as bv8, ((v >> 8) & 0xFF) as bv8, ((v >> 16) & 0xFF) as bv8, ((v >> 24) & 0xFF) as bv8]
  }

  function Word(b0: bv8, b1: bv8, b2: bv8, b3: bv8): bv32 {
    (b0 as bv32) | ((b1 as bv32) << 8) | ((b2 as bv32) << 16) | ((b3 as bv32) << 24)
  }

  function Load32(b: seq<bv8>): bv32
    requires |b| == 4
  {
    Word(b[0], b[1], b[2], b[3])
  }

  lemma LoadStore32(v: bv32)
    ensures Load32(Store32(v)) == v
  {
  }

  lemma StoreWord(b0: bv8, b1: bv8, b2: bv8, b3: bv8)
    ensures Store32(Word(b0, b1, b2, b3)) == [b0, b1, b2, b3]
  {
  }

  lemma StoreLoad32(b: seq<bv8>)
    requires |b| == 4
    ensures Store32(Load32(b)) == b
  {
    hide Store32, Word;
    StoreWord(b[0], b[1], b[2], b[3]);
    assert b == [b[0], b[1], b[2], b[3]];
  }

  function PutCrc(h: seq<bv8>, v: bv32): (r: seq<bv8>)
    requires |h| >= TABLE_HEADER_SIZE
    ensures |r| == |h|
  {
    h[..CRC32_AT] + Store32(v) + h[CRC32_AT + 4..]
  }

  function CrcField(h: seq<bv8>): bv32
    requires |h| >= TABLE_HEADER_SIZE
  {
    Load32(h[CRC32_AT..CRC32_AT + 4])
  }

  /** The sum of the first `size` bytes of a header whose own sum field reads zero. */
  function SumOf(h: seq<bv8>, size: nat): bv32
    requires TABLE_HEADER_SIZE <= |h| && size <= |h|
  {
    Crc32(PutCrc(h, 0)[..size])
  }

  /** A size over the limit is refused before a byte is read; any other must lie in the buffer. */
  predicate Readable(length: nat, maxSize: nat, size: nat) {
    size <= length || (maxSize != 0 && size > maxSize)
  }

  ghost predicate Accepts(h: seq<bv8>, maxSize: nat, size: nat)
    requires |h| >= TABLE_HEADER_SIZE
    requires Readable(|h|, maxSize, size)
  {
    size != 0 && (maxSize == 0 || size <= maxSize) && CrcField(h) == SumOf(h, size)
  }

  /** The assignment `Hdr->CRC32 = v`. */
  method WriteCrcField(hdr: array<bv8>, v: bv32)
    requires hdr.Length >= TABLE_HEADER_SIZE
    modifies hdr
    ensures hdr[..] == PutCrc(old(hdr[..]), v)
  {
    var bytes := Store32(v);
    hdr[CRC32_AT] := bytes[0];
    hdr[CRC32_AT + 1] := bytes[1];
    hdr[CRC32_AT + 2] := bytes[2];
    hdr[CRC32_AT + 3] := bytes[3];
  }

  method SetCrcAltSize(size: nat, hdr: array<bv8>)
    requires TABLE_HEADER_SIZE <= hdr.Length && size <= hdr.Length
    modifies hdr
    ensures hdr[..] == PutCrc(old(hdr[..]), SumOf(old(hdr[..]), size))
  {
    hide Crc32, Store32;
    WriteCrcField(hdr, 0);
    assert hdr[..size] == hdr[..][..size];
    var crc := CalculateCrc(hdr, size);
    WriteCrcField(hdr, crc);
    PutTwice(old(hdr[..]), 0, crc);
  }

  method CheckCrcAltSize(maxSize: nat, size: nat, hdr: array<bv8>) returns (ok: bool)
    requires TABLE_HEADER_SIZE <= hdr.Length && Readable(hdr.Length, maxSize, size)
    modifies hdr
    ensures hdr[..] == old(hdr[..])
    ensures ok == Accepts(old(hdr[..]), maxSize, size)
  {
    hide Crc32, Store32, Load32;
    if size == 0 {
      return false;
    }
    if maxSize != 0 && size > maxSize {
      return false;
    }
    ghost var before := hdr[..];
    var orgCrc := Load32(hdr[CRC32_AT..CRC32_AT + 4]);
    assert hdr[CRC32_AT..CRC32_AT + 4] == before[CRC32_AT..CRC32_AT + 4];
    WriteCrcField(hdr, 0);
    assert hdr[..size] == hdr[..][..size];
    var crc := CalculateCrc(hdr, size);
    WriteCrcField(hdr, orgCrc);
    PutTwice(before, 0, orgCrc);
    PutOwnField(before);
    ok := orgCrc == crc;
  }

  function HeaderSizeField(h: seq<bv8>): nat
    requires |h| >= TABLE_HEADER_SIZE
  {
    Load32(h[HEADER_SIZE_AT..HEADER_SIZE_AT + 4]) as nat
  }

  method SetCrc(hdr: array<bv8>)
    requires TABLE_HEADER_SIZE <= hdr.Length && HeaderSizeField(hdr[..]) <= hdr.Length
    modifies hdr
    ensures hdr[..] == PutCrc(old(hdr[..]), SumOf(old(hdr[..]), HeaderSizeField(old(hdr[..]))))
  {
    hide Crc32, Store32, Load32, SumOf, PutCrc;
    assert hdr[HEADER_SIZE_AT..HEADER_SIZE_AT + 4] == hdr[..][HEADER_SIZE_AT..HEADER_SIZE_AT + 4];
    SetCrcAltSize(Load32(hdr[HEADER_SIZE_AT..HEADER_SIZE_AT + 4]) as nat, hdr);
  }

  method CheckCrc(maxSize: nat, hdr: array<bv8>) returns (ok: bool)
    requires TABLE_HEADER_SIZE <= hdr.Length && Readable(hdr.Length, maxSize, HeaderSizeField(hdr[..]))
    modifies hdr
    ensures hdr[..] == old(hdr[..])
    ensures ok == Accepts(old(hdr[..]), maxSize, HeaderSizeField(old(hdr[..])))
  {
    hide Crc32, Store32, Load32, SumOf, PutCrc, Accepts;
    assert hdr[HEADER_SIZE_AT..HEADER_SIZE_AT + 4] == hdr[..][HEADER_SIZE_AT..HEADER_SIZE_AT + 4];
    ok := CheckCrcAltSize(maxSize, Load32(hdr[HEADER_SIZE_AT..HEADER_SIZE_AT + 4]) as nat, hdr);
  }

  lemma PutTwice(h: seq<bv8>, v: bv32, w: bv32)
    requires |h| >= TABLE_HEADER_SIZE
    ensures PutCrc(PutCrc(h, v), w) == PutCrc(h, w)
  {
    hide Store32;
  }

  lemma PutOwnField(h: seq<bv8>)
    requires |h| >= TABLE_HEADER_SIZE
    ensures PutCrc(h, CrcField(h)) == h
  {
    hide Store32, Load32;
    StoreLoad32(h[CRC32_AT..CRC32_AT + 4]);
    assert h == h[..CRC32_AT] + h[CRC32_AT..CRC32_AT + 4] + h[CRC32_AT + 4..];
  }

  /** A header sealed for `size` is accepted for `size`, unless `size` is zero or over the limit. */
  lemma SealedIsAccepted(h: seq<bv8>, maxSize: nat, size: nat)
    requires TABLE_HEADER_SIZE <= |h| && size <= |h|
    ensures var sealed := PutCrc(h, SumOf(h, size));
            Accepts(sealed, maxSize, size) <==> size != 0 && (maxSize == 0 || size <= maxSize)
  {
    hide Crc32, Store32, Load32;
    var crc := SumOf(h, size);
    PutTwice(h, crc, 0);
    assert PutCrc(h, crc)[CRC32_AT..CRC32_AT + 4] == Store32(crc);
    LoadStore32(crc);
  }

  lemma {:induction false} NothingFed(c: bv32, d: bv32, data: seq<bv8>)
    ensures Xor(Divide(c, data), Divide(d, data)) == Steps(Xor(c, d), 8 * |data|)
    decreases |data|
  {
    hide Xor, Steps, FeedByte;
    if data == [] {
      NoSteps(Xor(c, d));
    } else {
      var b := data[0];
      NothingFed(FeedByte(c, b), FeedByte(d, b), data[1..]);
      FeedDifference(c, d, b);
      StepsSplit(Xor(c, d), 8, 8 * |data[1..]|);
    }
  }

  lemma NoSteps(c: bv32)
    ensures Steps(c, 0) == c
  {
  }

  lemma FeedDifference(c: bv32, d: bv32, b: bv8)
    ensures Xor(FeedByte(c, b), FeedByte(d, b)) == Steps(Xor(c, d), 8)
  {
    hide Xor, Steps;
    StepsLinear(Xor(c, b as bv32), Xor(d, b as bv32), 8);
    XorCancel(c, d, b as bv32);
  }

  /** What two messages that differ only in a window of up to four bytes do to the sum: the packed
      difference runs through all steps that are left. */
  lemma WindowDifference(prefix: seq<bv8>, v: seq<bv8>, w: seq<bv8>, suffix: seq<bv8>)
    requires |v| == |w| <= 4
    ensures Xor(Crc32(prefix + v + suffix), Crc32(prefix + w + suffix))
         == Steps(Xor(Pack(v), Pack(w)), 8 * (|v| + |suffix|))
  {
    hide Xor, Steps, Pack, Divide;
    var m: bv32 := 0xFFFFFFFF;
    DivideSplit(m, prefix + v, suffix);
    DivideSplit(m, prefix + w, suffix);
    DivideSplit(m, prefix, v);
    DivideSplit(m, prefix, w);
    var c := Divide(m, prefix);
    DivideWindow(c, v);
    DivideWindow(c, w);
    StepsLinear(Xor(c, Pack(v)), Xor(c, Pack(w)), 8 * |v|);
    XorLaws(c, Pack(v), Pack(v));
    XorLaws(c, Pack(w), Pack(w));
    XorCancel(Pack(v), Pack(w), c);
    NothingFed(Divide(c, v), Divide(c, w), suffix);
    StepsSplit(Xor(Pack(v), Pack(w)), 8 * |v|, 8 * |suffix|);
    XorCancel(Divide(m, prefix + v + suffix), Divide(m, prefix + w + suffix), m);
  }

  /** The bytes of the window that are summed, those of the sum field read as zero. */
  function Summed(h: seq<bv8>, size: nat, lo: nat): (w: seq<bv8>)
    requires TABLE_HEADER_SIZE <= |h| && size <= |h|
    ensures |w| <= 4 && (lo <= size ==> lo + |w| <= size)
  {
    var z := PutCrc(h, 0)[..size];
    if lo + 4 <= size then z[lo..lo + 4] else if lo <= size then z[lo..] else []
  }

  /** The steps left when the window begins. */
  function StepsLeft(size: nat, lo: nat): nat {
    if lo < size then 8 * (size - lo) else 0
  }

  lemma ZeroedDiffer(h: seq<bv8>, d: seq<bv8>, size: nat, lo: nat)
    requires TABLE_HEADER_SIZE <= |h| && size <= |h|
    requires DifferOnlyIn(h, d, lo, lo + 4)
    ensures DifferOnlyIn(PutCrc(h, 0)[..size], PutCrc(d, 0)[..size], lo, lo + 4)
  {
    hide Store32;
    var zh, zd := PutCrc(h, 0), PutCrc(d, 0);
    forall i | 0 <= i < size && !(lo <= i < lo + 4)
      ensures zh[..size][i] == zd[..size][i]
    {
      PutAt(h, i);
      PutAt(d, i);
    }
  }

  lemma PutAt(h: seq<bv8>, i: nat)
    requires |h| >= TABLE_HEADER_SIZE && i < |h|
    ensures PutCrc(h, 0)[i] == if CRC32_AT <= i < CRC32_AT + 4 then Store32(0)[i - CRC32_AT] else h[i]
  {
    hide Store32;
  }

  /** Two messages that differ only in a window, cut in three. */
  lemma CutAtWindow(a: seq<bv8>, b: seq<bv8>, lo: nat, n: nat)
    requires DifferOnlyIn(a, b, lo, lo + n) && lo + n <= |a|
    ensures a == a[..lo] + a[lo..lo + n] + a[lo + n..]
    ensures b == a[..lo] + b[lo..lo + n] + a[lo + n..]
  {
    assert a[..lo] == b[..lo];
    assert a[lo + n..] == b[lo + n..];
  }

  lemma SumDifference(h: seq<bv8>, d: seq<bv8>, size: nat, lo: nat)
    requires TABLE_HEADER_SIZE <= |h| && size <= |h|
    requires DifferOnlyIn(h, d, lo, lo + 4)
    ensures Xor(SumOf(h, size), SumOf(d, size))
         == Steps(Xor(Pack(Summed(h, size, lo)), Pack(Summed(d, size, lo))), StepsLeft(size, lo))
  {
    hide Crc32, Store32, Pack, Steps, Xor, PutCrc;
    var zh, zd, v, w := PutCrc(h, 0)[..size], PutCrc(d, 0)[..size], Summed(h, size, lo), Summed(d, size, lo);
    ZeroedDiffer(h, d, size, lo);
    if lo <= size {
      assert v == zh[lo..lo + |v|] && w == zd[lo..lo + |v|];
      CutAtWindow(zh, zd, lo, |v|);
      WindowDifference(zh[..lo], v, w, zh[lo + |v|..]);
    } else {
      assert zh == zd;
      NoSteps(Xor(Pack(v), Pack(w)));
      XorSwap(Pack(v), 0);
      XorSwap(SumOf(h, size), 0);
    }
  }

  /** Damage inside any window of four bytes is overlooked if and only if the difference of the two sum
      fields is what the difference of the summed bytes becomes on its way through the division. */
  lemma DamageIsOverlookedIff(h: seq<bv8>, d: seq<bv8>, maxSize: nat, size: nat, lo: nat)
    requires TABLE_HEADER_SIZE <= |h| && size <= |h|
    requires Accepts(h, maxSize, size)
    requires DifferOnlyIn(h, d, lo, lo + 4)
    ensures Accepts(d, maxSize, size) <==>
            Xor(CrcField(h), CrcField(d))
            == Steps(Xor(Pack(Summed(h, size, lo)), Pack(Summed(d, size, lo))), StepsLeft(size, lo))
  {
    hide CrcField, SumOf, Summed, StepsLeft, Pack, Steps, Xor;
    SumDifference(h, d, size, lo);
    XorSame(SumOf(h, size), SumOf(d, size), CrcField(d));
  }

  /** Damage inside one window of four bytes, wholly inside or wholly outside the sum field, is
      noticed as soon as it touches the first `size` bytes or the field itself. */
  lemma DamageIsNoticed(h: seq<bv8>, d: seq<bv8>, maxSize: nat, size: nat, lo: nat)
    requires TABLE_HEADER_SIZE <= |h| && size <= |h|
    requires Accepts(h, maxSize, size)
    requires DifferOnlyIn(h, d, lo, lo + 4)
    requires lo == CRC32_AT || lo + 4 <= CRC32_AT || CRC32_AT + 4 <= lo
    requires h[..size] != d[..size] || CrcField(h) != CrcField(d)
    ensures !Accepts(d, maxSize, size)
  {
    hide Crc32, Store32, Load32;
    var zh, zd := PutCrc(h, 0), PutCrc(d, 0);
    if lo == CRC32_AT {
      assert zh == zd;
      if CrcField(h) == CrcField(d) {
        StoreLoad32(h[CRC32_AT..CRC32_AT + 4]);
        StoreLoad32(d[CRC32_AT..CRC32_AT + 4]);
      }
    } else {
      assert h[CRC32_AT..CRC32_AT + 4] == d[CRC32_AT..CRC32_AT + 4];
      var i :| 0 <= i < size && h[i] != d[i];
      assert zh[i] == h[i] && zd[i] == d[i];
      assert DifferOnlyIn(zh, zd, lo, lo + 4);
      CrcDetectsWindow(zh[..size], zd[..size], lo);
    }
  }

  // ----- a window across the edge of the field

  /** A header of 24 bytes with one byte in front of the sum field and three in it changed. */
  function Straddled(h: seq<bv8>): (d: seq<bv8>)
    requires |h| >= TABLE_HEADER_SIZE
    ensures |d| == |h| && d != h
  {
    h[15 := XorByte(h[15], 25)][16 := XorByte(h[16], 0x2A)][17 := XorByte(h[17], 0xF4)][18 := XorByte(h[18], 0x63)]
  }

  lemma StraddledSteps0()
    ensures Steps(0x00000019, 8) == 0x646BA8C0
    ensures Steps(0x646BA8C0, 8) == 0x9B00A918
    ensures Steps(0x9B00A918, 8) == 0x13F798FF
  {
  }

  lemma StraddledSteps24()
    ensures Steps(0x13F798FF, 8) == 0x2D111815
    ensures Steps(0x2D111815, 8) == 0x6DF0F5F3
    ensures Steps(0x6DF0F5F3, 8) == 0x24D95353
  {
  }

  lemma StraddledSteps48()
    ensures Steps(0x24D95353, 8) == 0xF246D91D
    ensures Steps(0xF246D91D, 8) == 0x63F42A00
    ensures Steps(0x63F42A00, 8) == 0x0063F42A
  {
  }

  /** Nine bytes further, the difference 25 has become 0x0063F42A. */
  lemma StraddledSteps()
    ensures Steps(0x00000019, 72) == 0x0063F42A
  {
    hide Steps;
    StraddledSteps0();
    StraddledSteps24();
    StraddledSteps48();
    StepsSplit(0x00000019, 8, 8);
    StepsSplit(0x00000019, 16, 8);
    StepsSplit(0x00000019, 24, 8);
    StepsSplit(0x00000019, 32, 8);
    StepsSplit(0x00000019, 40, 8);
    StepsSplit(0x00000019, 48, 8);
    StepsSplit(0x00000019, 56, 8);
    StepsSplit(0x00000019, 64, 8);
  }

  lemma FieldDifference(b0: bv8, b1: bv8, b2: bv8, b3: bv8)
    ensures Xor(Word(b0, b1, b2, b3), Word(XorByte(b0, 0x2A), XorByte(b1, 0xF4), XorByte(b2, 0x63), b3)) == 0x0063F42A
  {
  }

  lemma FirstDifference(b: bv8)
    ensures Xor(Pack([b, 0, 0, 0]), Pack([XorByte(b, 25), 0, 0, 0])) == 0x00000019
  {
    hide Prepend;
    var zeros: seq<bv8> := [0, 0, 0];
    assert zeros[1..] == [0, 0] && zeros[1..][1..] == [0] && zeros[1..][1..][1..] == [];
    NoPrefix();
    assert Pack(zeros) == 0;
    assert [b, 0, 0, 0][1..] == zeros && [XorByte(b, 25), 0, 0, 0][1..] == zeros;
    PrependDifference(b);
  }

  lemma NoPrefix()
    ensures Prepend(0, 0) == 0
  {
  }

  lemma PrependDifference(b: bv8)
    ensures Xor(Prepend(b, 0), Prepend(XorByte(b, 25), 0)) == 0x00000019
  {
  }

  lemma ZeroStored()
    ensures Store32(0) == [0, 0, 0, 0]
  {
  }

  lemma SummedAcross(h: seq<bv8>)
    requires |h| >= TABLE_HEADER_SIZE
    ensures Summed(h, 24, 15) == [h[15], 0, 0, 0]
  {
    hide Store32;
    ZeroStored();
    var z := PutCrc(h, 0);
    assert z[15] == h[15] && z[16] == 0 && z[17] == 0 && z[18] == 0;
    assert z[..24][15..19] == [z[15], z[16], z[17], z[18]];
  }

  /** Four consecutive bytes that reach over the edge of the sum field can change together and still be
      accepted: it happens to every accepted header of 24 bytes. */
  lemma StraddledIsAccepted(h: seq<bv8>, maxSize: nat)
    requires |h| >= TABLE_HEADER_SIZE
    requires Readable(|h|, maxSize, 24) && Accepts(h, maxSize, 24)
    ensures DifferOnlyIn(h, Straddled(h), 15, 19) && Straddled(h) != h && Accepts(Straddled(h), maxSize, 24)
  {
    hide Crc32, Store32, Steps, Xor, Pack, Accepts, Word, SumOf;
    var d := Straddled(h);
    DamageIsOverlookedIff(h, d, maxSize, 24, 15);
    StraddledSteps();
    FieldDifference(h[16], h[17], h[18], h[19]);
    assert CrcField(h) == Word(h[16], h[17], h[18], h[19]);
    assert CrcField(d) == Word(d[16], d[17], d[18], d[19]);
    SummedAcross(h);
    SummedAcross(d);
    FirstDifference(h[15]);
  }

  /** Changing any one byte among the first `size`, the sum field included, is always noticed. */
  lemma OneByteDamage(h: seq<bv8>, maxSize: nat, size: nat, at: nat, b: bv8)
    requires TABLE_HEADER_SIZE <= |h| && at < size <= |h|
    requires b != h[at]
    ensures Accepts(h, maxSize, size) ==> !Accepts(h[at := b], maxSize, size)
  {
    hide Accepts;
    if !Accepts(h, maxSize, size) {
      return;
    }
    var d := h[at := b];
    assert h[..size][at] != d[..size][at];
    var lo := if CRC32_AT <= at < CRC32_AT + 4 then CRC32_AT else if at < CRC32_AT && at > 12 then 12 else at;
    DamageIsNoticed(h, d, maxSize, size, lo);
  }
}
