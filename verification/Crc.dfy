/**
 CRC-32 as the bootloader and the SD driver use it: a byte-at-a-time loop over a
 256-entry table. The reference here is the definition the table is meant to
 speed up, one division step per message bit by the reflected polynomial
 0xEDB88320. The table is proved to be that division, entry by entry.
 */
module Crc {

  // The table, as 16 rows of 16 words: entry i is in row i / 16, at column i % 16.

  const ROW_0: seq<bv32> := [
    0x00000000, 0x77073096, 0xee0e612c, 0x990951ba, 0x076dc419, 0x706af48f, 0xe963a535, 0x9e6495a3,
    0x0edb8832, 0x79dcb8a4, 0xe0d5e91e, 0x97d2d988, 0x09b64c2b, 0x7eb17cbd, 0xe7b82d07, 0x90bf1d91
  ]
  const ROW_1: seq<bv32> := [
    0x1db71064, 0x6ab020f2, 0xf3b97148, 0x84be41de, 0x1adad47d, 0x6ddde4eb, 0xf4d4b551, 0x83d385c7,
    0x136c9856, 0x646ba8c0, 0xfd62f97a, 0x8a65c9ec, 0x14015c4f, 0x63066cd9, 0xfa0f3d63, 0x8d080df5
  ]
  const ROW_2: seq<bv32> := [
    0x3b6e20c8, 0x4c69105e, 0xd56041e4, 0xa2677172, 0x3c03e4d1, 0x4b04d447, 0xd20d85fd, 0xa50ab56b,
    0x35b5a8fa, 0x42b2986c, 0xdbbbc9d6, 0xacbcf940, 0x32d86ce3, 0x45df5c75, 0xdcd60dcf, 0xabd13d59
  ]
  const ROW_3: seq<bv32> := [
    0x26d930ac, 0x51de003a, 0xc8d75180, 0xbfd06116, 0x21b4f4b5, 0x56b3c423, 0xcfba9599, 0xb8bda50f,
    0x2802b89e, 0x5f058808, 0xc60cd9b2, 0xb10be924, 0x2f6f7c87, 0x58684c11, 0xc1611dab, 0xb6662d3d
  ]
  const ROW_4: seq<bv32> := [
    0x76dc4190, 0x01db7106, 0x98d220bc, 0xefd5102a, 0x71b18589, 0x06b6b51f, 0x9fbfe4a5, 0xe8b8d433,
    0x7807c9a2, 0x0f00f934, 0x9609a88e, 0xe10e9818, 0x7f6a0dbb, 0x086d3d2d, 0x91646c97, 0xe6635c01
  ]
  const ROW_5: seq<bv32> := [
    0x6b6b51f4, 0x1c6c6162, 0x856530d8, 0xf262004e, 0x6c0695ed, 0x1b01a57b, 0x8208f4c1, 0xf50fc457,
    0x65b0d9c6, 0x12b7e950, 0x8bbeb8ea, 0xfcb9887c, 0x62dd1ddf, 0x15da2d49, 0x8cd37cf3, 0xfbd44c65
  ]
  const ROW_6: seq<bv32> := [
    0x4db26158, 0x3ab551ce, 0xa3bc0074, 0xd4bb30e2, 0x4adfa541, 0x3dd895d7, 0xa4d1c46d, 0xd3d6f4fb,
    0x4369e96a, 0x346ed9fc, 0xad678846, 0xda60b8d0, 0x44042d73, 0x33031de5, 0xaa0a4c5f, 0xdd0d7cc9
  ]
  const ROW_7: seq<bv32> := [
    0x5005713c, 0x270241aa, 0xbe0b1010, 0xc90c2086, 0x5768b525, 0x206f85b3, 0xb966d409, 0xce61e49f,
    0x5edef90e, 0x29d9c998, 0xb0d09822, 0xc7d7a8b4, 0x59b33d17, 0x2eb40d81, 0xb7bd5c3b, 0xc0ba6cad
  ]
  const ROW_8: seq<bv32> := [
    0xedb88320, 0x9abfb3b6, 0x03b6e20c, 0x74b1d29a, 0xead54739, 0x9dd277af, 0x04db2615, 0x73dc1683,
    0xe3630b12, 0x94643b84, 0x0d6d6a3e, 0x7a6a5aa8, 0xe40ecf0b, 0x9309ff9d, 0x0a00ae27, 0x7d079eb1
  ]
  const ROW_9: seq<bv32> := [
    0xf00f9344, 0x8708a3d2, 0x1e01f268, 0x6906c2fe, 0xf762575d, 0x806567cb, 0x196c3671, 0x6e6b06e7,
    0xfed41b76, 0x89d32be0, 0x10da7a5a, 0x67dd4acc, 0xf9b9df6f, 0x8ebeeff9, 0x17b7be43, 0x60b08ed5
  ]
  const ROW_A: seq<bv32> := [
    0xd6d6a3e8, 0xa1d1937e, 0x38d8c2c4, 0x4fdff252, 0xd1bb67f1, 0xa6bc5767, 0x3fb506dd, 0x48b2364b,
    0xd80d2bda, 0xaf0a1b4c, 0x36034af6, 0x41047a60, 0xdf60efc3, 0xa867df55, 0x316e8eef, 0x4669be79
  ]
  const ROW_B: seq<bv32> := [
    0xcb61b38c, 0xbc66831a, 0x256fd2a0, 0x5268e236, 0xcc0c7795, 0xbb0b4703, 0x220216b9, 0x5505262f,
    0xc5ba3bbe, 0xb2bd0b28, 0x2bb45a92, 0x5cb36a04, 0xc2d7ffa7, 0xb5d0cf31, 0x2cd99e8b, 0x5bdeae1d
  ]
  const ROW_C: seq<bv32> := [
    0x9b64c2b0, 0xec63f226, 0x756aa39c, 0x026d930a, 0x9c0906a9, 0xeb0e363f, 0x72076785, 0x05005713,
    0x95bf4a82, 0xe2b87a14, 0x7bb12bae, 0x0cb61b38, 0x92d28e9b, 0xe5d5be0d, 0x7cdcefb7, 0x0bdbdf21
  ]
  const ROW_D: seq<bv32> := [
    0x86d3d2d4, 0xf1d4e242, 0x68ddb3f8, 0x1fda836e, 0x81be16cd, 0xf6b9265b, 0x6fb077e1, 0x18b74777,
    0x88085ae6, 0xff0f6a70, 0x66063bca, 0x11010b5c, 0x8f659eff, 0xf862ae69, 0x616bffd3, 0x166ccf45
  ]
  const ROW_E: seq<bv32> := [
    0xa00ae278, 0xd70dd2ee, 0x4e048354, 0x3903b3c2, 0xa7672661, 0xd06016f7, 0x4969474d, 0x3e6e77db,
    0xaed16a4a, 0xd9d65adc, 0x40df0b66, 0x37d83bf0, 0xa9bcae53, 0xdebb9ec5, 0x47b2cf7f, 0x30b5ffe9
  ]
  const ROW_F: seq<bv32> := [
    0xbdbdf21c, 0xcabac28a, 0x53b39330, 0x24b4a3a6, 0xbad03605, 0xcdd70693, 0x54de5729, 0x23d967bf,
    0xb3667a2e, 0xc4614ab8, 0x5d681b02, 0x2a6f2b94, 0xb40bbe37, 0xc30c8ea1, 0x5a05df1b, 0x2d02ef8d
  ]

  function Row(i: bv8): (row: seq<bv32>)
    ensures |row| == 16
  {
    match i >> 4
    case 0x0 => ROW_0 case 0x1 => ROW_1 case 0x2 => ROW_2 case 0x3 => ROW_3
    case 0x4 => ROW_4 case 0x5 => ROW_5 case 0x6 => ROW_6 case 0x7 => ROW_7
    case 0x8 => ROW_8 case 0x9 => ROW_9 case 0xA => ROW_A case 0xB => ROW_B
    case 0xC => ROW_C case 0xD => ROW_D case 0xE => ROW_E case _ => ROW_F
  }

  function Table(i: bv8): bv32 {
    Row(i)[(i & 0xF) as int]
  }

  /** The body of the loop. */
  function TableStep(crc: bv32, b: bv8): bv32 {
    Xor(Table((Xor(crc, b as bv32) & 0xFF) as bv8), crc >> 8)
  }

  // ----- the reference: polynomial division, one bit at a time

  const POLYNOMIAL: bv32 := 0xEDB88320

  function Xor(a: bv32, b: bv32): bv32 {
    a ^ b
  }

  function Complement(a: bv32): bv32 {
    a ^ 0xFFFF_FFFF
  }

  predicate Odd(x: bv32) {
    x & 1 == 1
  }

  function Half(x: bv32): bv32 {
    x >> 1
  }

  function DivideBit(x: bv32): bv32 {
    if Odd(x) then Xor(Half(x), POLYNOMIAL) else Half(x)
  }

  function Divide(x: bv32, n: nat): bv32
    decreases n
  {
    if n == 0 then x else Divide(DivideBit(x), n - 1)
  }

  /** The division register after one message byte has been shifted in. */
  function ShiftIn(r: bv32, b: bv8): bv32 {
    Divide(Xor(r, b as bv32), 8)
  }

  function Register(r: bv32, msg: seq<bv8>): bv32
    decreases msg
  {
    if msg == [] then r else Register(ShiftIn(r, msg[0]), msg[1..])
  }

  /** CRC-32 of `msg` continued from an earlier checksum `crc`. */
  function Crc32Inc(msg: seq<bv8>, crc: bv32): bv32 {
    Complement(Register(Complement(crc), msg))
  }

  function Crc32(msg: seq<bv8>): bv32 {
    Crc32Inc(msg, 0)
  }

  // ----- small facts about words, each proved where nothing else is in sight

  lemma XorInjective(r: bv32, x: bv32, y: bv32)
    requires Xor(r, x) == Xor(r, y) || Xor(x, r) == Xor(y, r)
    ensures x == y
  {}

  lemma ComplementTwice(x: bv32)
    ensures Complement(Complement(x)) == x
  {}

  lemma XorAssociative(x: bv32, y: bv32, z: bv32)
    ensures Xor(Xor(x, y), z) == Xor(x, Xor(y, z))
  {}

  lemma XorCommutative(x: bv32, y: bv32)
    ensures Xor(x, y) == Xor(y, x)
  {}

  lemma XorOdd(x: bv32, z: bv32)
    requires !Odd(z)
    ensures Odd(Xor(x, z)) <==> Odd(x)
  {}

  lemma XorHalf(x: bv32, z: bv32)
    ensures Half(Xor(x, z)) == Xor(Half(x), Half(z))
  {}

  lemma DivideBitInjective(x: bv32, y: bv32)
    requires DivideBit(x) == DivideBit(y)
    ensures x == y
  {}

  // ----- the table is the division

  // One lemma a row; with the column known, both sides are numbers.

  lemma Row0Divides(j: bv8)
    requires j < 16
    ensures ROW_0[j as int] == Divide(j as bv32, 8)
  {
    match j
    case 0 => case 1 => case 2 => case 3 => case 4 => case 5 => case 6 => case 7 =>
    case 8 => case 9 => case 10 => case 11 => case 12 => case 13 => case 14 => case _ =>
  }

  lemma Row1Divides(j: bv8)
    requires j < 16
    ensures ROW_1[j as int] == Divide(0x10 | j as bv32, 8)
  {
    match j
    case 0 => case 1 => case 2 => case 3 => case 4 => case 5 => case 6 => case 7 =>
    case 8 => case 9 => case 10 => case 11 => case 12 => case 13 => case 14 => case _ =>
  }

  lemma Row2Divides(j: bv8)
    requires j < 16
    ensures ROW_2[j as int] == Divide(0x20 | j as bv32, 8)
  {
    match j
    case 0 => case 1 => case 2 => case 3 => case 4 => case 5 => case 6 => case 7 =>
    case 8 => case 9 => case 10 => case 11 => case 12 => case 13 => case 14 => case _ =>
  }

  lemma Row3Divides(j: bv8)
    requires j < 16
    ensures ROW_3[j as int] == Divide(0x30 | j as bv32, 8)
  {
    match j
    case 0 => case 1 => case 2 => case 3 => case 4 => case 5 => case 6 => case 7 =>
    case 8 => case 9 => case 10 => case 11 => case 12 => case 13 => case 14 => case _ =>
  }

  lemma Row4Divides(j: bv8)
    requires j < 16
    ensures ROW_4[j as int] == Divide(0x40 | j as bv32, 8)
  {
    match j
    case 0 => case 1 => case 2 => case 3 => case 4 => case 5 => case 6 => case 7 =>
    case 8 => case 9 => case 10 => case 11 => case 12 => case 13 => case 14 => case _ =>
  }

  lemma Row5Divides(j: bv8)
    requires j < 16
    ensures ROW_5[j as int] == Divide(0x50 | j as bv32, 8)
  {
    match j
    case 0 => case 1 => case 2 => case 3 => case 4 => case 5 => case 6 => case 7 =>
    case 8 => case 9 => case 10 => case 11 => case 12 => case 13 => case 14 => case _ =>
  }

  lemma Row6Divides(j: bv8)
    requires j < 16
    ensures ROW_6[j as int] == Divide(0x60 | j as bv32, 8)
  {
    match j
    case 0 => case 1 => case 2 => case 3 => case 4 => case 5 => case 6 => case 7 =>
    case 8 => case 9 => case 10 => case 11 => case 12 => case 13 => case 14 => case _ =>
  }

  lemma Row7Divides(j: bv8)
    requires j < 16
    ensures ROW_7[j as int] == Divide(0x70 | j as bv32, 8)
  {
    match j
    case 0 => case 1 => case 2 => case 3 => case 4 => case 5 => case 6 => case 7 =>
    case 8 => case 9 => case 10 => case 11 => case 12 => case 13 => case 14 => case _ =>
  }

  lemma Row8Divides(j: bv8)
    requires j < 16
    ensures ROW_8[j as int] == Divide(0x80 | j as bv32, 8)
  {
    match j
    case 0 => case 1 => case 2 => case 3 => case 4 => case 5 => case 6 => case 7 =>
    case 8 => case 9 => case 10 => case 11 => case 12 => case 13 => case 14 => case _ =>
  }

  lemma Row9Divides(j: bv8)
    requires j < 16
    ensures ROW_9[j as int] == Divide(0x90 | j as bv32, 8)
  {
    match j
    case 0 => case 1 => case 2 => case 3 => case 4 => case 5 => case 6 => case 7 =>
    case 8 => case 9 => case 10 => case 11 => case 12 => case 13 => case 14 => case _ =>
  }

  lemma RowADivides(j: bv8)
    requires j < 16
    ensures ROW_A[j as int] == Divide(0xA0 | j as bv32, 8)
  {
    match j
    case 0 => case 1 => case 2 => case 3 => case 4 => case 5 => case 6 => case 7 =>
    case 8 => case 9 => case 10 => case 11 => case 12 => case 13 => case 14 => case _ =>
  }

  lemma RowBDivides(j: bv8)
    requires j < 16
    ensures ROW_B[j as int] == Divide(0xB0 | j as bv32, 8)
  {
    match j
    case 0 => case 1 => case 2 => case 3 => case 4 => case 5 => case 6 => case 7 =>
    case 8 => case 9 => case 10 => case 11 => case 12 => case 13 => case 14 => case _ =>
  }

  lemma RowCDivides(j: bv8)
    requires j < 16
    ensures ROW_C[j as int] == Divide(0xC0 | j as bv32, 8)
  {
    match j
    case 0 => case 1 => case 2 => case 3 => case 4 => case 5 => case 6 => case 7 =>
    case 8 => case 9 => case 10 => case 11 => case 12 => case 13 => case 14 => case _ =>
  }

  lemma RowDDivides(j: bv8)
    requires j < 16
    ensures ROW_D[j as int] == Divide(0xD0 | j as bv32, 8)
  {
    match j
    case 0 => case 1 => case 2 => case 3 => case 4 => case 5 => case 6 => case 7 =>
    case 8 => case 9 => case 10 => case 11 => case 12 => case 13 => case 14 => case _ =>
  }

  lemma RowEDivides(j: bv8)
    requires j < 16
    ensures ROW_E[j as int] == Divide(0xE0 | j as bv32, 8)
  {
    match j
    case 0 => case 1 => case 2 => case 3 => case 4 => case 5 => case 6 => case 7 =>
    case 8 => case 9 => case 10 => case 11 => case 12 => case 13 => case 14 => case _ =>
  }

  lemma RowFDivides(j: bv8)
    requires j < 16
    ensures ROW_F[j as int] == Divide(0xF0 | j as bv32, 8)
  {
    match j
    case 0 => case 1 => case 2 => case 3 => case 4 => case 5 => case 6 => case 7 =>
    case 8 => case 9 => case 10 => case 11 => case 12 => case 13 => case 14 => case _ =>
  }

  /** Every one of the 256 table words is eight division steps of its index. */
  lemma TableDivides(i: bv8)
    ensures Table(i) == Divide(i as bv32, 8)
  {
    var h, j := i >> 4, i & 0xF;
    hide Divide, DivideBit;
    Nibbles(i);
    match h
    case 0x0 => Row0Divides(j); case 0x1 => Row1Divides(j); case 0x2 => Row2Divides(j); case 0x3 => Row3Divides(j);
    case 0x4 => Row4Divides(j); case 0x5 => Row5Divides(j); case 0x6 => Row6Divides(j); case 0x7 => Row7Divides(j);
    case 0x8 => Row8Divides(j); case 0x9 => Row9Divides(j); case 0xA => RowADivides(j); case 0xB => RowBDivides(j);
    case 0xC => RowCDivides(j); case 0xD => RowDDivides(j); case 0xE => RowEDivides(j); case _ => RowFDivides(j);
  }

  lemma Nibbles(i: bv8)
    ensures ((i >> 4) as bv32 << 4) | (i & 0xF) as bv32 == i as bv32
  {}

  /** Flipping bits other than the lowest commutes with a division step. */
  lemma DivideBitSplits(x: bv32, z: bv32)
    requires !Odd(z)
    ensures DivideBit(Xor(x, z)) == Xor(DivideBit(x), Half(z))
  {
    hide Odd, Half, Xor;
    XorOdd(x, z);
    XorHalf(x, z);
    if Odd(x) {
      XorAssociative(Half(x), Half(z), POLYNOMIAL);
      XorCommutative(Half(z), POLYNOMIAL);
      XorAssociative(Half(x), POLYNOMIAL, Half(z));
    }
  }

  predicate LowBitsClear(z: bv32, n: nat)
    decreases n
  {
    n == 0 || (!Odd(z) && LowBitsClear(Half(z), n - 1))
  }

  function ShiftRight(z: bv32, n: nat): bv32
    decreases n
  {
    if n == 0 then z else ShiftRight(Half(z), n - 1)
  }

  /** Bits that n division steps do not reach are only shifted. */
  lemma {:induction false} DivideSplits(x: bv32, z: bv32, n: nat)
    requires LowBitsClear(z, n)
    ensures Divide(Xor(x, z), n) == Xor(Divide(x, n), ShiftRight(z, n))
    decreases n
  {
    hide DivideBit, Odd, Half, Xor;
    if n > 0 {
      DivideBitSplits(x, z);
      DivideSplits(DivideBit(x), Half(z), n - 1);
    }
  }

  lemma LowAndHigh(x: bv32)
    ensures x == Xor((x & 0xFF) as bv8 as bv32, x & 0xFFFF_FF00)
  {}

  lemma HighIsHigh(x: bv32)
    ensures LowBitsClear(x & 0xFFFF_FF00, 8)
  {}

  lemma HighShifted(x: bv32)
    ensures ShiftRight(x & 0xFFFF_FF00, 8) == x >> 8
  {}

  lemma TableStepParts(crc: bv32, b: bv8)
    ensures var x := Xor(crc, b as bv32);
            TableStep(crc, b) == Xor(Table((x & 0xFF) as bv8), x >> 8)
  {
    hide Table;
    ByteBelow(crc, b);
  }

  lemma ByteBelow(crc: bv32, b: bv8)
    ensures Xor(crc, b as bv32) >> 8 == crc >> 8
  {}

  /** Eight division steps by way of the table. */
  lemma DivideByTable(x: bv32)
    ensures Divide(x, 8) == Xor(Table((x & 0xFF) as bv8), x >> 8)
  {
    hide Table, Divide, Xor, LowBitsClear, ShiftRight;
    LowAndHigh(x);
    HighIsHigh(x);
    HighShifted(x);
    TableDivides((x & 0xFF) as bv8);
    DivideSplits((x & 0xFF) as bv8 as bv32, x & 0xFFFF_FF00, 8);
  }

  /** One pass of the table loop is eight bitwise division steps. */
  lemma TableStepDivides(crc: bv32, b: bv8)
    ensures TableStep(crc, b) == ShiftIn(crc, b)
  {
    hide Table, TableStep, Divide, Xor;
    TableStepParts(crc, b);
    DivideByTable(Xor(crc, b as bv32));
  }

  // ----- the program

  /** our_crc32_inc: the table-driven loop computes the bitwise remainder. */
  method OurCrc32Inc(buf: array<bv8>, size: nat, crc: bv32) returns (r: bv32)
    requires size <= buf.Length
    ensures r == Crc32Inc(buf[..size], crc)
  {
    hide TableStep, Complement, ShiftIn;
    r := Complement(crc);
    var left, p := size, 0;
    while left != 0
      invariant left + p == size
      invariant Register(r, buf[p..size]) == Register(Complement(crc), buf[..size])
    {
      left := left - 1;
      TableStepDivides(r, buf[p]);
      assert buf[p..size][1..] == buf[p + 1..size];
      r := TableStep(r, buf[p]);
      p := p + 1;
    }
    r := Complement(r);
  }

  method OurCrc32(buf: array<bv8>, size: nat) returns (r: bv32)
    requires size <= buf.Length
    ensures r == Crc32(buf[..size])
  {
    r := OurCrc32Inc(buf, size, 0);
  }

  // ----- what the checksum promises

  lemma {:induction false} RegisterConcat(r: bv32, a: seq<bv8>, b: seq<bv8>)
    ensures Register(r, a + b) == Register(Register(r, a), b)
    decreases a
  {
    hide ShiftIn;
    if a == [] {
      assert a + b == b;
    } else {
      assert (a + b)[1..] == a[1..] + b;
      RegisterConcat(ShiftIn(r, a[0]), a[1..], b);
    }
  }

  /** A checksum can be computed in pieces. */
  lemma Composes(a: seq<bv8>, b: seq<bv8>, crc: bv32)
    ensures Crc32Inc(a + b, crc) == Crc32Inc(b, Crc32Inc(a, crc))
  {
    hide Complement;
    RegisterConcat(Complement(crc), a, b);
    ComplementTwice(Register(Complement(crc), a));
  }

  lemma {:induction false} DivideInjective(x: bv32, y: bv32, n: nat)
    requires Divide(x, n) == Divide(y, n)
    ensures x == y
    decreases n
  {
    hide DivideBit;
    if n > 0 {
      DivideInjective(DivideBit(x), DivideBit(y), n - 1);
      DivideBitInjective(x, y);
    }
  }

  lemma ShiftInInjective(r1: bv32, r2: bv32, b: bv8)
    requires ShiftIn(r1, b) == ShiftIn(r2, b)
    ensures r1 == r2
  {
    hide Xor, Divide;
    DivideInjective(Xor(r1, b as bv32), Xor(r2, b as bv32), 8);
    XorInjective(b as bv32, r1, r2);
  }

  /** The running value is never forgotten: registers equal after the same bytes were equal before. */
  lemma {:induction false} RegisterInjective(r1: bv32, r2: bv32, msg: seq<bv8>)
    requires Register(r1, msg) == Register(r2, msg)
    ensures r1 == r2
    decreases msg
  {
    hide ShiftIn;
    if msg != [] {
      RegisterInjective(ShiftIn(r1, msg[0]), ShiftIn(r2, msg[0]), msg[1..]);
      ShiftInInjective(r1, r2, msg[0]);
    }
  }

  // ----- bits

  /** The bits of a byte in the order in which they enter the division. */
  function ByteBits(b: bv8): (bits: seq<bool>)
    ensures |bits| == 8
  {
    [b & 1 != 0, b & 2 != 0, b & 4 != 0, b & 8 != 0, b & 16 != 0, b & 32 != 0, b & 64 != 0, b & 128 != 0]
  }

  function Bits(msg: seq<bv8>): (bits: seq<bool>)
    ensures |bits| == 8 * |msg|
  {
    if msg == [] then [] else ByteBits(msg[0]) + Bits(msg[1..])
  }

  function BitWord(b: bool): bv32 {
    if b then 1 else 0
  }

  function Double(v: bv32): bv32 {
    v << 1
  }

  /** The division register after some message bits. */
  function BitRegister(r: bv32, bits: seq<bool>): bv32
    decreases bits
  {
    if bits == [] then r else BitRegister(DivideBit(Xor(r, BitWord(bits[0]))), bits[1..])
  }

  lemma {:induction false} BitRegisterConcat(r: bv32, a: seq<bool>, b: seq<bool>)
    ensures BitRegister(r, a + b) == BitRegister(BitRegister(r, a), b)
    decreases a
  {
    hide DivideBit, Xor, BitWord;
    if a == [] {
      assert a + b == b;
    } else {
      assert (a + b)[0] == a[0] && (a + b)[1..] == a[1..] + b;
      BitRegisterConcat(DivideBit(Xor(r, BitWord(a[0]))), a[1..], b);
    }
  }

  lemma {:induction false} BitRegisterInjective(r1: bv32, r2: bv32, bits: seq<bool>)
    requires BitRegister(r1, bits) == BitRegister(r2, bits)
    ensures r1 == r2
    decreases bits
  {
    hide DivideBit, Xor, BitWord;
    if bits != [] {
      var b := BitWord(bits[0]);
      BitRegisterInjective(DivideBit(Xor(r1, b)), DivideBit(Xor(r2, b)), bits[1..]);
      DivideBitInjective(Xor(r1, b), Xor(r2, b));
      XorInjective(b, r1, r2);
    }
  }

  // A window of up to 32 bits acts on the register as one word.

  function WindowWord(w: seq<bool>): bv32 {
    if w == [] then 0 else Xor(BitWord(w[0]), Double(WindowWord(w[1..])))
  }

  /** Ones in all positions but the lowest n. */
  function High(n: nat): bv32 {
    if n == 0 then 0xFFFF_FFFF else Double(High(n - 1))
  }

  predicate TopSet(v: bv32) {
    v & 0x8000_0000 != 0
  }

  /** The k + 1 highest bits are set. */
  predicate Run(v: bv32, k: nat)
    decreases k
  {
    TopSet(v) && (k > 0 ==> Run(Double(v), k - 1))
  }

  lemma AllOnes()
    ensures Run(0xFFFF_FFFF, 31)
  {
    assert Run(0xFF00_0000, 7);
    assert Run(0xFFFF_0000, 15);
    assert Run(0xFFFF_FF00, 23);
  }

  lemma {:induction false} HighRun(n: nat)
    requires n <= 31
    ensures Run(High(n), 31 - n)
  {
    hide TopSet, Double;
    if n == 0 {
      AllOnes();
    } else {
      HighRun(n - 1);
    }
  }

  /** The word has no bit above the lowest n. */
  predicate Fits(v: bv32, high: bv32) {
    v & high == 0
  }

  lemma FitsStep(b: bool, v: bv32, high: bv32)
    requires Fits(v, high)
    ensures Fits(Xor(BitWord(b), Double(v)), Double(high))
  {}

  lemma NothingFits(high: bv32)
    ensures Fits(0, high)
  {}

  lemma {:induction false} WindowWordFits(w: seq<bool>)
    ensures Fits(WindowWord(w), High(|w|))
  {
    hide Xor, BitWord, Double, Fits;
    if w == [] {
      NothingFits(High(0));
    } else {
      WindowWordFits(w[1..]);
      FitsStep(w[0], WindowWord(w[1..]), High(|w| - 1));
    }
  }

  lemma FitsBelowTop(v: bv32, high: bv32)
    requires Fits(v, high) && TopSet(high)
    ensures Half(Double(v)) == v && !Odd(Double(v))
  {}

  /** The bits behind the first can be shifted up and down again. */
  lemma RestFits(w: seq<bool>)
    requires |w| <= 31
    ensures Half(Double(WindowWord(w))) == WindowWord(w) && !Odd(Double(WindowWord(w)))
  {
    hide Xor, BitWord, Double, Fits, TopSet, Half, Odd;
    WindowWordFits(w);
    HighRun(|w|);
    FitsBelowTop(WindowWord(w), High(|w|));
  }

  lemma XorZero(r: bv32)
    ensures Xor(r, 0) == r
  {}

  lemma {:induction false} ShortWindow(r: bv32, w: seq<bool>)
    requires |w| <= 32
    ensures BitRegister(r, w) == Divide(Xor(r, WindowWord(w)), |w|)
    decreases w
  {
    hide DivideBit, Xor, BitWord, Double, Half, Odd;
    if w == [] {
      XorZero(r);
    } else {
      var b, v := BitWord(w[0]), WindowWord(w[1..]);
      RestFits(w[1..]);
      XorAssociative(r, b, Double(v));
      DivideBitSplits(Xor(r, b), Double(v));
      ShortWindow(DivideBit(Xor(r, b)), w[1..]);
    }
  }

  lemma FirstBit(a: bool, b: bool, v: bv32, w: bv32)
    requires !Odd(v) && !Odd(w) && Xor(BitWord(a), v) == Xor(BitWord(b), w)
    ensures a == b && v == w
  {}

  lemma {:induction false} WindowWordInjective(w1: seq<bool>, w2: seq<bool>)
    requires |w1| == |w2| <= 32 && WindowWord(w1) == WindowWord(w2)
    ensures w1 == w2
  {
    hide Xor, BitWord, Double, Half, Odd;
    if w1 != [] {
      RestFits(w1[1..]);
      RestFits(w2[1..]);
      FirstBit(w1[0], w2[0], Double(WindowWord(w1[1..])), Double(WindowWord(w2[1..])));
      WindowWordInjective(w1[1..], w2[1..]);
      assert w1 == [w1[0]] + w1[1..] && w2 == [w2[0]] + w2[1..];
    }
  }

  lemma EightBits(b: bv8)
    ensures var w := ByteBits(b);
      b as bv32 ==
      Xor(BitWord(w[0]), Double(Xor(BitWord(w[1]), Double(Xor(BitWord(w[2]), Double(Xor(BitWord(w[3]), Double(
      Xor(BitWord(w[4]), Double(Xor(BitWord(w[5]), Double(Xor(BitWord(w[6]), Double(Xor(BitWord(w[7]), Double(0))
      ))))))))))))))
  {}

  /** A byte is a window of eight bits. */
  lemma ByteWord(b: bv8)
    ensures WindowWord(ByteBits(b)) == b as bv32
  {
    EightBits(b);
    hide WindowWord, Xor, BitWord, Double;
    var w := ByteBits(b);
    WordFrom(w, 0);
    WordFrom(w, 1);
    WordFrom(w, 2);
    WordFrom(w, 3);
    WordFrom(w, 4);
    WordFrom(w, 5);
    WordFrom(w, 6);
    WordFrom(w, 7);
    assert w[0..] == w && w[8..] == [];
    NoBits();
  }

  lemma WordFrom(w: seq<bool>, i: nat)
    requires i < |w|
    ensures WindowWord(w[i..]) == Xor(BitWord(w[i]), Double(WindowWord(w[i + 1..])))
  {
    assert w[i..][1..] == w[i + 1..];
  }

  lemma NoBits()
    ensures WindowWord([]) == 0
  {}

  lemma {:induction false} RegisterBits(r: bv32, msg: seq<bv8>)
    ensures Register(r, msg) == BitRegister(r, Bits(msg))
    decreases msg
  {
    hide Xor, Divide, ByteBits, WindowWord;
    if msg != [] {
      ByteWord(msg[0]);
      ShortWindow(r, ByteBits(msg[0]));
      BitRegisterConcat(r, ByteBits(msg[0]), Bits(msg[1..]));
      RegisterBits(ShiftIn(r, msg[0]), msg[1..]);
    }
  }

  lemma ByteBitsInjective(a: bv8, b: bv8)
    requires ByteBits(a) == ByteBits(b)
    ensures a == b
  {
    hide WindowWord;
    ByteWord(a);
    ByteWord(b);
    SameByte(a, b);
  }

  lemma SameByte(a: bv8, b: bv8)
    requires a as bv32 == b as bv32
    ensures a == b
  {}

  lemma {:induction false} BitsInjective(m1: seq<bv8>, m2: seq<bv8>)
    requires Bits(m1) == Bits(m2)
    ensures m1 == m2
  {
    hide ByteBits;
    assert |m1| == |m2|;
    if m1 != [] {
      var b1, b2 := Bits(m1), Bits(m2);
      assert b1[..8] == ByteBits(m1[0]) && b2[..8] == ByteBits(m2[0]);
      assert b1[8..] == Bits(m1[1..]) && b2[8..] == Bits(m2[1..]);
      ByteBitsInjective(m1[0], m2[0]);
      BitsInjective(m1[1..], m2[1..]);
      assert m1 == [m1[0]] + m1[1..] && m2 == [m2[0]] + m2[1..];
    }
  }

  /**
   Burst detection: two messages that differ only inside a window of at most 32 bits,
   wherever it begins, have equal checksums exactly when they are equal.
   */
  lemma BurstDetected(m1: seq<bv8>, m2: seq<bv8>, prefix: seq<bool>, w1: seq<bool>, w2: seq<bool>, suffix: seq<bool>,
                      crc: bv32)
    requires |w1| == |w2| <= 32
    requires Bits(m1) == prefix + w1 + suffix && Bits(m2) == prefix + w2 + suffix
    ensures Crc32Inc(m1, crc) == Crc32Inc(m2, crc) <==> m1 == m2
  {
    hide Complement, Divide, Xor, WindowWord, Bits, BitRegister, Register;
    var start := Complement(crc);
    if Crc32Inc(m1, crc) == Crc32Inc(m2, crc) {
      ComplementTwice(Register(start, m1));
      ComplementTwice(Register(start, m2));
      RegisterBits(start, m1);
      RegisterBits(start, m2);
      WindowReached(start, prefix, w1, suffix);
      WindowReached(start, prefix, w2, suffix);
      var r := BitRegister(start, prefix);
      var d1, d2 := Xor(r, WindowWord(w1)), Xor(r, WindowWord(w2));
      BitRegisterInjective(Divide(d1, |w1|), Divide(d2, |w2|), suffix);
      DivideInjective(d1, d2, |w1|);
      XorInjective(r, WindowWord(w1), WindowWord(w2));
      WindowWordInjective(w1, w2);
      BitsInjective(m1, m2);
    }
  }

  lemma WindowReached(start: bv32, prefix: seq<bool>, w: seq<bool>, suffix: seq<bool>)
    requires |w| <= 32
    ensures BitRegister(start, prefix + w + suffix)
            == BitRegister(Divide(Xor(BitRegister(start, prefix), WindowWord(w)), |w|), suffix)
  {
    hide Divide, Xor, WindowWord, BitRegister;
    BitRegisterConcat(start, prefix + w, suffix);
    BitRegisterConcat(start, prefix, w);
    ShortWindow(BitRegister(start, prefix), w);
  }

  // ----- what the two complements are for

  lemma XorComplement(r: bv32)
    ensures Xor(r, Complement(r)) == 0xFFFF_FFFF
  {}

  /** A word whose lowest byte is fed to the register is eight division steps of register and word together. */
  lemma FeedByte(r: bv32, c: bv32)
    ensures Divide(Xor(r, c), 8) == Xor(ShiftIn(r, (c & 0xFF) as bv8), c >> 8)
  {
    hide Divide, Xor, LowBitsClear, ShiftRight;
    LowAndHigh(c);
    XorAssociative(r, (c & 0xFF) as bv8 as bv32, c & 0xFFFF_FF00);
    HighIsHigh(c);
    HighShifted(c);
    DivideSplits(Xor(r, (c & 0xFF) as bv8 as bv32), c & 0xFFFF_FF00, 8);
  }

  /** The bytes of a word, least significant first. */
  function WordBytes(c: bv32): (b: seq<bv8>)
    ensures |b| == 4
  {
    [(c & 0xFF) as bv8, ((c >> 8) & 0xFF) as bv8, ((c >> 16) & 0xFF) as bv8, (c >> 24) as bv8]
  }

  lemma WordBytesShifted(c: bv32)
    ensures var c1 := c >> 8; var c2 := c1 >> 8; var c3 := c2 >> 8;
            && WordBytes(c) == [(c & 0xFF) as bv8, (c1 & 0xFF) as bv8, (c2 & 0xFF) as bv8, (c3 & 0xFF) as bv8]
            && c3 >> 8 == 0
  {}

  lemma FeedWord(r: bv32, c: bv32)
    ensures Register(r, WordBytes(c)) == Divide(Divide(Divide(Divide(Xor(r, c), 8), 8), 8), 8)
  {
    hide Divide, Xor, ShiftIn, WordBytes;
    var c1 := c >> 8;
    var c2 := c1 >> 8;
    var c3 := c2 >> 8;
    WordBytesShifted(c);
    var b := WordBytes(c);
    var r1 := ShiftIn(r, b[0]);
    var r2 := ShiftIn(r1, b[1]);
    var r3 := ShiftIn(r2, b[2]);
    FeedByte(r, c);
    FeedByte(r1, c1);
    FeedByte(r2, c2);
    FeedByte(r3, c3);
    XorZero(ShiftIn(r3, b[3]));
    FourBytes(r, b[0], b[1], b[2], b[3]);
  }

  lemma FourBytes(r: bv32, b0: bv8, b1: bv8, b2: bv8, b3: bv8)
    ensures Register(r, [b0, b1, b2, b3]) == ShiftIn(ShiftIn(ShiftIn(ShiftIn(r, b0), b1), b2), b3)
  {
    hide ShiftIn, Register;
    NextByte(r, [b0, b1, b2, b3]);
    NextByte(ShiftIn(r, b0), [b1, b2, b3]);
    NextByte(ShiftIn(ShiftIn(r, b0), b1), [b2, b3]);
    NextByte(ShiftIn(ShiftIn(ShiftIn(r, b0), b1), b2), [b3]);
    NoByte(ShiftIn(ShiftIn(ShiftIn(ShiftIn(r, b0), b1), b2), b3));
    assert [b0, b1, b2, b3][1..] == [b1, b2, b3];
    assert [b1, b2, b3][1..] == [b2, b3];
    assert [b2, b3][1..] == [b3];
    assert [b3][1..] == [];
  }

  lemma NextByte(r: bv32, msg: seq<bv8>)
    requires msg != []
    ensures Register(r, msg) == Register(ShiftIn(r, msg[0]), msg[1..])
  {}

  lemma NoByte(r: bv32)
    ensures Register(r, []) == r
  {}

  lemma OnesDivided()
    ensures Divide(0xFFFF_FFFF, 8) == 0x2DFD_1072
    ensures Divide(0x2DFD_1072, 8) == 0xBE26_ED00
    ensures Divide(0xBE26_ED00, 8) == 0x00BE_26ED
    ensures Divide(0x00BE_26ED, 8) == 0xDEBB_20E3
  {}

  lemma OnesComplement()
    ensures Complement(0xDEBB_20E3) == 0x2144_DF1C
  {}

  /** A message with its own checksum behind it has the same checksum as every other such message. */
  lemma Residue(m: seq<bv8>)
    ensures Crc32(m + WordBytes(Crc32(m))) == 0x2144_DF1C
  {
    hide Complement, Divide, Xor, Register, WordBytes;
    var r := Register(Complement(0), m);
    RegisterConcat(Complement(0), m, WordBytes(Crc32(m)));
    FeedWord(r, Crc32(m));
    XorComplement(r);
    OnesDivided();
    OnesComplement();
  }

  lemma ZeroFirst()
    ensures Register(Complement(0), [0]) == 0x2DFD_1072 && Complement(0) == 0xFFFF_FFFF
  {
    OnesDivided();
    hide Divide;
    assert Xor(0xFFFF_FFFF, 0) == 0xFFFF_FFFF;
    assert [0 as bv8][1..] == [];
  }

  /** A zero byte in front of a message does not go unnoticed. */
  lemma ZeroNoticed(m: seq<bv8>)
    ensures Crc32([0] + m) != Crc32(m)
  {
    hide Register, Complement;
    var start := Complement(0);
    RegisterConcat(start, [0], m);
    ZeroFirst();
    ComplementTwice(Register(start, [0] + m));
    ComplementTwice(Register(start, m));
    if Register(start, [0] + m) == Register(start, m) {
      RegisterInjective(Register(start, [0]), start, m);
    }
  }
}
