/** CRC-32: the table-driven loop against bit-by-bit division by the reflected polynomial. */
module Crc32 {
  import opened Bytes

  // The 256-entry table, in sixteen rows.
  function Row0(): (r: seq<bv32>) ensures |r| == 16 {
    [0x00000000, 0x77073096, 0xee0e612c, 0x990951ba, 0x076dc419, 0x706af48f,
    0xe963a535, 0x9e6495a3, 0x0edb8832, 0x79dcb8a4, 0xe0d5e91e, 0x97d2d988,
    0x09b64c2b, 0x7eb17cbd, 0xe7b82d07, 0x90bf1d91]
  }

  function Row1(): (r: seq<bv32>) ensures |r| == 16 {
    [0x1db71064, 0x6ab020f2, 0xf3b97148, 0x84be41de, 0x1adad47d, 0x6ddde4eb,
    0xf4d4b551, 0x83d385c7, 0x136c9856, 0x646ba8c0, 0xfd62f97a, 0x8a65c9ec,
    0x14015c4f, 0x63066cd9, 0xfa0f3d63, 0x8d080df5]
  }

  function Row2(): (r: seq<bv32>) ensures |r| == 16 {
    [0x3b6e20c8, 0x4c69105e, 0xd56041e4, 0xa2677172, 0x3c03e4d1, 0x4b04d447,
    0xd20d85fd, 0xa50ab56b, 0x35b5a8fa, 0x42b2986c, 0xdbbbc9d6, 0xacbcf940,
    0x32d86ce3, 0x45df5c75, 0xdcd60dcf, 0xabd13d59]
  }

  function Row3(): (r: seq<bv32>) ensures |r| == 16 {
    [0x26d930ac, 0x51de003a, 0xc8d75180, 0xbfd06116, 0x21b4f4b5, 0x56b3c423,
    0xcfba9599, 0xb8bda50f, 0x2802b89e, 0x5f058808, 0xc60cd9b2, 0xb10be924,
    0x2f6f7c87, 0x58684c11, 0xc1611dab, 0xb6662d3d]
  }

  function Row4(): (r: seq<bv32>) ensures |r| == 16 {
    [0x76dc4190, 0x01db7106, 0x98d220bc, 0xefd5102a, 0x71b18589, 0x06b6b51f,
    0x9fbfe4a5, 0xe8b8d433, 0x7807c9a2, 0x0f00f934, 0x9609a88e, 0xe10e9818,
    0x7f6a0dbb, 0x086d3d2d, 0x91646c97, 0xe6635c01]
  }

  function Row5(): (r: seq<bv32>) ensures |r| == 16 {
    [0x6b6b51f4, 0x1c6c6162, 0x856530d8, 0xf262004e, 0x6c0695ed, 0x1b01a57b,
    0x8208f4c1, 0xf50fc457, 0x65b0d9c6, 0x12b7e950, 0x8bbeb8ea, 0xfcb9887c,
    0x62dd1ddf, 0x15da2d49, 0x8cd37cf3, 0xfbd44c65]
  }

  function Row6(): (r: seq<bv32>) ensures |r| == 16 {
    [0x4db26158, 0x3ab551ce, 0xa3bc0074, 0xd4bb30e2, 0x4adfa541, 0x3dd895d7,
    0xa4d1c46d, 0xd3d6f4fb, 0x4369e96a, 0x346ed9fc, 0xad678846, 0xda60b8d0,
    0x44042d73, 0x33031de5, 0xaa0a4c5f, 0xdd0d7cc9]
  }

  function Row7(): (r: seq<bv32>) ensures |r| == 16 {
    [0x5005713c, 0x270241aa, 0xbe0b1010, 0xc90c2086, 0x5768b525, 0x206f85b3,
    0xb966d409, 0xce61e49f, 0x5edef90e, 0x29d9c998, 0xb0d09822, 0xc7d7a8b4,
    0x59b33d17, 0x2eb40d81, 0xb7bd5c3b, 0xc0ba6cad]
  }

  function Row8(): (r: seq<bv32>) ensures |r| == 16 {
    [0xedb88320, 0x9abfb3b6, 0x03b6e20c, 0x74b1d29a, 0xead54739, 0x9dd277af,
    0x04db2615, 0x73dc1683, 0xe3630b12, 0x94643b84, 0x0d6d6a3e, 0x7a6a5aa8,
    0xe40ecf0b, 0x9309ff9d, 0x0a00ae27, 0x7d079eb1]
  }

  function Row9(): (r: seq<bv32>) ensures |r| == 16 {
    [0xf00f9344, 0x8708a3d2, 0x1e01f268, 0x6906c2fe, 0xf762575d, 0x806567cb,
    0x196c3671, 0x6e6b06e7, 0xfed41b76, 0x89d32be0, 0x10da7a5a, 0x67dd4acc,
    0xf9b9df6f, 0x8ebeeff9, 0x17b7be43, 0x60b08ed5]
  }

  function RowA(): (r: seq<bv32>) ensures |r| == 16 {
    [0xd6d6a3e8, 0xa1d1937e, 0x38d8c2c4, 0x4fdff252, 0xd1bb67f1, 0xa6bc5767,
    0x3fb506dd, 0x48b2364b, 0xd80d2bda, 0xaf0a1b4c, 0x36034af6, 0x41047a60,
    0xdf60efc3, 0xa867df55, 0x316e8eef, 0x4669be79]
  }

  function RowB(): (r: seq<bv32>) ensures |r| == 16 {
    [0xcb61b38c, 0xbc66831a, 0x256fd2a0, 0x5268e236, 0xcc0c7795, 0xbb0b4703,
    0x220216b9, 0x5505262f, 0xc5ba3bbe, 0xb2bd0b28, 0x2bb45a92, 0x5cb36a04,
    0xc2d7ffa7, 0xb5d0cf31, 0x2cd99e8b, 0x5bdeae1d]
  }

  function RowC(): (r: seq<bv32>) ensures |r| == 16 {
    [0x9b64c2b0, 0xec63f226, 0x756aa39c, 0x026d930a, 0x9c0906a9, 0xeb0e363f,
    0x72076785, 0x05005713, 0x95bf4a82, 0xe2b87a14, 0x7bb12bae, 0x0cb61b38,
    0x92d28e9b, 0xe5d5be0d, 0x7cdcefb7, 0x0bdbdf21]
  }

  function RowD(): (r: seq<bv32>) ensures |r| == 16 {
    [0x86d3d2d4, 0xf1d4e242, 0x68ddb3f8, 0x1fda836e, 0x81be16cd, 0xf6b9265b,
    0x6fb077e1, 0x18b74777, 0x88085ae6, 0xff0f6a70, 0x66063bca, 0x11010b5c,
    0x8f659eff, 0xf862ae69, 0x616bffd3, 0x166ccf45]
  }

  function RowE(): (r: seq<bv32>) ensures |r| == 16 {
    [0xa00ae278, 0xd70dd2ee, 0x4e048354, 0x3903b3c2, 0xa7672661, 0xd06016f7,
    0x4969474d, 0x3e6e77db, 0xaed16a4a, 0xd9d65adc, 0x40df0b66, 0x37d83bf0,
    0xa9bcae53, 0xdebb9ec5, 0x47b2cf7f, 0x30b5ffe9]
  }

  function RowF(): (r: seq<bv32>) ensures |r| == 16 {
    [0xbdbdf21c, 0xcabac28a, 0x53b39330, 0x24b4a3a6, 0xbad03605, 0xcdd70693,
    0x54de5729, 0x23d967bf, 0xb3667a2e, 0xc4614ab8, 0x5d681b02, 0x2a6f2b94,
    0xb40bbe37, 0xc30c8ea1, 0x5a05df1b, 0x2d02ef8d]
  }


  function FirstHalf(): (t: seq<bv32>)
    ensures |t| == 128
  {
    Row0() + Row1() + Row2() + Row3() + Row4() + Row5() + Row6() + Row7()
  }

  function SecondHalf(): (t: seq<bv32>)
    ensures |t| == 128
  {
    Row8() + Row9() + RowA() + RowB() + RowC() + RowD() + RowE() + RowF()
  }

  function Table(): (t: seq<bv32>)
    ensures |t| == 256
  {
    FirstHalf() + SecondHalf()
  }

  /** The reflected generator polynomial (section 8 of RFC 1952). */
  const POLY: bv32 := 0xEDB88320

  function Xor(x: bv32, y: bv32): bv32 {
    x ^ y
  }

  /** A message byte as a register value. */
  function Wide(b: byte): bv32 {
    b as bv32
  }

  function Low(x: bv32): byte {
    (x & 0xFF) as byte
  }

  function High(x: bv32): bv32 {
    x & 0xFFFF_FF00
  }

  function Up(x: bv32): bv32 {
    x << 8
  }

  function Down(x: bv32): bv32 {
    x >> 8
  }

  /** One step of the bit-serial division. */
  function BitStep(x: bv32): bv32 {
    if x & 1 == 1 then Xor(x >> 1, 0xEDB88320) else x >> 1
  }

  function BitSteps(x: bv32, n: nat): bv32
    decreases n
  {
    if n == 0 then x else BitSteps(BitStep(x), n - 1)
  }

  /** Eight steps: the division of one more message byte. */
  function ByteStep(x: bv32): bv32 {
    BitSteps(x, 8)
  }

  /** The remainder register after dividing `buf` bit by bit, starting from register `c`. */
  function Divide(c: bv32, buf: seq<byte>): bv32
    decreases |buf|
  {
    if buf == [] then c else Divide(ByteStep(Xor(c, Wide(buf[0]))), buf[1..])
  }

  /** The CRC-32 of `buf` by definition, continuing an accumulated CRC. */
  function Crc(crc: bv32, buf: seq<byte>): bv32 {
    Xor(Divide(Xor(crc, 0xFFFF_FFFF), buf), 0xFFFF_FFFF)
  }

  method CalcCrc32(crc0: bv32, buf: seq<byte>) returns (crc: bv32)
    ensures crc == Crc(crc0, buf)
  {
    hide Table, ByteStep, Xor, Wide;
    XorIs(crc0, 0xFFFF_FFFF);
    crc := crc0 ^ 0xFFFF_FFFF;
    assert buf[0..] == buf;
    for i := 0 to |buf|
      invariant Divide(Xor(crc0, 0xFFFF_FFFF), buf) == Divide(crc, buf[i..])
    {
      var b := buf[i];
      TableStep(crc, b);
      assert buf[i..][1..] == buf[i + 1..];
      crc := Table()[((crc ^ (b as bv32)) & 0xFF) as int] ^ (crc >> 8);
    }
    XorIs(crc, 0xFFFF_FFFF);
    crc := crc ^ 0xFFFF_FFFF;
  }

  lemma DivideOn(c: bv32, buf: seq<byte>, rest: seq<byte>, d: bv32)
    requires buf != [] && rest == buf[1..] && ByteStep(Xor(c, Wide(buf[0]))) == d
    ensures Divide(c, buf) == Divide(d, rest)
  {
    hide ByteStep, Xor, Wide;
  }

  lemma DivideNone(c: bv32)
    ensures Divide(c, []) == c
  {}

  lemma StepsOfCheck()
    ensures ByteStep(Xor(0xFFFFFFFF, Wide(0x31))) == 0x7C231048
    ensures ByteStep(Xor(0x7C231048, Wide(0x32))) == 0xB0ACBB32
    ensures ByteStep(Xor(0xB0ACBB32, Wide(0x33))) == 0x77B79C2D
    ensures ByteStep(Xor(0x77B79C2D, Wide(0x34))) == 0x641C1F5C
    ensures ByteStep(Xor(0x641C1F5C, Wide(0x35))) == 0x340AC5E3
    ensures ByteStep(Xor(0x340AC5E3, Wide(0x36))) == 0xF68D2C9E
    ensures ByteStep(Xor(0xF68D2C9E, Wide(0x37))) == 0xAFFC9660
    ensures ByteStep(Xor(0xAFFC9660, Wide(0x38))) == 0x651F2550
    ensures ByteStep(Xor(0x651F2550, Wide(0x39))) == 0x340BC6D9
  {}

  /** The check value of the checksum: that of the nine digits "123456789". */
  lemma CheckValue()
    ensures Crc(0, [0x31, 0x32, 0x33, 0x34, 0x35, 0x36, 0x37, 0x38, 0x39]) == 0xCBF43926
  {
    hide ByteStep, Wide, Divide;
    StepsOfCheck();
    DivideOn(0xFFFFFFFF, [0x31, 0x32, 0x33, 0x34, 0x35, 0x36, 0x37, 0x38, 0x39], [0x32, 0x33, 0x34, 0x35, 0x36, 0x37, 0x38, 0x39], 0x7C231048);
    DivideOn(0x7C231048, [0x32, 0x33, 0x34, 0x35, 0x36, 0x37, 0x38, 0x39], [0x33, 0x34, 0x35, 0x36, 0x37, 0x38, 0x39], 0xB0ACBB32);
    DivideOn(0xB0ACBB32, [0x33, 0x34, 0x35, 0x36, 0x37, 0x38, 0x39], [0x34, 0x35, 0x36, 0x37, 0x38, 0x39], 0x77B79C2D);
    DivideOn(0x77B79C2D, [0x34, 0x35, 0x36, 0x37, 0x38, 0x39], [0x35, 0x36, 0x37, 0x38, 0x39], 0x641C1F5C);
    DivideOn(0x641C1F5C, [0x35, 0x36, 0x37, 0x38, 0x39], [0x36, 0x37, 0x38, 0x39], 0x340AC5E3);
    DivideOn(0x340AC5E3, [0x36, 0x37, 0x38, 0x39], [0x37, 0x38, 0x39], 0xF68D2C9E);
    DivideOn(0xF68D2C9E, [0x37, 0x38, 0x39], [0x38, 0x39], 0xAFFC9660);
    DivideOn(0xAFFC9660, [0x38, 0x39], [0x39], 0x651F2550);
    DivideOn(0x651F2550, [0x39], [], 0x340BC6D9);
    DivideNone(0x340BC6D9);
  }

  // ------------------------------------------------------------ the table

  /** The row of entries for the sixteen bytes that share the high nibble of `base`. */
  function Row(base: bv32): (r: seq<bv32>)
    ensures |r| == 16
  {
    [ByteStep(base), ByteStep(base | 1), ByteStep(base | 2), ByteStep(base | 3),
     ByteStep(base | 4), ByteStep(base | 5), ByteStep(base | 6), ByteStep(base | 7),
     ByteStep(base | 8), ByteStep(base | 9), ByteStep(base | 10), ByteStep(base | 11),
     ByteStep(base | 12), ByteStep(base | 13), ByteStep(base | 14), ByteStep(base | 15)]
  }

  lemma Row0Is() ensures Row0() == Row(0x00) {}
  lemma Row1Is() ensures Row1() == Row(0x10) {}
  lemma Row2Is() ensures Row2() == Row(0x20) {}
  lemma Row3Is() ensures Row3() == Row(0x30) {}
  lemma Row4Is() ensures Row4() == Row(0x40) {}
  lemma Row5Is() ensures Row5() == Row(0x50) {}
  lemma Row6Is() ensures Row6() == Row(0x60) {}
  lemma Row7Is() ensures Row7() == Row(0x70) {}
  lemma Row8Is() ensures Row8() == Row(0x80) {}
  lemma Row9Is() ensures Row9() == Row(0x90) {}
  lemma RowAIs() ensures RowA() == Row(0xA0) {}
  lemma RowBIs() ensures RowB() == Row(0xB0) {}
  lemma RowCIs() ensures RowC() == Row(0xC0) {}
  lemma RowDIs() ensures RowD() == Row(0xD0) {}
  lemma RowEIs() ensures RowE() == Row(0xE0) {}
  lemma RowFIs() ensures RowF() == Row(0xF0) {}

  lemma RowEntry(base: bv32, j: byte)
    requires j < 16
    ensures 0 <= j as int < 16
    ensures Row(base)[j as int] == ByteStep(base | (j as bv32))
  {
    hide ByteStep;
    if
    case j == 0 =>
    case j == 1 =>
    case j == 2 =>
    case j == 3 =>
    case j == 4 =>
    case j == 5 =>
    case j == 6 =>
    case j == 7 =>
    case j == 8 =>
    case j == 9 =>
    case j == 10 =>
    case j == 11 =>
    case j == 12 =>
    case j == 13 =>
    case j == 14 =>
    case j == 15 =>
  }

  lemma Nibbles(b: byte)
    ensures 0 <= (b >> 4) as int < 16 && 0 <= (b & 15) as int < 16
    ensures b as int == 16 * ((b >> 4) as int) + ((b & 15) as int)
    ensures ((b >> 4) as bv32 << 4) | ((b & 15) as bv32) == b as bv32
  {}

  lemma FirstHalfSlices()
    ensures forall j: nat :: j < 16 ==>
      FirstHalf()[0 + j] == Row0()[j] &&
      FirstHalf()[16 + j] == Row1()[j] &&
      FirstHalf()[32 + j] == Row2()[j] &&
      FirstHalf()[48 + j] == Row3()[j] &&
      FirstHalf()[64 + j] == Row4()[j] &&
      FirstHalf()[80 + j] == Row5()[j] &&
      FirstHalf()[96 + j] == Row6()[j] &&
      FirstHalf()[112 + j] == Row7()[j]
  {
    hide Row0, Row1, Row2, Row3, Row4, Row5, Row6, Row7, Row8, Row9, RowA, RowB, RowC, RowD, RowE, RowF;
  }

  lemma SecondHalfSlices()
    ensures forall j: nat :: j < 16 ==>
      SecondHalf()[0 + j] == Row8()[j] &&
      SecondHalf()[16 + j] == Row9()[j] &&
      SecondHalf()[32 + j] == RowA()[j] &&
      SecondHalf()[48 + j] == RowB()[j] &&
      SecondHalf()[64 + j] == RowC()[j] &&
      SecondHalf()[80 + j] == RowD()[j] &&
      SecondHalf()[96 + j] == RowE()[j] &&
      SecondHalf()[112 + j] == RowF()[j]
  {
    hide Row0, Row1, Row2, Row3, Row4, Row5, Row6, Row7, Row8, Row9, RowA, RowB, RowC, RowD, RowE, RowF;
  }

  lemma TableSlices()
    ensures forall j: nat :: j < 16 ==>
      Table()[0 + j] == Row0()[j] &&
      Table()[16 + j] == Row1()[j] &&
      Table()[32 + j] == Row2()[j] &&
      Table()[48 + j] == Row3()[j] &&
      Table()[64 + j] == Row4()[j] &&
      Table()[80 + j] == Row5()[j] &&
      Table()[96 + j] == Row6()[j] &&
      Table()[112 + j] == Row7()[j]
    ensures forall j: nat :: j < 16 ==>
      Table()[128 + j] == Row8()[j] &&
      Table()[144 + j] == Row9()[j] &&
      Table()[160 + j] == RowA()[j] &&
      Table()[176 + j] == RowB()[j] &&
      Table()[192 + j] == RowC()[j] &&
      Table()[208 + j] == RowD()[j] &&
      Table()[224 + j] == RowE()[j] &&
      Table()[240 + j] == RowF()[j]
  {
    FirstHalfSlices();
    SecondHalfSlices();
    hide FirstHalf, SecondHalf;
  }

  lemma TableRow(r: byte, j: nat)
    requires r < 16 && j < 16
    ensures 0 <= r as int < 16
    ensures Table()[16 * (r as int) + j] == Row(r as bv32 << 4)[j]
  {
    hide Row, Table;
    TableSlices();
    if
    case r == 0 => Row0Is();
    case r == 1 => Row1Is();
    case r == 2 => Row2Is();
    case r == 3 => Row3Is();
    case r == 4 => Row4Is();
    case r == 5 => Row5Is();
    case r == 6 => Row6Is();
    case r == 7 => Row7Is();
    case r == 8 => Row8Is();
    case r == 9 => Row9Is();
    case r == 10 => RowAIs();
    case r == 11 => RowBIs();
    case r == 12 => RowCIs();
    case r == 13 => RowDIs();
    case r == 14 => RowEIs();
    case r == 15 => RowFIs();
  }

  /** The entry of each byte is the division of that single byte. */
  lemma TableEntry(b: byte)
    ensures 0 <= b as int < 256 && Table()[b as int] == ByteStep(Wide(b))
  {
    hide Row, ByteStep;
    Nibbles(b);
    RowEntry((b >> 4) as bv32 << 4, b & 15);
    TableRow(b >> 4, (b & 15) as int);
  }

  // ------------------------------------------------------------ algebra of the step

  lemma ShiftXor(x: bv32, y: bv32)
    ensures Xor(x, y) >> 1 == Xor(x >> 1, y >> 1)
  {
    calc {
      Xor(x, y) >> 1;
      (x ^ y) >> 1;
      (x >> 1) ^ (y >> 1);
      Xor(x >> 1, y >> 1);
    }
  }

  lemma LowXor(x: bv32, y: bv32)
    ensures Xor(x, y) & 1 == 1 <==> (x & 1 == 1) != (y & 1 == 1)
  {}

  lemma SwapBits(x: bv32, y: bv32, p: bv32)
    ensures (x ^ p) ^ y == (x ^ y) ^ p
  {}

  lemma XorSwap(x: bv32, y: bv32, p: bv32)
    ensures Xor(Xor(x, p), y) == Xor(Xor(x, y), p)
  {
    hide Xor;
    XorIs(x, p);
    XorIs(x ^ p, y);
    XorIs(x, y);
    XorIs(x ^ y, p);
    SwapBits(x, y, p);
  }

  lemma XorAssoc(x: bv32, y: bv32, p: bv32)
    ensures Xor(x, Xor(y, p)) == Xor(Xor(x, y), p)
  {}

  lemma XorTwice(x: bv32, p: bv32)
    ensures Xor(Xor(x, p), p) == x
  {}

  lemma BitLinear(x: bv32, y: bv32)
    ensures BitStep(Xor(x, y)) == Xor(BitStep(x), BitStep(y))
  {
    hide Xor;
    ShiftXor(x, y);
    LowXor(x, y);
    XorSwap(x >> 1, y >> 1, POLY);
    XorAssoc(x >> 1, y >> 1, POLY);
    XorAssoc(Xor(x >> 1, POLY), y >> 1, POLY);
    XorTwice(Xor(x >> 1, y >> 1), POLY);
  }

  lemma {:induction false} StepsLinear(x: bv32, y: bv32, n: nat)
    ensures BitSteps(Xor(x, y), n) == Xor(BitSteps(x, n), BitSteps(y, n))
    decreases n
  {
    hide Xor, BitStep;
    if n > 0 {
      BitLinear(x, y);
      StepsLinear(BitStep(x), BitStep(y), n - 1);
    }
  }

  lemma {:induction false} StepsAdd(x: bv32, m: nat, n: nat)
    ensures BitSteps(x, m + n) == BitSteps(BitSteps(x, m), n)
    decreases m
  {
    hide BitStep;
    if m > 0 {
      StepsAdd(BitStep(x), m - 1, n);
    }
  }

  /** Each step can be undone: the polynomial's top bit tells which branch was taken. */
  lemma BitStepUndo(x: bv32)
    ensures var y := BitStep(x);
            x == if y & 0x8000_0000 != 0 then (Xor(y, POLY) << 1) | 1 else y << 1
  {}

  lemma {:induction false} StepsInjective(x: bv32, y: bv32, n: nat)
    requires BitSteps(x, n) == BitSteps(y, n)
    ensures x == y
    decreases n
  {
    if n > 0 {
      StepsInjective(BitStep(x), BitStep(y), n - 1);
      BitStepUndo(x);
      BitStepUndo(y);
    }
  }

  function Half(z: bv32): bv32 {
    z >> 1
  }

  lemma LowZero(z: bv32, m: bv32)
    requires z & m == 0 && m & 1 == 1
    ensures BitStep(z) == Half(z) && Half(z) & (m >> 1) == 0
  {}

  lemma HalfEightTimes(z: bv32)
    ensures Half(Half(Half(Half(Half(Half(Half(Half(z)))))))) == z >> 8
  {}

  /** Eight steps over a register whose low byte is zero only shift it. */
  lemma StepsShift(z: bv32)
    requires z & 0xFF == 0
    ensures BitSteps(z, 8) == z >> 8
  {
    HalfEightTimes(z);
    hide BitStep, Half;
    var z1 := Half(z);
    var z2 := Half(z1);
    var z3 := Half(z2);
    var z4 := Half(z3);
    var z5 := Half(z4);
    var z6 := Half(z5);
    var z7 := Half(z6);
    LowZero(z, 0xFF);
    LowZero(z1, 0x7F);
    LowZero(z2, 0x3F);
    LowZero(z3, 0x1F);
    LowZero(z4, 0x0F);
    LowZero(z5, 0x07);
    LowZero(z6, 0x03);
    LowZero(z7, 0x01);
  }

  lemma Split(x: bv32)
    ensures x == Xor(Wide(Low(x)), High(x))
  {}

  lemma HighBits(x: bv32)
    ensures High(x) & 0xFF == 0 && High(x) >> 8 == Down(x)
  {}

  lemma StepsHigh(x: bv32)
    ensures BitSteps(High(x), 8) == Down(x)
  {
    hide High, Down, BitSteps;
    HighBits(x);
    StepsShift(High(x));
  }

  lemma DownOf(c: bv32, b: byte)
    ensures Down(Xor(c, Wide(b))) == Down(c)
  {}

  lemma XorIs(x: bv32, y: bv32)
    ensures x ^ y == Xor(x, y)
  {}

  lemma IndexIs(c: bv32, b: byte)
    ensures ((c ^ (b as bv32)) & 0xFF) as int == Low(Xor(c, Wide(b))) as int
    ensures 0 <= Low(Xor(c, Wide(b))) as int < 256
  {}

  lemma TableStepXor(c: bv32, b: byte)
    ensures 0 <= Low(Xor(c, Wide(b))) as int < 256
    ensures Xor(Table()[Low(Xor(c, Wide(b))) as int], Down(c)) == ByteStep(Xor(c, Wide(b)))
  {
    hide Xor, Wide, Low, High, Down, Table, BitStep;
    var x := Xor(c, Wide(b));
    Split(x);
    DownOf(c, b);
    TableEntry(Low(x));
    StepsLinear(Wide(Low(x)), High(x), 8);
    StepsHigh(x);
  }

  /** One turn of the table-driven loop is one byte of the bitwise division. */
  lemma TableStep(c: bv32, b: byte)
    ensures 0 <= ((c ^ (b as bv32)) & 0xFF) as int < 256
    ensures Table()[((c ^ (b as bv32)) & 0xFF) as int] ^ (c >> 8) == ByteStep(Xor(c, Wide(b)))
  {
    hide Xor, Wide, Low, Table, ByteStep;
    IndexIs(c, b);
    TableStepXor(c, b);
    var t := Table()[Low(Xor(c, Wide(b))) as int];
    XorIs(t, c >> 8);
  }

  // ------------------------------------------------------------ streaming

  lemma {:induction false} DivideConcat(c: bv32, a: seq<byte>, b: seq<byte>)
    ensures Divide(c, a + b) == Divide(Divide(c, a), b)
    decreases |a|
  {
    hide Xor, ByteStep;
    if a == [] {
      assert a + b == b;
    } else {
      assert (a + b)[1..] == a[1..] + b;
      DivideConcat(ByteStep(Xor(c, Wide(a[0]))), a[1..], b);
    }
  }

  /** The CRC of a concatenation may be computed piece by piece, however the pieces are cut. */
  lemma Streams(crc: bv32, a: seq<byte>, b: seq<byte>)
    ensures Crc(Crc(crc, a), b) == Crc(crc, a + b)
  {
    hide Xor;
    DivideConcat(Xor(crc, 0xFFFF_FFFF), a, b);
    XorTwice(Divide(Xor(crc, 0xFFFF_FFFF), a), 0xFFFF_FFFF);
  }

  // ------------------------------------------------------------ error detection

  lemma XorInjective(x: bv32, y: bv32, p: bv32)
    requires Xor(x, p) == Xor(y, p)
    ensures x == y
  {
    XorTwice(x, p);
    XorTwice(y, p);
    hide Xor;
  }

  lemma {:induction false} DivideInjective(c: bv32, d: bv32, buf: seq<byte>)
    requires Divide(c, buf) == Divide(d, buf)
    ensures c == d
    decreases |buf|
  {
    hide Xor, Wide, BitStep;
    if buf != [] {
      var b := Wide(buf[0]);
      DivideInjective(ByteStep(Xor(c, b)), ByteStep(Xor(d, b)), buf[1..]);
      StepsInjective(Xor(c, b), Xor(d, b), 8);
      XorInjective(c, d, b);
    }
  }

  /** Up to four message bytes as one register value, first byte lowest. */
  function Pack(m: seq<byte>): bv32
    decreases |m|
  {
    if m == [] then 0 else Xor(Up(Pack(m[1..])), Wide(m[0]))
  }

  /** The value needs no more than `n` bytes of the register. */
  predicate Fits(q: bv32, n: nat) {
    && (n == 0 ==> q == 0)
    && (n == 1 ==> q & 0xFFFF_FF00 == 0)
    && (n == 2 ==> q & 0xFFFF_0000 == 0)
    && (n == 3 ==> q & 0xFF00_0000 == 0)
  }

  lemma FitsNext(q: bv32, b: byte, n: nat)
    requires Fits(q, n) && n < 4
    ensures Fits(Xor(Up(q), Wide(b)), n + 1)
  {
    if n == 0 {} else if n == 1 {} else if n == 2 {} else {}
  }

  lemma UpDown(q: bv32, n: nat)
    requires Fits(q, n) && n < 4
    ensures Down(Up(q)) == q && High(Up(q)) == Up(q)
  {
    if n == 0 {} else if n == 1 {} else if n == 2 {} else {}
  }

  lemma LowOfPack(q: bv32, b: byte)
    ensures Low(Xor(Up(q), Wide(b))) == b
  {}

  lemma {:induction false} PackFits(m: seq<byte>)
    requires |m| <= 4
    ensures Fits(Pack(m), |m|)
    decreases |m|
  {
    hide Xor, Up, Wide;
    if m != [] {
      PackFits(m[1..]);
      hide Fits;
      FitsNext(Pack(m[1..]), m[0], |m| - 1);
    }
  }

  lemma {:induction false} PackInjective(m: seq<byte>, n: seq<byte>)
    requires |m| == |n| <= 4 && Pack(m) == Pack(n)
    ensures m == n
    decreases |m|
  {
    hide Xor, Up, Wide, Low, Down, High, Fits;
    if m != [] {
      var p, q := Pack(m[1..]), Pack(n[1..]);
      LowOfPack(p, m[0]);
      LowOfPack(q, n[0]);
      DownOf(Up(p), m[0]);
      DownOf(Up(q), n[0]);
      PackFits(m[1..]);
      PackFits(n[1..]);
      UpDown(p, |m| - 1);
      UpDown(q, |n| - 1);
      PackInjective(m[1..], n[1..]);
      assert m == [m[0]] + m[1..] && n == [n[0]] + n[1..];
    }
  }

  /** Dividing up to four bytes is as many steps from the register with the packed bytes mixed in. */
  lemma {:induction false} DividePacked(c: bv32, m: seq<byte>)
    requires |m| <= 4
    ensures Divide(c, m) == BitSteps(Xor(c, Pack(m)), 8 * |m|)
    decreases |m|
  {
    hide Xor, BitStep, Up, Wide, Low, Down, High, Fits;
    if m == [] {
      XorZero(c);
    } else {
      var rest, b := m[1..], Wide(m[0]);
      var q := Pack(rest);
      PackFits(rest);
      UpDown(q, |rest|);
      var n := 8 * |rest|;
      calc {
        BitSteps(Xor(c, Pack(m)), 8 + n);
        { StepsAdd(Xor(c, Pack(m)), 8, n); }
        BitSteps(BitSteps(Xor(c, Xor(Up(q), b)), 8), n);
        { XorAssoc(c, Up(q), b); XorSwap(c, Up(q), b); }
        BitSteps(BitSteps(Xor(Xor(c, b), Up(q)), 8), n);
        { StepsLinear(Xor(c, b), Up(q), 8); StepsHigh(Up(q)); }
        BitSteps(Xor(ByteStep(Xor(c, b)), q), n);
        { DividePacked(ByteStep(Xor(c, b)), rest); }
        Divide(ByteStep(Xor(c, b)), rest);
      }
    }
  }

  lemma XorZero(x: bv32)
    ensures Xor(x, 0) == x
  {}

  lemma XorCommutes(x: bv32, y: bv32)
    ensures Xor(x, y) == Xor(y, x)
  {}

  lemma XorInjectiveRight(c: bv32, x: bv32, y: bv32)
    requires Xor(c, x) == Xor(c, y)
    ensures x == y
  {
    XorCommutes(c, x);
    XorCommutes(c, y);
    hide Xor;
    XorInjective(x, y, c);
  }

  lemma WindowInjective(c: bv32, m: seq<byte>, n: seq<byte>)
    requires |m| == |n| <= 4 && Divide(c, m) == Divide(c, n)
    ensures m == n
  {
    hide Xor, BitSteps, Divide, Pack;
    DividePacked(c, m);
    DividePacked(c, n);
    StepsInjective(Xor(c, Pack(m)), Xor(c, Pack(n)), 8 * |m|);
    XorInjectiveRight(c, Pack(m), Pack(n));
    PackInjective(m, n);
  }

  lemma CrcInjective(crc: bv32, pre: seq<byte>, m: seq<byte>, n: seq<byte>, post: seq<byte>)
    requires |m| == |n| <= 4
    requires Crc(crc, pre + m + post) == Crc(crc, pre + n + post)
    ensures m == n
  {
    var c := Xor(crc, 0xFFFF_FFFF);
    XorInjective(Divide(c, pre + m + post), Divide(c, pre + n + post), 0xFFFF_FFFF);
    hide Xor, Divide;
    DivideConcat(c, pre + m, post);
    DivideConcat(c, pre + n, post);
    DivideConcat(c, pre, m);
    DivideConcat(c, pre, n);
    var s := Divide(c, pre);
    DivideInjective(Divide(s, m), Divide(s, n), post);
    WindowInjective(s, m, n);
  }

  /** A burst is always detected: two buffers that differ only inside a window of four consecutive
      bytes have different CRCs. */
  lemma DetectsBurst(crc: bv32, u: seq<byte>, v: seq<byte>, w: nat)
    requires |u| == |v|
    requires forall i :: 0 <= i < |u| && !(w <= i < w + 4) ==> u[i] == v[i]
    requires u != v
    ensures Crc(crc, u) != Crc(crc, v)
  {
    hide Crc;
    if Crc(crc, u) == Crc(crc, v) {
      var lo := if w < |u| then w else |u|;
      var hi := if w + 4 < |u| then w + 4 else |u|;
      assert v[..lo] == u[..lo] && v[hi..] == u[hi..];
      assert u == u[..lo] + u[lo..hi] + u[hi..] && v == v[..lo] + v[lo..hi] + v[hi..];
      CrcInjective(crc, u[..lo], u[lo..hi], v[lo..hi], u[hi..]);
    }
  }
}
