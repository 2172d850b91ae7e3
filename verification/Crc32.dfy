/**
 The table-driven CRC-32 of the KVH driver, proved equal to bit-serial polynomial division.
 The register type is at least 32 bits wide in the original and every update masks it to 32 bits,
 so a 32-bit word holds the same values.
 */
module Crc32 {
  import opened PolyDivision
  import opened Words

  // The 256 table entries, sixteen to a row.
  const ROW_0: seq<bv32> := [
    0x00000000, 0x04c11db7, 0x09823b6e, 0x0d4326d9, 0x130476dc, 0x17c56b6b, 0x1a864db2, 0x1e475005,
    0x2608edb8, 0x22c9f00f, 0x2f8ad6d6, 0x2b4bcb61, 0x350c9b64, 0x31cd86d3, 0x3c8ea00a, 0x384fbdbd
  ]
  const ROW_1: seq<bv32> := [
    0x4c11db70, 0x48d0c6c7, 0x4593e01e, 0x4152fda9, 0x5f15adac, 0x5bd4b01b, 0x569796c2, 0x52568b75,
    0x6a1936c8, 0x6ed82b7f, 0x639b0da6, 0x675a1011, 0x791d4014, 0x7ddc5da3, 0x709f7b7a, 0x745e66cd
  ]
  const ROW_2: seq<bv32> := [
    0x9823b6e0, 0x9ce2ab57, 0x91a18d8e, 0x95609039, 0x8b27c03c, 0x8fe6dd8b, 0x82a5fb52, 0x8664e6e5,
    0xbe2b5b58, 0xbaea46ef, 0xb7a96036, 0xb3687d81, 0xad2f2d84, 0xa9ee3033, 0xa4ad16ea, 0xa06c0b5d
  ]
  const ROW_3: seq<bv32> := [
    0xd4326d90, 0xd0f37027, 0xddb056fe, 0xd9714b49, 0xc7361b4c, 0xc3f706fb, 0xceb42022, 0xca753d95,
    0xf23a8028, 0xf6fb9d9f, 0xfbb8bb46, 0xff79a6f1, 0xe13ef6f4, 0xe5ffeb43, 0xe8bccd9a, 0xec7dd02d
  ]
  const ROW_4: seq<bv32> := [
    0x34867077, 0x30476dc0, 0x3d044b19, 0x39c556ae, 0x278206ab, 0x23431b1c, 0x2e003dc5, 0x2ac12072,
    0x128e9dcf, 0x164f8078, 0x1b0ca6a1, 0x1fcdbb16, 0x018aeb13, 0x054bf6a4, 0x0808d07d, 0x0cc9cdca
  ]
  const ROW_5: seq<bv32> := [
    0x7897ab07, 0x7c56b6b0, 0x71159069, 0x75d48dde, 0x6b93dddb, 0x6f52c06c, 0x6211e6b5, 0x66d0fb02,
    0x5e9f46bf, 0x5a5e5b08, 0x571d7dd1, 0x53dc6066, 0x4d9b3063, 0x495a2dd4, 0x44190b0d, 0x40d816ba
  ]
  const ROW_6: seq<bv32> := [
    0xaca5c697, 0xa864db20, 0xa527fdf9, 0xa1e6e04e, 0xbfa1b04b, 0xbb60adfc, 0xb6238b25, 0xb2e29692,
    0x8aad2b2f, 0x8e6c3698, 0x832f1041, 0x87ee0df6, 0x99a95df3, 0x9d684044, 0x902b669d, 0x94ea7b2a
  ]
  const ROW_7: seq<bv32> := [
    0xe0b41de7, 0xe4750050, 0xe9362689, 0xedf73b3e, 0xf3b06b3b, 0xf771768c, 0xfa325055, 0xfef34de2,
    0xc6bcf05f, 0xc27dede8, 0xcf3ecb31, 0xcbffd686, 0xd5b88683, 0xd1799b34, 0xdc3abded, 0xd8fba05a
  ]
  const ROW_8: seq<bv32> := [
    0x690ce0ee, 0x6dcdfd59, 0x608edb80, 0x644fc637, 0x7a089632, 0x7ec98b85, 0x738aad5c, 0x774bb0eb,
    0x4f040d56, 0x4bc510e1, 0x46863638, 0x42472b8f, 0x5c007b8a, 0x58c1663d, 0x558240e4, 0x51435d53
  ]
  const ROW_9: seq<bv32> := [
    0x251d3b9e, 0x21dc2629, 0x2c9f00f0, 0x285e1d47, 0x36194d42, 0x32d850f5, 0x3f9b762c, 0x3b5a6b9b,
    0x0315d626, 0x07d4cb91, 0x0a97ed48, 0x0e56f0ff, 0x1011a0fa, 0x14d0bd4d, 0x19939b94, 0x1d528623
  ]
  const ROW_A: seq<bv32> := [
    0xf12f560e, 0xf5ee4bb9, 0xf8ad6d60, 0xfc6c70d7, 0xe22b20d2, 0xe6ea3d65, 0xeba91bbc, 0xef68060b,
    0xd727bbb6, 0xd3e6a601, 0xdea580d8, 0xda649d6f, 0xc423cd6a, 0xc0e2d0dd, 0xcda1f604, 0xc960ebb3
  ]
  const ROW_B: seq<bv32> := [
    0xbd3e8d7e, 0xb9ff90c9, 0xb4bcb610, 0xb07daba7, 0xae3afba2, 0xaafbe615, 0xa7b8c0cc, 0xa379dd7b,
    0x9b3660c6, 0x9ff77d71, 0x92b45ba8, 0x9675461f, 0x8832161a, 0x8cf30bad, 0x81b02d74, 0x857130c3
  ]
  const ROW_C: seq<bv32> := [
    0x5d8a9099, 0x594b8d2e, 0x5408abf7, 0x50c9b640, 0x4e8ee645, 0x4a4ffbf2, 0x470cdd2b, 0x43cdc09c,
    0x7b827d21, 0x7f436096, 0x7200464f, 0x76c15bf8, 0x68860bfd, 0x6c47164a, 0x61043093, 0x65c52d24
  ]
  const ROW_D: seq<bv32> := [
    0x119b4be9, 0x155a565e, 0x18197087, 0x1cd86d30, 0x029f3d35, 0x065e2082, 0x0b1d065b, 0x0fdc1bec,
    0x3793a651, 0x3352bbe6, 0x3e119d3f, 0x3ad08088, 0x2497d08d, 0x2056cd3a, 0x2d15ebe3, 0x29d4f654
  ]
  const ROW_E: seq<bv32> := [
    0xc5a92679, 0xc1683bce, 0xcc2b1d17, 0xc8ea00a0, 0xd6ad50a5, 0xd26c4d12, 0xdf2f6bcb, 0xdbee767c,
    0xe3a1cbc1, 0xe760d676, 0xea23f0af, 0xeee2ed18, 0xf0a5bd1d, 0xf464a0aa, 0xf9278673, 0xfde69bc4
  ]
  const ROW_F: seq<bv32> := [
    0x89b8fd09, 0x8d79e0be, 0x803ac667, 0x84fbdbd0, 0x9abc8bd5, 0x9e7d9662, 0x933eb0bb, 0x97ffad0c,
    0xafb010b1, 0xab710d06, 0xa6322bdf, 0xa2f33668, 0xbcb4666d, 0xb8757bda, 0xb5365d03, 0xb1f740b4
  ]

  const TABLE: seq<seq<bv32>> := [
    ROW_0, ROW_1, ROW_2, ROW_3, ROW_4, ROW_5, ROW_6, ROW_7,
    ROW_8, ROW_9, ROW_A, ROW_B, ROW_C, ROW_D, ROW_E, ROW_F
  ]

  function Entry(i: bv32): bv32
    requires i < 256
  {
    TABLE[i >> 4][i & 0xf]
  }

  const POLY: bv32 := 0x04c11db7

  const INIT: bv32 := 0xffffffff

  function Octets(data: seq<bv8>): (r: seq<Octet>)
    ensures |r| == |data|
  {
    seq(|data|, i requires 0 <= i < |data| => ByteBits(data[i]))
  }

  function DataBits(data: seq<bv8>): (r: Bits)
    ensures |r| == 8 * |data|
  {
    Flatten(Octets(data))
  }

  /** One step of the division with a zero message bit, on a machine word. */
  function ZeroStep(r: bv32): bv32 {
    if Top(r) then (r << 1) ^ POLY else r << 1
  }

  function EightSteps(r: bv32): bv32 {
    ZeroStep(ZeroStep(ZeroStep(ZeroStep(ZeroStep(ZeroStep(ZeroStep(ZeroStep(r))))))))
  }

  lemma Row0(i: bv32)
    requires i >> 4 == 0x0
    ensures i < 256 && Entry(i) == EightSteps(i << 24)
  {
    assert TABLE[0x0] == ROW_0;
  }

  lemma Row1(i: bv32)
    requires i >> 4 == 0x1
    ensures i < 256 && Entry(i) == EightSteps(i << 24)
  {
    assert TABLE[0x1] == ROW_1;
  }

  lemma Row2(i: bv32)
    requires i >> 4 == 0x2
    ensures i < 256 && Entry(i) == EightSteps(i << 24)
  {
    assert TABLE[0x2] == ROW_2;
  }

  lemma Row3(i: bv32)
    requires i >> 4 == 0x3
    ensures i < 256 && Entry(i) == EightSteps(i << 24)
  {
    assert TABLE[0x3] == ROW_3;
  }

  lemma Row4(i: bv32)
    requires i >> 4 == 0x4
    ensures i < 256 && Entry(i) == EightSteps(i << 24)
  {
    assert TABLE[0x4] == ROW_4;
  }

  lemma Row5(i: bv32)
    requires i >> 4 == 0x5
    ensures i < 256 && Entry(i) == EightSteps(i << 24)
  {
    assert TABLE[0x5] == ROW_5;
  }

  lemma Row6(i: bv32)
    requires i >> 4 == 0x6
    ensures i < 256 && Entry(i) == EightSteps(i << 24)
  {
    assert TABLE[0x6] == ROW_6;
  }

  lemma Row7(i: bv32)
    requires i >> 4 == 0x7
    ensures i < 256 && Entry(i) == EightSteps(i << 24)
  {
    assert TABLE[0x7] == ROW_7;
  }

  lemma Row8(i: bv32)
    requires i >> 4 == 0x8
    ensures i < 256 && Entry(i) == EightSteps(i << 24)
  {
    assert TABLE[0x8] == ROW_8;
  }

  lemma Row9(i: bv32)
    requires i >> 4 == 0x9
    ensures i < 256 && Entry(i) == EightSteps(i << 24)
  {
    assert TABLE[0x9] == ROW_9;
  }

  lemma RowA(i: bv32)
    requires i >> 4 == 0xa
    ensures i < 256 && Entry(i) == EightSteps(i << 24)
  {
    assert TABLE[0xa] == ROW_A;
  }

  lemma RowB(i: bv32)
    requires i >> 4 == 0xb
    ensures i < 256 && Entry(i) == EightSteps(i << 24)
  {
    assert TABLE[0xb] == ROW_B;
  }

  lemma RowC(i: bv32)
    requires i >> 4 == 0xc
    ensures i < 256 && Entry(i) == EightSteps(i << 24)
  {
    assert TABLE[0xc] == ROW_C;
  }

  lemma RowD(i: bv32)
    requires i >> 4 == 0xd
    ensures i < 256 && Entry(i) == EightSteps(i << 24)
  {
    assert TABLE[0xd] == ROW_D;
  }

  lemma RowE(i: bv32)
    requires i >> 4 == 0xe
    ensures i < 256 && Entry(i) == EightSteps(i << 24)
  {
    assert TABLE[0xe] == ROW_E;
  }

  lemma RowF(i: bv32)
    requires i >> 4 == 0xf
    ensures i < 256 && Entry(i) == EightSteps(i << 24)
  {
    assert TABLE[0xf] == ROW_F;
  }

  lemma FourBits(x: bv32)
    ensures Leading(x, 4) == [Top(x), Top(x << 1), Top(x << 2), Top(x << 3)]
  {
    ShiftTwice(x);
    assert Leading(x << 2, 2) == [Top(x << 2), Top(x << 3)];
    assert Leading(x << 1, 3) == [Top(x << 1)] + Leading(x << 2, 2);
  }

  lemma ShiftTwice(x: bv32)
    ensures (x << 1) << 1 == x << 2 && (x << 2) << 1 == x << 3
  {
  }

  lemma Nibbles(x: bv32)
    ensures Leading(x, 8) == Leading(x, 4) + Leading(x << 4, 4)
  {
    LeadingSplit(x, 4, 4);
    assert Shifted(x, 4) == Shifted(x << 2, 2) == Shifted(x << 4, 0) by {
      ShiftTwice(x);
      ShiftTwice(x << 2);
      assert (x << 2) << 2 == x << 4;
    }
  }

  lemma PolyHigh()
    ensures Leading(POLY, 8) == [false, false, false, false, false, true, false, false]
    ensures Leading(0xc11db700, 8) == [true, true, false, false, false, false, false, true]
  {
    Nibbles(POLY);
    Nibbles(0xc11db700);
    FourBits(POLY);
    FourBits(0x4c11db70);
    FourBits(0xc11db700);
    FourBits(0x11db7000);
  }

  lemma PolyLow()
    ensures Leading(0x1db70000, 8) == [false, false, false, true, true, true, false, true]
    ensures Leading(0xb7000000, 8) == [true, false, true, true, false, true, true, true]
  {
    Nibbles(0x1db70000);
    Nibbles(0xb7000000);
    FourBits(0x1db70000);
    FourBits(0xdb700000);
    FourBits(0xb7000000);
    FourBits(0x70000000);
  }

  lemma PolyIsGenerator()
    ensures WordBits(POLY) == Generator()
  {
    FourBytes(POLY);
    PolyHigh();
    PolyLow();
    GeneratorBits();
  }

  lemma GeneratorBits()
    ensures Generator()
      == [false, false, false, false, false, true, false, false]
       + ([true, true, false, false, false, false, false, true]
       + ([false, false, false, true, true, true, false, true]
       + [true, false, true, true, false, true, true, true]))
  {
  }

  lemma ZeroStepDivides(r: bv32)
    ensures WordBits(ZeroStep(r)) == Step(WordBits(r), false)
  {
    ShiftOneBit(r);
    assert WordBits(r)[0] == Top(r);
    if Top(r) {
      LeadingXor(r << 1, POLY, 32);
      PolyIsGenerator();
    }
  }

  lemma EightStepsDivide(r: bv32)
    ensures WordBits(EightSteps(r)) == Divide(WordBits(r), Zeros(8))
  {
    var r1 := ZeroStep(r);
    var r2 := ZeroStep(r1);
    var r3 := ZeroStep(r2);
    var r4 := ZeroStep(r3);
    ZeroStepDivides(r);
    ZeroStepDivides(r1);
    ZeroStepDivides(r2);
    ZeroStepDivides(r3);
    FourZeros(WordBits(r));
    ZeroStepDivides(r4);
    ZeroStepDivides(ZeroStep(r4));
    ZeroStepDivides(ZeroStep(ZeroStep(r4)));
    ZeroStepDivides(ZeroStep(ZeroStep(ZeroStep(r4))));
    FourZeros(WordBits(r4));
    assert Zeros(8) == Zeros(4) + Zeros(4);
    DivideInPieces(WordBits(r), Zeros(4), Zeros(4));
  }

  lemma FourZeros(reg: Bits)
    requires |reg| == 32
    ensures Divide(reg, Zeros(4)) == Step(Step(Step(Step(reg, false), false), false), false)
  {
    assert Zeros(4)[1..] == Zeros(3) && Zeros(3)[1..] == Zeros(2) && Zeros(2)[1..] == Zeros(1);
    assert Zeros(1)[1..] == [];
    assert Divide(reg, Zeros(4)) == Divide(Step(reg, false), Zeros(3));
    var reg1 := Step(reg, false);
    assert Divide(reg1, Zeros(3)) == Divide(Step(reg1, false), Zeros(2));
    var reg2 := Step(reg1, false);
    assert Divide(reg2, Zeros(2)) == Divide(Step(reg2, false), Zeros(1));
  }

  /** Every table entry is the remainder of its index, shifted to the top of the register. */
  lemma TableEntry(i: bv32)
    requires i < 256
    ensures WordBits(Entry(i)) == Divide(WordBits(i << 24), Zeros(8))
  {
    EightStepsDivide(i << 24);
    TableRows(i);
  }

  lemma TableRows(i: bv32)
    requires i < 256
    ensures Entry(i) == EightSteps(i << 24)
  {
    if i >> 4 == 0x0 {
      Row0(i);
    } else if i >> 4 == 0x1 {
      Row1(i);
    } else if i >> 4 == 0x2 {
      Row2(i);
    } else if i >> 4 == 0x3 {
      Row3(i);
    } else if i >> 4 == 0x4 {
      Row4(i);
    } else if i >> 4 == 0x5 {
      Row5(i);
    } else if i >> 4 == 0x6 {
      Row6(i);
    } else if i >> 4 == 0x7 {
      Row7(i);
    } else if i >> 4 == 0x8 {
      Row8(i);
    } else if i >> 4 == 0x9 {
      Row9(i);
    } else if i >> 4 == 0xa {
      RowA(i);
    } else if i >> 4 == 0xb {
      RowB(i);
    } else if i >> 4 == 0xc {
      RowC(i);
    } else if i >> 4 == 0xd {
      RowD(i);
    } else if i >> 4 == 0xe {
      RowE(i);
    } else {
      RowF(i);
    }
  }

  function Index(crc: bv32, b: bv8): bv32 {
    ((crc >> 24) ^ (b as bv32)) & 0xff
  }

  lemma IndexIsTopByte(crc: bv32, b: bv8)
    ensures Index(crc, b) < 256
    ensures Index(crc, b) << 24 == ((((crc >> 24) as bv8) ^ b) as bv32) << 24
  {
    assert Index(crc, b) == (((crc >> 24) as bv8) ^ b) as bv32;
  }

  lemma HighWord(w: bv32, b: bv8)
    requires w == (b as bv32) << 24
    ensures WordBits(w) == ByteBits(b) + Zeros(24)
  {
    HighByteWord(b);
  }

  lemma TopByteBits(crc: bv32, t: bv8)
    requires t == (crc >> 24) as bv8
    ensures ByteBits(t) == WordBits(crc)[..8]
  {
    TopByte(crc);
    LeadingSplit8(crc, 24);
  }

  lemma TopByteXor(crc: bv32, b: bv8, t: bv8)
    requires t == (crc >> 24) as bv8
    ensures ByteBits(t ^ b) == Xor(WordBits(crc)[..8], ByteBits(b))
  {
    ByteXor(t, b);
    TopByteBits(crc, t);
  }

  lemma IndexWordBits(crc: bv32, b: bv8, t: bv8, w: bv32)
    requires t == (crc >> 24) as bv8 && w == ((t ^ b) as bv32) << 24
    ensures WordBits(w) == Xor(WordBits(crc)[..8], ByteBits(b)) + Zeros(24)
  {
    HighWord(w, t ^ b);
    TopByteXor(crc, b, t);
  }

  lemma IndexBits(crc: bv32, b: bv8)
    ensures Index(crc, b) < 256
    ensures WordBits(Index(crc, b) << 24) == Xor(WordBits(crc)[..8], ByteBits(b)) + Zeros(24)
  {
    IndexIsTopByte(crc, b);
    IndexWordBits(crc, b, (crc >> 24) as bv8, Index(crc, b) << 24);
  }

  lemma MixWords(entry: bv32, shifted: bv32, next: bv32, reg: Bits, b: Bits)
    requires |reg| == 32 && |b| == 8 && IsXor(entry, shifted, next)
    requires WordBits(shifted) == reg[8..] + Zeros(8)
    requires WordBits(entry) == Divide(Xor(reg[..8], b) + Zeros(24), Zeros(8))
    ensures WordBits(next) == Divide(reg, b)
  {
    LeadingXor(entry, shifted, 32);
    DivideByte(reg, b);
  }

  /** One pass of the loop body, with the table, divides by one byte of data. */
  lemma UpdateByte(crc: bv32, b: bv8, i: bv32, next: bv32)
    requires i == Index(crc, b)
    requires i < 256 && IsXor(Entry(i), crc << 8, next)
    ensures WordBits(next) == Divide(WordBits(crc), ByteBits(b))
  {
    IndexBits(crc, b);
    TableEntry(i);
    ShiftOneByte(crc);
    MixWords(Entry(i), crc << 8, next, WordBits(crc), ByteBits(b));
  }

  lemma DataBitsAppend(a: seq<bv8>, b: seq<bv8>)
    ensures DataBits(a + b) == DataBits(a) + DataBits(b)
  {
    assert Octets(a + b) == Octets(a) + Octets(b);
    FlattenAppend(Octets(a), Octets(b));
  }

  lemma DataBitsSnoc(a: seq<bv8>, b: bv8)
    ensures DataBits(a + [b]) == DataBits(a) + ByteBits(b)
  {
    assert Octets(a + [b]) == Octets(a) + [ByteBits(b)];
    FlattenAppend(Octets(a), [ByteBits(b)]);
    FlattenOne(ByteBits(b));
  }

  function UpdateWord(crc: bv32, b: bv8): bv32 {
    IndexIsTopByte(crc, b);
    Entry(Index(crc, b)) ^ (crc << 8)
  }

  /** The register after a byte string, as the table-driven code computes it. */
  function CrcWord(crc: bv32, data: seq<bv8>): bv32
    decreases |data|
  {
    if data == [] then crc else UpdateWord(CrcWord(crc, data[..|data| - 1]), data[|data| - 1])
  }

  lemma UpdateWordDivides(crc: bv32, b: bv8)
    ensures WordBits(UpdateWord(crc, b)) == Divide(WordBits(crc), ByteBits(b))
  {
    IndexIsTopByte(crc, b);
    UpdateByte(crc, b, Index(crc, b), UpdateWord(crc, b));
  }

  lemma DivideSnoc(reg: Bits, data: seq<bv8>, b: bv8)
    requires |reg| == 32
    ensures Divide(reg, DataBits(data + [b])) == Divide(Divide(reg, DataBits(data)), ByteBits(b))
  {
    DataBitsSnoc(data, b);
    DivideInPieces(reg, DataBits(data), ByteBits(b));
  }

  lemma OneMoreByte(reg: Bits, w: bv32, data: seq<bv8>, b: bv8, next: bv32)
    requires |reg| == 32 && WordBits(w) == Divide(reg, DataBits(data)) && next == UpdateWord(w, b)
    ensures WordBits(next) == Divide(reg, DataBits(data + [b]))
  {
    UpdateWordDivides(w, b);
    DivideSnoc(reg, data, b);
  }

  lemma CrcWordSnoc(crc: bv32, data: seq<bv8>, b: bv8)
    ensures CrcWord(crc, data + [b]) == UpdateWord(CrcWord(crc, data), b)
  {
    assert (data + [b])[..|data|] == data;
  }

  lemma RemainderSnoc(crc: bv32, data: seq<bv8>, b: bv8)
    requires WordBits(CrcWord(crc, data)) == Divide(WordBits(crc), DataBits(data))
    ensures WordBits(CrcWord(crc, data + [b])) == Divide(WordBits(crc), DataBits(data + [b]))
  {
    CrcWordSnoc(crc, data, b);
    OneMoreByte(WordBits(crc), CrcWord(crc, data), data, b, CrcWord(crc, data + [b]));
  }

  /** Table-driven is bit-serial: for every start value and every byte string. */
  lemma {:induction false} CrcIsRemainder(crc: bv32, data: seq<bv8>)
    ensures WordBits(CrcWord(crc, data)) == Divide(WordBits(crc), DataBits(data))
    decreases |data|
  {
    if data == [] {
      assert DataBits(data) == [];
    } else {
      var init, last := data[..|data| - 1], data[|data| - 1];
      CrcIsRemainder(crc, init);
      RemainderSnoc(crc, init, last);
      assert data == init + [last];
    }
  }

  /** A message of at least 32 bits with the first 32 inverted. */
  function FirstInverted(m: Bits): (r: Bits)
    ensures |r| == |m|
  {
    seq(|m|, i requires 0 <= i < |m| => if i < 32 then !m[i] else m[i])
  }

  lemma OnesInvert(ones: Bits, m: Bits)
    requires ones == Ones(32) && |m| >= 32
    ensures Xor(ones, m[..32]) + m[32..] == FirstInverted(m)
  {
  }

  /** From a register of all ones, with the first 32 bits inverted it is plain division from an empty register. */
  lemma OnesInvertFirst(reg: Bits, m: Bits)
    requires reg == Ones(32) && |m| >= 32
    ensures Divide(reg, m) == Divide(Zeros(32), FirstInverted(m))
  {
    assert m == m[..32] + m[32..];
    StartIsChangeOfFirst(reg, m[..32], m[32..]);
    OnesInvert(reg, m);
  }

  /** The start value inverts the first four bytes; apart from that the checksum is plain division from an empty register. */
  lemma StartInvertsFirst(data: seq<bv8>)
    requires |data| >= 4
    ensures WordBits(CrcWord(INIT, data)) == Divide(Zeros(32), FirstInverted(DataBits(data)))
  {
    CrcIsRemainder(INIT, data);
    AllOnes(INIT);
    OnesInvertFirst(WordBits(INIT), DataBits(data));
  }

  /** Updating in any pieces is one update over the whole. */
  lemma {:induction false} CrcInPieces(crc: bv32, a: seq<bv8>, b: seq<bv8>)
    ensures CrcWord(crc, a + b) == CrcWord(CrcWord(crc, a), b)
    decreases |b|
  {
    if b == [] {
      assert a + b == a;
    } else {
      assert (a + b)[..|a + b| - 1] == a + b[..|b| - 1];
      CrcInPieces(crc, a, b[..|b| - 1]);
    }
  }

  /** The loop body of CrcUpdate. */
  method UpdateOnce(crc: bv32, b: bv8) returns (r: bv32)
    ensures r == UpdateWord(crc, b)
  {
    var tblIdx := ((crc >> 24) ^ (b as bv32)) & 0xff;
    IndexIsTopByte(crc, b);
    r := (Entry(tblIdx) ^ (crc << 8)) & 0xffffffff;
  }

  method CrcUpdate(crc: bv32, data: seq<bv8>) returns (r: bv32)
    ensures r == CrcWord(crc, data)
  {
    r := crc;
    var d, dataLen := 0, |data|;
    while dataLen != 0
      invariant 0 <= d && 0 <= dataLen && d + dataLen == |data|
      invariant r == CrcWord(crc, data[..d])
    {
      dataLen := dataLen - 1;
      CrcWordSnoc(crc, data[..d], data[d]);
      assert data[..d] + [data[d]] == data[..d + 1];
      r := UpdateOnce(r, data[d]);
      d := d + 1;
    }
    assert data[..d] == data;
  }
}
