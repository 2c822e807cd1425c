/**
 * CRC-32 as used for frame checksums: the reflected polynomial 0xEDB88320
 * (the ISO-HDLC / IEEE 802.3 CRC), register preset to all ones, output
 * inverted, returned both as a number and as four big-endian bytes.
 *
 * JavaScript's `^`, `&`, `>>>` work on the 32-bit two's-complement pattern of
 * their operands, so the register is a `bv32`; a table entry that JavaScript
 * holds as a negative number has the same bit pattern here.
 */
module Crc32 {
  import opened Alphabet

  /** The reflected generator polynomial. */
  const Poly: bv32 := 0xEDB8_8320

  /** One shift of the reflected register: `c & 1 ? 0xEDB88320 ^ (c >>> 1) : c >>> 1`. */
  function Round(c: bv32): bv32
  {
    if c & 1 == 1 then Poly ^ (c >> 1) else c >> 1
  }

  /** k shifts of the register. */
  function Rounds(c: bv32, k: nat): bv32
  {
    if k == 0 then c else Round(Rounds(c, k - 1))
  }

  /** Entry n of the frozen `crcTable`: eight shifts starting from n. */
  function TableEntry(n: Byte): bv32
  {
    Rounds(n as bv32, 8)
  }

  /** The inner loop of the table initializer: eight shifts of c starting from n. */
  method ComputeEntry(n: Byte) returns (c: bv32)
    ensures c == TableEntry(n)
  {
    c := n as bv32;
    for i := 0 to 8
      invariant c == Rounds(n as bv32, i)
    {
      c := Round(c);
    }
  }

  /** The table initializer: entry n for each n in 0..255, in order. */
  method BuildTable() returns (table: seq<bv32>)
    ensures |table| == 256
    ensures forall n: Byte :: table[n] == TableEntry(n)
  {
    table := [];
    for n := 0 to 256
      invariant |table| == n
      invariant forall m: Byte :: m < n ==> table[m] == TableEntry(m)
    {
      var c := ComputeEntry(n);
      table := table + [c];
    }
  }

  /** The low byte of `crc ^ b`: the table index of one step. */
  function Index(reg: bv32, b: Byte): Byte
  {
    ((reg ^ b as bv32) & 0xFF) as int
  }

  /** One table-driven step: `(crc >>> 8) ^ crcTable[(crc ^ b) & 0xFF]`. */
  function Update(reg: bv32, b: Byte): bv32
  {
    (reg >> 8) ^ TableEntry(Index(reg, b))
  }

  /** The register after feeding `bytes` into the all-ones preset (`crc = -1`), one byte at a time. */
  function Register(bytes: seq<Byte>): bv32
  {
    if bytes == [] then 0xFFFF_FFFF
    else Update(Register(bytes[..|bytes| - 1]), bytes[|bytes| - 1])
  }

  /** The checksum `crc32(bytes).crc`: the final register inverted, `(crc ^ -1) >>> 0`. */
  function CrcValue(bytes: seq<Byte>): bv32
  {
    Register(bytes) ^ 0xFFFF_FFFF
  }

  /** The byte `c >> shift & 0xFF`. */
  function ByteAt(c: bv32, shift: nat): Byte
    requires shift < 32
  {
    ((c >> shift) & 0xFF) as int
  }

  /** The four bytes of c, most significant first. */
  function BigEndian4(c: bv32): (r: seq<Byte>)
    ensures |r| == 4
  {
    [ByteAt(c, 24), ByteAt(c, 16), ByteAt(c, 8), ByteAt(c, 0)]
  }

  /** The checksum of no bytes is 0. */
  lemma CrcEmpty()
    ensures CrcValue([]) == 0
    ensures BigEndian4(CrcValue([])) == [0, 0, 0, 0]
  {
  }

  /** Register(a + [b]) is one more step from Register(a). */
  lemma RegisterSnoc(a: seq<Byte>, b: Byte)
    ensures Register(a + [b]) == Update(Register(a), b)
  {
    assert (a + [b])[..|a|] == a;
  }

  /** Register step 1 of the check string: byte 0x31, table index 206. */
  lemma CheckStep1()
    ensures Update(0xFFFF_FFFF, 0x31) == 0x7C23_1048
  {
    assert Index(0xFFFF_FFFF, 0x31) == 206;
    assert Rounds(206, 1) == 0x0000_0067;
    assert Rounds(206, 2) == 0xEDB8_8313;
    assert Rounds(206, 3) == 0x9B64_C2A9;
    assert Rounds(206, 4) == 0xA00A_E274;
    assert Rounds(206, 5) == 0x5005_713A;
    assert Rounds(206, 6) == 0x2802_B89D;
    assert Rounds(206, 7) == 0xF9B9_DF6E;
    assert Rounds(206, 8) == 0x7CDC_EFB7;
  }

  /** Register step 2 of the check string: byte 0x32, table index 122. */
  lemma CheckStep2()
    ensures Update(0x7C23_1048, 0x32) == 0xB0AC_BB32
  {
    assert Index(0x7C23_1048, 0x32) == 122;
    assert Rounds(122, 1) == 0x0000_003D;
    assert Rounds(122, 2) == 0xEDB8_833E;
    assert Rounds(122, 3) == 0x76DC_419F;
    assert Rounds(122, 4) == 0xD6D6_A3EF;
    assert Rounds(122, 5) == 0x86D3_D2D7;
    assert Rounds(122, 6) == 0xAED1_6A4B;
    assert Rounds(122, 7) == 0xBAD0_3605;
    assert Rounds(122, 8) == 0xB0D0_9822;
  }

  /** Register step 3 of the check string: byte 0x33, table index 1. */
  lemma CheckStep3()
    ensures Update(0xB0AC_BB32, 0x33) == 0x77B7_9C2D
  {
    assert Index(0xB0AC_BB32, 0x33) == 1;
    assert Rounds(1, 1) == 0xEDB8_8320;
    assert Rounds(1, 2) == 0x76DC_4190;
    assert Rounds(1, 3) == 0x3B6E_20C8;
    assert Rounds(1, 4) == 0x1DB7_1064;
    assert Rounds(1, 5) == 0x0EDB_8832;
    assert Rounds(1, 6) == 0x076D_C419;
    assert Rounds(1, 7) == 0xEE0E_612C;
    assert Rounds(1, 8) == 0x7707_3096;
  }

  /** Register step 4 of the check string: byte 0x34, table index 25. */
  lemma CheckStep4()
    ensures Update(0x77B7_9C2D, 0x34) == 0x641C_1F5C
  {
    assert Index(0x77B7_9C2D, 0x34) == 25;
    assert Rounds(25, 1) == 0xEDB8_832C;
    assert Rounds(25, 2) == 0x76DC_4196;
    assert Rounds(25, 3) == 0x3B6E_20CB;
    assert Rounds(25, 4) == 0xF00F_9345;
    assert Rounds(25, 5) == 0x95BF_4A82;
    assert Rounds(25, 6) == 0x4ADF_A541;
    assert Rounds(25, 7) == 0xC8D7_5180;
    assert Rounds(25, 8) == 0x646B_A8C0;
  }

  /** Register step 5 of the check string: byte 0x35, table index 105. */
  lemma CheckStep5()
    ensures Update(0x641C_1F5C, 0x35) == 0x340A_C5E3
  {
    assert Index(0x641C_1F5C, 0x35) == 105;
    assert Rounds(105, 1) == 0xEDB8_8314;
    assert Rounds(105, 2) == 0x76DC_418A;
    assert Rounds(105, 3) == 0x3B6E_20C5;
    assert Rounds(105, 4) == 0xF00F_9342;
    assert Rounds(105, 5) == 0x7807_C9A1;
    assert Rounds(105, 6) == 0xD1BB_67F0;
    assert Rounds(105, 7) == 0x68DD_B3F8;
    assert Rounds(105, 8) == 0x346E_D9FC;
  }

  /** Register step 6 of the check string: byte 0x36, table index 213. */
  lemma CheckStep6()
    ensures Update(0x340A_C5E3, 0x36) == 0xF68D_2C9E
  {
    assert Index(0x340A_C5E3, 0x36) == 213;
    assert Rounds(213, 1) == 0xEDB8_834A;
    assert Rounds(213, 2) == 0x76DC_41A5;
    assert Rounds(213, 3) == 0xD6D6_A3F2;
    assert Rounds(213, 4) == 0x6B6B_51F9;
    assert Rounds(213, 5) == 0xD80D_2BDC;
    assert Rounds(213, 6) == 0x6C06_95EE;
    assert Rounds(213, 7) == 0x3603_4AF7;
    assert Rounds(213, 8) == 0xF6B9_265B;
  }

  /** Register step 7 of the check string: byte 0x37, table index 169. */
  lemma CheckStep7()
    ensures Update(0xF68D_2C9E, 0x37) == 0xAFFC_9660
  {
    assert Index(0xF68D_2C9E, 0x37) == 169;
    assert Rounds(169, 1) == 0xEDB8_8374;
    assert Rounds(169, 2) == 0x76DC_41BA;
    assert Rounds(169, 3) == 0x3B6E_20DD;
    assert Rounds(169, 4) == 0xF00F_934E;
    assert Rounds(169, 5) == 0x7807_C9A7;
    assert Rounds(169, 6) == 0xD1BB_67F3;
    assert Rounds(169, 7) == 0x8565_30D9;
    assert Rounds(169, 8) == 0xAF0A_1B4C;
  }

  /** Register step 8 of the check string: byte 0x38, table index 88. */
  lemma CheckStep8()
    ensures Update(0xAFFC_9660, 0x38) == 0x651F_2550
  {
    assert Index(0xAFFC_9660, 0x38) == 88;
    assert Rounds(88, 1) == 0x0000_002C;
    assert Rounds(88, 2) == 0x0000_0016;
    assert Rounds(88, 3) == 0x0000_000B;
    assert Rounds(88, 4) == 0xEDB8_8325;
    assert Rounds(88, 5) == 0x9B64_C2B2;
    assert Rounds(88, 6) == 0x4DB2_6159;
    assert Rounds(88, 7) == 0xCB61_B38C;
    assert Rounds(88, 8) == 0x65B0_D9C6;
  }

  /** Register step 9 of the check string: byte 0x39, table index 105. */
  lemma CheckStep9()
    ensures Update(0x651F_2550, 0x39) == 0x340B_C6D9
  {
    assert Index(0x651F_2550, 0x39) == 105;
    assert Rounds(105, 1) == 0xEDB8_8314;
    assert Rounds(105, 2) == 0x76DC_418A;
    assert Rounds(105, 3) == 0x3B6E_20C5;
    assert Rounds(105, 4) == 0xF00F_9342;
    assert Rounds(105, 5) == 0x7807_C9A1;
    assert Rounds(105, 6) == 0xD1BB_67F0;
    assert Rounds(105, 7) == 0x68DD_B3F8;
    assert Rounds(105, 8) == 0x346E_D9FC;
  }

  /** The register after the first digit of the check string. */
  lemma CheckPrefix1()
    ensures Register([0x31]) == 0x7C23_1048
  {
    CheckStep1();
    RegisterSnoc([], 0x31);
    assert [] + [0x31] == [0x31];
  }

  /** The register after the first 2 digits of the check string. */
  lemma CheckPrefix2()
    ensures Register([0x31, 0x32]) == 0xB0AC_BB32
  {
    CheckPrefix1();
    CheckStep2();
    RegisterSnoc([0x31], 0x32);
    assert [0x31] + [0x32] == [0x31, 0x32];
  }

  /** The register after the first 3 digits of the check string. */
  lemma CheckPrefix3()
    ensures Register([0x31, 0x32, 0x33]) == 0x77B7_9C2D
  {
    CheckPrefix2();
    CheckStep3();
    RegisterSnoc([0x31, 0x32], 0x33);
    assert [0x31, 0x32] + [0x33] == [0x31, 0x32, 0x33];
  }

  /** The register after the first 4 digits of the check string. */
  lemma CheckPrefix4()
    ensures Register([0x31, 0x32, 0x33, 0x34]) == 0x641C_1F5C
  {
    CheckPrefix3();
    CheckStep4();
    RegisterSnoc([0x31, 0x32, 0x33], 0x34);
    assert [0x31, 0x32, 0x33] + [0x34] == [0x31, 0x32, 0x33, 0x34];
  }

  /** The register after the first 5 digits of the check string. */
  lemma CheckPrefix5()
    ensures Register([0x31, 0x32, 0x33, 0x34, 0x35]) == 0x340A_C5E3
  {
    CheckPrefix4();
    CheckStep5();
    RegisterSnoc([0x31, 0x32, 0x33, 0x34], 0x35);
    assert [0x31, 0x32, 0x33, 0x34] + [0x35] == [0x31, 0x32, 0x33, 0x34, 0x35];
  }

  /** The register after the first 6 digits of the check string. */
  lemma CheckPrefix6()
    ensures Register([0x31, 0x32, 0x33, 0x34, 0x35, 0x36]) == 0xF68D_2C9E
  {
    CheckPrefix5();
    CheckStep6();
    RegisterSnoc([0x31, 0x32, 0x33, 0x34, 0x35], 0x36);
    assert [0x31, 0x32, 0x33, 0x34, 0x35] + [0x36] == [0x31, 0x32, 0x33, 0x34, 0x35, 0x36];
  }

  /** The register after the first 7 digits of the check string. */
  lemma CheckPrefix7()
    ensures Register([0x31, 0x32, 0x33, 0x34, 0x35, 0x36, 0x37]) == 0xAFFC_9660
  {
    CheckPrefix6();
    CheckStep7();
    RegisterSnoc([0x31, 0x32, 0x33, 0x34, 0x35, 0x36], 0x37);
    assert [0x31, 0x32, 0x33, 0x34, 0x35, 0x36] + [0x37] == [0x31, 0x32, 0x33, 0x34, 0x35, 0x36, 0x37];
  }

  /** The register after the first 8 digits of the check string. */
  lemma CheckPrefix8()
    ensures Register([0x31, 0x32, 0x33, 0x34, 0x35, 0x36, 0x37, 0x38]) == 0x651F_2550
  {
    CheckPrefix7();
    CheckStep8();
    RegisterSnoc([0x31, 0x32, 0x33, 0x34, 0x35, 0x36, 0x37], 0x38);
    assert [0x31, 0x32, 0x33, 0x34, 0x35, 0x36, 0x37] + [0x38] == [0x31, 0x32, 0x33, 0x34, 0x35, 0x36, 0x37, 0x38];
  }

  /** The register after the first 9 digits of the check string. */
  lemma CheckPrefix9()
    ensures Register([0x31, 0x32, 0x33, 0x34, 0x35, 0x36, 0x37, 0x38, 0x39]) == 0x340B_C6D9
  {
    CheckPrefix8();
    CheckStep9();
    RegisterSnoc([0x31, 0x32, 0x33, 0x34, 0x35, 0x36, 0x37, 0x38], 0x39);
    assert [0x31, 0x32, 0x33, 0x34, 0x35, 0x36, 0x37, 0x38] + [0x39] == [0x31, 0x32, 0x33, 0x34, 0x35, 0x36, 0x37, 0x38, 0x39];
  }

  /**
   * The standard check value of this CRC: the checksum of the ASCII digits
   * "123456789" is 0xCBF43926.
   */
  lemma CheckValue()
    ensures CrcValue([0x31, 0x32, 0x33, 0x34, 0x35, 0x36, 0x37, 0x38, 0x39]) == 0xCBF4_3926
    ensures BigEndian4(CrcValue([0x31, 0x32, 0x33, 0x34, 0x35, 0x36, 0x37, 0x38, 0x39])) == [0xCB, 0xF4, 0x39, 0x26]
  {
    CheckPrefix9();
    CheckBytes();
  }

  /** The output bytes of the check value. */
  lemma CheckBytes()
    ensures BigEndian4(0xCBF4_3926) == [0xCB, 0xF4, 0x39, 0x26]
  {
    assert ByteAt(0xCBF4_3926, 24) == 0xCB;
    assert ByteAt(0xCBF4_3926, 16) == 0xF4;
    assert ByteAt(0xCBF4_3926, 8) == 0x39;
    assert ByteAt(0xCBF4_3926, 0) == 0x26;
  }

  lemma TableStep(table: seq<bv32>, reg: bv32, b: Byte)
    requires |table| == 256
    requires forall n: Byte :: table[n] == TableEntry(n)
    ensures (reg >> 8) ^ table[Index(reg, b)] == Update(reg, b)
  {
  }

  /** The register loop of `crc32`: one table step per byte, in order. */
  method RunRegister(table: seq<bv32>, bytes: seq<Byte>) returns (reg: bv32)
    requires |table| == 256
    requires forall n: Byte :: table[n] == TableEntry(n)
    ensures reg == Register(bytes)
  {
    reg := 0xFFFF_FFFF;
    for i := 0 to |bytes|
      invariant reg == Register(bytes[..i])
    {
      assert bytes[..i + 1][..i] == bytes[..i];
      TableStep(table, reg, bytes[i]);
      reg := (reg >> 8) ^ table[Index(reg, bytes[i])];
    }
    assert bytes[..|bytes|] == bytes;
  }

  /** The output loop of `crc32`: `crc >> i & 0xFF` for i = 24, 16, 8, 0. */
  method OutputBytes(c: bv32) returns (out: seq<Byte>)
    ensures out == BigEndian4(c)
  {
    out := [];
    var shift := 24;
    while shift >= 0
      invariant shift == 24 - 8 * |out| && |out| <= 4
      invariant forall k :: 0 <= k < |out| ==> out[k] == ByteAt(c, 24 - 8 * k)
    {
      out := out + [ByteAt(c, shift)];
      shift := shift - 8;
    }
    assert out[0] == ByteAt(c, 24) && out[1] == ByteAt(c, 16);
    assert out[2] == ByteAt(c, 8) && out[3] == ByteAt(c, 0);
  }

  /**
   * `crc32(bytes)`: the register loop with the frozen table, the final
   * inversion, then the four output bytes.
   */
  method Crc32(table: seq<bv32>, bytes: seq<Byte>) returns (crc: nat, out: seq<Byte>)
    requires |table| == 256
    requires forall n: Byte :: table[n] == TableEntry(n)
    ensures crc == CrcValue(bytes) as nat && crc < 0x1_0000_0000
    ensures out == BigEndian4(CrcValue(bytes))
  {
    var reg := RunRegister(table, bytes);
    var c := reg ^ 0xFFFF_FFFF;
    crc := c as nat;
    out := OutputBytes(c);
  }
}
