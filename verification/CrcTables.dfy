/** The two 256-entry CRC tables, and that each is eight clocks of its shift
    register. A table is a row of sixteen entries for each high nibble. */
module CrcTables {
  import opened ShiftRegister
  import opened ByteBits

  function Pick(n: Byte, v0: Byte, v1: Byte, v2: Byte, v3: Byte, v4: Byte, v5: Byte, v6: Byte, v7: Byte,
                v8: Byte, v9: Byte, v10: Byte, v11: Byte, v12: Byte, v13: Byte, v14: Byte, v15: Byte): Byte
  {
    match n
    case 0 => v0 case 1 => v1 case 2 => v2 case 3 => v3 case 4 => v4 case 5 => v5 case 6 => v6 case 7 => v7
    case 8 => v8 case 9 => v9 case 10 => v10 case 11 => v11 case 12 => v12 case 13 => v13 case 14 => v14 case _ => v15
  }

  /** The register is linear: clocking a sum is summing the clocked parts. */
  lemma ClockMix(poly: Word, a: Word, b: Word)
    ensures Clock(poly, Mix(a, b)) == Mix(Clock(poly, a), Clock(poly, b))
  {
    hide Mix, Half, Low;
    HalfMix(a, b);
    MixLaws(Half(a), Half(b), poly);
  }

  lemma MixIsAssociative(a: Word, b: Word, c: Word)
    ensures Mix(Mix(a, b), c) == Mix(a, Mix(b, c))
  {
  }

  lemma MixBasics(a: Word, b: Word)
    ensures Mix(a, b) == Mix(b, a) && Mix(a, a) == 0 && Mix(a, 0) == a && Mix(0, a) == a
  {
  }

  lemma MixLaws(x: Word, y: Word, p: Word)
    ensures Mix(Mix(x, p), Mix(y, p)) == Mix(x, y)
    ensures Mix(Mix(x, y), p) == Mix(Mix(x, p), y) == Mix(x, Mix(y, p))
  {
    hide Mix;
    MixIsAssociative(x, y, p);
    MixIsAssociative(x, p, y);
    MixBasics(y, p);
    MixIsAssociative(x, p, Mix(y, p));
    MixIsAssociative(p, p, y);
    MixBasics(p, 0);
    MixBasics(y, 0);
  }

  /** The terms whose flag is set, added up. */
  function Sum(s0: bool, b0: Word, s1: bool, b1: Word, s2: bool, b2: Word, s3: bool, b3: Word): Word {
    Mix(Mix(Term(s0, b0), Term(s1, b1)), Mix(Term(s2, b2), Term(s3, b3)))
  }

  function Term(s: bool, b: Word): Word {
    if s then b else 0
  }

  lemma {:induction false} ClockByMix(poly: Word, k: nat, a: Word, b: Word)
    ensures ClockBy(poly, k, Mix(a, b)) == Mix(ClockBy(poly, k, a), ClockBy(poly, k, b))
    decreases k
  {
    hide Clock, Mix;
    if k > 0 {
      ClockMix(poly, a, b);
      ClockByMix(poly, k - 1, Clock(poly, a), Clock(poly, b));
    }
  }

  lemma {:induction false} ClockByZero(poly: Word, k: nat)
    ensures ClockBy(poly, k, 0) == 0
    decreases k
  {
    if k > 0 {
      ClockByZero(poly, k - 1);
    }
  }

  lemma EightClocks(poly: Word, s: Word)
    ensures ClockBy(poly, 8, s) ==
      Clock(poly, Clock(poly, Clock(poly, Clock(poly, Clock(poly, Clock(poly, Clock(poly, Clock(poly, s))))))))
  {
    hide Clock;
    var t := Clock(poly, Clock(poly, Clock(poly, Clock(poly, s))));
    assert ClockBy(poly, 8, s) == ClockBy(poly, 6, Clock(poly, Clock(poly, s)));
    assert ClockBy(poly, 6, Clock(poly, Clock(poly, s))) == ClockBy(poly, 4, t);
    assert ClockBy(poly, 4, t) == ClockBy(poly, 2, Clock(poly, Clock(poly, t)));
  }

  lemma ClockBySum(poly: Word, s0: bool, b0: Word, s1: bool, b1: Word, s2: bool, b2: Word, s3: bool, b3: Word)
    ensures ClockBy(poly, 8, Sum(s0, b0, s1, b1, s2, b2, s3, b3))
            == Sum(s0, ClockBy(poly, 8, b0), s1, ClockBy(poly, 8, b1), s2, ClockBy(poly, 8, b2), s3, ClockBy(poly, 8, b3))
  {
    hide ClockBy, Mix;
    ClockByZero(poly, 8);
    ClockByMix(poly, 8, Term(s0, b0), Term(s1, b1));
    ClockByMix(poly, 8, Term(s2, b2), Term(s3, b3));
    ClockByMix(poly, 8, Mix(Term(s0, b0), Term(s1, b1)), Mix(Term(s2, b2), Term(s3, b3)));
  }

  /** A value that agrees with the register on both nibbles of an index agrees
      with it on the index. */
  lemma JoinNibbles(poly: Word, i: Byte, high: Byte, low: Byte, highEntry: Byte, lowEntry: Byte)
    requires i == high ^ low
    requires Widen(highEntry) == ClockBy(poly, 8, Widen(high)) && Widen(lowEntry) == ClockBy(poly, 8, Widen(low))
    ensures Widen(highEntry ^ lowEntry) == ClockBy(poly, 8, Widen(i))
  {
    hide Mix, ClockBy, Widen;
    WidenMix(high, low);
    WidenMix(highEntry, lowEntry);
    ClockByMix(poly, 8, Widen(high), Widen(low));
  }

  lemma Nibbles(i: Byte)
    ensures i == (i & 0xF0) ^ (i & 0x0F)
    ensures (i & 0x0F) & 0xF0 == 0 && (i & 0xF0) & 0x0F == 0
  {
  }

  // ----- dscrc_table: polynomial x^8 + x^5 + x^4 + 1, reflected

  const DALLAS_POLY: Word := 0x8C

  function DallasTable(i: Byte): Byte {
    match i >> 4
    case 0 => Pick(i & 0x0F, 0, 94, 188, 226, 97, 63, 221, 131,
      194, 156, 126, 32, 163, 253, 31, 65)
    case 1 => Pick(i & 0x0F, 157, 195, 33, 127, 252, 162, 64, 30,
      95, 1, 227, 189, 62, 96, 130, 220)
    case 2 => Pick(i & 0x0F, 35, 125, 159, 193, 66, 28, 254, 160,
      225, 191, 93, 3, 128, 222, 60, 98)
    case 3 => Pick(i & 0x0F, 190, 224, 2, 92, 223, 129, 99, 61,
      124, 34, 192, 158, 29, 67, 161, 255)
    case 4 => Pick(i & 0x0F, 70, 24, 250, 164, 39, 121, 155, 197,
      132, 218, 56, 102, 229, 187, 89, 7)
    case 5 => Pick(i & 0x0F, 219, 133, 103, 57, 186, 228, 6, 88,
      25, 71, 165, 251, 120, 38, 196, 154)
    case 6 => Pick(i & 0x0F, 101, 59, 217, 135, 4, 90, 184, 230,
      167, 249, 27, 69, 198, 152, 122, 36)
    case 7 => Pick(i & 0x0F, 248, 166, 68, 26, 153, 199, 37, 123,
      58, 100, 134, 216, 91, 5, 231, 185)
    case 8 => Pick(i & 0x0F, 140, 210, 48, 110, 237, 179, 81, 15,
      78, 16, 242, 172, 47, 113, 147, 205)
    case 9 => Pick(i & 0x0F, 17, 79, 173, 243, 112, 46, 204, 146,
      211, 141, 111, 49, 178, 236, 14, 80)
    case 10 => Pick(i & 0x0F, 175, 241, 19, 77, 206, 144, 114, 44,
      109, 51, 209, 143, 12, 82, 176, 238)
    case 11 => Pick(i & 0x0F, 50, 108, 142, 208, 83, 13, 239, 177,
      240, 174, 76, 18, 145, 207, 45, 115)
    case 12 => Pick(i & 0x0F, 202, 148, 118, 40, 171, 245, 23, 73,
      8, 86, 180, 234, 105, 55, 213, 139)
    case 13 => Pick(i & 0x0F, 87, 9, 235, 181, 54, 104, 138, 212,
      149, 203, 41, 119, 244, 170, 72, 22)
    case 14 => Pick(i & 0x0F, 233, 183, 85, 11, 136, 214, 52, 106,
      43, 117, 151, 201, 74, 20, 246, 168)
    case _ => Pick(i & 0x0F, 116, 42, 200, 150, 21, 75, 169, 247,
      182, 232, 10, 84, 215, 137, 107, 53)
  }

  lemma DallasClocks()
    ensures Clock(DALLAS_POLY, 0x80) == 0x40
    ensures Clock(DALLAS_POLY, 0x40) == 0x20
    ensures Clock(DALLAS_POLY, 0x20) == 0x10
    ensures Clock(DALLAS_POLY, 0x10) == 0x08
    ensures Clock(DALLAS_POLY, 0x08) == 0x04
    ensures Clock(DALLAS_POLY, 0x04) == 0x02
    ensures Clock(DALLAS_POLY, 0x02) == 0x01
    ensures Clock(DALLAS_POLY, 0x01) == 0x8C
    ensures Clock(DALLAS_POLY, 0x8C) == 0x46
    ensures Clock(DALLAS_POLY, 0x46) == 0x23
    ensures Clock(DALLAS_POLY, 0x23) == 0x9D
    ensures Clock(DALLAS_POLY, 0x9D) == 0xC2
    ensures Clock(DALLAS_POLY, 0xC2) == 0x61
    ensures Clock(DALLAS_POLY, 0x61) == 0xBC
    ensures Clock(DALLAS_POLY, 0xBC) == 0x5E
  {
  }

  lemma DallasColumnOfBit()
    ensures ClockBy(DALLAS_POLY, 8, 0x01) == 0x5E
    ensures ClockBy(DALLAS_POLY, 8, 0x02) == 0xBC
    ensures ClockBy(DALLAS_POLY, 8, 0x04) == 0x61
    ensures ClockBy(DALLAS_POLY, 8, 0x08) == 0xC2
    ensures ClockBy(DALLAS_POLY, 8, 0x10) == 0x9D
    ensures ClockBy(DALLAS_POLY, 8, 0x20) == 0x23
    ensures ClockBy(DALLAS_POLY, 8, 0x40) == 0x46
    ensures ClockBy(DALLAS_POLY, 8, 0x80) == 0x8C
  {
    hide Clock;
    DallasClocks();
    EightClocks(DALLAS_POLY, 0x01);
    EightClocks(DALLAS_POLY, 0x02);
    EightClocks(DALLAS_POLY, 0x04);
    EightClocks(DALLAS_POLY, 0x08);
    EightClocks(DALLAS_POLY, 0x10);
    EightClocks(DALLAS_POLY, 0x20);
    EightClocks(DALLAS_POLY, 0x40);
    EightClocks(DALLAS_POLY, 0x80);
  }

  lemma DallasLowRow(n: Byte)
    requires n & 0xF0 == 0
    ensures Widen(DallasTable(n)) == Sum(n & 1 != 0, 0x5E, n & 2 != 0, 0xBC, n & 4 != 0, 0x61, n & 8 != 0, 0xC2)
    ensures Widen(n) == Sum(n & 1 != 0, 0x01, n & 2 != 0, 0x02, n & 4 != 0, 0x04, n & 8 != 0, 0x08)
  {
  }

  lemma DallasFirstColumn(n: Byte)
    requires n & 0x0F == 0
    ensures Widen(DallasTable(n)) == Sum(n & 0x10 != 0, 0x9D, n & 0x20 != 0, 0x23, n & 0x40 != 0, 0x46, n & 0x80 != 0, 0x8C)
    ensures Widen(n) == Sum(n & 0x10 != 0, 0x10, n & 0x20 != 0, 0x20, n & 0x40 != 0, 0x40, n & 0x80 != 0, 0x80)
  {
  }

  lemma DallasRowsAreShifted(i: Byte)
    ensures DallasTable(i) == DallasTable(i & 0xF0) ^ DallasTable(i & 0x0F)
  {
  }

  lemma DallasLowEntries(n: Byte)
    requires n & 0xF0 == 0
    ensures Widen(DallasTable(n)) == ClockBy(DALLAS_POLY, 8, Widen(n))
  {
    hide DallasTable, ClockBy, Sum;
    DallasLowRow(n);
    ClockBySum(DALLAS_POLY, n & 1 != 0, 0x01, n & 2 != 0, 0x02, n & 4 != 0, 0x04, n & 8 != 0, 0x08);
    DallasColumnOfBit();
  }

  lemma DallasHighEntries(n: Byte)
    requires n & 0x0F == 0
    ensures Widen(DallasTable(n)) == ClockBy(DALLAS_POLY, 8, Widen(n))
  {
    hide DallasTable, ClockBy, Sum;
    DallasFirstColumn(n);
    ClockBySum(DALLAS_POLY, n & 0x10 != 0, 0x10, n & 0x20 != 0, 0x20, n & 0x40 != 0, 0x40, n & 0x80 != 0, 0x80);
    DallasColumnOfBit();
  }

  /** Every entry of the table is eight clocks of the register holding its index. */
  lemma DallasTableIsClocks(i: Byte)
    ensures Widen(DallasTable(i)) == ClockBy(DALLAS_POLY, 8, Widen(i))
  {
    hide DallasTable, ClockBy, Widen;
    Nibbles(i);
    DallasLowEntries(i & 0x0F);
    DallasHighEntries(i & 0xF0);
    DallasRowsAreShifted(i);
    JoinNibbles(DALLAS_POLY, i, i & 0xF0, i & 0x0F, DallasTable(i & 0xF0), DallasTable(i & 0x0F));
  }

  // ----- rfcomm_crc_table: polynomial x^8 + x^2 + x + 1, reflected

  const RFCOMM_POLY: Word := 0xE0

  function RfcommTable(i: Byte): Byte {
    match i >> 4
    case 0 => Pick(i & 0x0F, 0x00, 0x91, 0xE3, 0x72, 0x07, 0x96, 0xE4, 0x75,
      0x0E, 0x9F, 0xED, 0x7C, 0x09, 0x98, 0xEA, 0x7B)
    case 1 => Pick(i & 0x0F, 0x1C, 0x8D, 0xFF, 0x6E, 0x1B, 0x8A, 0xF8, 0x69,
      0x12, 0x83, 0xF1, 0x60, 0x15, 0x84, 0xF6, 0x67)
    case 2 => Pick(i & 0x0F, 0x38, 0xA9, 0xDB, 0x4A, 0x3F, 0xAE, 0xDC, 0x4D,
      0x36, 0xA7, 0xD5, 0x44, 0x31, 0xA0, 0xD2, 0x43)
    case 3 => Pick(i & 0x0F, 0x24, 0xB5, 0xC7, 0x56, 0x23, 0xB2, 0xC0, 0x51,
      0x2A, 0xBB, 0xC9, 0x58, 0x2D, 0xBC, 0xCE, 0x5F)
    case 4 => Pick(i & 0x0F, 0x70, 0xE1, 0x93, 0x02, 0x77, 0xE6, 0x94, 0x05,
      0x7E, 0xEF, 0x9D, 0x0C, 0x79, 0xE8, 0x9A, 0x0B)
    case 5 => Pick(i & 0x0F, 0x6C, 0xFD, 0x8F, 0x1E, 0x6B, 0xFA, 0x88, 0x19,
      0x62, 0xF3, 0x81, 0x10, 0x65, 0xF4, 0x86, 0x17)
    case 6 => Pick(i & 0x0F, 0x48, 0xD9, 0xAB, 0x3A, 0x4F, 0xDE, 0xAC, 0x3D,
      0x46, 0xD7, 0xA5, 0x34, 0x41, 0xD0, 0xA2, 0x33)
    case 7 => Pick(i & 0x0F, 0x54, 0xC5, 0xB7, 0x26, 0x53, 0xC2, 0xB0, 0x21,
      0x5A, 0xCB, 0xB9, 0x28, 0x5D, 0xCC, 0xBE, 0x2F)
    case 8 => Pick(i & 0x0F, 0xE0, 0x71, 0x03, 0x92, 0xE7, 0x76, 0x04, 0x95,
      0xEE, 0x7F, 0x0D, 0x9C, 0xE9, 0x78, 0x0A, 0x9B)
    case 9 => Pick(i & 0x0F, 0xFC, 0x6D, 0x1F, 0x8E, 0xFB, 0x6A, 0x18, 0x89,
      0xF2, 0x63, 0x11, 0x80, 0xF5, 0x64, 0x16, 0x87)
    case 10 => Pick(i & 0x0F, 0xD8, 0x49, 0x3B, 0xAA, 0xDF, 0x4E, 0x3C, 0xAD,
      0xD6, 0x47, 0x35, 0xA4, 0xD1, 0x40, 0x32, 0xA3)
    case 11 => Pick(i & 0x0F, 0xC4, 0x55, 0x27, 0xB6, 0xC3, 0x52, 0x20, 0xB1,
      0xCA, 0x5B, 0x29, 0xB8, 0xCD, 0x5C, 0x2E, 0xBF)
    case 12 => Pick(i & 0x0F, 0x90, 0x01, 0x73, 0xE2, 0x97, 0x06, 0x74, 0xE5,
      0x9E, 0x0F, 0x7D, 0xEC, 0x99, 0x08, 0x7A, 0xEB)
    case 13 => Pick(i & 0x0F, 0x8C, 0x1D, 0x6F, 0xFE, 0x8B, 0x1A, 0x68, 0xF9,
      0x82, 0x13, 0x61, 0xF0, 0x85, 0x14, 0x66, 0xF7)
    case 14 => Pick(i & 0x0F, 0xA8, 0x39, 0x4B, 0xDA, 0xAF, 0x3E, 0x4C, 0xDD,
      0xA6, 0x37, 0x45, 0xD4, 0xA1, 0x30, 0x42, 0xD3)
    case _ => Pick(i & 0x0F, 0xB4, 0x25, 0x57, 0xC6, 0xB3, 0x22, 0x50, 0xC1,
      0xBA, 0x2B, 0x59, 0xC8, 0xBD, 0x2C, 0x5E, 0xCF)
  }

  lemma RfcommClocks()
    ensures Clock(RFCOMM_POLY, 0x80) == 0x40
    ensures Clock(RFCOMM_POLY, 0x40) == 0x20
    ensures Clock(RFCOMM_POLY, 0x20) == 0x10
    ensures Clock(RFCOMM_POLY, 0x10) == 0x08
    ensures Clock(RFCOMM_POLY, 0x08) == 0x04
    ensures Clock(RFCOMM_POLY, 0x04) == 0x02
    ensures Clock(RFCOMM_POLY, 0x02) == 0x01
    ensures Clock(RFCOMM_POLY, 0x01) == 0xE0
    ensures Clock(RFCOMM_POLY, 0xE0) == 0x70
    ensures Clock(RFCOMM_POLY, 0x70) == 0x38
    ensures Clock(RFCOMM_POLY, 0x38) == 0x1C
    ensures Clock(RFCOMM_POLY, 0x1C) == 0x0E
    ensures Clock(RFCOMM_POLY, 0x0E) == 0x07
    ensures Clock(RFCOMM_POLY, 0x07) == 0xE3
    ensures Clock(RFCOMM_POLY, 0xE3) == 0x91
  {
  }

  lemma RfcommColumnOfBit()
    ensures ClockBy(RFCOMM_POLY, 8, 0x01) == 0x91
    ensures ClockBy(RFCOMM_POLY, 8, 0x02) == 0xE3
    ensures ClockBy(RFCOMM_POLY, 8, 0x04) == 0x07
    ensures ClockBy(RFCOMM_POLY, 8, 0x08) == 0x0E
    ensures ClockBy(RFCOMM_POLY, 8, 0x10) == 0x1C
    ensures ClockBy(RFCOMM_POLY, 8, 0x20) == 0x38
    ensures ClockBy(RFCOMM_POLY, 8, 0x40) == 0x70
    ensures ClockBy(RFCOMM_POLY, 8, 0x80) == 0xE0
  {
    hide Clock;
    RfcommClocks();
    EightClocks(RFCOMM_POLY, 0x01);
    EightClocks(RFCOMM_POLY, 0x02);
    EightClocks(RFCOMM_POLY, 0x04);
    EightClocks(RFCOMM_POLY, 0x08);
    EightClocks(RFCOMM_POLY, 0x10);
    EightClocks(RFCOMM_POLY, 0x20);
    EightClocks(RFCOMM_POLY, 0x40);
    EightClocks(RFCOMM_POLY, 0x80);
  }

  lemma RfcommLowRow(n: Byte)
    requires n & 0xF0 == 0
    ensures Widen(RfcommTable(n)) == Sum(n & 1 != 0, 0x91, n & 2 != 0, 0xE3, n & 4 != 0, 0x07, n & 8 != 0, 0x0E)
    ensures Widen(n) == Sum(n & 1 != 0, 0x01, n & 2 != 0, 0x02, n & 4 != 0, 0x04, n & 8 != 0, 0x08)
  {
  }

  lemma RfcommFirstColumn(n: Byte)
    requires n & 0x0F == 0
    ensures Widen(RfcommTable(n)) == Sum(n & 0x10 != 0, 0x1C, n & 0x20 != 0, 0x38, n & 0x40 != 0, 0x70, n & 0x80 != 0, 0xE0)
    ensures Widen(n) == Sum(n & 0x10 != 0, 0x10, n & 0x20 != 0, 0x20, n & 0x40 != 0, 0x40, n & 0x80 != 0, 0x80)
  {
  }

  lemma RfcommRowsAreShifted(i: Byte)
    ensures RfcommTable(i) == RfcommTable(i & 0xF0) ^ RfcommTable(i & 0x0F)
  {
  }

  lemma RfcommLowEntries(n: Byte)
    requires n & 0xF0 == 0
    ensures Widen(RfcommTable(n)) == ClockBy(RFCOMM_POLY, 8, Widen(n))
  {
    hide RfcommTable, ClockBy, Sum;
    RfcommLowRow(n);
    ClockBySum(RFCOMM_POLY, n & 1 != 0, 0x01, n & 2 != 0, 0x02, n & 4 != 0, 0x04, n & 8 != 0, 0x08);
    RfcommColumnOfBit();
  }

  lemma RfcommHighEntries(n: Byte)
    requires n & 0x0F == 0
    ensures Widen(RfcommTable(n)) == ClockBy(RFCOMM_POLY, 8, Widen(n))
  {
    hide RfcommTable, ClockBy, Sum;
    RfcommFirstColumn(n);
    ClockBySum(RFCOMM_POLY, n & 0x10 != 0, 0x10, n & 0x20 != 0, 0x20, n & 0x40 != 0, 0x40, n & 0x80 != 0, 0x80);
    RfcommColumnOfBit();
  }

  /** Every entry of the table is eight clocks of the register holding its index. */
  lemma RfcommTableIsClocks(i: Byte)
    ensures Widen(RfcommTable(i)) == ClockBy(RFCOMM_POLY, 8, Widen(i))
  {
    hide RfcommTable, ClockBy, Widen;
    Nibbles(i);
    RfcommLowEntries(i & 0x0F);
    RfcommHighEntries(i & 0xF0);
    RfcommRowsAreShifted(i);
    JoinNibbles(RFCOMM_POLY, i, i & 0xF0, i & 0x0F, RfcommTable(i & 0xF0), RfcommTable(i & 0x0F));
  }
}
