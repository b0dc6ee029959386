/** The table-driven form of the CRC in lib/AVR_aht20/src/aht20.c, equal to the bitwise one. */
module Crc8Table {
  import opened Crc8

  // crc_lookup, sixteen entries to a line as in the source
  const ROW_0: seq<bv8> := [0x00, 0x31, 0x62, 0x53, 0xC4, 0xF5, 0xA6, 0x97, 0xB9, 0x88, 0xDB, 0xEA, 0x7D, 0x4C, 0x1F, 0x2E]
  const ROW_1: seq<bv8> := [0x43, 0x72, 0x21, 0x10, 0x87, 0xB6, 0xE5, 0xD4, 0xFA, 0xCB, 0x98, 0xA9, 0x3E, 0x0F, 0x5C, 0x6D]
  const ROW_2: seq<bv8> := [0x86, 0xB7, 0xE4, 0xD5, 0x42, 0x73, 0x20, 0x11, 0x3F, 0x0E, 0x5D, 0x6C, 0xFB, 0xCA, 0x99, 0xA8]
  const ROW_3: seq<bv8> := [0xC5, 0xF4, 0xA7, 0x96, 0x01, 0x30, 0x63, 0x52, 0x7C, 0x4D, 0x1E, 0x2F, 0xB8, 0x89, 0xDA, 0xEB]
  const ROW_4: seq<bv8> := [0x3D, 0x0C, 0x5F, 0x6E, 0xF9, 0xC8, 0x9B, 0xAA, 0x84, 0xB5, 0xE6, 0xD7, 0x40, 0x71, 0x22, 0x13]
  const ROW_5: seq<bv8> := [0x7E, 0x4F, 0x1C, 0x2D, 0xBA, 0x8B, 0xD8, 0xE9, 0xC7, 0xF6, 0xA5, 0x94, 0x03, 0x32, 0x61, 0x50]
  const ROW_6: seq<bv8> := [0xBB, 0x8A, 0xD9, 0xE8, 0x7F, 0x4E, 0x1D, 0x2C, 0x02, 0x33, 0x60, 0x51, 0xC6, 0xF7, 0xA4, 0x95]
  const ROW_7: seq<bv8> := [0xF8, 0xC9, 0x9A, 0xAB, 0x3C, 0x0D, 0x5E, 0x6F, 0x41, 0x70, 0x23, 0x12, 0x85, 0xB4, 0xE7, 0xD6]
  const ROW_8: seq<bv8> := [0x7A, 0x4B, 0x18, 0x29, 0xBE, 0x8F, 0xDC, 0xED, 0xC3, 0xF2, 0xA1, 0x90, 0x07, 0x36, 0x65, 0x54]
  const ROW_9: seq<bv8> := [0x39, 0x08, 0x5B, 0x6A, 0xFD, 0xCC, 0x9F, 0xAE, 0x80, 0xB1, 0xE2, 0xD3, 0x44, 0x75, 0x26, 0x17]
  const ROW_A: seq<bv8> := [0xFC, 0xCD, 0x9E, 0xAF, 0x38, 0x09, 0x5A, 0x6B, 0x45, 0x74, 0x27, 0x16, 0x81, 0xB0, 0xE3, 0xD2]
  const ROW_B: seq<bv8> := [0xBF, 0x8E, 0xDD, 0xEC, 0x7B, 0x4A, 0x19, 0x28, 0x06, 0x37, 0x64, 0x55, 0xC2, 0xF3, 0xA0, 0x91]
  const ROW_C: seq<bv8> := [0x47, 0x76, 0x25, 0x14, 0x83, 0xB2, 0xE1, 0xD0, 0xFE, 0xCF, 0x9C, 0xAD, 0x3A, 0x0B, 0x58, 0x69]
  const ROW_D: seq<bv8> := [0x04, 0x35, 0x66, 0x57, 0xC0, 0xF1, 0xA2, 0x93, 0xBD, 0x8C, 0xDF, 0xEE, 0x79, 0x48, 0x1B, 0x2A]
  const ROW_E: seq<bv8> := [0xC1, 0xF0, 0xA3, 0x92, 0x05, 0x34, 0x67, 0x56, 0x78, 0x49, 0x1A, 0x2B, 0xBC, 0x8D, 0xDE, 0xEF]
  const ROW_F: seq<bv8> := [0x82, 0xB3, 0xE0, 0xD1, 0x46, 0x77, 0x24, 0x15, 0x3B, 0x0A, 0x59, 0x68, 0xFF, 0xCE, 0x9D, 0xAC]

  /** Line `h` of the table. */
  function Row(h: bv8): (row: seq<bv8>)
    ensures |row| == 16
  {
    if h == 0x0 then ROW_0
    else if h == 0x1 then ROW_1
    else if h == 0x2 then ROW_2
    else if h == 0x3 then ROW_3
    else if h == 0x4 then ROW_4
    else if h == 0x5 then ROW_5
    else if h == 0x6 then ROW_6
    else if h == 0x7 then ROW_7
    else if h == 0x8 then ROW_8
    else if h == 0x9 then ROW_9
    else if h == 0xA then ROW_A
    else if h == 0xB then ROW_B
    else if h == 0xC then ROW_C
    else if h == 0xD then ROW_D
    else if h == 0xE then ROW_E
    else ROW_F
  }

  /** A number from its four bits. */
  function Index(l: bv8): (i: nat)
    ensures i < 16
  {
    (if l & 8 != 0 then 8 else 0) + (if l & 4 != 0 then 4 else 0)
    + (if l & 2 != 0 then 2 else 0) + (if l & 1 != 0 then 1 else 0)
  }

  /** The entries of line `h` are the values of `f`, one by one. */
  ghost predicate LineIs(h: bv8, row: seq<bv8>, f: bv8 -> bv8)
    requires |row| == 16
  {
    && row[0] == f(h) && row[1] == f(h | 1) && row[2] == f(h | 2) && row[3] == f(h | 3)
    && row[4] == f(h | 4) && row[5] == f(h | 5) && row[6] == f(h | 6) && row[7] == f(h | 7)
    && row[8] == f(h | 8) && row[9] == f(h | 9) && row[10] == f(h | 10) && row[11] == f(h | 11)
    && row[12] == f(h | 12) && row[13] == f(h | 13) && row[14] == f(h | 14) && row[15] == f(h | 15)
  }

  lemma Line0() ensures LineIs(0x00, ROW_0, Step8) {}
  lemma Line1() ensures LineIs(0x10, ROW_1, Step8) {}
  lemma Line2() ensures LineIs(0x20, ROW_2, Step8) {}
  lemma Line3() ensures LineIs(0x30, ROW_3, Step8) {}
  lemma Line4() ensures LineIs(0x40, ROW_4, Step8) {}
  lemma Line5() ensures LineIs(0x50, ROW_5, Step8) {}
  lemma Line6() ensures LineIs(0x60, ROW_6, Step8) {}
  lemma Line7() ensures LineIs(0x70, ROW_7, Step8) {}
  lemma Line8() ensures LineIs(0x80, ROW_8, Step8) {}
  lemma Line9() ensures LineIs(0x90, ROW_9, Step8) {}
  lemma LineA() ensures LineIs(0xA0, ROW_A, Step8) {}
  lemma LineB() ensures LineIs(0xB0, ROW_B, Step8) {}
  lemma LineC() ensures LineIs(0xC0, ROW_C, Step8) {}
  lemma LineD() ensures LineIs(0xD0, ROW_D, Step8) {}
  lemma LineE() ensures LineIs(0xE0, ROW_E, Step8) {}
  lemma LineF() ensures LineIs(0xF0, ROW_F, Step8) {}

  lemma EntryOfLine(h: bv8, row: seq<bv8>, f: bv8 -> bv8, l: bv8)
    requires |row| == 16 && l < 0x10 && LineIs(h, row, f)
    ensures row[Index(l)] == f(h | l)
  {
    if l & 8 == 0 {
      if l & 4 == 0 { Entry0(h, row, f, l); } else { Entry4(h, row, f, l); }
    } else {
      if l & 4 == 0 { Entry8(h, row, f, l); } else { EntryC(h, row, f, l); }
    }
  }

  lemma Entry0(h: bv8, row: seq<bv8>, f: bv8 -> bv8, l: bv8)
    requires |row| == 16 && l & 0xFC == 0 && LineIs(h, row, f)
    ensures row[Index(l)] == f(h | l)
  {
    if l == 0 { assert h | l == h; }
  }

  lemma Entry4(h: bv8, row: seq<bv8>, f: bv8 -> bv8, l: bv8)
    requires |row| == 16 && l & 0xFC == 4 && LineIs(h, row, f)
    ensures row[Index(l)] == f(h | l)
  {
  }

  lemma Entry8(h: bv8, row: seq<bv8>, f: bv8 -> bv8, l: bv8)
    requires |row| == 16 && l & 0xFC == 8 && LineIs(h, row, f)
    ensures row[Index(l)] == f(h | l)
  {
  }

  lemma EntryC(h: bv8, row: seq<bv8>, f: bv8 -> bv8, l: bv8)
    requires |row| == 16 && l & 0xFC == 0xC && LineIs(h, row, f)
    ensures row[Index(l)] == f(h | l)
  {
  }

  lemma Lines(h: bv8)
    requires h < 0x10
    ensures LineIs(h << 4, Row(h), Step8)
  {
    if h == 0x0 { Line0(); }
    else if h == 0x1 { Line1(); }
    else if h == 0x2 { Line2(); }
    else if h == 0x3 { Line3(); }
    else if h == 0x4 { Line4(); }
    else if h == 0x5 { Line5(); }
    else if h == 0x6 { Line6(); }
    else if h == 0x7 { Line7(); }
    else if h == 0x8 { Line8(); }
    else if h == 0x9 { Line9(); }
    else if h == 0xA { LineA(); }
    else if h == 0xB { LineB(); }
    else if h == 0xC { LineC(); }
    else if h == 0xD { LineD(); }
    else if h == 0xE { LineE(); }
    else { LineF(); }
  }

  /** Entry `c` of `crc_lookup`. */
  function Lookup(c: bv8): bv8 {
    Row(c >> 4)[Index(c & 0x0F)]
  }

  lemma Nibbles(c: bv8)
    ensures c >> 4 < 0x10 && c & 0x0F < 0x10 && ((c >> 4) << 4) | (c & 0x0F) == c
  {
  }

  /** Every entry of the table is eight bit steps of its index. */
  lemma LookupIsStep8(c: bv8)
    ensures Lookup(c) == Step8(c)
  {
    Nibbles(c);
    LookupOf(c, c >> 4, c & 0x0F);
  }

  lemma LookupOf(c: bv8, h: bv8, l: bv8)
    requires h < 0x10 && l < 0x10 && (h << 4) | l == c
    ensures Row(h)[Index(l)] == Step8(c)
  {
    Lines(h);
    LookupAt(c, h << 4, Row(h), l);
  }

  lemma LookupAt(c: bv8, h: bv8, row: seq<bv8>, l: bv8)
    requires |row| == 16 && l < 0x10 && h | l == c && LineIs(h, row, Step8)
    ensures row[Index(l)] == Step8(c)
  {
    EntryOfLine(h, row, Step8, l);
  }

  /** `pgm_read_byte(crc_lookup + index)` */
  method ReadLookup(index: bv8) returns (b: bv8)
    ensures b == Step8(index)
  {
    LookupIsStep8(index);
    b := Lookup(index);
  }

  /** `crc`, the form that saves time. Equal to CrcBitwise on every input. */
  method CrcTable(data: array<bv8>, len: nat) returns (crc: bv8)
    requires len <= data.Length && len < 256
    ensures crc == Crc(0xFF, data[..][..len])
  {
    crc := INIT;
    var left := len;
    ghost var i, bytes := 0, data[..];
    while left > 0
      invariant i + left == len && crc == Crc(0xFF, bytes[..i])
    {
      CrcNext(bytes, i);
      crc := ReadLookup(crc ^ data[len - left]);
      left := left - 1;
      i := i + 1;
    }
  }
}
