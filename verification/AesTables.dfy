/**
  The three tables of boot_aes.c, sixteen entries to a row, and the facts about them.
*/
module AesTables {

  /** forward s-box */
  const SBOX: seq<seq<bv8>> := [
    [0x63, 0x7C, 0x77, 0x7B, 0xF2, 0x6B, 0x6F, 0xC5, 0x30, 0x01, 0x67, 0x2B, 0xFE, 0xD7, 0xAB, 0x76],
    [0xCA, 0x82, 0xC9, 0x7D, 0xFA, 0x59, 0x47, 0xF0, 0xAD, 0xD4, 0xA2, 0xAF, 0x9C, 0xA4, 0x72, 0xC0],
    [0xB7, 0xFD, 0x93, 0x26, 0x36, 0x3F, 0xF7, 0xCC, 0x34, 0xA5, 0xE5, 0xF1, 0x71, 0xD8, 0x31, 0x15],
    [0x04, 0xC7, 0x23, 0xC3, 0x18, 0x96, 0x05, 0x9A, 0x07, 0x12, 0x80, 0xE2, 0xEB, 0x27, 0xB2, 0x75],
    [0x09, 0x83, 0x2C, 0x1A, 0x1B, 0x6E, 0x5A, 0xA0, 0x52, 0x3B, 0xD6, 0xB3, 0x29, 0xE3, 0x2F, 0x84],
    [0x53, 0xD1, 0x00, 0xED, 0x20, 0xFC, 0xB1, 0x5B, 0x6A, 0xCB, 0xBE, 0x39, 0x4A, 0x4C, 0x58, 0xCF],
    [0xD0, 0xEF, 0xAA, 0xFB, 0x43, 0x4D, 0x33, 0x85, 0x45, 0xF9, 0x02, 0x7F, 0x50, 0x3C, 0x9F, 0xA8],
    [0x51, 0xA3, 0x40, 0x8F, 0x92, 0x9D, 0x38, 0xF5, 0xBC, 0xB6, 0xDA, 0x21, 0x10, 0xFF, 0xF3, 0xD2],
    [0xCD, 0x0C, 0x13, 0xEC, 0x5F, 0x97, 0x44, 0x17, 0xC4, 0xA7, 0x7E, 0x3D, 0x64, 0x5D, 0x19, 0x73],
    [0x60, 0x81, 0x4F, 0xDC, 0x22, 0x2A, 0x90, 0x88, 0x46, 0xEE, 0xB8, 0x14, 0xDE, 0x5E, 0x0B, 0xDB],
    [0xE0, 0x32, 0x3A, 0x0A, 0x49, 0x06, 0x24, 0x5C, 0xC2, 0xD3, 0xAC, 0x62, 0x91, 0x95, 0xE4, 0x79],
    [0xE7, 0xC8, 0x37, 0x6D, 0x8D, 0xD5, 0x4E, 0xA9, 0x6C, 0x56, 0xF4, 0xEA, 0x65, 0x7A, 0xAE, 0x08],
    [0xBA, 0x78, 0x25, 0x2E, 0x1C, 0xA6, 0xB4, 0xC6, 0xE8, 0xDD, 0x74, 0x1F, 0x4B, 0xBD, 0x8B, 0x8A],
    [0x70, 0x3E, 0xB5, 0x66, 0x48, 0x03, 0xF6, 0x0E, 0x61, 0x35, 0x57, 0xB9, 0x86, 0xC1, 0x1D, 0x9E],
    [0xE1, 0xF8, 0x98, 0x11, 0x69, 0xD9, 0x8E, 0x94, 0x9B, 0x1E, 0x87, 0xE9, 0xCE, 0x55, 0x28, 0xDF],
    [0x8C, 0xA1, 0x89, 0x0D, 0xBF, 0xE6, 0x42, 0x68, 0x41, 0x99, 0x2D, 0x0F, 0xB0, 0x54, 0xBB, 0x16]]

  /** {02} times the s-box */
  const X2_SBOX: seq<seq<bv8>> := [
    [0xC6, 0xF8, 0xEE, 0xF6, 0xFF, 0xD6, 0xDE, 0x91, 0x60, 0x02, 0xCE, 0x56, 0xE7, 0xB5, 0x4D, 0xEC],
    [0x8F, 0x1F, 0x89, 0xFA, 0xEF, 0xB2, 0x8E, 0xFB, 0x41, 0xB3, 0x5F, 0x45, 0x23, 0x53, 0xE4, 0x9B],
    [0x75, 0xE1, 0x3D, 0x4C, 0x6C, 0x7E, 0xF5, 0x83, 0x68, 0x51, 0xD1, 0xF9, 0xE2, 0xAB, 0x62, 0x2A],
    [0x08, 0x95, 0x46, 0x9D, 0x30, 0x37, 0x0A, 0x2F, 0x0E, 0x24, 0x1B, 0xDF, 0xCD, 0x4E, 0x7F, 0xEA],
    [0x12, 0x1D, 0x58, 0x34, 0x36, 0xDC, 0xB4, 0x5B, 0xA4, 0x76, 0xB7, 0x7D, 0x52, 0xDD, 0x5E, 0x13],
    [0xA6, 0xB9, 0x00, 0xC1, 0x40, 0xE3, 0x79, 0xB6, 0xD4, 0x8D, 0x67, 0x72, 0x94, 0x98, 0xB0, 0x85],
    [0xBB, 0xC5, 0x4F, 0xED, 0x86, 0x9A, 0x66, 0x11, 0x8A, 0xE9, 0x04, 0xFE, 0xA0, 0x78, 0x25, 0x4B],
    [0xA2, 0x5D, 0x80, 0x05, 0x3F, 0x21, 0x70, 0xF1, 0x63, 0x77, 0xAF, 0x42, 0x20, 0xE5, 0xFD, 0xBF],
    [0x81, 0x18, 0x26, 0xC3, 0xBE, 0x35, 0x88, 0x2E, 0x93, 0x55, 0xFC, 0x7A, 0xC8, 0xBA, 0x32, 0xE6],
    [0xC0, 0x19, 0x9E, 0xA3, 0x44, 0x54, 0x3B, 0x0B, 0x8C, 0xC7, 0x6B, 0x28, 0xA7, 0xBC, 0x16, 0xAD],
    [0xDB, 0x64, 0x74, 0x14, 0x92, 0x0C, 0x48, 0xB8, 0x9F, 0xBD, 0x43, 0xC4, 0x39, 0x31, 0xD3, 0xF2],
    [0xD5, 0x8B, 0x6E, 0xDA, 0x01, 0xB1, 0x9C, 0x49, 0xD8, 0xAC, 0xF3, 0xCF, 0xCA, 0xF4, 0x47, 0x10],
    [0x6F, 0xF0, 0x4A, 0x5C, 0x38, 0x57, 0x73, 0x97, 0xCB, 0xA1, 0xE8, 0x3E, 0x96, 0x61, 0x0D, 0x0F],
    [0xE0, 0x7C, 0x71, 0xCC, 0x90, 0x06, 0xF7, 0x1C, 0xC2, 0x6A, 0xAE, 0x69, 0x17, 0x99, 0x3A, 0x27],
    [0xD9, 0xEB, 0x2B, 0x22, 0xD2, 0xA9, 0x07, 0x33, 0x2D, 0x3C, 0x15, 0xC9, 0x87, 0xAA, 0x50, 0xA5],
    [0x03, 0x59, 0x09, 0x1A, 0x65, 0xD7, 0x84, 0xD0, 0x82, 0x29, 0x5A, 0x1E, 0x7B, 0xA8, 0x6D, 0x2C]]

  /** {03} times the s-box */
  const X3_SBOX: seq<seq<bv8>> := [
    [0xA5, 0x84, 0x99, 0x8D, 0x0D, 0xBD, 0xB1, 0x54, 0x50, 0x03, 0xA9, 0x7D, 0x19, 0x62, 0xE6, 0x9A],
    [0x45, 0x9D, 0x40, 0x87, 0x15, 0xEB, 0xC9, 0x0B, 0xEC, 0x67, 0xFD, 0xEA, 0xBF, 0xF7, 0x96, 0x5B],
    [0xC2, 0x1C, 0xAE, 0x6A, 0x5A, 0x41, 0x02, 0x4F, 0x5C, 0xF4, 0x34, 0x08, 0x93, 0x73, 0x53, 0x3F],
    [0x0C, 0x52, 0x65, 0x5E, 0x28, 0xA1, 0x0F, 0xB5, 0x09, 0x36, 0x9B, 0x3D, 0x26, 0x69, 0xCD, 0x9F],
    [0x1B, 0x9E, 0x74, 0x2E, 0x2D, 0xB2, 0xEE, 0xFB, 0xF6, 0x4D, 0x61, 0xCE, 0x7B, 0x3E, 0x71, 0x97],
    [0xF5, 0x68, 0x00, 0x2C, 0x60, 0x1F, 0xC8, 0xED, 0xBE, 0x46, 0xD9, 0x4B, 0xDE, 0xD4, 0xE8, 0x4A],
    [0x6B, 0x2A, 0xE5, 0x16, 0xC5, 0xD7, 0x55, 0x94, 0xCF, 0x10, 0x06, 0x81, 0xF0, 0x44, 0xBA, 0xE3],
    [0xF3, 0xFE, 0xC0, 0x8A, 0xAD, 0xBC, 0x48, 0x04, 0xDF, 0xC1, 0x75, 0x63, 0x30, 0x1A, 0x0E, 0x6D],
    [0x4C, 0x14, 0x35, 0x2F, 0xE1, 0xA2, 0xCC, 0x39, 0x57, 0xF2, 0x82, 0x47, 0xAC, 0xE7, 0x2B, 0x95],
    [0xA0, 0x98, 0xD1, 0x7F, 0x66, 0x7E, 0xAB, 0x83, 0xCA, 0x29, 0xD3, 0x3C, 0x79, 0xE2, 0x1D, 0x76],
    [0x3B, 0x56, 0x4E, 0x1E, 0xDB, 0x0A, 0x6C, 0xE4, 0x5D, 0x6E, 0xEF, 0xA6, 0xA8, 0xA4, 0x37, 0x8B],
    [0x32, 0x43, 0x59, 0xB7, 0x8C, 0x64, 0xD2, 0xE0, 0xB4, 0xFA, 0x07, 0x25, 0xAF, 0x8E, 0xE9, 0x18],
    [0xD5, 0x88, 0x6F, 0x72, 0x24, 0xF1, 0xC7, 0x51, 0x23, 0x7C, 0x9C, 0x21, 0xDD, 0xDC, 0x86, 0x85],
    [0x90, 0x42, 0xC4, 0xAA, 0xD8, 0x05, 0x01, 0x12, 0xA3, 0x5F, 0xF9, 0xD0, 0x91, 0x58, 0x27, 0xB9],
    [0x38, 0x13, 0xB3, 0x33, 0xBB, 0x70, 0x89, 0xA7, 0xB6, 0x22, 0x92, 0x20, 0x49, 0xFF, 0x78, 0x7A],
    [0x8F, 0xF8, 0x80, 0x17, 0xDA, 0x31, 0xC6, 0xB8, 0xC3, 0xB0, 0x77, 0x11, 0xCB, 0xFC, 0xD6, 0x3A]]

  /** Multiplication by x in the field of section 4.2.1 of FIPS 197. */
  function Xtime(a: bv8): bv8 {
    if a & 0x80 == 0 then a << 1 else (a << 1) ^ 0x1B
  }

  /** Rows of the three tables fit together. */
  predicate RowsFit(s: seq<bv8>, x2: seq<bv8>, x3: seq<bv8>) {
    && |s| == |x2| == |x3| == 16
    && forall c :: 0 <= c < 16 ==> x2[c] == Xtime(s[c]) && x3[c] == x2[c] ^ s[c]
  }

  lemma Rows0And1()
    ensures forall r :: 0 <= r < 2 ==> RowsFit(SBOX[r], X2_SBOX[r], X3_SBOX[r])
  {
  }

  lemma Rows2And3()
    ensures forall r :: 2 <= r < 4 ==> RowsFit(SBOX[r], X2_SBOX[r], X3_SBOX[r])
  {
  }

  lemma Rows4And5()
    ensures forall r :: 4 <= r < 6 ==> RowsFit(SBOX[r], X2_SBOX[r], X3_SBOX[r])
  {
  }

  lemma Rows6And7()
    ensures forall r :: 6 <= r < 8 ==> RowsFit(SBOX[r], X2_SBOX[r], X3_SBOX[r])
  {
  }

  lemma Rows8And9()
    ensures forall r :: 8 <= r < 10 ==> RowsFit(SBOX[r], X2_SBOX[r], X3_SBOX[r])
  {
  }

  lemma Rows10And11()
    ensures forall r :: 10 <= r < 12 ==> RowsFit(SBOX[r], X2_SBOX[r], X3_SBOX[r])
  {
  }

  lemma Rows12And13()
    ensures forall r :: 12 <= r < 14 ==> RowsFit(SBOX[r], X2_SBOX[r], X3_SBOX[r])
  {
  }

  lemma Rows14And15()
    ensures forall r :: 14 <= r < 16 ==> RowsFit(SBOX[r], X2_SBOX[r], X3_SBOX[r])
  {
  }

  lemma TableFacts(r: nat)
    requires r < 16
    ensures RowsFit(SBOX[r], X2_SBOX[r], X3_SBOX[r])
  {
    hide RowsFit;
    if r < 2 {
      Rows0And1();
    } else if r < 4 {
      Rows2And3();
    } else if r < 6 {
      Rows4And5();
    } else if r < 8 {
      Rows6And7();
    } else if r < 10 {
      Rows8And9();
    } else if r < 12 {
      Rows10And11();
    } else if r < 14 {
      Rows12And13();
    } else {
      Rows14And15();
    }
  }

  lemma TableShape(r: nat)
    requires r < 16
    ensures |SBOX| == |X2_SBOX| == |X3_SBOX| == 16 && |SBOX[r]| == |X2_SBOX[r]| == |X3_SBOX[r]| == 16
  {
    TableFacts(r);
  }

  /** An entry of a table, by its index. */
  function SboxAt(n: nat): bv8
    requires n < 256
  {
    TableShape(n / 16);
    SBOX[n / 16][n % 16]
  }

  function X2At(n: nat): bv8
    requires n < 256
  {
    TableShape(n / 16);
    X2_SBOX[n / 16][n % 16]
  }

  function X3At(n: nat): bv8
    requires n < 256
  {
    TableShape(n / 16);
    X3_SBOX[n / 16][n % 16]
  }

  lemma EntryFacts(n: nat)
    requires n < 256
    ensures X2At(n) == Xtime(SboxAt(n)) && X3At(n) == Xtime(SboxAt(n)) ^ SboxAt(n)
  {
    hide Xtime;
    TableFacts(n / 16);
  }

  function Sbox(b: bv8): bv8 { SboxAt(b as nat) }

  function X2Sbox(b: bv8): bv8 { X2At(b as nat) }

  function X3Sbox(b: bv8): bv8 { X3At(b as nat) }

  /** The second and third table are {02} and {03} times the s-box. */
  lemma FusedTables(b: bv8)
    ensures X2Sbox(b) == Xtime(Sbox(b))
    ensures X3Sbox(b) == Xtime(Sbox(b)) ^ Sbox(b)
  {
    hide Xtime, SboxAt, X2At, X3At;
    EntryFacts(b as nat);
  }
}
