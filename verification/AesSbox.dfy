/**
  The s-box of boot_aes.c is the one that section 5.1.1 of FIPS 197 defines: the inverse in the
  field, and then an affine transformation.
*/
module AesSbox {

  import opened AesTables

  /** The product of two polynomials with coefficients of one bit. */
  function Product(a: bv8, b: bv8): bv16 {
    var y := b as bv16;
    (if a & 0x01 == 0 then 0 else y) ^ (if a & 0x02 == 0 then 0 else y << 1)
    ^ (if a & 0x04 == 0 then 0 else y << 2) ^ (if a & 0x08 == 0 then 0 else y << 3)
    ^ (if a & 0x10 == 0 then 0 else y << 4) ^ (if a & 0x20 == 0 then 0 else y << 5)
    ^ (if a & 0x40 == 0 then 0 else y << 6) ^ (if a & 0x80 == 0 then 0 else y << 7)
  }

  /** The remainder modulo the polynomial x^8 + x^4 + x^3 + x + 1. */
  function Reduce(p: bv16): bv8 {
    var p1 := if p & 0x4000 == 0 then p else p ^ 0x46C0;
    var p2 := if p1 & 0x2000 == 0 then p1 else p1 ^ 0x2360;
    var p3 := if p2 & 0x1000 == 0 then p2 else p2 ^ 0x11B0;
    var p4 := if p3 & 0x0800 == 0 then p3 else p3 ^ 0x08D8;
    var p5 := if p4 & 0x0400 == 0 then p4 else p4 ^ 0x046C;
    var p6 := if p5 & 0x0200 == 0 then p5 else p5 ^ 0x0236;
    var p7 := if p6 & 0x0100 == 0 then p6 else p6 ^ 0x011B;
    (p7 & 0xFF) as bv8
  }

  /** Multiplication in the field, section 4.2. */
  function Mul(a: bv8, b: bv8): bv8 {
    Reduce(Product(a, b))
  }

  /** The affine transformation of section 5.1.1: b and its rotations by 1 to 4 bits. */
  function Affine(b: bv8): bv8 {
    b ^ ((b << 1) | (b >> 7)) ^ ((b << 2) | (b >> 6)) ^ ((b << 3) | (b >> 5)) ^ ((b << 4) | (b >> 4)) ^ 0x63
  }

  function Unaffine(s: bv8): bv8 {
    ((s << 1) | (s >> 7)) ^ ((s << 3) | (s >> 5)) ^ ((s << 6) | (s >> 2)) ^ 0x05
  }

  lemma AffineUndone(s: bv8)
    ensures Affine(Unaffine(s)) == s
  {
  }

  /** The byte s, without the affine transformation, is the inverse of b. */
  predicate Inverts(b: bv8, s: bv8) {
    Mul(b, Unaffine(s)) == 1
  }

  /** A row of the table holds inverses; 0 has none. */
  predicate RowInverts(h: bv8, s: seq<bv8>) {
    && |s| == 16
    && (h == 0 || Inverts(h + 0, s[0]))
    && Inverts(h + 1, s[1])
    && Inverts(h + 2, s[2])
    && Inverts(h + 3, s[3])
    && Inverts(h + 4, s[4])
    && Inverts(h + 5, s[5])
    && Inverts(h + 6, s[6])
    && Inverts(h + 7, s[7])
    && Inverts(h + 8, s[8])
    && Inverts(h + 9, s[9])
    && Inverts(h + 10, s[10])
    && Inverts(h + 11, s[11])
    && Inverts(h + 12, s[12])
    && Inverts(h + 13, s[13])
    && Inverts(h + 14, s[14])
    && Inverts(h + 15, s[15])
  }

  lemma Values0()
    ensures Inverts(0x01, 0x7C) && Inverts(0x02, 0x77) && Inverts(0x03, 0x7B)
    ensures Inverts(0x04, 0xF2) && Inverts(0x05, 0x6B) && Inverts(0x06, 0x6F) && Inverts(0x07, 0xC5)
    ensures Inverts(0x08, 0x30) && Inverts(0x09, 0x01) && Inverts(0x0A, 0x67) && Inverts(0x0B, 0x2B)
    ensures Inverts(0x0C, 0xFE) && Inverts(0x0D, 0xD7) && Inverts(0x0E, 0xAB) && Inverts(0x0F, 0x76)
  {
  }

  lemma Row0()
    ensures RowInverts(0x00, SBOX[0])
  {
    hide Inverts;
    Values0();
  }

  lemma Values1()
    ensures Inverts(0x10, 0xCA) && Inverts(0x11, 0x82) && Inverts(0x12, 0xC9) && Inverts(0x13, 0x7D)
    ensures Inverts(0x14, 0xFA) && Inverts(0x15, 0x59) && Inverts(0x16, 0x47) && Inverts(0x17, 0xF0)
    ensures Inverts(0x18, 0xAD) && Inverts(0x19, 0xD4) && Inverts(0x1A, 0xA2) && Inverts(0x1B, 0xAF)
    ensures Inverts(0x1C, 0x9C) && Inverts(0x1D, 0xA4) && Inverts(0x1E, 0x72) && Inverts(0x1F, 0xC0)
  {
  }

  lemma Row1()
    ensures RowInverts(0x10, SBOX[1])
  {
    hide Inverts;
    Values1();
  }

  lemma Values2()
    ensures Inverts(0x20, 0xB7) && Inverts(0x21, 0xFD) && Inverts(0x22, 0x93) && Inverts(0x23, 0x26)
    ensures Inverts(0x24, 0x36) && Inverts(0x25, 0x3F) && Inverts(0x26, 0xF7) && Inverts(0x27, 0xCC)
    ensures Inverts(0x28, 0x34) && Inverts(0x29, 0xA5) && Inverts(0x2A, 0xE5) && Inverts(0x2B, 0xF1)
    ensures Inverts(0x2C, 0x71) && Inverts(0x2D, 0xD8) && Inverts(0x2E, 0x31) && Inverts(0x2F, 0x15)
  {
  }

  lemma Row2()
    ensures RowInverts(0x20, SBOX[2])
  {
    hide Inverts;
    Values2();
  }

  lemma Values3()
    ensures Inverts(0x30, 0x04) && Inverts(0x31, 0xC7) && Inverts(0x32, 0x23) && Inverts(0x33, 0xC3)
    ensures Inverts(0x34, 0x18) && Inverts(0x35, 0x96) && Inverts(0x36, 0x05) && Inverts(0x37, 0x9A)
    ensures Inverts(0x38, 0x07) && Inverts(0x39, 0x12) && Inverts(0x3A, 0x80) && Inverts(0x3B, 0xE2)
    ensures Inverts(0x3C, 0xEB) && Inverts(0x3D, 0x27) && Inverts(0x3E, 0xB2) && Inverts(0x3F, 0x75)
  {
  }

  lemma Row3()
    ensures RowInverts(0x30, SBOX[3])
  {
    hide Inverts;
    Values3();
  }

  lemma Values4()
    ensures Inverts(0x40, 0x09) && Inverts(0x41, 0x83) && Inverts(0x42, 0x2C) && Inverts(0x43, 0x1A)
    ensures Inverts(0x44, 0x1B) && Inverts(0x45, 0x6E) && Inverts(0x46, 0x5A) && Inverts(0x47, 0xA0)
    ensures Inverts(0x48, 0x52) && Inverts(0x49, 0x3B) && Inverts(0x4A, 0xD6) && Inverts(0x4B, 0xB3)
    ensures Inverts(0x4C, 0x29) && Inverts(0x4D, 0xE3) && Inverts(0x4E, 0x2F) && Inverts(0x4F, 0x84)
  {
  }

  lemma Row4()
    ensures RowInverts(0x40, SBOX[4])
  {
    hide Inverts;
    Values4();
  }

  lemma Values5()
    ensures Inverts(0x50, 0x53) && Inverts(0x51, 0xD1) && Inverts(0x52, 0x00) && Inverts(0x53, 0xED)
    ensures Inverts(0x54, 0x20) && Inverts(0x55, 0xFC) && Inverts(0x56, 0xB1) && Inverts(0x57, 0x5B)
    ensures Inverts(0x58, 0x6A) && Inverts(0x59, 0xCB) && Inverts(0x5A, 0xBE) && Inverts(0x5B, 0x39)
    ensures Inverts(0x5C, 0x4A) && Inverts(0x5D, 0x4C) && Inverts(0x5E, 0x58) && Inverts(0x5F, 0xCF)
  {
  }

  lemma Row5()
    ensures RowInverts(0x50, SBOX[5])
  {
    hide Inverts;
    Values5();
  }

  lemma Values6()
    ensures Inverts(0x60, 0xD0) && Inverts(0x61, 0xEF) && Inverts(0x62, 0xAA) && Inverts(0x63, 0xFB)
    ensures Inverts(0x64, 0x43) && Inverts(0x65, 0x4D) && Inverts(0x66, 0x33) && Inverts(0x67, 0x85)
    ensures Inverts(0x68, 0x45) && Inverts(0x69, 0xF9) && Inverts(0x6A, 0x02) && Inverts(0x6B, 0x7F)
    ensures Inverts(0x6C, 0x50) && Inverts(0x6D, 0x3C) && Inverts(0x6E, 0x9F) && Inverts(0x6F, 0xA8)
  {
  }

  lemma Row6()
    ensures RowInverts(0x60, SBOX[6])
  {
    hide Inverts;
    Values6();
  }

  lemma Values7()
    ensures Inverts(0x70, 0x51) && Inverts(0x71, 0xA3) && Inverts(0x72, 0x40) && Inverts(0x73, 0x8F)
    ensures Inverts(0x74, 0x92) && Inverts(0x75, 0x9D) && Inverts(0x76, 0x38) && Inverts(0x77, 0xF5)
    ensures Inverts(0x78, 0xBC) && Inverts(0x79, 0xB6) && Inverts(0x7A, 0xDA) && Inverts(0x7B, 0x21)
    ensures Inverts(0x7C, 0x10) && Inverts(0x7D, 0xFF) && Inverts(0x7E, 0xF3) && Inverts(0x7F, 0xD2)
  {
  }

  lemma Row7()
    ensures RowInverts(0x70, SBOX[7])
  {
    hide Inverts;
    Values7();
  }

  lemma Values8()
    ensures Inverts(0x80, 0xCD) && Inverts(0x81, 0x0C) && Inverts(0x82, 0x13) && Inverts(0x83, 0xEC)
    ensures Inverts(0x84, 0x5F) && Inverts(0x85, 0x97) && Inverts(0x86, 0x44) && Inverts(0x87, 0x17)
    ensures Inverts(0x88, 0xC4) && Inverts(0x89, 0xA7) && Inverts(0x8A, 0x7E) && Inverts(0x8B, 0x3D)
    ensures Inverts(0x8C, 0x64) && Inverts(0x8D, 0x5D) && Inverts(0x8E, 0x19) && Inverts(0x8F, 0x73)
  {
  }

  lemma Row8()
    ensures RowInverts(0x80, SBOX[8])
  {
    hide Inverts;
    Values8();
  }

  lemma Values9()
    ensures Inverts(0x90, 0x60) && Inverts(0x91, 0x81) && Inverts(0x92, 0x4F) && Inverts(0x93, 0xDC)
    ensures Inverts(0x94, 0x22) && Inverts(0x95, 0x2A) && Inverts(0x96, 0x90) && Inverts(0x97, 0x88)
    ensures Inverts(0x98, 0x46) && Inverts(0x99, 0xEE) && Inverts(0x9A, 0xB8) && Inverts(0x9B, 0x14)
    ensures Inverts(0x9C, 0xDE) && Inverts(0x9D, 0x5E) && Inverts(0x9E, 0x0B) && Inverts(0x9F, 0xDB)
  {
  }

  lemma Row9()
    ensures RowInverts(0x90, SBOX[9])
  {
    hide Inverts;
    Values9();
  }

  lemma Values10()
    ensures Inverts(0xA0, 0xE0) && Inverts(0xA1, 0x32) && Inverts(0xA2, 0x3A) && Inverts(0xA3, 0x0A)
    ensures Inverts(0xA4, 0x49) && Inverts(0xA5, 0x06) && Inverts(0xA6, 0x24) && Inverts(0xA7, 0x5C)
    ensures Inverts(0xA8, 0xC2) && Inverts(0xA9, 0xD3) && Inverts(0xAA, 0xAC) && Inverts(0xAB, 0x62)
    ensures Inverts(0xAC, 0x91) && Inverts(0xAD, 0x95) && Inverts(0xAE, 0xE4) && Inverts(0xAF, 0x79)
  {
  }

  lemma Row10()
    ensures RowInverts(0xA0, SBOX[10])
  {
    hide Inverts;
    Values10();
  }

  lemma Values11()
    ensures Inverts(0xB0, 0xE7) && Inverts(0xB1, 0xC8) && Inverts(0xB2, 0x37) && Inverts(0xB3, 0x6D)
    ensures Inverts(0xB4, 0x8D) && Inverts(0xB5, 0xD5) && Inverts(0xB6, 0x4E) && Inverts(0xB7, 0xA9)
    ensures Inverts(0xB8, 0x6C) && Inverts(0xB9, 0x56) && Inverts(0xBA, 0xF4) && Inverts(0xBB, 0xEA)
    ensures Inverts(0xBC, 0x65) && Inverts(0xBD, 0x7A) && Inverts(0xBE, 0xAE) && Inverts(0xBF, 0x08)
  {
  }

  lemma Row11()
    ensures RowInverts(0xB0, SBOX[11])
  {
    hide Inverts;
    Values11();
  }

  lemma Values12()
    ensures Inverts(0xC0, 0xBA) && Inverts(0xC1, 0x78) && Inverts(0xC2, 0x25) && Inverts(0xC3, 0x2E)
    ensures Inverts(0xC4, 0x1C) && Inverts(0xC5, 0xA6) && Inverts(0xC6, 0xB4) && Inverts(0xC7, 0xC6)
    ensures Inverts(0xC8, 0xE8) && Inverts(0xC9, 0xDD) && Inverts(0xCA, 0x74) && Inverts(0xCB, 0x1F)
    ensures Inverts(0xCC, 0x4B) && Inverts(0xCD, 0xBD) && Inverts(0xCE, 0x8B) && Inverts(0xCF, 0x8A)
  {
  }

  lemma Row12()
    ensures RowInverts(0xC0, SBOX[12])
  {
    hide Inverts;
    Values12();
  }

  lemma Values13()
    ensures Inverts(0xD0, 0x70) && Inverts(0xD1, 0x3E) && Inverts(0xD2, 0xB5) && Inverts(0xD3, 0x66)
    ensures Inverts(0xD4, 0x48) && Inverts(0xD5, 0x03) && Inverts(0xD6, 0xF6) && Inverts(0xD7, 0x0E)
    ensures Inverts(0xD8, 0x61) && Inverts(0xD9, 0x35) && Inverts(0xDA, 0x57) && Inverts(0xDB, 0xB9)
    ensures Inverts(0xDC, 0x86) && Inverts(0xDD, 0xC1) && Inverts(0xDE, 0x1D) && Inverts(0xDF, 0x9E)
  {
  }

  lemma Row13()
    ensures RowInverts(0xD0, SBOX[13])
  {
    hide Inverts;
    Values13();
  }

  lemma Values14()
    ensures Inverts(0xE0, 0xE1) && Inverts(0xE1, 0xF8) && Inverts(0xE2, 0x98) && Inverts(0xE3, 0x11)
    ensures Inverts(0xE4, 0x69) && Inverts(0xE5, 0xD9) && Inverts(0xE6, 0x8E) && Inverts(0xE7, 0x94)
    ensures Inverts(0xE8, 0x9B) && Inverts(0xE9, 0x1E) && Inverts(0xEA, 0x87) && Inverts(0xEB, 0xE9)
    ensures Inverts(0xEC, 0xCE) && Inverts(0xED, 0x55) && Inverts(0xEE, 0x28) && Inverts(0xEF, 0xDF)
  {
  }

  lemma Row14()
    ensures RowInverts(0xE0, SBOX[14])
  {
    hide Inverts;
    Values14();
  }

  lemma Values15()
    ensures Inverts(0xF0, 0x8C) && Inverts(0xF1, 0xA1) && Inverts(0xF2, 0x89) && Inverts(0xF3, 0x0D)
    ensures Inverts(0xF4, 0xBF) && Inverts(0xF5, 0xE6) && Inverts(0xF6, 0x42) && Inverts(0xF7, 0x68)
    ensures Inverts(0xF8, 0x41) && Inverts(0xF9, 0x99) && Inverts(0xFA, 0x2D) && Inverts(0xFB, 0x0F)
    ensures Inverts(0xFC, 0xB0) && Inverts(0xFD, 0x54) && Inverts(0xFE, 0xBB) && Inverts(0xFF, 0x16)
  {
  }

  lemma Row15()
    ensures RowInverts(0xF0, SBOX[15])
  {
    hide Inverts;
    Values15();
  }

  /** Any entry of a row. */
  lemma EntryOf(h: bv8, s: seq<bv8>, low: bv8)
    requires RowInverts(h, s) && low < 16 && (h != 0 || low != 0)
    ensures Inverts(h + low, s[low as nat])
  {
    hide Inverts;
    if low == 0 {
    } else if low == 1 {
    } else if low == 2 {
    } else if low == 3 {
    } else if low == 4 {
    } else if low == 5 {
    } else if low == 6 {
    } else if low == 7 {
    } else if low == 8 {
    } else if low == 9 {
    } else if low == 10 {
    } else if low == 11 {
    } else if low == 12 {
    } else if low == 13 {
    } else if low == 14 {
    } else {
    }
  }

  lemma Nibbles(b: bv8)
    ensures (b >> 4) as nat == b as nat / 16 && (b & 0x0F) as nat == b as nat % 16
  {
  }

  lemma High(b: bv8)
    ensures b >> 4 < 16 && b & 0x0F < 16 && b == ((b >> 4) << 4) + (b & 0x0F)
  {
  }

  lemma EntryIs(b: bv8)
    ensures (b >> 4) as nat < 16 && (b & 0x0F) as nat < 16
    ensures |SBOX| == 16 && |SBOX[(b >> 4) as nat]| == 16
    ensures Sbox(b) == SBOX[(b >> 4) as nat][(b & 0x0F) as nat]
  {
    Nibbles(b);
    TableShape(b as nat / 16);
  }

  lemma SboxInverts(b: bv8)
    requires b != 0
    ensures Inverts(b, Sbox(b))
  {
    hide Inverts, Sbox;
    EntryIs(b);
    High(b);
    var high, low := b >> 4, b & 0x0F;
    hide RowInverts;
    if high == 0 {
      Row0();
      EntryOf(0x00, SBOX[0], low);
    } else if high == 1 {
      Row1();
      EntryOf(0x10, SBOX[1], low);
    } else if high == 2 {
      Row2();
      EntryOf(0x20, SBOX[2], low);
    } else if high == 3 {
      Row3();
      EntryOf(0x30, SBOX[3], low);
    } else if high == 4 {
      Row4();
      EntryOf(0x40, SBOX[4], low);
    } else if high == 5 {
      Row5();
      EntryOf(0x50, SBOX[5], low);
    } else if high == 6 {
      Row6();
      EntryOf(0x60, SBOX[6], low);
    } else if high == 7 {
      Row7();
      EntryOf(0x70, SBOX[7], low);
    } else if high == 8 {
      Row8();
      EntryOf(0x80, SBOX[8], low);
    } else if high == 9 {
      Row9();
      EntryOf(0x90, SBOX[9], low);
    } else if high == 10 {
      Row10();
      EntryOf(0xA0, SBOX[10], low);
    } else if high == 11 {
      Row11();
      EntryOf(0xB0, SBOX[11], low);
    } else if high == 12 {
      Row12();
      EntryOf(0xC0, SBOX[12], low);
    } else if high == 13 {
      Row13();
      EntryOf(0xD0, SBOX[13], low);
    } else if high == 14 {
      Row14();
      EntryOf(0xE0, SBOX[14], low);
    } else {
      Row15();
      EntryOf(0xF0, SBOX[15], low);
    }
  }

  /** The table is the inverse, and 0 for 0, followed by the affine transformation, for all 256 entries. */
  lemma SboxIsAffineInverse(b: bv8) returns (c: bv8)
    ensures Sbox(b) == Affine(c) && (if b == 0 then c == 0 else Mul(b, c) == 1)
  {
    hide Mul, Affine;
    c := Unaffine(Sbox(b));
    AffineUndone(Sbox(b));
    if b == 0 {
      EntryIs(0);
    } else {
      SboxInverts(b);
    }
  }
}
