/**
  The inverse cipher of section 5.3 of FIPS 197, which undoes the cipher that boot_aes.c computes.
*/
module AesInverse {

  import opened AesTables
  import opened AesSbox
  import opened Aes
  import opened Words

  // ----- mixing columns, section 5.3.3 -----

  /** One byte of a column multiplied by {0b}x^3 + {0d}x^2 + {09}x + {0e}. */
  function InvMixByte(a: bv8, b: bv8, c: bv8, d: bv8): bv8 {
    Add4(Mul(0x0E, a), Mul(0x0B, b), Mul(0x0D, c), Mul(0x09, d))
  }

  lemma Swap(a: bv8, b: bv8, c: bv8, d: bv8)
    ensures Add(Add(a, b), Add(c, d)) == Add(Add(a, c), Add(b, d))
  {
    hide Add;
    AddAssociative(a, b, Add(c, d));
    AddAssociative(b, c, d);
    AddCommutative(b, c);
    AddAssociative(c, b, d);
    AddAssociative(a, c, Add(b, d));
  }

  lemma ProductShifts(b: bv8)
    ensures var y := b as bv16;
            && Product(0x09, b) == y ^ (y << 3) && Product(0x0B, b) == y ^ (y << 1) ^ (y << 3)
            && Product(0x0D, b) == y ^ (y << 2) ^ (y << 3) && Product(0x0E, b) == (y << 1) ^ (y << 2) ^ (y << 3)
  {
  }

  lemma Reduce09(b: bv8, y: bv16)
    requires y == b as bv16
    ensures Reduce(y ^ (y << 3)) == Add(Xtime(Xtime(Xtime(b))), b)
  {
  }

  lemma Reduce0B(b: bv8, y: bv16)
    requires y == b as bv16
    ensures Reduce(y ^ (y << 1) ^ (y << 3)) == Add(Add(Xtime(Xtime(Xtime(b))), Xtime(b)), b)
  {
    if b & 0x80 == 0 {
      if b & 0x40 == 0 {
      } else {
      }
    } else if b & 0x40 == 0 {
    } else {
    }
  }

  lemma Reduce0D(b: bv8, y: bv16)
    requires y == b as bv16
    ensures Reduce(y ^ (y << 2) ^ (y << 3)) == Add(Add(Xtime(Xtime(Xtime(b))), Xtime(Xtime(b))), b)
  {
    if b & 0x80 == 0 {
      if b & 0x40 == 0 {
      } else {
      }
    } else if b & 0x40 == 0 {
    } else {
    }
  }

  lemma Reduce0E(b: bv8, y: bv16)
    requires y == b as bv16
    ensures Reduce((y << 1) ^ (y << 2) ^ (y << 3)) == Add(Add(Xtime(Xtime(Xtime(b))), Xtime(Xtime(b))), Xtime(b))
  {
    if b & 0x80 == 0 {
      if b & 0x40 == 0 {
      } else {
      }
    } else if b & 0x40 == 0 {
    } else {
    }
  }

  /** Products by repeated multiplication by x, section 4.2.1. */
  lemma Products(b: bv8)
    ensures var x := Xtime(b);
            var x2 := Xtime(x);
            var x3 := Xtime(x2);
            && Mul(0x09, b) == Add(x3, b) && Mul(0x0B, b) == Add(Add(x3, x), b)
            && Mul(0x0D, b) == Add(Add(x3, x2), b) && Mul(0x0E, b) == Add(Add(x3, x2), x)
  {
    hide Product, Reduce, Xtime, Add;
    ProductShifts(b);
    Reduce09(b, b as bv16);
    Reduce0B(b, b as bv16);
    Reduce0D(b, b as bv16);
    Reduce0E(b, b as bv16);
  }

  /** Reduction after a shift to the left, when the top bit was clear or set. */
  function Reduced(shifted: bv8, clear: bool): bv8 {
    if clear then shifted else Add(shifted, 0x1B)
  }

  lemma XtimeReduced(a: bv8)
    ensures Xtime(a) == Reduced(a << 1, a & 0x80 == 0)
  {
  }

  lemma ReducedDistributes(a: bv8, b: bv8, p: bool, q: bool)
    ensures Reduced(Add(a, b), p == q) == Add(Reduced(a, p), Reduced(b, q))
  {
    AddSelf(0x1B);
    hide Add;
    if !p && !q {
      Swap(a, 0x1B, b, 0x1B);
      XorZero(Add(a, b));
    } else {
      AddAssociative(a, b, 0x1B);
      AddCommutative(b, 0x1B);
      AddAssociative(a, 0x1B, b);
    }
  }

  lemma AddSelf(a: bv8)
    ensures Add(a, a) == 0
  {
  }

  lemma ShiftDistributes(a: bv8, b: bv8)
    ensures Add(a, b) << 1 == Add(a << 1, b << 1)
    ensures Add(a, b) & 0x80 == 0 <==> (a & 0x80 == 0 <==> b & 0x80 == 0)
  {
  }

  lemma XtimeDistributes(a: bv8, b: bv8)
    ensures Xtime(Add(a, b)) == Add(Xtime(a), Xtime(b))
  {
    hide Xtime, Reduced, Add;
    XtimeReduced(a);
    XtimeReduced(b);
    XtimeReduced(Add(a, b));
    ShiftDistributes(a, b);
    ReducedDistributes(a << 1, b << 1, a & 0x80 == 0, b & 0x80 == 0);
  }

  /** Multiplication distributes over addition. */
  lemma Distributes(a: bv8, b: bv8)
    ensures Mul(0x0E, Add(a, b)) == Add(Mul(0x0E, a), Mul(0x0E, b))
    ensures Mul(0x0B, Add(a, b)) == Add(Mul(0x0B, a), Mul(0x0B, b))
    ensures Mul(0x0D, Add(a, b)) == Add(Mul(0x0D, a), Mul(0x0D, b))
    ensures Mul(0x09, Add(a, b)) == Add(Mul(0x09, a), Mul(0x09, b))
  {
    Products(a);
    Products(b);
    Products(Add(a, b));
    hide Mul, Xtime, Add;
    var a1, b1 := Xtime(a), Xtime(b);
    var a2, b2 := Xtime(a1), Xtime(b1);
    var a3, b3 := Xtime(a2), Xtime(b2);
    XtimeDistributes(a, b);
    XtimeDistributes(a1, b1);
    XtimeDistributes(a2, b2);
    Swap(a3, b3, a, b);
    Swap(a3, b3, a1, b1);
    Swap(Add(a3, a1), Add(b3, b1), a, b);
    Swap(a3, b3, a2, b2);
    Swap(Add(a3, a2), Add(b3, b2), a, b);
    Swap(Add(a3, a2), Add(b3, b2), a1, b1);
  }

  lemma DistributesSum(a: bv8, b: bv8, c: bv8, d: bv8)
    ensures Mul(0x0E, Add4(a, b, c, d)) == Add4(Mul(0x0E, a), Mul(0x0E, b), Mul(0x0E, c), Mul(0x0E, d))
    ensures Mul(0x0B, Add4(a, b, c, d)) == Add4(Mul(0x0B, a), Mul(0x0B, b), Mul(0x0B, c), Mul(0x0B, d))
    ensures Mul(0x0D, Add4(a, b, c, d)) == Add4(Mul(0x0D, a), Mul(0x0D, b), Mul(0x0D, c), Mul(0x0D, d))
    ensures Mul(0x09, Add4(a, b, c, d)) == Add4(Mul(0x09, a), Mul(0x09, b), Mul(0x09, c), Mul(0x09, d))
  {
    hide Mul, Add;
    Distributes(a, b);
    Distributes(Add(a, b), c);
    Distributes(Add(Add(a, b), c), d);
  }

  /** Equal summands cancel. */
  lemma Cancels0(a: bv8, x: bv8, x2: bv8, x3: bv8, x4: bv8)
    ensures Add4(Add(Add(x4, x3), x2), Add(Add(x3, x), a), Add(Add(x3, x2), a), Add(Add(x4, x), Add(x3, a))) == a
  {
  }

  lemma Cancels1(a: bv8, x: bv8, x2: bv8, x3: bv8, x4: bv8)
    ensures Add4(Add(Add(Add(x4, x3), x2), Add(Add(x3, x2), x)), Add(Add(x4, x2), x),
                 Add(Add(x3, x2), a), Add(x3, a)) == 0
  {
  }

  lemma Cancels2(a: bv8, x: bv8, x2: bv8, x3: bv8, x4: bv8)
    ensures Add4(Add(Add(x3, x2), x), Add(Add(Add(x4, x2), x), Add(Add(x3, x), a)),
                 Add(Add(x4, x3), x), Add(x3, a)) == 0
  {
  }

  lemma Cancels3(a: bv8, x: bv8, x2: bv8, x3: bv8, x4: bv8)
    ensures Add4(Add(Add(x3, x2), x), Add(Add(x3, x), a),
                 Add(Add(Add(x4, x3), x), Add(Add(x3, x2), a)), Add(x4, x)) == 0
  {
    hide Add;
    CancelsRotated(a, x, x2, x3, x4);
    Rotated(Add(Add(x3, x2), x), Add(Add(x3, x), a), Add(Add(Add(x4, x3), x), Add(Add(x3, x2), a)), Add(x4, x));
  }

  lemma CancelsRotated(a: bv8, x: bv8, x2: bv8, x3: bv8, x4: bv8)
    ensures Add4(Add(Add(Add(x4, x3), x), Add(Add(x3, x2), a)), Add(x4, x),
                 Add(Add(x3, x2), x), Add(Add(x3, x), a)) == 0
  {
  }

  /** The coefficients of the product of the two polynomials are {01}, and three times {00}. */
  lemma Coefficients(a: bv8)
    ensures Add4(Mul(0x0E, Xtime(a)), Mul(0x0B, a), Mul(0x0D, a), Mul(0x09, Add(Xtime(a), a))) == a
    ensures Add4(Mul(0x0E, Add(Xtime(a), a)), Mul(0x0B, Xtime(a)), Mul(0x0D, a), Mul(0x09, a)) == 0
    ensures Add4(Mul(0x0E, a), Mul(0x0B, Add(Xtime(a), a)), Mul(0x0D, Xtime(a)), Mul(0x09, a)) == 0
    ensures Add4(Mul(0x0E, a), Mul(0x0B, a), Mul(0x0D, Add(Xtime(a), a)), Mul(0x09, Xtime(a))) == 0
  {
    hide Mul, Xtime, Add;
    var x := Xtime(a);
    var x2 := Xtime(x);
    var x3 := Xtime(x2);
    Products(a);
    Products(x);
    Distributes(x, a);
    var x4 := Xtime(x3);
    Cancels0(a, x, x2, x3, x4);
    Cancels1(a, x, x2, x3, x4);
    Cancels2(a, x, x2, x3, x4);
    Cancels3(a, x, x2, x3, x4);
  }

  /** Adding two sums of four. */
  lemma AddSums(a: bv8, b: bv8, c: bv8, d: bv8, e: bv8, f: bv8, g: bv8, h: bv8)
    ensures Add(Add4(a, b, c, d), Add4(e, f, g, h)) == Add4(Add(a, e), Add(b, f), Add(c, g), Add(d, h))
  {
    hide Add;
    Swap(a, b, e, f);
    Swap(Add(a, b), c, Add(e, f), g);
    Swap(Add(Add(a, b), c), d, Add(Add(e, f), g), h);
  }

  /** A sum of sixteen, by rows and by columns. */
  lemma Regroup(a0: bv8, b0: bv8, c0: bv8, d0: bv8, a1: bv8, b1: bv8, c1: bv8, d1: bv8,
                a2: bv8, b2: bv8, c2: bv8, d2: bv8, a3: bv8, b3: bv8, c3: bv8, d3: bv8)
    ensures Add4(Add4(a0, b0, c0, d0), Add4(b1, c1, d1, a1), Add4(c2, d2, a2, b2), Add4(d3, a3, b3, c3))
         == Add4(Add4(a0, a1, a2, a3), Add4(b0, b1, b2, b3), Add4(c0, c1, c2, c3), Add4(d0, d1, d2, d3))
  {
    hide Add;
    Rotated(a1, b1, c1, d1);
    Rotated(a2, b2, c2, d2);
    Rotated(a3, b3, c3, d3);
    AddSums(a0, b0, c0, d0, a1, b1, c1, d1);
    AddSums(Add(a0, a1), Add(b0, b1), Add(c0, c1), Add(d0, d1), a2, b2, c2, d2);
    AddSums(Add(Add(a0, a1), a2), Add(Add(b0, b1), b2), Add(Add(c0, c1), c2), Add(Add(d0, d1), d2), a3, b3, c3, d3);
  }

  lemma AddZeros(a: bv8)
    ensures Add4(a, 0, 0, 0) == a
  {
  }

  lemma InvMixByteUndoes(a: bv8, b: bv8, c: bv8, d: bv8)
    ensures InvMixByte(MixByte(a, b, c, d), MixByte(b, c, d, a), MixByte(c, d, a, b), MixByte(d, a, b, c)) == a
  {
    hide Mul, Xtime, Add;
    var a2, b2, c2, d2 := Xtime(a), Xtime(b), Xtime(c), Xtime(d);
    var a3, b3, c3, d3 := Add(a2, a), Add(b2, b), Add(c2, c), Add(d2, d);
    DistributesSum(a2, b3, c, d);
    DistributesSum(b2, c3, d, a);
    DistributesSum(c2, d3, a, b);
    DistributesSum(d2, a3, b, c);
    Coefficients(a);
    Coefficients(b);
    Coefficients(c);
    Coefficients(d);
    Regroup(Mul(0x0E, a2), Mul(0x0E, b3), Mul(0x0E, c), Mul(0x0E, d),
            Mul(0x0B, a), Mul(0x0B, b2), Mul(0x0B, c3), Mul(0x0B, d),
            Mul(0x0D, a), Mul(0x0D, b), Mul(0x0D, c2), Mul(0x0D, d3),
            Mul(0x09, a3), Mul(0x09, b), Mul(0x09, c), Mul(0x09, d2));
    AddZeros(a);
  }

  // ----- the inverse s-box, section 5.3.2 -----

  /** The inverse of the s-box, figure 14 of FIPS 197. */
  const INV_SBOX: seq<seq<bv8>> := [
    [0x52, 0x09, 0x6A, 0xD5, 0x30, 0x36, 0xA5, 0x38, 0xBF, 0x40, 0xA3, 0x9E, 0x81, 0xF3, 0xD7, 0xFB],
    [0x7C, 0xE3, 0x39, 0x82, 0x9B, 0x2F, 0xFF, 0x87, 0x34, 0x8E, 0x43, 0x44, 0xC4, 0xDE, 0xE9, 0xCB],
    [0x54, 0x7B, 0x94, 0x32, 0xA6, 0xC2, 0x23, 0x3D, 0xEE, 0x4C, 0x95, 0x0B, 0x42, 0xFA, 0xC3, 0x4E],
    [0x08, 0x2E, 0xA1, 0x66, 0x28, 0xD9, 0x24, 0xB2, 0x76, 0x5B, 0xA2, 0x49, 0x6D, 0x8B, 0xD1, 0x25],
    [0x72, 0xF8, 0xF6, 0x64, 0x86, 0x68, 0x98, 0x16, 0xD4, 0xA4, 0x5C, 0xCC, 0x5D, 0x65, 0xB6, 0x92],
    [0x6C, 0x70, 0x48, 0x50, 0xFD, 0xED, 0xB9, 0xDA, 0x5E, 0x15, 0x46, 0x57, 0xA7, 0x8D, 0x9D, 0x84],
    [0x90, 0xD8, 0xAB, 0x00, 0x8C, 0xBC, 0xD3, 0x0A, 0xF7, 0xE4, 0x58, 0x05, 0xB8, 0xB3, 0x45, 0x06],
    [0xD0, 0x2C, 0x1E, 0x8F, 0xCA, 0x3F, 0x0F, 0x02, 0xC1, 0xAF, 0xBD, 0x03, 0x01, 0x13, 0x8A, 0x6B],
    [0x3A, 0x91, 0x11, 0x41, 0x4F, 0x67, 0xDC, 0xEA, 0x97, 0xF2, 0xCF, 0xCE, 0xF0, 0xB4, 0xE6, 0x73],
    [0x96, 0xAC, 0x74, 0x22, 0xE7, 0xAD, 0x35, 0x85, 0xE2, 0xF9, 0x37, 0xE8, 0x1C, 0x75, 0xDF, 0x6E],
    [0x47, 0xF1, 0x1A, 0x71, 0x1D, 0x29, 0xC5, 0x89, 0x6F, 0xB7, 0x62, 0x0E, 0xAA, 0x18, 0xBE, 0x1B],
    [0xFC, 0x56, 0x3E, 0x4B, 0xC6, 0xD2, 0x79, 0x20, 0x9A, 0xDB, 0xC0, 0xFE, 0x78, 0xCD, 0x5A, 0xF4],
    [0x1F, 0xDD, 0xA8, 0x33, 0x88, 0x07, 0xC7, 0x31, 0xB1, 0x12, 0x10, 0x59, 0x27, 0x80, 0xEC, 0x5F],
    [0x60, 0x51, 0x7F, 0xA9, 0x19, 0xB5, 0x4A, 0x0D, 0x2D, 0xE5, 0x7A, 0x9F, 0x93, 0xC9, 0x9C, 0xEF],
    [0xA0, 0xE0, 0x3B, 0x4D, 0xAE, 0x2A, 0xF5, 0xB0, 0xC8, 0xEB, 0xBB, 0x3C, 0x83, 0x53, 0x99, 0x61],
    [0x17, 0x2B, 0x04, 0x7E, 0xBA, 0x77, 0xD6, 0x26, 0xE1, 0x69, 0x14, 0x63, 0x55, 0x21, 0x0C, 0x7D]]

  lemma InvShape(r: nat)
    requires r < 16
    ensures |INV_SBOX| == 16 && |INV_SBOX[r]| == 16
  {
  }

  function InvSbox(b: bv8): bv8 {
    InvShape((b >> 4) as nat);
    INV_SBOX[(b >> 4) as nat][(b & 0x0F) as nat]
  }

  lemma SboxAtIs(b: bv8, r: nat, c: nat)
    requires r < 16 && c < 16 && b as nat == 16 * r + c
    ensures |SBOX| == 16 && |SBOX[r]| == 16 && Sbox(b) == SBOX[r][c]
  {
    TableShape(r);
    Quotient(r, 16, c);
    assert b as nat / 16 == r && b as nat % 16 == c;
  }

  /** The entries of one row of the s-box, by their high nibble. */
  lemma SboxLow(r: nat, h: bv8)
    requires r < 16 && h as nat == 16 * r
    ensures |SBOX| == 16 && |SBOX[r]| == 16
    ensures Sbox(h + 0) == SBOX[r][0] && Sbox(h + 1) == SBOX[r][1]
    ensures Sbox(h + 2) == SBOX[r][2] && Sbox(h + 3) == SBOX[r][3]
    ensures Sbox(h + 4) == SBOX[r][4] && Sbox(h + 5) == SBOX[r][5]
    ensures Sbox(h + 6) == SBOX[r][6] && Sbox(h + 7) == SBOX[r][7]
  {
    hide Sbox;
    SboxAtIs(h + 0, r, 0);
    SboxAtIs(h + 1, r, 1);
    SboxAtIs(h + 2, r, 2);
    SboxAtIs(h + 3, r, 3);
    SboxAtIs(h + 4, r, 4);
    SboxAtIs(h + 5, r, 5);
    SboxAtIs(h + 6, r, 6);
    SboxAtIs(h + 7, r, 7);
  }

  lemma SboxHigh(r: nat, h: bv8)
    requires r < 16 && h as nat == 16 * r
    ensures |SBOX| == 16 && |SBOX[r]| == 16
    ensures Sbox(h + 8) == SBOX[r][8] && Sbox(h + 9) == SBOX[r][9]
    ensures Sbox(h + 10) == SBOX[r][10] && Sbox(h + 11) == SBOX[r][11]
    ensures Sbox(h + 12) == SBOX[r][12] && Sbox(h + 13) == SBOX[r][13]
    ensures Sbox(h + 14) == SBOX[r][14] && Sbox(h + 15) == SBOX[r][15]
  {
    hide Sbox;
    SboxAtIs(h + 8, r, 8);
    SboxAtIs(h + 9, r, 9);
    SboxAtIs(h + 10, r, 10);
    SboxAtIs(h + 11, r, 11);
    SboxAtIs(h + 12, r, 12);
    SboxAtIs(h + 13, r, 13);
    SboxAtIs(h + 14, r, 14);
    SboxAtIs(h + 15, r, 15);
  }

  /** The s-box takes a to b, and its inverse b to a. */
  predicate Pair(a: bv8, b: bv8) {
    Sbox(a) == b && InvSbox(b) == a
  }

  lemma Values0()
    ensures Pair(0x00, 0x63) && Pair(0x01, 0x7C) && Pair(0x02, 0x77) && Pair(0x03, 0x7B)
    ensures Pair(0x04, 0xF2) && Pair(0x05, 0x6B) && Pair(0x06, 0x6F) && Pair(0x07, 0xC5)
    ensures Pair(0x08, 0x30) && Pair(0x09, 0x01) && Pair(0x0A, 0x67) && Pair(0x0B, 0x2B)
    ensures Pair(0x0C, 0xFE) && Pair(0x0D, 0xD7) && Pair(0x0E, 0xAB) && Pair(0x0F, 0x76)
  {
    hide Sbox;
    SboxHigh(0, 0x00);
    SboxLow(0, 0x00);
  }

  lemma Values1()
    ensures Pair(0x10, 0xCA) && Pair(0x11, 0x82) && Pair(0x12, 0xC9) && Pair(0x13, 0x7D)
    ensures Pair(0x14, 0xFA) && Pair(0x15, 0x59) && Pair(0x16, 0x47) && Pair(0x17, 0xF0)
    ensures Pair(0x18, 0xAD) && Pair(0x19, 0xD4) && Pair(0x1A, 0xA2) && Pair(0x1B, 0xAF)
    ensures Pair(0x1C, 0x9C) && Pair(0x1D, 0xA4) && Pair(0x1E, 0x72) && Pair(0x1F, 0xC0)
  {
    hide Sbox;
    SboxHigh(1, 0x10);
    SboxLow(1, 0x10);
  }

  lemma Values2()
    ensures Pair(0x20, 0xB7) && Pair(0x21, 0xFD) && Pair(0x22, 0x93) && Pair(0x23, 0x26)
    ensures Pair(0x24, 0x36) && Pair(0x25, 0x3F) && Pair(0x26, 0xF7) && Pair(0x27, 0xCC)
    ensures Pair(0x28, 0x34) && Pair(0x29, 0xA5) && Pair(0x2A, 0xE5) && Pair(0x2B, 0xF1)
    ensures Pair(0x2C, 0x71) && Pair(0x2D, 0xD8) && Pair(0x2E, 0x31) && Pair(0x2F, 0x15)
  {
    hide Sbox;
    SboxHigh(2, 0x20);
    SboxLow(2, 0x20);
  }

  lemma Values3()
    ensures Pair(0x30, 0x04) && Pair(0x31, 0xC7) && Pair(0x32, 0x23) && Pair(0x33, 0xC3)
    ensures Pair(0x34, 0x18) && Pair(0x35, 0x96) && Pair(0x36, 0x05) && Pair(0x37, 0x9A)
    ensures Pair(0x38, 0x07) && Pair(0x39, 0x12) && Pair(0x3A, 0x80) && Pair(0x3B, 0xE2)
    ensures Pair(0x3C, 0xEB) && Pair(0x3D, 0x27) && Pair(0x3E, 0xB2) && Pair(0x3F, 0x75)
  {
    hide Sbox;
    SboxHigh(3, 0x30);
    SboxLow(3, 0x30);
  }

  lemma Values4()
    ensures Pair(0x40, 0x09) && Pair(0x41, 0x83) && Pair(0x42, 0x2C) && Pair(0x43, 0x1A)
    ensures Pair(0x44, 0x1B) && Pair(0x45, 0x6E) && Pair(0x46, 0x5A) && Pair(0x47, 0xA0)
    ensures Pair(0x48, 0x52) && Pair(0x49, 0x3B) && Pair(0x4A, 0xD6) && Pair(0x4B, 0xB3)
    ensures Pair(0x4C, 0x29) && Pair(0x4D, 0xE3) && Pair(0x4E, 0x2F) && Pair(0x4F, 0x84)
  {
    hide Sbox;
    SboxHigh(4, 0x40);
    SboxLow(4, 0x40);
  }

  lemma Values5()
    ensures Pair(0x50, 0x53) && Pair(0x51, 0xD1) && Pair(0x52, 0x00) && Pair(0x53, 0xED)
    ensures Pair(0x54, 0x20) && Pair(0x55, 0xFC) && Pair(0x56, 0xB1) && Pair(0x57, 0x5B)
    ensures Pair(0x58, 0x6A) && Pair(0x59, 0xCB) && Pair(0x5A, 0xBE) && Pair(0x5B, 0x39)
    ensures Pair(0x5C, 0x4A) && Pair(0x5D, 0x4C) && Pair(0x5E, 0x58) && Pair(0x5F, 0xCF)
  {
    hide Sbox;
    SboxHigh(5, 0x50);
    SboxLow(5, 0x50);
  }

  lemma Values6()
    ensures Pair(0x60, 0xD0) && Pair(0x61, 0xEF) && Pair(0x62, 0xAA) && Pair(0x63, 0xFB)
    ensures Pair(0x64, 0x43) && Pair(0x65, 0x4D) && Pair(0x66, 0x33) && Pair(0x67, 0x85)
    ensures Pair(0x68, 0x45) && Pair(0x69, 0xF9) && Pair(0x6A, 0x02) && Pair(0x6B, 0x7F)
    ensures Pair(0x6C, 0x50) && Pair(0x6D, 0x3C) && Pair(0x6E, 0x9F) && Pair(0x6F, 0xA8)
  {
    hide Sbox;
    SboxHigh(6, 0x60);
    SboxLow(6, 0x60);
  }

  lemma Values7()
    ensures Pair(0x70, 0x51) && Pair(0x71, 0xA3) && Pair(0x72, 0x40) && Pair(0x73, 0x8F)
    ensures Pair(0x74, 0x92) && Pair(0x75, 0x9D) && Pair(0x76, 0x38) && Pair(0x77, 0xF5)
    ensures Pair(0x78, 0xBC) && Pair(0x79, 0xB6) && Pair(0x7A, 0xDA) && Pair(0x7B, 0x21)
    ensures Pair(0x7C, 0x10) && Pair(0x7D, 0xFF) && Pair(0x7E, 0xF3) && Pair(0x7F, 0xD2)
  {
    hide Sbox;
    SboxHigh(7, 0x70);
    SboxLow(7, 0x70);
  }

  lemma Values8()
    ensures Pair(0x80, 0xCD) && Pair(0x81, 0x0C) && Pair(0x82, 0x13) && Pair(0x83, 0xEC)
    ensures Pair(0x84, 0x5F) && Pair(0x85, 0x97) && Pair(0x86, 0x44) && Pair(0x87, 0x17)
    ensures Pair(0x88, 0xC4) && Pair(0x89, 0xA7) && Pair(0x8A, 0x7E) && Pair(0x8B, 0x3D)
    ensures Pair(0x8C, 0x64) && Pair(0x8D, 0x5D) && Pair(0x8E, 0x19) && Pair(0x8F, 0x73)
  {
    hide Sbox;
    SboxHigh(8, 0x80);
    SboxLow(8, 0x80);
  }

  lemma Values9()
    ensures Pair(0x90, 0x60) && Pair(0x91, 0x81) && Pair(0x92, 0x4F) && Pair(0x93, 0xDC)
    ensures Pair(0x94, 0x22) && Pair(0x95, 0x2A) && Pair(0x96, 0x90) && Pair(0x97, 0x88)
    ensures Pair(0x98, 0x46) && Pair(0x99, 0xEE) && Pair(0x9A, 0xB8) && Pair(0x9B, 0x14)
    ensures Pair(0x9C, 0xDE) && Pair(0x9D, 0x5E) && Pair(0x9E, 0x0B) && Pair(0x9F, 0xDB)
  {
    hide Sbox;
    SboxHigh(9, 0x90);
    SboxLow(9, 0x90);
  }

  lemma Values10()
    ensures Pair(0xA0, 0xE0) && Pair(0xA1, 0x32) && Pair(0xA2, 0x3A) && Pair(0xA3, 0x0A)
    ensures Pair(0xA4, 0x49) && Pair(0xA5, 0x06) && Pair(0xA6, 0x24) && Pair(0xA7, 0x5C)
    ensures Pair(0xA8, 0xC2) && Pair(0xA9, 0xD3) && Pair(0xAA, 0xAC) && Pair(0xAB, 0x62)
    ensures Pair(0xAC, 0x91) && Pair(0xAD, 0x95) && Pair(0xAE, 0xE4) && Pair(0xAF, 0x79)
  {
    hide Sbox;
    SboxHigh(10, 0xA0);
    SboxLow(10, 0xA0);
  }

  lemma Values11()
    ensures Pair(0xB0, 0xE7) && Pair(0xB1, 0xC8) && Pair(0xB2, 0x37) && Pair(0xB3, 0x6D)
    ensures Pair(0xB4, 0x8D) && Pair(0xB5, 0xD5) && Pair(0xB6, 0x4E) && Pair(0xB7, 0xA9)
    ensures Pair(0xB8, 0x6C) && Pair(0xB9, 0x56) && Pair(0xBA, 0xF4) && Pair(0xBB, 0xEA)
    ensures Pair(0xBC, 0x65) && Pair(0xBD, 0x7A) && Pair(0xBE, 0xAE) && Pair(0xBF, 0x08)
  {
    hide Sbox;
    SboxHigh(11, 0xB0);
    SboxLow(11, 0xB0);
  }

  lemma Values12()
    ensures Pair(0xC0, 0xBA) && Pair(0xC1, 0x78) && Pair(0xC2, 0x25) && Pair(0xC3, 0x2E)
    ensures Pair(0xC4, 0x1C) && Pair(0xC5, 0xA6) && Pair(0xC6, 0xB4) && Pair(0xC7, 0xC6)
    ensures Pair(0xC8, 0xE8) && Pair(0xC9, 0xDD) && Pair(0xCA, 0x74) && Pair(0xCB, 0x1F)
    ensures Pair(0xCC, 0x4B) && Pair(0xCD, 0xBD) && Pair(0xCE, 0x8B) && Pair(0xCF, 0x8A)
  {
    hide Sbox;
    SboxHigh(12, 0xC0);
    SboxLow(12, 0xC0);
  }

  lemma Values13()
    ensures Pair(0xD0, 0x70) && Pair(0xD1, 0x3E) && Pair(0xD2, 0xB5) && Pair(0xD3, 0x66)
    ensures Pair(0xD4, 0x48) && Pair(0xD5, 0x03) && Pair(0xD6, 0xF6) && Pair(0xD7, 0x0E)
    ensures Pair(0xD8, 0x61) && Pair(0xD9, 0x35) && Pair(0xDA, 0x57) && Pair(0xDB, 0xB9)
    ensures Pair(0xDC, 0x86) && Pair(0xDD, 0xC1) && Pair(0xDE, 0x1D) && Pair(0xDF, 0x9E)
  {
    hide Sbox;
    SboxHigh(13, 0xD0);
    SboxLow(13, 0xD0);
  }

  lemma Values14()
    ensures Pair(0xE0, 0xE1) && Pair(0xE1, 0xF8) && Pair(0xE2, 0x98) && Pair(0xE3, 0x11)
    ensures Pair(0xE4, 0x69) && Pair(0xE5, 0xD9) && Pair(0xE6, 0x8E) && Pair(0xE7, 0x94)
    ensures Pair(0xE8, 0x9B) && Pair(0xE9, 0x1E) && Pair(0xEA, 0x87) && Pair(0xEB, 0xE9)
    ensures Pair(0xEC, 0xCE) && Pair(0xED, 0x55) && Pair(0xEE, 0x28) && Pair(0xEF, 0xDF)
  {
    hide Sbox;
    SboxHigh(14, 0xE0);
    SboxLow(14, 0xE0);
  }

  lemma Values15()
    ensures Pair(0xF0, 0x8C) && Pair(0xF1, 0xA1) && Pair(0xF2, 0x89) && Pair(0xF3, 0x0D)
    ensures Pair(0xF4, 0xBF) && Pair(0xF5, 0xE6) && Pair(0xF6, 0x42) && Pair(0xF7, 0x68)
    ensures Pair(0xF8, 0x41) && Pair(0xF9, 0x99) && Pair(0xFA, 0x2D) && Pair(0xFB, 0x0F)
    ensures Pair(0xFC, 0xB0) && Pair(0xFD, 0x54) && Pair(0xFE, 0xBB) && Pair(0xFF, 0x16)
  {
    hide Sbox;
    SboxHigh(15, 0xF0);
    SboxLow(15, 0xF0);
  }

  predicate Undone(b: bv8) {
    InvSbox(Sbox(b)) == b
  }

  /** One byte of sixteen. */
  lemma OneOf(h: bv8, b: bv8)
    requires b >> 4 == h >> 4 && h & 0x0F == 0
    requires Undone(h + 0) && Undone(h + 1) && Undone(h + 2) && Undone(h + 3)
    requires Undone(h + 4) && Undone(h + 5) && Undone(h + 6) && Undone(h + 7)
    requires Undone(h + 8) && Undone(h + 9) && Undone(h + 10) && Undone(h + 11)
    requires Undone(h + 12) && Undone(h + 13) && Undone(h + 14) && Undone(h + 15)
    ensures Undone(b)
  {
    hide Undone;
    var low := b & 0x0F;
    assert b == h + low;
    if low == 0 {
    } else if low == 1 {
    } else if low == 2 {
    } else if low == 3 {
    } else if low == 4 {
    } else if low == 5 {
    } else if low == 6 {
    } else if low == 7 {
    } else if low == 8 {
    } else if low == 9 {
    } else if low == 10 {
    } else if low == 11 {
    } else if low == 12 {
    } else if low == 13 {
    } else if low == 14 {
    } else {
      assert low == 15;
    }
  }

  lemma LowUndone(b: bv8)
    requires b < 0x80
    ensures Undone(b)
  {
    hide Sbox, InvSbox;
    var high := b >> 4;
    if high == 0 {
      Values0();
      OneOf(0x00, b);
    } else if high == 1 {
      Values1();
      OneOf(0x10, b);
    } else if high == 2 {
      Values2();
      OneOf(0x20, b);
    } else if high == 3 {
      Values3();
      OneOf(0x30, b);
    } else if high == 4 {
      Values4();
      OneOf(0x40, b);
    } else if high == 5 {
      Values5();
      OneOf(0x50, b);
    } else if high == 6 {
      Values6();
      OneOf(0x60, b);
    } else {
      assert high == 7;
      Values7();
      OneOf(0x70, b);
    }
  }

  lemma HighUndone(b: bv8)
    requires b >= 0x80
    ensures Undone(b)
  {
    hide Sbox, InvSbox;
    var high := b >> 4;
    if high == 8 {
      Values8();
      OneOf(0x80, b);
    } else if high == 9 {
      Values9();
      OneOf(0x90, b);
    } else if high == 10 {
      Values10();
      OneOf(0xA0, b);
    } else if high == 11 {
      Values11();
      OneOf(0xB0, b);
    } else if high == 12 {
      Values12();
      OneOf(0xC0, b);
    } else if high == 13 {
      Values13();
      OneOf(0xD0, b);
    } else if high == 14 {
      Values14();
      OneOf(0xE0, b);
    } else {
      assert high == 15;
      Values15();
      OneOf(0xF0, b);
    }
  }

  /** The inverse s-box undoes the s-box. */
  lemma InvSboxUndoes(b: bv8)
    ensures InvSbox(Sbox(b)) == b
  {
    hide Sbox, InvSbox;
    if b < 0x80 {
      LowUndone(b);
    } else {
      HighUndone(b);
    }
  }

  // ----- the inverse of a round -----

  function InvSubBytes(s: seq<bv8>): (t: seq<bv8>)
    requires |s| == BLOCK
    ensures |t| == BLOCK
  {
    seq(BLOCK, i requires 0 <= i < BLOCK => InvSbox(s[i]))
  }

  /** Row r is rotated right by r columns, section 5.3.1. */
  function InvShiftRows(s: seq<bv8>): (t: seq<bv8>)
    requires |s| == BLOCK
    ensures |t| == BLOCK
  {
    seq(BLOCK, i requires 0 <= i < BLOCK => s[i % 4 + 4 * ((i / 4 + 4 - i % 4) % 4)])
  }

  function InvMixColumn(a: bv8, b: bv8, c: bv8, d: bv8): (t: seq<bv8>)
    ensures |t| == 4
  {
    [InvMixByte(a, b, c, d), InvMixByte(b, c, d, a), InvMixByte(c, d, a, b), InvMixByte(d, a, b, c)]
  }

  function InvMixColumns(s: seq<bv8>): (t: seq<bv8>)
    requires |s| == BLOCK
    ensures |t| == BLOCK
  {
    InvMixColumn(s[0], s[1], s[2], s[3]) + InvMixColumn(s[4], s[5], s[6], s[7])
    + InvMixColumn(s[8], s[9], s[10], s[11]) + InvMixColumn(s[12], s[13], s[14], s[15])
  }

  lemma SubBytesUndone(s: seq<bv8>)
    requires |s| == BLOCK
    ensures InvSubBytes(SubBytes(s)) == s
  {
    hide Sbox, InvSbox;
    forall i | 0 <= i < BLOCK
      ensures InvSubBytes(SubBytes(s))[i] == s[i]
    {
      InvSboxUndoes(s[i]);
    }
  }

  lemma ShiftRowsUndone(s: seq<bv8>)
    requires |s| == BLOCK
    ensures InvShiftRows(ShiftRows(s)) == s
  {
    hide ShiftRows, InvShiftRows;
    forall i | 0 <= i < BLOCK
      ensures InvShiftRows(ShiftRows(s))[i] == s[i]
    {
      ByteBack(s, i);
    }
  }

  lemma ByteBack(s: seq<bv8>, i: nat)
    requires |s| == BLOCK && i < BLOCK
    ensures InvShiftRows(ShiftRows(s))[i] == s[i]
  {
    RowBack(i % 4, i / 4);
  }

  /** Rotating row r to the right brings column c back to where it was. */
  lemma RowBack(r: nat, c: nat)
    requires r < 4 && c < 4
    ensures var j := r + 4 * ((c + 4 - r) % 4);
            j < BLOCK && j % 4 == r && j / 4 == (c + 4 - r) % 4 && ((c + 4 - r) % 4 + r) % 4 == c
  {
  }

  lemma MixColumnUndone(a: bv8, b: bv8, c: bv8, d: bv8)
    ensures var m := MixColumn(a, b, c, d);
            InvMixColumn(m[0], m[1], m[2], m[3]) == [a, b, c, d]
  {
    hide MixByte, InvMixByte;
    InvMixByteUndoes(a, b, c, d);
    InvMixByteUndoes(b, c, d, a);
    InvMixByteUndoes(c, d, a, b);
    InvMixByteUndoes(d, a, b, c);
  }

  /** Mixing columns with the inverse polynomial undoes mixing them, section 5.3.3. */
  lemma MixColumnsUndone(s: seq<bv8>)
    requires |s| == BLOCK
    ensures InvMixColumns(MixColumns(s)) == s
  {
    hide MixColumn, InvMixColumn;
    MixColumnUndone(s[0], s[1], s[2], s[3]);
    MixColumnUndone(s[4], s[5], s[6], s[7]);
    MixColumnUndone(s[8], s[9], s[10], s[11]);
    MixColumnUndone(s[12], s[13], s[14], s[15]);
    FourColumns(InvMixColumns(MixColumns(s)), s);
  }

  lemma AddTwice(a: bv8, b: bv8)
    ensures Add(Add(a, b), b) == a
  {
  }

  lemma XorUndone(s: seq<bv8>, k: seq<bv8>)
    requires |s| == |k|
    ensures Xor(Xor(s, k), k) == s
  {
    hide Add;
    forall i | 0 <= i < |s|
      ensures Xor(Xor(s, k), k)[i] == s[i]
    {
      AddTwice(s[i], k[i]);
    }
  }

  // ----- the inverse cipher -----

  /** The state after the rounds from the last one down to round n. */
  function InvRounds(t: seq<bv8>, w: seq<bv8>, n: nat): (s: seq<bv8>)
    requires |t| == BLOCK && |w| == EXPANDED && 1 <= n <= ROUNDS
    ensures |s| == BLOCK
    decreases ROUNDS - n
  {
    if n == ROUNDS then Xor(t, RoundKey(w, ROUNDS))
    else InvMixColumns(Xor(InvSubBytes(InvShiftRows(InvRounds(t, w, n + 1))), RoundKey(w, n)))
  }

  function InvCipher(t: seq<bv8>, w: seq<bv8>): (s: seq<bv8>)
    requires |t| == BLOCK && |w| == EXPANDED
    ensures |s| == BLOCK
  {
    Xor(InvSubBytes(InvShiftRows(InvRounds(t, w, 1))), RoundKey(w, 0))
  }

  lemma {:induction false} RoundsUndone(s: seq<bv8>, w: seq<bv8>, n: nat)
    requires |s| == BLOCK && |w| == EXPANDED && 1 <= n <= ROUNDS
    ensures InvRounds(Cipher(s, w), w, n) == ShiftRows(SubBytes(Rounds(s, w, n - 1)))
    decreases ROUNDS - n
  {
    hide Xor, MixColumns, InvMixColumns, ShiftRows, InvShiftRows, SubBytes, InvSubBytes, Rounds, Cipher, RoundKey;
    if n == ROUNDS {
      LastRound(s, w);
      XorUndone(ShiftRows(SubBytes(Rounds(s, w, ROUNDS - 1))), RoundKey(w, ROUNDS));
    } else {
      RoundsUndone(s, w, n + 1);
      NextRound(s, w, n);
      var r, before := Rounds(s, w, n), ShiftRows(SubBytes(Rounds(s, w, n - 1)));
      ShiftRowsUndone(SubBytes(r));
      SubBytesUndone(r);
      XorUndone(MixColumns(before), RoundKey(w, n));
      MixColumnsUndone(before);
    }
  }

  /** The inverse cipher of section 5.3 undoes the cipher, for every block and every schedule. */
  lemma CipherUndone(s: seq<bv8>, w: seq<bv8>)
    requires |s| == BLOCK && |w| == EXPANDED
    ensures InvCipher(Cipher(s, w), w) == s
  {
    hide Xor, ShiftRows, InvShiftRows, SubBytes, InvSubBytes, Rounds, Cipher, RoundKey, InvRounds;
    RoundsUndone(s, w, 1);
    FirstRound(s, w);
    var r := Rounds(s, w, 0);
    ShiftRowsUndone(SubBytes(r));
    SubBytesUndone(r);
    XorUndone(s, RoundKey(w, 0));
  }
}
