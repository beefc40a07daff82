/**
  The example vector of appendix C.1 of FIPS 197: the cipher that boot_aes.c computes takes the
  published plaintext, under the published key, to the published ciphertext.
*/
module AesVector {

  import opened AesTables
  import opened Aes
  import opened AesInverse

  const WORDS: nat := KEYCOLS * (ROUNDS + 1)

  const KEY: seq<bv8> := [
    0x00, 0x01, 0x02, 0x03, 0x04, 0x05, 0x06, 0x07, 0x08, 0x09, 0x0A, 0x0B, 0x0C, 0x0D, 0x0E, 0x0F]

  const PLAINTEXT: seq<bv8> := [
    0x00, 0x11, 0x22, 0x33, 0x44, 0x55, 0x66, 0x77, 0x88, 0x99, 0xAA, 0xBB, 0xCC, 0xDD, 0xEE, 0xFF]

  const CIPHERTEXT: seq<bv8> := [
    0x69, 0xC4, 0xE0, 0xD8, 0x6A, 0x7B, 0x04, 0x30, 0xD8, 0xCD, 0xB7, 0x80, 0x70, 0xB4, 0xC5, 0x5A]

  // ----- the round keys, k_sch of the appendix -----

  const KEY1: seq<bv8> := [
    0xD6, 0xAA, 0x74, 0xFD, 0xD2, 0xAF, 0x72, 0xFA, 0xDA, 0xA6, 0x78, 0xF1, 0xD6, 0xAB, 0x76, 0xFE]
  const KEY2: seq<bv8> := [
    0xB6, 0x92, 0xCF, 0x0B, 0x64, 0x3D, 0xBD, 0xF1, 0xBE, 0x9B, 0xC5, 0x00, 0x68, 0x30, 0xB3, 0xFE]
  const KEY3: seq<bv8> := [
    0xB6, 0xFF, 0x74, 0x4E, 0xD2, 0xC2, 0xC9, 0xBF, 0x6C, 0x59, 0x0C, 0xBF, 0x04, 0x69, 0xBF, 0x41]
  const KEY4: seq<bv8> := [
    0x47, 0xF7, 0xF7, 0xBC, 0x95, 0x35, 0x3E, 0x03, 0xF9, 0x6C, 0x32, 0xBC, 0xFD, 0x05, 0x8D, 0xFD]
  const KEY5: seq<bv8> := [
    0x3C, 0xAA, 0xA3, 0xE8, 0xA9, 0x9F, 0x9D, 0xEB, 0x50, 0xF3, 0xAF, 0x57, 0xAD, 0xF6, 0x22, 0xAA]
  const KEY6: seq<bv8> := [
    0x5E, 0x39, 0x0F, 0x7D, 0xF7, 0xA6, 0x92, 0x96, 0xA7, 0x55, 0x3D, 0xC1, 0x0A, 0xA3, 0x1F, 0x6B]
  const KEY7: seq<bv8> := [
    0x14, 0xF9, 0x70, 0x1A, 0xE3, 0x5F, 0xE2, 0x8C, 0x44, 0x0A, 0xDF, 0x4D, 0x4E, 0xA9, 0xC0, 0x26]
  const KEY8: seq<bv8> := [
    0x47, 0x43, 0x87, 0x35, 0xA4, 0x1C, 0x65, 0xB9, 0xE0, 0x16, 0xBA, 0xF4, 0xAE, 0xBF, 0x7A, 0xD2]
  const KEY9: seq<bv8> := [
    0x54, 0x99, 0x32, 0xD1, 0xF0, 0x85, 0x57, 0x68, 0x10, 0x93, 0xED, 0x9C, 0xBE, 0x2C, 0x97, 0x4E]
  const KEY10: seq<bv8> := [
    0x13, 0x11, 0x1D, 0x7F, 0xE3, 0x94, 0x4A, 0x17, 0xF3, 0x07, 0xA7, 0x8B, 0x4D, 0x2B, 0x30, 0xC5]

  /** The words of round key r are the bytes of k. */
  ghost predicate Scheduled(r: nat, k: seq<bv8>) {
    && |k| == |KEY| == BLOCK
    && KeyWord(KEY, 4 * r) == [k[0], k[1], k[2], k[3]] && KeyWord(KEY, 4 * r + 1) == [k[4], k[5], k[6], k[7]]
    && KeyWord(KEY, 4 * r + 2) == [k[8], k[9], k[10], k[11]] && KeyWord(KEY, 4 * r + 3) == [k[12], k[13], k[14], k[15]]
  }

  /** The first word of the next round key, in terms of the one before. */
  predicate FirstWord(k: seq<bv8>, n: seq<bv8>, rcon: bv8)
    requires |k| == |n| == BLOCK
  {
    && n[0] == Add(k[0], Add(Sbox(k[13]), rcon)) && n[1] == Add(k[1], Sbox(k[14]))
    && n[2] == Add(k[2], Sbox(k[15])) && n[3] == Add(k[3], Sbox(k[12]))
  }

  /** The word at c of the next round key. */
  predicate WordSum(k: seq<bv8>, n: seq<bv8>, c: nat)
    requires |k| == |n| == BLOCK && c in {4, 8, 12}
  {
    && n[c] == Add(k[c], n[c - 4]) && n[c + 1] == Add(k[c + 1], n[c - 3])
    && n[c + 2] == Add(k[c + 2], n[c - 2]) && n[c + 3] == Add(k[c + 3], n[c - 1])
  }

  lemma NextFirst(r: nat, k: seq<bv8>, n: seq<bv8>)
    requires Scheduled(r, k) && |n| == BLOCK && FirstWord(k, n, RconByte(r + 1))
    ensures KeyWord(KEY, 4 * r + 4) == [n[0], n[1], n[2], n[3]]
  {
    hide Sbox, KeyWord, RconByte, Add, Temp;
    NextWord(KEY, 4 * r + 4);
    TempIs(KEY, 4 * r + 4);
  }

  lemma NextSum(i: nat, k: seq<bv8>, n: seq<bv8>, c: nat)
    requires |k| == |n| == |KEY| == BLOCK && c in {4, 8, 12} && WordSum(k, n, c) && 4 <= i && i % 4 != 0
    requires KeyWord(KEY, i - 4) == [k[c], k[c + 1], k[c + 2], k[c + 3]]
    requires KeyWord(KEY, i - 1) == [n[c - 4], n[c - 3], n[c - 2], n[c - 1]]
    ensures KeyWord(KEY, i) == [n[c], n[c + 1], n[c + 2], n[c + 3]]
  {
    hide Sbox, KeyWord, RconByte, Add, Temp;
    NextWord(KEY, i);
    TempIs(KEY, i);
  }

  lemma NextKey(r: nat, k: seq<bv8>, n: seq<bv8>)
    requires Scheduled(r, k) && |n| == BLOCK && FirstWord(k, n, RconByte(r + 1))
    requires WordSum(k, n, 4) && WordSum(k, n, 8) && WordSum(k, n, 12)
    ensures Scheduled(r + 1, n)
  {
    hide KeyWord, WordSum, FirstWord, RconByte;
    NextFirst(r, k, n);
    NextSum(4 * r + 5, k, n, 4);
    NextSum(4 * r + 6, k, n, 8);
    NextSum(4 * r + 7, k, n, 12);
  }

  lemma Key0()
    ensures Scheduled(0, KEY)
  {
  }

  lemma First1()
    ensures |KEY| == |KEY1| == BLOCK && FirstWord(KEY, KEY1, RconByte(1))
  {
    hide Sbox, InvSbox, RconByte;
    RconTable(1);
    Values0();
  }

  lemma Key1()
    ensures Scheduled(1, KEY1)
  {
    hide FirstWord, Scheduled, RconByte;
    Key0();
    First1();
    NextKey(0, KEY, KEY1);
  }

  lemma First2()
    ensures |KEY1| == |KEY2| == BLOCK && FirstWord(KEY1, KEY2, RconByte(2))
  {
    hide Sbox, InvSbox, RconByte;
    RconTable(2);
    Values7();
    Values10();
    Values13();
    Values15();
  }

  lemma Key2()
    ensures Scheduled(2, KEY2)
  {
    hide FirstWord, Scheduled, RconByte;
    Key1();
    First2();
    NextKey(1, KEY1, KEY2);
  }

  lemma First3()
    ensures |KEY2| == |KEY3| == BLOCK && FirstWord(KEY2, KEY3, RconByte(3))
  {
    hide Sbox, InvSbox, RconByte;
    RconTable(3);
    Values3();
    Values6();
    Values11();
    Values15();
  }

  lemma Key3()
    ensures Scheduled(3, KEY3)
  {
    hide FirstWord, Scheduled, RconByte;
    Key2();
    First3();
    NextKey(2, KEY2, KEY3);
  }

  lemma First4()
    ensures |KEY3| == |KEY4| == BLOCK && FirstWord(KEY3, KEY4, RconByte(4))
  {
    hide Sbox, InvSbox, RconByte;
    RconTable(4);
    Values0();
    Values4();
    Values6();
    Values11();
  }

  lemma Key4()
    ensures Scheduled(4, KEY4)
  {
    hide FirstWord, Scheduled, RconByte;
    Key3();
    First4();
    NextKey(3, KEY3, KEY4);
  }

  lemma First5()
    ensures |KEY4| == |KEY5| == BLOCK && FirstWord(KEY4, KEY5, RconByte(5))
  {
    hide Sbox, InvSbox, RconByte;
    RconTable(5);
    Values0();
    Values8();
    Values15();
  }

  lemma Key5()
    ensures Scheduled(5, KEY5)
  {
    hide FirstWord, Scheduled, RconByte;
    Key4();
    First5();
    NextKey(4, KEY4, KEY5);
  }

  lemma First6()
    ensures |KEY5| == |KEY6| == BLOCK && FirstWord(KEY5, KEY6, RconByte(6))
  {
    hide Sbox, InvSbox, RconByte;
    RconTable(6);
    Values2();
    Values10();
    Values15();
  }

  lemma Key6()
    ensures Scheduled(6, KEY6)
  {
    hide FirstWord, Scheduled, RconByte;
    Key5();
    First6();
    NextKey(5, KEY5, KEY6);
  }

  lemma First7()
    ensures |KEY6| == |KEY7| == BLOCK && FirstWord(KEY6, KEY7, RconByte(7))
  {
    hide Sbox, InvSbox, RconByte;
    RconTable(7);
    Values0();
    Values1();
    Values6();
    Values10();
  }

  lemma Key7()
    ensures Scheduled(7, KEY7)
  {
    hide FirstWord, Scheduled, RconByte;
    Key6();
    First7();
    NextKey(6, KEY6, KEY7);
  }

  lemma First8()
    ensures |KEY7| == |KEY8| == BLOCK && FirstWord(KEY7, KEY8, RconByte(8))
  {
    hide Sbox, InvSbox, RconByte;
    RconTable(8);
    Values2();
    Values4();
    Values10();
    Values12();
  }

  lemma Key8()
    ensures Scheduled(8, KEY8)
  {
    hide FirstWord, Scheduled, RconByte;
    Key7();
    First8();
    NextKey(7, KEY7, KEY8);
  }

  lemma First9()
    ensures |KEY8| == |KEY9| == BLOCK && FirstWord(KEY8, KEY9, RconByte(9))
  {
    hide Sbox, InvSbox, RconByte;
    RconTable(9);
    Values7();
    Values10();
    Values11();
    Values13();
  }

  lemma Key9()
    ensures Scheduled(9, KEY9)
  {
    hide FirstWord, Scheduled, RconByte;
    Key8();
    First9();
    NextKey(8, KEY8, KEY9);
  }

  lemma First10()
    ensures |KEY9| == |KEY10| == BLOCK && FirstWord(KEY9, KEY10, RconByte(10))
  {
    hide Sbox, InvSbox, RconByte;
    RconTable(10);
    Values2();
    Values4();
    Values9();
    Values11();
  }

  lemma Key10()
    ensures Scheduled(10, KEY10)
  {
    hide FirstWord, Scheduled, RconByte;
    Key9();
    First10();
    NextKey(9, KEY9, KEY10);
  }

  /** A round key of the schedule is given by its words. */
  lemma KeyOfRound(r: nat, k: seq<bv8>)
    requires r <= ROUNDS && Scheduled(r, k)
    ensures RoundKey(KeySchedule(KEY, WORDS), r) == k
  {
    hide KeySchedule, KeyWord;
    var w := KeySchedule(KEY, WORDS);
    WordAt(KEY, w, WORDS, 4 * r);
    WordAt(KEY, w, WORDS, 4 * r + 1);
    WordAt(KEY, w, WORDS, 4 * r + 2);
    WordAt(KEY, w, WORDS, 4 * r + 3);
    SameBytes(w, BLOCK * r, k);
  }

  lemma SameBytes(w: seq<bv8>, at: nat, k: seq<bv8>)
    requires |k| == BLOCK && at + BLOCK <= |w|
    requires w[at] == k[0] && w[at + 1] == k[1] && w[at + 2] == k[2] && w[at + 3] == k[3]
    requires w[at + 4] == k[4] && w[at + 5] == k[5] && w[at + 6] == k[6] && w[at + 7] == k[7]
    requires w[at + 8] == k[8] && w[at + 9] == k[9] && w[at + 10] == k[10] && w[at + 11] == k[11]
    requires w[at + 12] == k[12] && w[at + 13] == k[13] && w[at + 14] == k[14] && w[at + 15] == k[15]
    ensures w[at..at + BLOCK] == k
  {
  }

  // ----- the rounds: the states at their start, and after the rows are shifted -----

  const START1: seq<bv8> := [
    0x00, 0x10, 0x20, 0x30, 0x40, 0x50, 0x60, 0x70, 0x80, 0x90, 0xA0, 0xB0, 0xC0, 0xD0, 0xE0, 0xF0]
  const START2: seq<bv8> := [
    0x89, 0xD8, 0x10, 0xE8, 0x85, 0x5A, 0xCE, 0x68, 0x2D, 0x18, 0x43, 0xD8, 0xCB, 0x12, 0x8F, 0xE4]
  const START3: seq<bv8> := [
    0x49, 0x15, 0x59, 0x8F, 0x55, 0xE5, 0xD7, 0xA0, 0xDA, 0xCA, 0x94, 0xFA, 0x1F, 0x0A, 0x63, 0xF7]
  const START4: seq<bv8> := [
    0xFA, 0x63, 0x6A, 0x28, 0x25, 0xB3, 0x39, 0xC9, 0x40, 0x66, 0x8A, 0x31, 0x57, 0x24, 0x4D, 0x17]
  const START5: seq<bv8> := [
    0x24, 0x72, 0x40, 0x23, 0x69, 0x66, 0xB3, 0xFA, 0x6E, 0xD2, 0x75, 0x32, 0x88, 0x42, 0x5B, 0x6C]
  const START6: seq<bv8> := [
    0xC8, 0x16, 0x77, 0xBC, 0x9B, 0x7A, 0xC9, 0x3B, 0x25, 0x02, 0x79, 0x92, 0xB0, 0x26, 0x19, 0x96]
  const START7: seq<bv8> := [
    0xC6, 0x2F, 0xE1, 0x09, 0xF7, 0x5E, 0xED, 0xC3, 0xCC, 0x79, 0x39, 0x5D, 0x84, 0xF9, 0xCF, 0x5D]
  const START8: seq<bv8> := [
    0xD1, 0x87, 0x6C, 0x0F, 0x79, 0xC4, 0x30, 0x0A, 0xB4, 0x55, 0x94, 0xAD, 0xD6, 0x6F, 0xF4, 0x1F]
  const START9: seq<bv8> := [
    0xFD, 0xE3, 0xBA, 0xD2, 0x05, 0xE5, 0xD0, 0xD7, 0x35, 0x47, 0x96, 0x4E, 0xF1, 0xFE, 0x37, 0xF1]
  const START10: seq<bv8> := [
    0xBD, 0x6E, 0x7C, 0x3D, 0xF2, 0xB5, 0x77, 0x9E, 0x0B, 0x61, 0x21, 0x6E, 0x8B, 0x10, 0xB6, 0x89]
  const ROWS1: seq<bv8> := [
    0x63, 0x53, 0xE0, 0x8C, 0x09, 0x60, 0xE1, 0x04, 0xCD, 0x70, 0xB7, 0x51, 0xBA, 0xCA, 0xD0, 0xE7]
  const ROWS2: seq<bv8> := [
    0xA7, 0xBE, 0x1A, 0x69, 0x97, 0xAD, 0x73, 0x9B, 0xD8, 0xC9, 0xCA, 0x45, 0x1F, 0x61, 0x8B, 0x61]
  const ROWS3: seq<bv8> := [
    0x3B, 0xD9, 0x22, 0x68, 0xFC, 0x74, 0xFB, 0x73, 0x57, 0x67, 0xCB, 0xE0, 0xC0, 0x59, 0x0E, 0x2D]
  const ROWS4: seq<bv8> := [
    0x2D, 0x6D, 0x7E, 0xF0, 0x3F, 0x33, 0xE3, 0x34, 0x09, 0x36, 0x02, 0xDD, 0x5B, 0xFB, 0x12, 0xC7]
  const ROWS5: seq<bv8> := [
    0x36, 0x33, 0x9D, 0x50, 0xF9, 0xB5, 0x39, 0x26, 0x9F, 0x2C, 0x09, 0x2D, 0xC4, 0x40, 0x6D, 0x23]
  const ROWS6: seq<bv8> := [
    0xE8, 0xDA, 0xB6, 0x90, 0x14, 0x77, 0xD4, 0x65, 0x3F, 0xF7, 0xF5, 0xE2, 0xE7, 0x47, 0xDD, 0x4F]
  const ROWS7: seq<bv8> := [
    0xB4, 0x58, 0x12, 0x4C, 0x68, 0xB6, 0x8A, 0x01, 0x4B, 0x99, 0xF8, 0x2E, 0x5F, 0x15, 0x55, 0x4C]
  const ROWS8: seq<bv8> := [
    0x3E, 0x1C, 0x22, 0xC0, 0xB6, 0xFC, 0xBF, 0x76, 0x8D, 0xA8, 0x50, 0x67, 0xF6, 0x17, 0x04, 0x95]
  const ROWS9: seq<bv8> := [
    0x54, 0xD9, 0x90, 0xA1, 0x6B, 0xA0, 0x9A, 0xB5, 0x96, 0xBB, 0xF4, 0x0E, 0xA1, 0x11, 0x70, 0x2F]
  const ROWS10: seq<bv8> := [
    0x7A, 0xD5, 0xFD, 0xA7, 0x89, 0xEF, 0x4E, 0x27, 0x2B, 0xCA, 0x10, 0x0B, 0x3D, 0x9F, 0xF5, 0x9F]

  lemma Shifted1()
    ensures |START1| == BLOCK && ROWS1 == ShiftRows(SubBytes(START1))
  {
    hide Sbox, InvSbox, ShiftRows, SubBytes;
    Values0();
    Values1();
    Values2();
    Values3();
    Values4();
    Values5();
    Values6();
    Values7();
    Values8();
    Values9();
    Values10();
    Values11();
    Values12();
    Values13();
    Values14();
    Values15();
    DiagonalsShift(START1, ROWS1);
  }

  lemma Shifted2()
    ensures |START2| == BLOCK && ROWS2 == ShiftRows(SubBytes(START2))
  {
    hide Sbox, InvSbox, ShiftRows, SubBytes;
    Values1();
    Values2();
    Values4();
    Values5();
    Values6();
    Values8();
    Values12();
    Values13();
    Values14();
    DiagonalsShift(START2, ROWS2);
  }

  lemma Shifted3()
    ensures |START3| == BLOCK && ROWS3 == ShiftRows(SubBytes(START3))
  {
    hide Sbox, InvSbox, ShiftRows, SubBytes;
    Values0();
    Values1();
    Values4();
    Values5();
    Values6();
    Values8();
    Values9();
    Values10();
    Values12();
    Values13();
    Values14();
    Values15();
    DiagonalsShift(START3, ROWS3);
  }

  lemma Shifted4()
    ensures |START4| == BLOCK && ROWS4 == ShiftRows(SubBytes(START4))
  {
    hide Sbox, InvSbox, ShiftRows, SubBytes;
    Values1();
    Values2();
    Values3();
    Values4();
    Values5();
    Values6();
    Values8();
    Values11();
    Values12();
    Values15();
    DiagonalsShift(START4, ROWS4);
  }

  lemma Shifted5()
    ensures |START5| == BLOCK && ROWS5 == ShiftRows(SubBytes(START5))
  {
    hide Sbox, InvSbox, ShiftRows, SubBytes;
    Values2();
    Values3();
    Values4();
    Values5();
    Values6();
    Values7();
    Values8();
    Values11();
    Values13();
    Values15();
    DiagonalsShift(START5, ROWS5);
  }

  lemma Shifted6()
    ensures |START6| == BLOCK && ROWS6 == ShiftRows(SubBytes(START6))
  {
    hide Sbox, InvSbox, ShiftRows, SubBytes;
    Values0();
    Values1();
    Values2();
    Values3();
    Values7();
    Values9();
    Values11();
    Values12();
    DiagonalsShift(START6, ROWS6);
  }

  lemma Shifted7()
    ensures |START7| == BLOCK && ROWS7 == ShiftRows(SubBytes(START7))
  {
    hide Sbox, InvSbox, ShiftRows, SubBytes;
    Values0();
    Values2();
    Values3();
    Values5();
    Values7();
    Values8();
    Values12();
    Values14();
    Values15();
    DiagonalsShift(START7, ROWS7);
  }

  lemma Shifted8()
    ensures |START8| == BLOCK && ROWS8 == ShiftRows(SubBytes(START8))
  {
    hide Sbox, InvSbox, ShiftRows, SubBytes;
    Values0();
    Values1();
    Values3();
    Values5();
    Values6();
    Values7();
    Values8();
    Values9();
    Values10();
    Values11();
    Values12();
    Values13();
    Values15();
    DiagonalsShift(START8, ROWS8);
  }

  lemma Shifted9()
    ensures |START9| == BLOCK && ROWS9 == ShiftRows(SubBytes(START9))
  {
    hide Sbox, InvSbox, ShiftRows, SubBytes;
    Values0();
    Values3();
    Values4();
    Values9();
    Values11();
    Values13();
    Values14();
    Values15();
    DiagonalsShift(START9, ROWS9);
  }

  lemma Shifted10()
    ensures |START10| == BLOCK && ROWS10 == ShiftRows(SubBytes(START10))
  {
    hide Sbox, InvSbox, ShiftRows, SubBytes;
    Values0();
    Values1();
    Values2();
    Values3();
    Values6();
    Values7();
    Values8();
    Values9();
    Values11();
    Values15();
    DiagonalsShift(START10, ROWS10);
  }

  /** One column of the next state. */
  predicate ColumnIs(s: seq<bv8>, k: seq<bv8>, t: seq<bv8>, c: nat)
    requires |s| == |k| == |t| == BLOCK && c in {0, 4, 8, 12}
  {
    && t[c] == Add(MixByte(s[c], s[c + 1], s[c + 2], s[c + 3]), k[c])
    && t[c + 1] == Add(MixByte(s[c + 1], s[c + 2], s[c + 3], s[c]), k[c + 1])
    && t[c + 2] == Add(MixByte(s[c + 2], s[c + 3], s[c], s[c + 1]), k[c + 2])
    && t[c + 3] == Add(MixByte(s[c + 3], s[c], s[c + 1], s[c + 2]), k[c + 3])
  }

  /** Four columns of a state, each exclusive-ored with its part of the round key. */
  lemma RoundIs(s: seq<bv8>, k: seq<bv8>, t: seq<bv8>)
    requires |s| == |k| == |t| == BLOCK
    requires ColumnIs(s, k, t, 0) && ColumnIs(s, k, t, 4) && ColumnIs(s, k, t, 8) && ColumnIs(s, k, t, 12)
    ensures Xor(MixColumns(s), k) == t
  {
    hide MixByte, MixColumns, Add;
    var m := MixColumns(s);
    MixedBytes(s);
    SumIs(m, k, t);
  }

  lemma MixedBytes(s: seq<bv8>)
    requires |s| == BLOCK
    ensures var m := MixColumns(s);
            && m[0] == MixByte(s[0], s[1], s[2], s[3]) && m[1] == MixByte(s[1], s[2], s[3], s[0])
            && m[2] == MixByte(s[2], s[3], s[0], s[1]) && m[3] == MixByte(s[3], s[0], s[1], s[2])
            && m[4] == MixByte(s[4], s[5], s[6], s[7]) && m[5] == MixByte(s[5], s[6], s[7], s[4])
            && m[6] == MixByte(s[6], s[7], s[4], s[5]) && m[7] == MixByte(s[7], s[4], s[5], s[6])
            && m[8] == MixByte(s[8], s[9], s[10], s[11]) && m[9] == MixByte(s[9], s[10], s[11], s[8])
            && m[10] == MixByte(s[10], s[11], s[8], s[9]) && m[11] == MixByte(s[11], s[8], s[9], s[10])
            && m[12] == MixByte(s[12], s[13], s[14], s[15]) && m[13] == MixByte(s[13], s[14], s[15], s[12])
            && m[14] == MixByte(s[14], s[15], s[12], s[13]) && m[15] == MixByte(s[15], s[12], s[13], s[14])
  {
    hide MixByte;
  }

  lemma SumIs(s: seq<bv8>, k: seq<bv8>, t: seq<bv8>)
    requires |s| == |k| == |t| == BLOCK
    requires t[0] == Add(s[0], k[0]) && t[1] == Add(s[1], k[1]) && t[2] == Add(s[2], k[2])
    requires t[3] == Add(s[3], k[3]) && t[4] == Add(s[4], k[4]) && t[5] == Add(s[5], k[5])
    requires t[6] == Add(s[6], k[6]) && t[7] == Add(s[7], k[7]) && t[8] == Add(s[8], k[8])
    requires t[9] == Add(s[9], k[9]) && t[10] == Add(s[10], k[10]) && t[11] == Add(s[11], k[11])
    requires t[12] == Add(s[12], k[12]) && t[13] == Add(s[13], k[13]) && t[14] == Add(s[14], k[14])
    requires t[15] == Add(s[15], k[15])
    ensures Xor(s, k) == t
  {
    hide Add;
  }

  lemma Mixed1()
    ensures |ROWS1| == |KEY1| == BLOCK && Xor(MixColumns(ROWS1), KEY1) == START2
  {
    hide MixColumns, Xor;
    RoundIs(ROWS1, KEY1, START2);
  }

  lemma Mixed2()
    ensures |ROWS2| == |KEY2| == BLOCK && Xor(MixColumns(ROWS2), KEY2) == START3
  {
    hide MixColumns, Xor;
    RoundIs(ROWS2, KEY2, START3);
  }

  lemma Mixed3()
    ensures |ROWS3| == |KEY3| == BLOCK && Xor(MixColumns(ROWS3), KEY3) == START4
  {
    hide MixColumns, Xor;
    RoundIs(ROWS3, KEY3, START4);
  }

  lemma Mixed4()
    ensures |ROWS4| == |KEY4| == BLOCK && Xor(MixColumns(ROWS4), KEY4) == START5
  {
    hide MixColumns, Xor;
    RoundIs(ROWS4, KEY4, START5);
  }

  lemma Mixed5()
    ensures |ROWS5| == |KEY5| == BLOCK && Xor(MixColumns(ROWS5), KEY5) == START6
  {
    hide MixColumns, Xor;
    RoundIs(ROWS5, KEY5, START6);
  }

  lemma Mixed6()
    ensures |ROWS6| == |KEY6| == BLOCK && Xor(MixColumns(ROWS6), KEY6) == START7
  {
    hide MixColumns, Xor;
    RoundIs(ROWS6, KEY6, START7);
  }

  lemma Mixed7()
    ensures |ROWS7| == |KEY7| == BLOCK && Xor(MixColumns(ROWS7), KEY7) == START8
  {
    hide MixColumns, Xor;
    RoundIs(ROWS7, KEY7, START8);
  }

  lemma Mixed8()
    ensures |ROWS8| == |KEY8| == BLOCK && Xor(MixColumns(ROWS8), KEY8) == START9
  {
    hide MixColumns, Xor;
    RoundIs(ROWS8, KEY8, START9);
  }

  lemma Mixed9()
    ensures |ROWS9| == |KEY9| == BLOCK && Xor(MixColumns(ROWS9), KEY9) == START10
  {
    hide MixColumns, Xor;
    RoundIs(ROWS9, KEY9, START10);
  }

  /** The state that a round starts with. */
  ghost predicate StartOf(n: nat, s: seq<bv8>)
    requires 1 <= n <= ROUNDS
  {
    |KEY| == |PLAINTEXT| == BLOCK && Rounds(PLAINTEXT, KeySchedule(KEY, WORDS), n - 1) == s
  }

  lemma Round1()
    ensures StartOf(1, START1)
  {
    hide KeySchedule, KeyWord, Scheduled;
    Key0();
    KeyOfRound(0, KEY);
    FirstRound(PLAINTEXT, KeySchedule(KEY, WORDS));
  }

  lemma RoundAfter(n: nat, s: seq<bv8>, rows: seq<bv8>, k: seq<bv8>, t: seq<bv8>)
    requires 1 <= n < ROUNDS && StartOf(n, s) && Scheduled(n, k) && |s| == |rows| == BLOCK
    requires rows == ShiftRows(SubBytes(s)) && t == Xor(MixColumns(rows), k)
    ensures StartOf(n + 1, t)
  {
    hide KeySchedule, KeyWord, Rounds, ShiftRows, SubBytes, MixColumns, Xor;
    KeyOfRound(n, k);
    NextRound(PLAINTEXT, KeySchedule(KEY, WORDS), n);
  }

  lemma Round2()
    ensures StartOf(2, START2)
  {
    hide StartOf, Scheduled, ShiftRows, SubBytes, MixColumns, Xor;
    Round1();
    Shifted1();
    Key1();
    Mixed1();
    RoundAfter(1, START1, ROWS1, KEY1, START2);
  }

  lemma Round3()
    ensures StartOf(3, START3)
  {
    hide StartOf, Scheduled, ShiftRows, SubBytes, MixColumns, Xor;
    Round2();
    Shifted2();
    Key2();
    Mixed2();
    RoundAfter(2, START2, ROWS2, KEY2, START3);
  }

  lemma Round4()
    ensures StartOf(4, START4)
  {
    hide StartOf, Scheduled, ShiftRows, SubBytes, MixColumns, Xor;
    Round3();
    Shifted3();
    Key3();
    Mixed3();
    RoundAfter(3, START3, ROWS3, KEY3, START4);
  }

  lemma Round5()
    ensures StartOf(5, START5)
  {
    hide StartOf, Scheduled, ShiftRows, SubBytes, MixColumns, Xor;
    Round4();
    Shifted4();
    Key4();
    Mixed4();
    RoundAfter(4, START4, ROWS4, KEY4, START5);
  }

  lemma Round6()
    ensures StartOf(6, START6)
  {
    hide StartOf, Scheduled, ShiftRows, SubBytes, MixColumns, Xor;
    Round5();
    Shifted5();
    Key5();
    Mixed5();
    RoundAfter(5, START5, ROWS5, KEY5, START6);
  }

  lemma Round7()
    ensures StartOf(7, START7)
  {
    hide StartOf, Scheduled, ShiftRows, SubBytes, MixColumns, Xor;
    Round6();
    Shifted6();
    Key6();
    Mixed6();
    RoundAfter(6, START6, ROWS6, KEY6, START7);
  }

  lemma Round8()
    ensures StartOf(8, START8)
  {
    hide StartOf, Scheduled, ShiftRows, SubBytes, MixColumns, Xor;
    Round7();
    Shifted7();
    Key7();
    Mixed7();
    RoundAfter(7, START7, ROWS7, KEY7, START8);
  }

  lemma Round9()
    ensures StartOf(9, START9)
  {
    hide StartOf, Scheduled, ShiftRows, SubBytes, MixColumns, Xor;
    Round8();
    Shifted8();
    Key8();
    Mixed8();
    RoundAfter(8, START8, ROWS8, KEY8, START9);
  }

  lemma Round10()
    ensures StartOf(10, START10)
  {
    hide StartOf, Scheduled, ShiftRows, SubBytes, MixColumns, Xor;
    Round9();
    Shifted9();
    Key9();
    Mixed9();
    RoundAfter(9, START9, ROWS9, KEY9, START10);
  }

  lemma LastAddition()
    ensures |ROWS10| == |KEY10| == BLOCK && Xor(ROWS10, KEY10) == CIPHERTEXT
  {
    hide Xor;
    SumIs(ROWS10, KEY10, CIPHERTEXT);
  }

  /** The vector of appendix C.1. */
  lemma PublishedVector()
    ensures |KEY| == |PLAINTEXT| == BLOCK
    ensures Cipher(PLAINTEXT, KeySchedule(KEY, WORDS)) == CIPHERTEXT
  {
    hide KeySchedule, KeyWord, Rounds, Cipher, ShiftRows, SubBytes, Xor, Scheduled;
    Round10();
    Shifted10();
    Key10();
    KeyOfRound(10, KEY10);
    LastAddition();
    LastRound(PLAINTEXT, KeySchedule(KEY, WORDS));
  }
}
