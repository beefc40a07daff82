/**
  The AES-128 encryption of boot_aes.c, against the cipher of FIPS 197.

  The state is an array of 16 bytes, column by column: the byte in row r and column c of the
  standard is byte r + 4 * c.
*/
module Aes {

  import opened AesTables

  const KEYCOLS: nat := 4
  const ROUNDS: nat := 10
  const BLOCK: nat := 16
  const EXPANDED: nat := 176

  // ----- the cipher of FIPS 197, section 5.1 -----

  function SubBytes(s: seq<bv8>): (t: seq<bv8>)
    requires |s| == BLOCK
    ensures |t| == BLOCK
  {
    seq(BLOCK, i requires 0 <= i < BLOCK => Sbox(s[i]))
  }

  /** Row r is rotated left by r columns. */
  function ShiftRows(s: seq<bv8>): (t: seq<bv8>)
    requires |s| == BLOCK
    ensures |t| == BLOCK
  {
    seq(BLOCK, i requires 0 <= i < BLOCK => s[i % 4 + 4 * ((i / 4 + i % 4) % 4)])
  }

  /** One byte of a column multiplied by the polynomial {03}x^3 + {01}x^2 + {01}x + {02}. */
  function MixByte(a: bv8, b: bv8, c: bv8, d: bv8): bv8 {
    Add4(Xtime(a), Add(Xtime(b), b), c, d)
  }

  function MixColumn(a: bv8, b: bv8, c: bv8, d: bv8): (t: seq<bv8>)
    ensures |t| == 4
  {
    [MixByte(a, b, c, d), MixByte(b, c, d, a), MixByte(c, d, a, b), MixByte(d, a, b, c)]
  }

  function MixColumns(s: seq<bv8>): (t: seq<bv8>)
    requires |s| == BLOCK
    ensures |t| == BLOCK
  {
    MixColumn(s[0], s[1], s[2], s[3]) + MixColumn(s[4], s[5], s[6], s[7])
    + MixColumn(s[8], s[9], s[10], s[11]) + MixColumn(s[12], s[13], s[14], s[15])
  }

  /** Addition in the field, section 4.1. */
  function Add(a: bv8, b: bv8): bv8 { a ^ b }

  function Add4(a: bv8, b: bv8, c: bv8, d: bv8): bv8 { Add(Add(Add(a, b), c), d) }

  function Xor(s: seq<bv8>, t: seq<bv8>): (u: seq<bv8>)
    requires |s| == |t|
    ensures |u| == |s|
  {
    seq(|s|, i requires 0 <= i < |s| => Add(s[i], t[i]))
  }

  function RoundKey(w: seq<bv8>, round: nat): (k: seq<bv8>)
    requires |w| == EXPANDED && round <= ROUNDS
    ensures |k| == BLOCK
  {
    w[BLOCK * round..BLOCK * round + BLOCK]
  }

  /** The state after the initial key addition and n rounds that mix columns. */
  function Rounds(s: seq<bv8>, w: seq<bv8>, n: nat): (t: seq<bv8>)
    requires |s| == BLOCK && |w| == EXPANDED && n < ROUNDS
    ensures |t| == BLOCK
  {
    if n == 0 then Xor(s, RoundKey(w, 0))
    else Xor(MixColumns(ShiftRows(SubBytes(Rounds(s, w, n - 1)))), RoundKey(w, n))
  }

  function Cipher(s: seq<bv8>, w: seq<bv8>): (t: seq<bv8>)
    requires |s| == BLOCK && |w| == EXPANDED
    ensures |t| == BLOCK
  {
    Xor(ShiftRows(SubBytes(Rounds(s, w, ROUNDS - 1))), RoundKey(w, ROUNDS))
  }

  // ----- the key expansion of FIPS 197, section 5.2 -----

  /** x to the power n - 1. */
  function RconByte(n: nat): bv8
  {
    if n <= 1 then 0x01 else Xtime(RconByte(n - 1))
  }

  function RotWord(t: seq<bv8>): (u: seq<bv8>)
    requires |t| == 4
    ensures |u| == 4
  {
    [t[1], t[2], t[3], t[0]]
  }

  function SubWord(t: seq<bv8>): (u: seq<bv8>)
    requires |t| == 4
    ensures |u| == 4
  {
    [Sbox(t[0]), Sbox(t[1]), Sbox(t[2]), Sbox(t[3])]
  }

  function KeyWord(key: seq<bv8>, i: nat): (w: seq<bv8>)
    requires |key| == BLOCK
    ensures |w| == 4
  {
    if i < KEYCOLS then key[4 * i..4 * i + 4]
    else
      var t := KeyWord(key, i - 1);
      var u := if i % KEYCOLS == 0 then Xor(SubWord(RotWord(t)), [RconByte(i / KEYCOLS), 0, 0, 0]) else t;
      Xor(KeyWord(key, i - KEYCOLS), u)
  }

  function KeySchedule(key: seq<bv8>, words: nat): (w: seq<bv8>)
    requires |key| == BLOCK
    ensures |w| == 4 * words
  {
    if words == 0 then [] else KeySchedule(key, words - 1) + KeyWord(key, words - 1)
  }

  // ----- the code -----

  const RCON: seq<bv8> := [0x00, 0x01, 0x02, 0x04, 0x08, 0x10, 0x20, 0x40, 0x80, 0x1B, 0x36]

  function Rcon(n: nat): bv8
    requires n <= 10
  {
    RCON[n]
  }

  lemma RconTable(n: nat)
    requires 1 <= n <= 10
    ensures Rcon(n) == RconByte(n)
  {
    assert RconByte(2) == 0x02 && RconByte(3) == 0x04 && RconByte(4) == 0x08 && RconByte(5) == 0x10;
    assert RconByte(6) == 0x20 && RconByte(7) == 0x40 && RconByte(8) == 0x80 && RconByte(9) == 0x1B;
    assert RconByte(10) == 0x36;
  }

  /** The words of the schedule can be found in it. */
  lemma {:induction false} WordInSchedule(key: seq<bv8>, words: nat, i: nat)
    requires |key| == BLOCK && i < words
    ensures KeySchedule(key, words)[4 * i..4 * i + 4] == KeyWord(key, i)
  {
    hide KeyWord;
    ScheduleNext(key, words - 1);
    if i + 1 < words {
      WordInSchedule(key, words - 1, i);
      hide KeySchedule;
      var shorter := KeySchedule(key, words - 1);
      assert (shorter + KeyWord(key, words - 1))[4 * i..4 * i + 4] == shorter[4 * i..4 * i + 4];
    }
  }

  lemma {:induction false} ScheduleStart(key: seq<bv8>, n: nat)
    requires |key| == BLOCK && n <= KEYCOLS
    ensures KeySchedule(key, n) == key[..4 * n]
  {
    if n > 0 {
      ScheduleStart(key, n - 1);
      assert key[..4 * n] == key[..4 * n - 4] + key[4 * n - 4..4 * n];
    }
  }

  lemma XorWord(a: seq<bv8>, b: seq<bv8>)
    requires |a| == |b| == 4
    ensures Xor(a, b) == [Add(a[0], b[0]), Add(a[1], b[1]), Add(a[2], b[2]), Add(a[3], b[3])]
  {
    hide Add;
    var u := Xor(a, b);
    assert u[0] == Add(a[0], b[0]);
    assert u[1] == Add(a[1], b[1]);
    assert u[2] == Add(a[2], b[2]);
    assert u[3] == Add(a[3], b[3]);
    hide Xor;
    assert u == [u[0], u[1], u[2], u[3]];
  }

  lemma XorZero(b: bv8)
    ensures Add(b, 0) == b
  {
  }

  /** The scrambled word that the code computes in place. */
  lemma Scrambled(t: seq<bv8>, rcon: bv8)
    requires |t| == 4
    ensures Xor(SubWord(RotWord(t)), [rcon, 0, 0, 0]) == [Add(Sbox(t[1]), rcon), Sbox(t[2]), Sbox(t[3]), Sbox(t[0])]
  {
    hide Sbox, Xor, Add;
    XorWord(SubWord(RotWord(t)), [rcon, 0, 0, 0]);
    XorZero(Sbox(t[2]));
    XorZero(Sbox(t[3]));
    XorZero(Sbox(t[0]));
  }

  /** What is exclusive-ored with the word four words before. */
  function Temp(key: seq<bv8>, i: nat): (t: seq<bv8>)
    requires |key| == BLOCK && KEYCOLS <= i
    ensures |t| == 4
  {
    var t := KeyWord(key, i - 1);
    if i % KEYCOLS == 0 then [Add(Sbox(t[1]), RconByte(i / KEYCOLS)), Sbox(t[2]), Sbox(t[3]), Sbox(t[0])] else t
  }

  lemma NextWord(key: seq<bv8>, i: nat)
    requires |key| == BLOCK && KEYCOLS <= i
    ensures var old4, t := KeyWord(key, i - KEYCOLS), Temp(key, i);
            KeyWord(key, i) == [Add(old4[0], t[0]), Add(old4[1], t[1]), Add(old4[2], t[2]), Add(old4[3], t[3])]
  {
    hide Sbox, RconByte, Xor, SubWord, RotWord, Add;
    Scrambled(KeyWord(key, i - 1), RconByte(i / KEYCOLS));
    XorWord(KeyWord(key, i - KEYCOLS), Temp(key, i));
  }

  /** The four temporaries of the expansion loop. */
  method TempWord(expkey: array<bv8>, idx: nat, ghost k: seq<bv8>)
    returns (tmp0: bv8, tmp1: bv8, tmp2: bv8, tmp3: bv8)
    requires |k| == BLOCK && expkey.Length == EXPANDED && KEYCOLS <= idx < KEYCOLS * (ROUNDS + 1)
    requires expkey[..4 * idx] == KeySchedule(k, idx)
    ensures [tmp0, tmp1, tmp2, tmp3] == Temp(k, idx)
  {
    hide Sbox, KeyWord, KeySchedule, RconByte, Add, Rcon, Temp;
    WordAt(k, expkey[..4 * idx], idx, idx - 1);
    TempIs(k, idx);
    tmp0 := expkey[4 * idx - 4];
    tmp1 := expkey[4 * idx - 3];
    tmp2 := expkey[4 * idx - 2];
    tmp3 := expkey[4 * idx - 1];
    if idx % KEYCOLS == 0 {
      RconTable(idx / KEYCOLS);
      var tmp4 := tmp3;
      tmp3 := Sbox(tmp0);
      tmp0 := Add(Sbox(tmp1), Rcon(idx / KEYCOLS));
      tmp1 := Sbox(tmp2);
      tmp2 := Sbox(tmp4);
    }
  }

  /** One pass of the expansion loop. */
  method ExpandWord(expkey: array<bv8>, idx: nat, ghost k: seq<bv8>)
    requires |k| == BLOCK && expkey.Length == EXPANDED && KEYCOLS <= idx < KEYCOLS * (ROUNDS + 1)
    requires expkey[..4 * idx] == KeySchedule(k, idx)
    modifies expkey
    ensures expkey[..4 * idx + 4] == old(expkey[..4 * idx]) + KeyWord(k, idx)
  {
    hide KeyWord, KeySchedule, Add, Temp;
    var tmp0, tmp1, tmp2, tmp3 := TempWord(expkey, idx, k);
    WordAt(k, expkey[..4 * idx], idx, idx - KEYCOLS);
    NextWord(k, idx);
    ghost var t := [tmp0, tmp1, tmp2, tmp3];
    assert t == Temp(k, idx);
    StoreWord(expkey, 4 * idx, Add(expkey[4 * idx - 16], tmp0), Add(expkey[4 * idx - 15], tmp1),
              Add(expkey[4 * idx - 14], tmp2), Add(expkey[4 * idx - 13], tmp3));
  }

  method StoreWord(d: array<bv8>, at: nat, b0: bv8, b1: bv8, b2: bv8, b3: bv8)
    requires at + 4 <= d.Length
    modifies d
    ensures d[..at + 4] == old(d[..at]) + [b0, b1, b2, b3]
  {
    d[at] := b0;
    d[at + 1] := b1;
    d[at + 2] := b2;
    d[at + 3] := b3;
  }

  /** The bytes of a word that was already computed. */
  lemma WordAt(key: seq<bv8>, d: seq<bv8>, words: nat, i: nat)
    requires |key| == BLOCK && i < words && d == KeySchedule(key, words)
    ensures KeyWord(key, i) == [d[4 * i], d[4 * i + 1], d[4 * i + 2], d[4 * i + 3]]
  {
    hide KeySchedule, KeyWord;
    WordInSchedule(key, words, i);
    WordOf(d, 4 * i);
  }

  lemma TempIs(key: seq<bv8>, i: nat)
    requires |key| == BLOCK && KEYCOLS <= i
    ensures var t := KeyWord(key, i - 1);
            Temp(key, i)
            == if i % KEYCOLS == 0 then [Add(Sbox(t[1]), RconByte(i / KEYCOLS)), Sbox(t[2]), Sbox(t[3]), Sbox(t[0])]
               else [t[0], t[1], t[2], t[3]]
  {
    hide KeyWord, Sbox, Add, RconByte;
  }

  method ExpandKey(key: array<bv8>, expkey: array<bv8>)
    requires key.Length == BLOCK && expkey.Length == EXPANDED && key != expkey
    modifies expkey
    ensures expkey[..] == KeySchedule(key[..], KEYCOLS * (ROUNDS + 1))
  {
    hide KeyWord, KeySchedule;
    ghost var k := key[..];
    forall i | 0 <= i < BLOCK {
      expkey[i] := key[i];
    }
    ScheduleStart(k, KEYCOLS);
    assert expkey[..BLOCK] == k == k[..BLOCK];
    for idx := KEYCOLS to KEYCOLS * (ROUNDS + 1)
      invariant key[..] == k
      invariant expkey[..4 * idx] == KeySchedule(k, idx)
    {
      ScheduleNext(k, idx);
      ExpandWord(expkey, idx, k);
    }
    assert expkey[..] == expkey[..EXPANDED];
  }

  lemma ScheduleNext(key: seq<bv8>, words: nat)
    requires |key| == BLOCK
    ensures KeySchedule(key, words + 1) == KeySchedule(key, words) + KeyWord(key, words)
  {
  }

  // ----- the rounds in place -----

  /** The byte of the shifted and substituted state at i, straight from the state. */
  lemma ShiftedByte(s: seq<bv8>, i: nat)
    requires |s| == BLOCK && i < BLOCK
    ensures ShiftRows(SubBytes(s))[i] == Sbox(s[i % 4 + 4 * ((i / 4 + i % 4) % 4)])
  {
    hide Sbox;
  }

  lemma WordOf(t: seq<bv8>, at: nat)
    requires at + 4 <= |t|
    ensures t[at..at + 4] == [t[at], t[at + 1], t[at + 2], t[at + 3]]
  {
  }

  /** The columns of the shifted and substituted state are the diagonals of the state. */
  lemma ShiftedColumns(s: seq<bv8>)
    requires |s| == BLOCK
    ensures var u := ShiftRows(SubBytes(s));
            && u[0..4] == SubWordOf(s[0], s[5], s[10], s[15])
            && u[4..8] == SubWordOf(s[4], s[9], s[14], s[3])
            && u[8..12] == SubWordOf(s[8], s[13], s[2], s[7])
            && u[12..16] == SubWordOf(s[12], s[1], s[6], s[11])
  {
    hide Sbox, ShiftRows, SubBytes;
    ShiftedByte(s, 0);
    ShiftedByte(s, 1);
    ShiftedByte(s, 2);
    ShiftedByte(s, 3);
    ShiftedByte(s, 4);
    ShiftedByte(s, 5);
    ShiftedByte(s, 6);
    ShiftedByte(s, 7);
    ShiftedByte(s, 8);
    ShiftedByte(s, 9);
    ShiftedByte(s, 10);
    ShiftedByte(s, 11);
    ShiftedByte(s, 12);
    ShiftedByte(s, 13);
    ShiftedByte(s, 14);
    ShiftedByte(s, 15);
    WordOf(ShiftRows(SubBytes(s)), 0);
    WordOf(ShiftRows(SubBytes(s)), 4);
    WordOf(ShiftRows(SubBytes(s)), 8);
    WordOf(ShiftRows(SubBytes(s)), 12);
  }

  function SubWordOf(a: bv8, b: bv8, c: bv8, d: bv8): (t: seq<bv8>)
    ensures |t| == 4
  {
    [Sbox(a), Sbox(b), Sbox(c), Sbox(d)]
  }

  lemma ShiftedState(s: seq<bv8>, t: seq<bv8>)
    requires |s| == |t| == BLOCK
    requires t[0..4] == SubWordOf(s[0], s[5], s[10], s[15]) && t[4..8] == SubWordOf(s[4], s[9], s[14], s[3])
    requires t[8..12] == SubWordOf(s[8], s[13], s[2], s[7]) && t[12..16] == SubWordOf(s[12], s[1], s[6], s[11])
    ensures t == ShiftRows(SubBytes(s))
  {
    hide SubWordOf, ShiftRows, SubBytes;
    ShiftedColumns(s);
    FourColumns(t, ShiftRows(SubBytes(s)));
  }

  /** The fused tables give one byte of the mixed column. */
  lemma FusedByte(a: bv8, b: bv8, c: bv8, d: bv8)
    ensures Add4(X2Sbox(a), X3Sbox(b), Sbox(c), Sbox(d)) == MixByte(Sbox(a), Sbox(b), Sbox(c), Sbox(d))
    ensures Add4(Sbox(d), X2Sbox(a), X3Sbox(b), Sbox(c)) == MixByte(Sbox(a), Sbox(b), Sbox(c), Sbox(d))
    ensures Add4(Sbox(c), Sbox(d), X2Sbox(a), X3Sbox(b)) == MixByte(Sbox(a), Sbox(b), Sbox(c), Sbox(d))
    ensures Add4(X3Sbox(b), Sbox(c), Sbox(d), X2Sbox(a)) == MixByte(Sbox(a), Sbox(b), Sbox(c), Sbox(d))
  {
    hide Sbox, X2Sbox, X3Sbox, Xtime, Add4;
    FusedTables(a);
    FusedTables(b);
    Rotated(Sbox(d), X2Sbox(a), X3Sbox(b), Sbox(c));
  }

  lemma AddAssociative(a: bv8, b: bv8, c: bv8)
    ensures Add(Add(a, b), c) == Add(a, Add(b, c))
  {
  }

  lemma AddCommutative(a: bv8, b: bv8)
    ensures Add(a, b) == Add(b, a)
  {
  }

  lemma RotateOnce(a: bv8, b: bv8, c: bv8, d: bv8)
    ensures Add4(a, b, c, d) == Add4(b, c, d, a)
  {
    hide Add;
    AddAssociative(a, b, c);
    AddAssociative(a, Add(b, c), d);
    AddCommutative(a, Add(Add(b, c), d));
  }

  /** Four summands can be rotated. */
  lemma Rotated(a: bv8, b: bv8, c: bv8, d: bv8)
    ensures Add4(a, b, c, d) == Add4(b, c, d, a) == Add4(c, d, a, b) == Add4(d, a, b, c)
  {
    hide Add4;
    RotateOnce(a, b, c, d);
    RotateOnce(b, c, d, a);
    RotateOnce(c, d, a, b);
  }

  /** One column of the fused step: substitute, shift and mix in one go. */
  function FusedColumn(a: bv8, b: bv8, c: bv8, d: bv8): (t: seq<bv8>)
    ensures |t| == 4
  {
    [Add4(X2Sbox(a), X3Sbox(b), Sbox(c), Sbox(d)),
     Add4(Sbox(a), X2Sbox(b), X3Sbox(c), Sbox(d)),
     Add4(Sbox(a), Sbox(b), X2Sbox(c), X3Sbox(d)),
     Add4(X3Sbox(a), Sbox(b), Sbox(c), X2Sbox(d))]
  }

  lemma FusedColumnMixes(a: bv8, b: bv8, c: bv8, d: bv8)
    ensures FusedColumn(a, b, c, d) == MixColumn(Sbox(a), Sbox(b), Sbox(c), Sbox(d))
  {
    hide Sbox, X2Sbox, X3Sbox, MixByte, Add4;
    FusedByte(a, b, c, d);
    FusedByte(b, c, d, a);
    FusedByte(c, d, a, b);
    FusedByte(d, a, b, c);
  }

  /** A column of the mixed state is the mixed column of the state. */
  lemma MixedColumn(u: seq<bv8>, at: nat, a: bv8, b: bv8, c: bv8, d: bv8)
    requires |u| == BLOCK && at in {0, 4, 8, 12} && u[at..at + 4] == SubWordOf(a, b, c, d)
    ensures MixColumns(u)[at..at + 4] == MixColumn(Sbox(a), Sbox(b), Sbox(c), Sbox(d))
  {
    hide MixColumn, Sbox;
    WordOf(u, at);
  }

  lemma FusedState(s: seq<bv8>, t: seq<bv8>)
    requires |s| == |t| == BLOCK
    requires t[0..4] == FusedColumn(s[0], s[5], s[10], s[15]) && t[4..8] == FusedColumn(s[4], s[9], s[14], s[3])
    requires t[8..12] == FusedColumn(s[8], s[13], s[2], s[7]) && t[12..16] == FusedColumn(s[12], s[1], s[6], s[11])
    ensures t == MixColumns(ShiftRows(SubBytes(s)))
  {
    hide Sbox, MixColumn, FusedColumn, MixColumns, ShiftRows, SubBytes, SubWordOf;
    var u := ShiftRows(SubBytes(s));
    ShiftedColumns(s);
    FusedColumnMixes(s[0], s[5], s[10], s[15]);
    FusedColumnMixes(s[4], s[9], s[14], s[3]);
    FusedColumnMixes(s[8], s[13], s[2], s[7]);
    FusedColumnMixes(s[12], s[1], s[6], s[11]);
    MixedColumn(u, 0, s[0], s[5], s[10], s[15]);
    MixedColumn(u, 4, s[4], s[9], s[14], s[3]);
    MixedColumn(u, 8, s[8], s[13], s[2], s[7]);
    MixedColumn(u, 12, s[12], s[1], s[6], s[11]);
    FourColumns(t, MixColumns(u));
  }

  lemma FourColumns(s: seq<bv8>, t: seq<bv8>)
    requires |s| == |t| == BLOCK
    requires s[0..4] == t[0..4] && s[4..8] == t[4..8] && s[8..12] == t[8..12] && s[12..16] == t[12..16]
    ensures s == t
  {
    assert s == s[0..4] + s[4..8] + s[8..12] + s[12..16];
    assert t == t[0..4] + t[4..8] + t[8..12] + t[12..16];
  }

  method MixSubColumns(state: array<bv8>)
    requires state.Length == BLOCK
    modifies state
    ensures state[..] == MixColumns(ShiftRows(SubBytes(old(state[..]))))
  {
    hide FusedColumn, MixColumns, ShiftRows, SubBytes;
    ghost var s := state[..];
    var tmp := new bv8[BLOCK];
    FuseColumn(state, tmp, 0, 0, 5, 10, 15);
    FuseColumn(state, tmp, 4, 4, 9, 14, 3);
    FuseColumn(state, tmp, 8, 8, 13, 2, 7);
    FuseColumn(state, tmp, 12, 12, 1, 6, 11);
    assert tmp[0..4] == FusedColumn(s[0], s[5], s[10], s[15]);
    assert tmp[4..8] == FusedColumn(s[4], s[9], s[14], s[3]);
    assert tmp[8..12] == FusedColumn(s[8], s[13], s[2], s[7]);
    FusedState(s, tmp[..]);
    forall i | 0 <= i < BLOCK {
      state[i] := tmp[i];
    }
    assert state[..] == tmp[..];
  }

  /** Mix one column: the four table expressions for the diagonal a, b, c, d. */
  method FuseColumn(state: array<bv8>, tmp: array<bv8>, at: nat, a: nat, b: nat, c: nat, d: nat)
    requires state.Length == tmp.Length == BLOCK && state != tmp && at + 4 <= BLOCK
    requires a < BLOCK && b < BLOCK && c < BLOCK && d < BLOCK
    modifies tmp
    ensures tmp[at..at + 4] == FusedColumn(state[a], state[b], state[c], state[d])
    ensures forall k :: 0 <= k < BLOCK && !(at <= k < at + 4) ==> tmp[k] == old(tmp[k])
  {
    hide Sbox, X2Sbox, X3Sbox, Add4;
    var t0 := Add4(X2Sbox(state[a]), X3Sbox(state[b]), Sbox(state[c]), Sbox(state[d]));
    var t1 := Add4(Sbox(state[a]), X2Sbox(state[b]), X3Sbox(state[c]), Sbox(state[d]));
    var t2 := Add4(Sbox(state[a]), Sbox(state[b]), X2Sbox(state[c]), X3Sbox(state[d]));
    var t3 := Add4(X3Sbox(state[a]), Sbox(state[b]), Sbox(state[c]), X2Sbox(state[d]));
    assert [t0, t1, t2, t3] == FusedColumn(state[a], state[b], state[c], state[d]);
    hide FusedColumn;
    tmp[at], tmp[at + 1], tmp[at + 2], tmp[at + 3] := t0, t1, t2, t3;
    WordOf(tmp[..], at);
    assert tmp[at..at + 4] == tmp[..][at..at + 4];
  }

  /** The last round does not mix columns; rows are substituted and rotated in place. */
  method ShiftRowsInPlace(state: array<bv8>)
    requires state.Length == BLOCK
    modifies state
    ensures state[..] == ShiftRows(SubBytes(old(state[..])))
  {
    hide Sbox, ShiftRows, SubBytes, SubWordOf;
    ghost var s := state[..];
    SubRow0(state);
    RotateRow1(state);
    RotateRow2(state);
    RotateRow3(state);
    DiagonalsShift(s, state[..]);
  }

  /** Bytes outside row r did not change. */
  ghost predicate OtherRows(s: seq<bv8>, t: seq<bv8>, r: nat) {
    |s| == |t| == BLOCK && forall i :: 0 <= i < BLOCK && i % 4 != r ==> t[i] == s[i]
  }

  method SubRow0(state: array<bv8>)
    requires state.Length == BLOCK
    modifies state
    ensures OtherRows(old(state[..]), state[..], 0)
    ensures state[0] == Sbox(old(state[0])) && state[4] == Sbox(old(state[4]))
    ensures state[8] == Sbox(old(state[8])) && state[12] == Sbox(old(state[12]))
  {
    hide Sbox;
    state[0] := Sbox(state[0]);
    state[4] := Sbox(state[4]);
    state[8] := Sbox(state[8]);
    state[12] := Sbox(state[12]);
  }

  method RotateRow1(state: array<bv8>)
    requires state.Length == BLOCK
    modifies state
    ensures OtherRows(old(state[..]), state[..], 1)
    ensures state[1] == Sbox(old(state[5])) && state[5] == Sbox(old(state[9]))
    ensures state[9] == Sbox(old(state[13])) && state[13] == Sbox(old(state[1]))
  {
    hide Sbox;
    var tmp := Sbox(state[1]);
    state[1] := Sbox(state[5]);
    state[5] := Sbox(state[9]);
    state[9] := Sbox(state[13]);
    state[13] := tmp;
  }

  method RotateRow2(state: array<bv8>)
    requires state.Length == BLOCK
    modifies state
    ensures OtherRows(old(state[..]), state[..], 2)
    ensures state[2] == Sbox(old(state[10])) && state[10] == Sbox(old(state[2]))
    ensures state[6] == Sbox(old(state[14])) && state[14] == Sbox(old(state[6]))
  {
    hide Sbox;
    var tmp := Sbox(state[2]);
    state[2] := Sbox(state[10]);
    state[10] := tmp;
    tmp := Sbox(state[6]);
    state[6] := Sbox(state[14]);
    state[14] := tmp;
  }

  method RotateRow3(state: array<bv8>)
    requires state.Length == BLOCK
    modifies state
    ensures OtherRows(old(state[..]), state[..], 3)
    ensures state[15] == Sbox(old(state[11])) && state[11] == Sbox(old(state[7]))
    ensures state[7] == Sbox(old(state[3])) && state[3] == Sbox(old(state[15]))
  {
    hide Sbox;
    var tmp := Sbox(state[15]);
    state[15] := Sbox(state[11]);
    state[11] := Sbox(state[7]);
    state[7] := Sbox(state[3]);
    state[3] := tmp;
  }

  lemma DiagonalsShift(s: seq<bv8>, t: seq<bv8>)
    requires |s| == |t| == BLOCK
    requires t[0] == Sbox(s[0]) && t[4] == Sbox(s[4]) && t[8] == Sbox(s[8]) && t[12] == Sbox(s[12])
    requires t[1] == Sbox(s[5]) && t[5] == Sbox(s[9]) && t[9] == Sbox(s[13]) && t[13] == Sbox(s[1])
    requires t[2] == Sbox(s[10]) && t[10] == Sbox(s[2]) && t[6] == Sbox(s[14]) && t[14] == Sbox(s[6])
    requires t[15] == Sbox(s[11]) && t[11] == Sbox(s[7]) && t[7] == Sbox(s[3]) && t[3] == Sbox(s[15])
    ensures t == ShiftRows(SubBytes(s))
  {
    hide Sbox, ShiftRows, SubBytes;
    WordOf(t, 0);
    WordOf(t, 4);
    WordOf(t, 8);
    WordOf(t, 12);
    ShiftedState(s, t);
  }

  /** Exclusive-or with the round key; the code does it a 32-bit word at a time. */
  method AddRoundKey(state: array<bv8>, expkey: array<bv8>, round: nat)
    requires state.Length == BLOCK && expkey.Length == EXPANDED && round <= ROUNDS && state != expkey
    modifies state
    ensures state[..] == Xor(old(state[..]), RoundKey(expkey[..], round))
  {
    hide Add;
    ghost var s := state[..];
    for i := 0 to BLOCK
      invariant forall k :: 0 <= k < BLOCK ==>
                  state[k] == if k < i then Add(s[k], expkey[BLOCK * round + k]) else s[k]
    {
      state[i] := Add(state[i], expkey[BLOCK * round + i]);
    }
  }

  /** Encrypt the block at position at, in place. */
  method AesEncrypt(buf: array<bv8>, at: nat, expkey: array<bv8>)
    requires at + BLOCK <= buf.Length && expkey.Length == EXPANDED && buf != expkey
    modifies buf
    ensures buf[at..at + BLOCK] == Cipher(old(buf[at..at + BLOCK]), expkey[..])
    ensures buf[..at] == old(buf[..at]) && buf[at + BLOCK..] == old(buf[at + BLOCK..])
  {
    hide Rounds, Cipher;
    ghost var s := buf[at..at + BLOCK];
    var state := new bv8[BLOCK](i requires 0 <= i < BLOCK && at + BLOCK <= buf.Length reads buf => buf[at + i]);
    assert state[..] == s;
    RunRounds(state, expkey);
    StoreBlock(state, buf, at);
  }

  /** The rounds on the state. */
  method RunRounds(state: array<bv8>, expkey: array<bv8>)
    requires state.Length == BLOCK && expkey.Length == EXPANDED && state != expkey
    modifies state
    ensures state[..] == Cipher(old(state[..]), expkey[..])
  {
    hide Rounds, Cipher, MixColumns, ShiftRows, SubBytes, Xor;
    ghost var s, w := state[..], expkey[..];
    FirstRound(s, w);
    AddRoundKey(state, expkey, 0);
    for round := 1 to ROUNDS + 1
      invariant expkey[..] == w
      invariant state[..] == if round <= ROUNDS then Rounds(s, w, round - 1) else Cipher(s, w)
    {
      if round < ROUNDS {
        NextRound(s, w, round);
        MixSubColumns(state);
      } else {
        LastRound(s, w);
        ShiftRowsInPlace(state);
      }
      AddRoundKey(state, expkey, round);
    }
  }

  /** Copy the state out. */
  method StoreBlock(state: array<bv8>, buf: array<bv8>, at: nat)
    requires state.Length == BLOCK && at + BLOCK <= buf.Length && buf != state
    modifies buf
    ensures buf[at..at + BLOCK] == state[..]
    ensures buf[..at] == old(buf[..at]) && buf[at + BLOCK..] == old(buf[at + BLOCK..])
  {
    forall i | 0 <= i < BLOCK {
      buf[at + i] := state[i];
    }
  }

  lemma LastRound(s: seq<bv8>, w: seq<bv8>)
    requires |s| == BLOCK && |w| == EXPANDED
    ensures Cipher(s, w) == Xor(ShiftRows(SubBytes(Rounds(s, w, ROUNDS - 1))), RoundKey(w, ROUNDS))
  {
  }

  lemma FirstRound(s: seq<bv8>, w: seq<bv8>)
    requires |s| == BLOCK && |w| == EXPANDED
    ensures Rounds(s, w, 0) == Xor(s, RoundKey(w, 0))
  {
  }

  lemma NextRound(s: seq<bv8>, w: seq<bv8>, n: nat)
    requires |s| == BLOCK && |w| == EXPANDED && 0 < n < ROUNDS
    ensures Rounds(s, w, n) == Xor(MixColumns(ShiftRows(SubBytes(Rounds(s, w, n - 1)))), RoundKey(w, n))
  {
  }

  /** Every block of the buffer is encrypted in place; a partial last block counts as a block. */
  method AesEncryptObj(buf: array<bv8>, len: nat, key: array<bv8>)
    requires key.Length == BLOCK && buf != key && (len + BLOCK - 1) / BLOCK * BLOCK <= buf.Length
    modifies buf
    ensures var n := (len + BLOCK - 1) / BLOCK;
            && (forall i :: 0 <= i < n ==>
                  buf[BLOCK * i..BLOCK * i + BLOCK]
                  == Cipher(old(buf[BLOCK * i..BLOCK * i + BLOCK]), KeySchedule(key[..], KEYCOLS * (ROUNDS + 1))))
            && buf[BLOCK * n..] == old(buf[BLOCK * n..])
  {
    hide Cipher, KeySchedule;
    var schedule := new bv8[EXPANDED];
    ExpandKey(key, schedule);
    ghost var w, was := schedule[..], buf[..];
    var blocks := (len + BLOCK - 1) / BLOCK;
    for i := 0 to blocks
      invariant schedule[..] == w && key[..] == old(key[..])
      invariant forall k :: 0 <= k < i ==>
                  buf[BLOCK * k..BLOCK * k + BLOCK] == Cipher(was[BLOCK * k..BLOCK * k + BLOCK], w)
      invariant buf[BLOCK * i..] == was[BLOCK * i..]
    {
      ghost var now := buf[..];
      assert now[BLOCK * i..][..BLOCK] == was[BLOCK * i..][..BLOCK];
      assert now[BLOCK * i..BLOCK * i + BLOCK] == was[BLOCK * i..BLOCK * i + BLOCK];
      AesEncrypt(buf, BLOCK * i, schedule);
      assert buf[BLOCK * i..BLOCK * i + BLOCK] == Cipher(was[BLOCK * i..BLOCK * i + BLOCK], w);
      forall k | 0 <= k < i
        ensures buf[BLOCK * k..BLOCK * k + BLOCK] == Cipher(was[BLOCK * k..BLOCK * k + BLOCK], w)
      {
        SamePrefix(buf[..], now, BLOCK * i, BLOCK * k, BLOCK * k + BLOCK);
      }
      assert buf[BLOCK * i + BLOCK..] == now[BLOCK * i..][BLOCK..] == was[BLOCK * i..][BLOCK..];
    }
  }

  lemma SamePrefix(a: seq<bv8>, b: seq<bv8>, n: nat, lo: nat, hi: nat)
    requires lo <= hi <= n <= |a| && n <= |b| && a[..n] == b[..n]
    ensures a[lo..hi] == b[lo..hi]
  {
    PrefixSlice(a, n, lo, hi);
    PrefixSlice(b, n, lo, hi);
  }

  lemma PrefixSlice(a: seq<bv8>, n: nat, lo: nat, hi: nat)
    requires lo <= hi <= n <= |a|
    ensures a[..n][lo..hi] == a[lo..hi]
  {
  }
}
