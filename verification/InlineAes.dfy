/** The encryptors of bench/aes.c, which expand the key while they encrypt. Words are little-endian views of
    memory, so a word here is the byte reversal of a column of FIPS 197. */
module InlineAes {

  import opened AesBlock
  import opened AesTables
  import opened KeySchedule
  import opened AesKeys
  import opened AesRounds

  // ---------- little-endian words ----------

  function Rev(w: word): word {
    Word(Byte0(w), Byte1(w), Byte2(w), Byte3(w))
  }

  function RevState(s: State): State {
    State(Rev(s.s0), Rev(s.s1), Rev(s.s2), Rev(s.s3))
  }

  lemma RevOfWord(a: byte, b: byte, c: byte, d: byte)
    ensures Rev(Word(a, b, c, d)) == Word(d, c, b, a)
  {
    hide Word, Byte3, Byte2, Byte1, Byte0;
    BytesOfWord(a, b, c, d);
  }

  lemma BytesOfRev(w: word)
    ensures Byte3(Rev(w)) == Byte0(w) && Byte2(Rev(w)) == Byte1(w) && Byte1(Rev(w)) == Byte2(w)
    ensures Byte0(Rev(w)) == Byte3(w)
  {
    hide Word, Byte3, Byte2, Byte1, Byte0;
    BytesOfWord(Byte0(w), Byte1(w), Byte2(w), Byte3(w));
  }

  lemma RevOfSum(v: word, w: word)
    ensures Rev(AddWords(v, w)) == AddWords(Rev(v), Rev(w))
  {
    hide Word, Byte3, Byte2, Byte1, Byte0, AddWords, Add;
    BytesOfSum(v, w);
    SumOfWords(Byte0(v), Byte1(v), Byte2(v), Byte3(v), Byte0(w), Byte1(w), Byte2(w), Byte3(w));
  }

  lemma RevTwice(w: word)
    ensures Rev(Rev(w)) == w
  {
    hide Word, Byte3, Byte2, Byte1, Byte0;
    BytesOfRev(w);
    WordOfBytes(w);
  }

  // ---------- the macros ----------

  function RotUp8(x: word): word { (x << 8) | (x >> 24) }
  function Rot16(x: word): word { (x << 16) | (x >> 16) }
  function RotDown8(x: word): word { (x >> 8) | (x << 24) }

  lemma RotUp8Bytes(a: byte, b: byte, c: byte, d: byte)
    ensures RotUp8(Word(a, b, c, d)) == Word(b, c, d, a)
  {
  }

  lemma Rot16Bytes(a: byte, b: byte, c: byte, d: byte)
    ensures Rot16(Word(a, b, c, d)) == Word(c, d, a, b)
  {
  }

  lemma RotDown8Bytes(a: byte, b: byte, c: byte, d: byte)
    ensures RotDown8(Word(a, b, c, d)) == Word(d, a, b, c)
  {
  }

  /** An entry of table_0, whose bytes in memory are s, s, 3s and 2s. */
  function T0(sb: Sbox, b: byte): word {
    var s := sb.forward(b);
    Word(XTime(s), Mul3(s), s, s)
  }

  /** Rotated, the one table gives the four tables of c/aes.c. */
  lemma RotatedTables(sb: Sbox, b: byte)
    ensures Rev(RotUp8(T0(sb, b))) == Te0(sb, b) && Rev(Rot16(T0(sb, b))) == Te1(sb, b)
    ensures Rev(RotDown8(T0(sb, b))) == Te2(sb, b) && Rev(T0(sb, b)) == Te3(sb, b)
  {
    hide Word, XTime, Mul3, Rev, RotUp8, Rot16, RotDown8;
    var s := sb.forward(b);
    var s2, s3 := XTime(s), Mul3(s);
    RotUp8Bytes(s2, s3, s, s);
    Rot16Bytes(s2, s3, s, s);
    RotDown8Bytes(s2, s3, s, s);
    RevOfWord(s3, s, s, s2);
    RevOfWord(s, s, s2, s3);
    RevOfWord(s, s2, s3, s);
    RevOfWord(s2, s3, s, s);
  }

  /** sub_byte, which substitutes each byte in place through the first byte of a table entry. */
  function SubByte(sb: Sbox, w: word): word {
    Word(sb.forward(Byte3(w)), sb.forward(Byte2(w)), sb.forward(Byte1(w)), sb.forward(Byte0(w)))
  }

  lemma RevOfSubByte(sb: Sbox, w: word)
    ensures Rev(SubByte(sb, w)) == SubWord(sb, Rev(w))
  {
    hide Word, Byte3, Byte2, Byte1, Byte0;
    BytesOfRev(w);
    BytesOfWord(sb.forward(Byte3(w)), sb.forward(Byte2(w)), sb.forward(Byte1(w)), sb.forward(Byte0(w)));
  }

  lemma RevOfRotDown8(w: word)
    ensures Rev(RotDown8(w)) == RotWord(Rev(w))
  {
    hide Word, Byte3, Byte2, Byte1, Byte0, RotDown8;
    BytesOfRev(w);
    WordOfBytes(w);
    RotDown8Bytes(Byte3(w), Byte2(w), Byte1(w), Byte0(w));
    BytesOfWord(Byte0(w), Byte3(w), Byte2(w), Byte1(w));
  }

  // ---------- the round constant as a signed char ----------

  function SignExtend(b: byte): word {
    if b & 0x80 != 0 then b as word | 0xffffff00 else b as word
  }

  function ShiftRightSigned8(j: word): word {
    (j >> 8) | (if j & 0x80000000 != 0 then 0xff000000 else 0)
  }

  function NextRcon(rcon: byte): byte {
    var j := SignExtend(rcon) << 1;
    ((j ^ (ShiftRightSigned8(j) & 0x1b)) & 0xff) as byte
  }

  lemma NextRconIsXTime(rcon: byte)
    ensures NextRcon(rcon) == XTime(rcon)
  {
  }

  lemma RevOfRcon(rcon: byte)
    ensures Rev(rcon as word) == Word(rcon, 0, 0, 0)
  {
    assert rcon as word == Word(0, 0, 0, rcon);
    hide Word;
    RevOfWord(0, 0, 0, rcon);
  }

  // ---------- one round ----------

  /** The words that table_lookup and rot leave in p0 to p3. */
  function P0(sb: Sbox, y: word): word { RotUp8(T0(sb, Byte0(y))) }
  function P1(sb: Sbox, y: word): word { Rot16(T0(sb, Byte1(y))) }
  function P2(sb: Sbox, y: word): word { RotDown8(T0(sb, Byte2(y))) }
  function P3(sb: Sbox, y: word): word { T0(sb, Byte3(y)) }

  lemma LookupsAreTables(sb: Sbox, y: word)
    ensures Rev(P0(sb, y)) == Te0(sb, Byte3(Rev(y))) && Rev(P1(sb, y)) == Te1(sb, Byte2(Rev(y)))
    ensures Rev(P2(sb, y)) == Te2(sb, Byte1(Rev(y))) && Rev(P3(sb, y)) == Te3(sb, Byte0(Rev(y)))
  {
    hide T0, RotUp8, Rot16, RotDown8, Te0, Te1, Te2, Te3, Rev, Byte3, Byte2, Byte1, Byte0;
    BytesOfRev(y);
    RotatedTables(sb, Byte0(y));
    RotatedTables(sb, Byte1(y));
    RotatedTables(sb, Byte2(y));
    RotatedTables(sb, Byte3(y));
  }

  /** One column: whatever the order in which the four lookups are added to the key word. */
  lemma ColumnIsRound(sb: Sbox, a: word, b: word, c: word, d: word, k: word)
    ensures Rev(AddWords(AddFour(P0(sb, a), P1(sb, b), P2(sb, c), P3(sb, d)), k))
            == AddWords(MixColumn(SubShiftColumn(sb, Rev(a), Rev(b), Rev(c), Rev(d))), Rev(k))
  {
    hide P0, P1, P2, P3, Rev, AddWords, Te0, Te1, Te2, Te3, MixColumn, SubShiftColumn, Byte3, Byte2, Byte1, Byte0;
    LookupsAreTables(sb, a);
    LookupsAreTables(sb, b);
    LookupsAreTables(sb, c);
    LookupsAreTables(sb, d);
    var p, q, r, s := P0(sb, a), P1(sb, b), P2(sb, c), P3(sb, d);
    RevOfSum(p, q);
    RevOfSum(AddWords(p, q), r);
    RevOfSum(AddWords(AddWords(p, q), r), s);
    RevOfSum(AddFour(p, q, r, s), k);
    TeColumnIsRound(sb, Rev(a), Rev(b), Rev(c), Rev(d), Rev(k));
  }

  /** k plus four words, from any of the four starting points. */
  lemma SumOntoKey(k: word, a: word, b: word, c: word, d: word)
    ensures AddWords(AddWords(AddWords(AddWords(k, a), b), c), d) == AddWords(AddFour(a, b, c, d), k)
    ensures AddWords(AddWords(AddWords(AddWords(k, b), c), d), a) == AddWords(AddFour(a, b, c, d), k)
    ensures AddWords(AddWords(AddWords(AddWords(k, c), d), a), b) == AddWords(AddFour(a, b, c, d), k)
    ensures AddWords(AddWords(AddWords(AddWords(k, d), a), b), c) == AddWords(AddFour(a, b, c, d), k)
  {
    FromKey(k, a, b, c, d);
    FromKey(k, b, c, d, a);
    FromKey(k, c, d, a, b);
    FromKey(k, d, a, b, c);
    RotateSum(a, b, c, d);
    RotateSum(b, c, d, a);
    RotateSum(c, d, a, b);
    hide AddWords;
  }

  lemma FromKey(k: word, a: word, b: word, c: word, d: word)
    ensures AddWords(AddWords(AddWords(AddWords(k, a), b), c), d) == AddWords(AddFour(a, b, c, d), k)
  {
    hide AddWords;
    AddWordsIsAbelian(k, a, b);
    AddWordsIsAbelian(k, AddWords(a, b), c);
    AddWordsIsAbelian(k, AddWords(AddWords(a, b), c), d);
    AddWordsIsAbelian(k, AddFour(a, b, c, d), 0);
  }

  lemma RotateSum(a: word, b: word, c: word, d: word)
    ensures AddFour(b, c, d, a) == AddFour(a, b, c, d)
  {
    hide AddWords;
    AddWordsIsAbelian(a, b, c);
    AddWordsIsAbelian(a, AddWords(b, c), d);
    AddWordsIsAbelian(AddWords(AddWords(b, c), d), a, 0);
  }

  function StateOf(w: seq<word>): State
    requires |w| == 4
  {
    State(w[0], w[1], w[2], w[3])
  }

  lemma RoundOfColumns(sb: Sbox, s: State, k: State)
    ensures RevState(Xor(Columns(sb, false, s), k)) == Xor(Mix(SubShift(sb, RevState(s))), RevState(k))
  {
    hide P0, P1, P2, P3, Rev, AddWords, AddFour, MixColumn, SubShiftColumn;
    ColumnIsRound(sb, s.s0, s.s1, s.s2, s.s3, k.s0);
    ColumnIsRound(sb, s.s1, s.s2, s.s3, s.s0, k.s1);
    ColumnIsRound(sb, s.s2, s.s3, s.s0, s.s1, k.s2);
    ColumnIsRound(sb, s.s3, s.s0, s.s1, s.s2, k.s3);
  }

  /** table_lookup and final_mask: rotated outside the last round, and in it masked to the one byte that stays. */
  method TableLookup(sb: Sbox, y: word, isFinalRound: bool) returns (p0: word, p1: word, p2: word, p3: word)
    ensures !isFinalRound ==> p0 == P0(sb, y) && p1 == P1(sb, y) && p2 == P2(sb, y) && p3 == P3(sb, y)
    ensures isFinalRound ==> p0 == L0(sb, y) && p1 == L1(sb, y) && p2 == L2(sb, y) && p3 == L3(sb, y)
  {
    hide T0, RotUp8, Rot16, RotDown8, Masked, Byte3, Byte2, Byte1, Byte0;
    p0, p1, p2, p3 := T0(sb, Byte0(y)), T0(sb, Byte1(y)), T0(sb, Byte2(y)), T0(sb, Byte3(y));
    if isFinalRound {
      p0 := Masked(p0, 0xff);
      p1 := Masked(p1, 0xff00);
      p2 := Rot16(p2);
      p2 := Masked(p2, 0xff0000);
      p3 := RotDown8(p3);
      p3 := Masked(p3, 0xff000000);
    } else {
      p0 := RotUp8(p0);
      p1 := Rot16(p1);
      p2 := RotDown8(p2);
    }
  }

  function Masked(w: word, mask: word): word { w & mask }
  function L0(sb: Sbox, y: word): word { Masked(T0(sb, Byte0(y)), 0xff) }
  function L1(sb: Sbox, y: word): word { Masked(T0(sb, Byte1(y)), 0xff00) }
  function L2(sb: Sbox, y: word): word { Masked(Rot16(T0(sb, Byte2(y))), 0xff0000) }
  function L3(sb: Sbox, y: word): word { Masked(RotDown8(T0(sb, Byte3(y))), 0xff000000) }

  /** The four words that the lookups put into one column. */
  function Column(sb: Sbox, isFinalRound: bool, a: word, b: word, c: word, d: word): word {
    if isFinalRound then AddFour(L0(sb, a), L1(sb, b), L2(sb, c), L3(sb, d))
    else AddFour(P0(sb, a), P1(sb, b), P2(sb, c), P3(sb, d))
  }

  function Columns(sb: Sbox, isFinalRound: bool, s: State): State {
    State(Column(sb, isFinalRound, s.s0, s.s1, s.s2, s.s3), Column(sb, isFinalRound, s.s1, s.s2, s.s3, s.s0),
          Column(sb, isFinalRound, s.s2, s.s3, s.s0, s.s1), Column(sb, isFinalRound, s.s3, s.s0, s.s1, s.s2))
  }

  /** A round under the key k0 to k3, accumulated in z0 to z3. */
  method AccumulateRound(sb: Sbox, state: array<word>, isFinalRound: bool, k0: word, k1: word, k2: word, k3: word)
    requires state.Length == 4
    modifies state
    ensures StateOf(state[..]) == Xor(Columns(sb, isFinalRound, StateOf(old(state[..]))), State(k0, k1, k2, k3))
  {
    hide P0, P1, P2, P3, L0, L1, L2, L3, AddWords, AddFour;
    var z0, z1, z2, z3 := k0, k1, k2, k3;
    var p0, p1, p2, p3 := TableLookup(sb, state[0], isFinalRound);
    z0, z3, z2, z1 := AddWords(z0, p0), AddWords(z3, p1), AddWords(z2, p2), AddWords(z1, p3);
    var q0, q1, q2, q3 := TableLookup(sb, state[1], isFinalRound);
    z1, z0, z3, z2 := AddWords(z1, q0), AddWords(z0, q1), AddWords(z3, q2), AddWords(z2, q3);
    var r0, r1, r2, r3 := TableLookup(sb, state[2], isFinalRound);
    z2, z1, z0, z3 := AddWords(z2, r0), AddWords(z1, r1), AddWords(z0, r2), AddWords(z3, r3);
    var s0, s1, s2, s3 := TableLookup(sb, state[3], isFinalRound);
    SumOntoKey(k0, p0, q1, r2, s3);
    SumOntoKey(k1, q0, r1, s2, p3);
    SumOntoKey(k2, r0, s1, p2, q3);
    SumOntoKey(k3, s0, p1, q2, r3);
    state[0] := AddWords(z0, s3);
    state[1] := AddWords(z1, s2);
    state[2] := AddWords(z2, s1);
    state[3] := AddWords(z3, s0);
  }

  method FullRound(sb: Sbox, state: array<word>, k0: word, k1: word, k2: word, k3: word)
    requires state.Length == 4
    modifies state
    ensures RevState(StateOf(state[..]))
            == Xor(Mix(SubShift(sb, RevState(StateOf(old(state[..]))))), RevState(State(k0, k1, k2, k3)))
  {
    hide P0, P1, P2, P3, AddWords, AddFour, RevState, Mix, SubShift;
    RoundOfColumns(sb, StateOf(state[..]), State(k0, k1, k2, k3));
    AccumulateRound(sb, state, false, k0, k1, k2, k3);
  }

  // ---------- the last round ----------

  lemma MasksOfTable(s2: byte, s3: byte, s: byte)
    ensures Word(s2, s3, s, s) & 0xff == Word(0, 0, 0, s) && Word(s2, s3, s, s) & 0xff00 == Word(0, 0, s, 0)
    ensures Word(s, s, s2, s3) & 0xff0000 == Word(0, s, 0, 0) && Word(s, s2, s3, s) & 0xff000000 == Word(s, 0, 0, 0)
  {
  }

  lemma MaskedLookup(sb: Sbox, b: byte)
    ensures T0(sb, b) & 0xff == Word(0, 0, 0, sb.forward(b)) && T0(sb, b) & 0xff00 == Word(0, 0, sb.forward(b), 0)
    ensures Rot16(T0(sb, b)) & 0xff0000 == Word(0, sb.forward(b), 0, 0)
    ensures RotDown8(T0(sb, b)) & 0xff000000 == Word(sb.forward(b), 0, 0, 0)
  {
    hide Word, XTime, Mul3, Rot16, RotDown8;
    var s := sb.forward(b);
    Rot16Bytes(XTime(s), Mul3(s), s, s);
    RotDown8Bytes(XTime(s), Mul3(s), s, s);
    MasksOfTable(XTime(s), Mul3(s), s);
  }

  lemma AssembledBytes(a: byte, b: byte, c: byte, d: byte)
    ensures AddFour(Word(0, 0, 0, a), Word(0, 0, b, 0), Word(0, c, 0, 0), Word(d, 0, 0, 0)) == Word(d, c, b, a)
  {
    hide Word, AddFour, Add;
    SumOfColumns([0, 0, 0, a], [0, 0, b, 0], [0, c, 0, 0], [d, 0, 0, 0]);
    OnlyOne(a);
    OnlyOne(b);
    OnlyOne(c);
    OnlyOne(d);
  }

  lemma OnlyOne(a: byte)
    ensures Sum4(a, 0, 0, 0) == a && Sum4(0, a, 0, 0) == a && Sum4(0, 0, a, 0) == a && Sum4(0, 0, 0, a) == a
  {
  }

  /** Substituted and shifted, little-endian. */
  function LittleSubShift(sb: Sbox, a: word, b: word, c: word, d: word): word {
    Word(sb.forward(Byte3(d)), sb.forward(Byte2(c)), sb.forward(Byte1(b)), sb.forward(Byte0(a)))
  }

  lemma LastColumn(sb: Sbox, a: word, b: word, c: word, d: word)
    ensures Column(sb, true, a, b, c, d) == LittleSubShift(sb, a, b, c, d)
    ensures Rev(LittleSubShift(sb, a, b, c, d)) == SubShiftColumn(sb, Rev(a), Rev(b), Rev(c), Rev(d))
  {
    hide T0, Word, AddFour, Rev, Rot16, RotDown8, Byte3, Byte2, Byte1, Byte0;
    MaskedLookup(sb, Byte0(a));
    MaskedLookup(sb, Byte1(b));
    MaskedLookup(sb, Byte2(c));
    MaskedLookup(sb, Byte3(d));
    var p, q, r, s := sb.forward(Byte0(a)), sb.forward(Byte1(b)), sb.forward(Byte2(c)), sb.forward(Byte3(d));
    AssembledBytes(p, q, r, s);
    RevOfWord(s, r, q, p);
    BytesOfRev(a);
    BytesOfRev(b);
    BytesOfRev(c);
    BytesOfRev(d);
  }

  lemma LastRoundOfColumns(sb: Sbox, s: State, k: State)
    ensures RevState(Xor(Columns(sb, true, s), k)) == Xor(SubShift(sb, RevState(s)), RevState(k))
  {
    hide Column, LittleSubShift, Rev, AddWords, SubShiftColumn;
    LastColumn(sb, s.s0, s.s1, s.s2, s.s3);
    LastColumn(sb, s.s1, s.s2, s.s3, s.s0);
    LastColumn(sb, s.s2, s.s3, s.s0, s.s1);
    LastColumn(sb, s.s3, s.s0, s.s1, s.s2);
    var c := Columns(sb, true, s);
    RevOfSum(c.s0, k.s0);
    RevOfSum(c.s1, k.s1);
    RevOfSum(c.s2, k.s2);
    RevOfSum(c.s3, k.s3);
  }

  /** The last round of the branching form. */
  method MaskedRound(sb: Sbox, state: array<word>, k0: word, k1: word, k2: word, k3: word)
    requires state.Length == 4
    modifies state
    ensures RevState(StateOf(state[..]))
            == Xor(SubShift(sb, RevState(StateOf(old(state[..])))), RevState(State(k0, k1, k2, k3)))
  {
    hide Columns, Xor, RevState, SubShift;
    LastRoundOfColumns(sb, StateOf(state[..]), State(k0, k1, k2, k3));
    AccumulateRound(sb, state, true, k0, k1, k2, k3);
  }

  /** b[0] ^= ..., b[1] ^= ..., b[2] ^= ..., b[3] ^= ... on the bytes of k in memory order. */
  function XorMemory(k: word, b0: byte, b1: byte, b2: byte, b3: byte): word {
    Word(Add(Byte3(k), b3), Add(Byte2(k), b2), Add(Byte1(k), b1), Add(Byte0(k), b0))
  }

  lemma XorMemoryIsSum(k: word, b0: byte, b1: byte, b2: byte, b3: byte)
    ensures XorMemory(k, b0, b1, b2, b3) == AddWords(Word(b3, b2, b1, b0), k)
  {
    hide Word, Add, AddWords, Byte3, Byte2, Byte1, Byte0;
    SumOfWords(Byte3(k), Byte2(k), Byte1(k), Byte0(k), b3, b2, b1, b0);
    WordOfBytes(k);
    AddWordsIsAbelian(k, Word(b3, b2, b1, b0), 0);
  }

  method XorColumn(sb: Sbox, k: word, a: word, b: word, c: word, d: word) returns (z: word)
    ensures z == AddWords(Column(sb, true, a, b, c, d), k)
  {
    hide Word, Byte3, Byte2, Byte1, Byte0, AddWords, Column, XorMemory;
    LastColumn(sb, a, b, c, d);
    XorMemoryIsSum(k, sb.forward(Byte0(a)), sb.forward(Byte1(b)), sb.forward(Byte2(c)), sb.forward(Byte3(d)));
    z := XorMemory(k, sb.forward(Byte0(a)), sb.forward(Byte1(b)), sb.forward(Byte2(c)), sb.forward(Byte3(d)));
  }

  /** The last round of the branch-free forms, byte by byte into the key words. */
  method ByteRound(sb: Sbox, state: array<word>, k0: word, k1: word, k2: word, k3: word)
    requires state.Length == 4
    modifies state
    ensures RevState(StateOf(state[..]))
            == Xor(SubShift(sb, RevState(StateOf(old(state[..])))), RevState(State(k0, k1, k2, k3)))
  {
    hide Column, AddWords, RevState, SubShift;
    LastRoundOfColumns(sb, StateOf(state[..]), State(k0, k1, k2, k3));
    var z0 := XorColumn(sb, k0, state[0], state[1], state[2], state[3]);
    var z1 := XorColumn(sb, k1, state[1], state[2], state[3], state[0]);
    var z2 := XorColumn(sb, k2, state[2], state[3], state[0], state[1]);
    var z3 := XorColumn(sb, k3, state[3], state[0], state[1], state[2]);
    state[0], state[1], state[2], state[3] := z0, z1, z2, z3;
    assert StateOf(state[..]) == State(z0, z1, z2, z3);
  }
}
