/** The table-driven AES of c/aes.c. The S-box is a parameter (any permutation of the bytes), and the
    tables Te and Td are defined from it. */
module AesBlock {

  type byte = bv8
  type word = bv32

  datatype Sbox = Sbox(forward: byte -> byte, backward: byte -> byte)

  ghost predicate IsPermutation(sb: Sbox) {
    forall b: byte :: sb.backward(sb.forward(b)) == b && sb.forward(sb.backward(b)) == b
  }

  // ---------- words and bytes ----------

  /** A number below 256 survives the way to a byte and back. */
  lemma {:induction false} ByteAndBack(n: nat)
    requires n < 256
    ensures (n as byte) as nat == n
  {
    if n > 0 {
      ByteAndBack(n / 2);
      var h := (n / 2) as byte;
      DoubledByte(h);
      var b := if n % 2 == 0 then h << 1 else (h << 1) + 1;
      assert b as nat == n;
      assert (b as nat) as byte == b;
    }
  }

  lemma DoubledByte(h: byte)
    requires h < 128
    ensures (h << 1) as nat == 2 * (h as nat) && ((h << 1) + 1) as nat == 2 * (h as nat) + 1
  {
  }

  /** Bytes from the most significant one down. */
  function Word(b3: byte, b2: byte, b1: byte, b0: byte): word {
    (b3 as word << 24) | (b2 as word << 16) | (b1 as word << 8) | b0 as word
  }

  /** GETBYTE(x, y) for y = 3, 2, 1, 0 */
  function Byte3(w: word): byte { ((w >> 24) & 0xff) as byte }
  function Byte2(w: word): byte { ((w >> 16) & 0xff) as byte }
  function Byte1(w: word): byte { ((w >> 8) & 0xff) as byte }
  function Byte0(w: word): byte { (w & 0xff) as byte }

  lemma BytesOfWord(b3: byte, b2: byte, b1: byte, b0: byte)
    ensures var w := Word(b3, b2, b1, b0); Byte3(w) == b3 && Byte2(w) == b2 && Byte1(w) == b1 && Byte0(w) == b0
  {
  }

  lemma WordOfBytes(w: word)
    ensures Word(Byte3(w), Byte2(w), Byte1(w), Byte0(w)) == w
  {
  }

  /** Addition in GF(2^8) and, byte by byte, on words. */
  function Add(a: byte, b: byte): byte { a ^ b }
  function AddWords(v: word, w: word): word { v ^ w }

  lemma AddIsAbelian(a: byte, b: byte, c: byte)
    ensures Add(Add(a, b), c) == Add(a, Add(b, c)) && Add(a, b) == Add(b, a) && Add(a, 0) == a && Add(a, a) == 0
  {
  }

  lemma AddSwap(a: byte, b: byte, c: byte, d: byte)
    ensures Add(Add(a, b), Add(c, d)) == Add(Add(a, c), Add(b, d))
  {
    AddIsAbelian(a, b, Add(c, d));
    AddIsAbelian(b, c, d);
    AddIsAbelian(c, b, d);
    AddIsAbelian(a, c, Add(b, d));
    hide Add;
  }

  lemma BytesOfSum(v: word, w: word)
    ensures Byte3(AddWords(v, w)) == Add(Byte3(v), Byte3(w)) && Byte2(AddWords(v, w)) == Add(Byte2(v), Byte2(w))
    ensures Byte1(AddWords(v, w)) == Add(Byte1(v), Byte1(w)) && Byte0(AddWords(v, w)) == Add(Byte0(v), Byte0(w))
  {
    HighBytesOfSum(v, w);
    LowBytesOfSum(v, w);
    hide *;
  }

  lemma HighBytesOfSum(v: word, w: word)
    ensures Byte3(AddWords(v, w)) == Add(Byte3(v), Byte3(w))
    ensures Byte2(AddWords(v, w)) == Add(Byte2(v), Byte2(w))
  {
    assert ((v ^ w) >> 24) & 0xff == ((v >> 24) & 0xff) ^ ((w >> 24) & 0xff);
    assert ((v ^ w) >> 16) & 0xff == ((v >> 16) & 0xff) ^ ((w >> 16) & 0xff);
  }

  lemma LowBytesOfSum(v: word, w: word)
    ensures Byte1(AddWords(v, w)) == Add(Byte1(v), Byte1(w))
    ensures Byte0(AddWords(v, w)) == Add(Byte0(v), Byte0(w))
  {
  }

  lemma SumOfWords(a3: byte, a2: byte, a1: byte, a0: byte, b3: byte, b2: byte, b1: byte, b0: byte)
    ensures AddWords(Word(a3, a2, a1, a0), Word(b3, b2, b1, b0))
            == Word(Add(a3, b3), Add(a2, b2), Add(a1, b1), Add(a0, b0))
  {
    var v, w := Word(a3, a2, a1, a0), Word(b3, b2, b1, b0);
    BytesOfWord(a3, a2, a1, a0);
    BytesOfWord(b3, b2, b1, b0);
    BytesOfSum(v, w);
    WordOfBytes(AddWords(v, w));
    hide Word, Byte3, Byte2, Byte1, Byte0, AddWords, Add;
  }

  lemma AddWordsTwice(v: word, k: word)
    ensures AddWords(AddWords(v, k), k) == v
  {
  }

  lemma AddWordsIsAbelian(u: word, v: word, w: word)
    ensures AddWords(AddWords(u, v), w) == AddWords(u, AddWords(v, w)) && AddWords(u, v) == AddWords(v, u)
  {
  }

  // ---------- multiplication by constants in GF(2^8) ----------

  function Reduction(b: byte): byte { if b & 0x80 != 0 then 0x1b else 0 }
  function XTime(b: byte): byte { Add(b << 1, Reduction(b)) }
  function Mul3(b: byte): byte { Add(XTime(b), b) }
  function Mul4(b: byte): byte { XTime(XTime(b)) }
  function Mul8(b: byte): byte { XTime(Mul4(b)) }
  function Mul9(b: byte): byte { Add(Mul8(b), b) }
  function Mul11(b: byte): byte { Add(Mul8(b), Mul3(b)) }
  function Mul13(b: byte): byte { Add(Mul9(b), Mul4(b)) }
  function Mul14(b: byte): byte { Add(Mul8(b), XTime(Mul3(b))) }

  lemma XTimeIsLinear(x: byte, y: byte)
    ensures XTime(Add(x, y)) == Add(XTime(x), XTime(y))
  {
    ShiftIsLinear(x, y);
    AddSwap(x << 1, y << 1, Reduction(x), Reduction(y));
    hide Reduction, Add;
  }

  lemma ShiftIsLinear(x: byte, y: byte)
    ensures Add(x, y) << 1 == Add(x << 1, y << 1)
    ensures Reduction(Add(x, y)) == Add(Reduction(x), Reduction(y))
  {
  }

  lemma MulIsLinear(x: byte, y: byte)
    ensures Mul9(Add(x, y)) == Add(Mul9(x), Mul9(y)) && Mul11(Add(x, y)) == Add(Mul11(x), Mul11(y))
    ensures Mul13(Add(x, y)) == Add(Mul13(x), Mul13(y)) && Mul14(Add(x, y)) == Add(Mul14(x), Mul14(y))
  {
    hide XTime, Add;
    XTimeIsLinear(x, y);
    XTimeIsLinear(XTime(x), XTime(y));
    XTimeIsLinear(Mul4(x), Mul4(y));
    XTimeIsLinear(Mul3(x), Mul3(y));
    AddSwap(XTime(x), XTime(y), x, y);
    AddSwap(Mul8(x), Mul8(y), x, y);
    AddSwap(Mul8(x), Mul8(y), Mul3(x), Mul3(y));
    AddSwap(Mul9(x), Mul9(y), Mul4(x), Mul4(y));
    AddSwap(Mul8(x), Mul8(y), XTime(Mul3(x)), XTime(Mul3(y)));
  }

  /** One row of the MixColumns matrix of section 5.1.3 of FIPS 197 and of its inverse in section 5.3.3; the
      other rows are rotations. */
  function MixRow(a: byte, b: byte, c: byte, d: byte): byte {
    Add(Add(XTime(a), Mul3(b)), Add(c, d))
  }

  function InvMixRow(a: byte, b: byte, c: byte, d: byte): byte {
    Add(Add(Mul14(a), Mul11(b)), Add(Mul13(c), Mul9(d)))
  }

  lemma InvMixRowIsLinear(a: byte, b: byte, c: byte, d: byte, x: byte, y: byte, z: byte, w: byte)
    ensures InvMixRow(Add(a, x), Add(b, y), Add(c, z), Add(d, w)) == Add(InvMixRow(a, b, c, d), InvMixRow(x, y, z, w))
  {
    hide Mul9, Mul11, Mul13, Mul14, Add;
    MulIsLinear(a, x);
    MulIsLinear(b, y);
    MulIsLinear(c, z);
    MulIsLinear(d, w);
    AddSwap(Mul14(a), Mul14(x), Mul11(b), Mul11(y));
    AddSwap(Mul13(c), Mul13(z), Mul9(d), Mul9(w));
    AddSwap(Add(Mul14(a), Mul11(b)), Add(Mul14(x), Mul11(y)), Add(Mul13(c), Mul9(d)), Add(Mul13(z), Mul9(w)));
  }

  /** The four products that make up the first row of the inverse matrix times the matrix. */
  lemma FirstCoefficient(a: byte)
    ensures InvMixRow(XTime(a), a, a, Mul3(a)) == a
  {
  }

  lemma SecondCoefficient(b: byte)
    ensures InvMixRow(Mul3(b), XTime(b), b, b) == 0
  {
  }

  lemma ThirdCoefficient(c: byte)
    ensures InvMixRow(c, Mul3(c), XTime(c), c) == 0
  {
  }

  lemma FourthCoefficient(d: byte)
    ensures InvMixRow(d, d, Mul3(d), XTime(d)) == 0
  {
  }

  lemma InvMixRowUndoes(a: byte, b: byte, c: byte, d: byte)
    ensures InvMixRow(MixRow(a, b, c, d), MixRow(b, c, d, a), MixRow(c, d, a, b), MixRow(d, a, b, c)) == a
  {
    hide XTime, Mul3, InvMixRow, Add;
    FirstCoefficient(a);
    SecondCoefficient(b);
    ThirdCoefficient(c);
    FourthCoefficient(d);
    var a2, a3, b2, b3, c2, c3, d2, d3 := XTime(a), Mul3(a), XTime(b), Mul3(b), XTime(c), Mul3(c), XTime(d), Mul3(d);
    InvMixRowIsLinear(a2, a, a, a3, b3, b2, b, b);
    InvMixRowIsLinear(c, c3, c2, c, d, d, d3, d2);
    InvMixRowIsLinear(Add(a2, b3), Add(a, b2), Add(a, b), Add(a3, b), Add(c, d), Add(c3, d), Add(c2, d3), Add(c, d2));
    AddRotate(a, b2, c3, d);
    AddIsAbelian(Add(c2, d3), Add(a, b), 0);
    AddRotate(d2, a3, b, c);
    AddIsAbelian(a, 0, 0);
    AddIsAbelian(0, 0, 0);
  }

  lemma AddRotate(a: byte, b: byte, c: byte, d: byte)
    ensures Add(Add(b, c), Add(d, a)) == Add(Add(a, b), Add(c, d))
  {
    AddIsAbelian(d, a, 0);
    AddSwap(b, c, a, d);
    AddIsAbelian(b, a, 0);
    hide Add;
  }

  // ---------- the tables ----------

  function Te0(sb: Sbox, b: byte): word { var s := sb.forward(b); Word(XTime(s), s, s, Mul3(s)) }
  function Te1(sb: Sbox, b: byte): word { var s := sb.forward(b); Word(Mul3(s), XTime(s), s, s) }
  function Te2(sb: Sbox, b: byte): word { var s := sb.forward(b); Word(s, Mul3(s), XTime(s), s) }
  function Te3(sb: Sbox, b: byte): word { var s := sb.forward(b); Word(s, s, Mul3(s), XTime(s)) }
  function Te4(sb: Sbox, b: byte): word { var s := sb.forward(b); Word(s, s, s, s) }

  function Td0(sb: Sbox, b: byte): word { var s := sb.backward(b); Word(Mul14(s), Mul9(s), Mul13(s), Mul11(s)) }
  function Td1(sb: Sbox, b: byte): word { var s := sb.backward(b); Word(Mul11(s), Mul14(s), Mul9(s), Mul13(s)) }
  function Td2(sb: Sbox, b: byte): word { var s := sb.backward(b); Word(Mul13(s), Mul11(s), Mul14(s), Mul9(s)) }
  function Td3(sb: Sbox, b: byte): word { var s := sb.backward(b); Word(Mul9(s), Mul13(s), Mul11(s), Mul14(s)) }
  function Td4(sb: Sbox, b: byte): word { var s := sb.backward(b); Word(s, s, s, s) }

  // ---------- the steps of sections 5.1 and 5.3 of FIPS 197, one column at a time ----------

  function MixColumn(w: word): word {
    var a, b, c, d := Byte3(w), Byte2(w), Byte1(w), Byte0(w);
    Word(MixRow(a, b, c, d), MixRow(b, c, d, a), MixRow(c, d, a, b), MixRow(d, a, b, c))
  }

  function InvMixColumn(w: word): word {
    var a, b, c, d := Byte3(w), Byte2(w), Byte1(w), Byte0(w);
    Word(InvMixRow(a, b, c, d), InvMixRow(b, c, d, a), InvMixRow(c, d, a, b), InvMixRow(d, a, b, c))
  }

  lemma InvMixUndoesMix(w: word)
    ensures InvMixColumn(MixColumn(w)) == w
  {
    hide Word, Byte3, Byte2, Byte1, Byte0, MixRow, InvMixRow;
    var a, b, c, d := Byte3(w), Byte2(w), Byte1(w), Byte0(w);
    BytesOfWord(MixRow(a, b, c, d), MixRow(b, c, d, a), MixRow(c, d, a, b), MixRow(d, a, b, c));
    InvMixRowUndoes(a, b, c, d);
    InvMixRowUndoes(b, c, d, a);
    InvMixRowUndoes(c, d, a, b);
    InvMixRowUndoes(d, a, b, c);
    WordOfBytes(w);
  }

  lemma InvMixIsLinear(v: word, w: word)
    ensures InvMixColumn(AddWords(v, w)) == AddWords(InvMixColumn(v), InvMixColumn(w))
  {
    hide Word, Byte3, Byte2, Byte1, Byte0, InvMixRow, AddWords, Add;
    var a, b, c, d := Byte3(v), Byte2(v), Byte1(v), Byte0(v);
    var x, y, z, t := Byte3(w), Byte2(w), Byte1(w), Byte0(w);
    BytesOfSum(v, w);
    InvMixRowIsLinear(a, b, c, d, x, y, z, t);
    InvMixRowIsLinear(b, c, d, a, y, z, t, x);
    InvMixRowIsLinear(c, d, a, b, z, t, x, y);
    InvMixRowIsLinear(d, a, b, c, t, x, y, z);
    SumOfWords(InvMixRow(a, b, c, d), InvMixRow(b, c, d, a), InvMixRow(c, d, a, b), InvMixRow(d, a, b, c),
               InvMixRow(x, y, z, t), InvMixRow(y, z, t, x), InvMixRow(z, t, x, y), InvMixRow(t, x, y, z));
  }

  datatype State = State(s0: word, s1: word, s2: word, s3: word)

  function Xor(s: State, k: State): State {
    State(AddWords(s.s0, k.s0), AddWords(s.s1, k.s1), AddWords(s.s2, k.s2), AddWords(s.s3, k.s3))
  }

  function SubShiftColumn(sb: Sbox, a: word, b: word, c: word, d: word): word {
    Word(sb.forward(Byte3(a)), sb.forward(Byte2(b)), sb.forward(Byte1(c)), sb.forward(Byte0(d)))
  }

  function InvSubShiftColumn(sb: Sbox, a: word, b: word, c: word, d: word): word {
    Word(sb.backward(Byte3(a)), sb.backward(Byte2(b)), sb.backward(Byte1(c)), sb.backward(Byte0(d)))
  }

  /** SubBytes and ShiftRows */
  function SubShift(sb: Sbox, s: State): State {
    State(SubShiftColumn(sb, s.s0, s.s1, s.s2, s.s3), SubShiftColumn(sb, s.s1, s.s2, s.s3, s.s0),
          SubShiftColumn(sb, s.s2, s.s3, s.s0, s.s1), SubShiftColumn(sb, s.s3, s.s0, s.s1, s.s2))
  }

  function InvSubShift(sb: Sbox, s: State): State {
    State(InvSubShiftColumn(sb, s.s0, s.s3, s.s2, s.s1), InvSubShiftColumn(sb, s.s1, s.s0, s.s3, s.s2),
          InvSubShiftColumn(sb, s.s2, s.s1, s.s0, s.s3), InvSubShiftColumn(sb, s.s3, s.s2, s.s1, s.s0))
  }

  function Mix(s: State): State {
    State(MixColumn(s.s0), MixColumn(s.s1), MixColumn(s.s2), MixColumn(s.s3))
  }

  function InvMix(s: State): State {
    State(InvMixColumn(s.s0), InvMixColumn(s.s1), InvMixColumn(s.s2), InvMixColumn(s.s3))
  }

  /** Four words of a key schedule. */
  function RoundKey(rk: seq<word>, n: nat): State
    requires 4 * n + 4 <= |rk|
  {
    State(rk[4 * n], rk[4 * n + 1], rk[4 * n + 2], rk[4 * n + 3])
  }

  /** The state before the last round: an initial key addition and n full rounds. */
  function Rounds(sb: Sbox, rk: seq<word>, n: nat, s: State): State
    requires 4 * n + 4 <= |rk|
  {
    if n == 0 then Xor(s, RoundKey(rk, 0))
    else Xor(Mix(SubShift(sb, Rounds(sb, rk, n - 1, s))), RoundKey(rk, n))
  }

  /** Cipher of section 5.1 of FIPS 197. */
  function Cipher(sb: Sbox, rk: seq<word>, rounds: nat, s: State): State
    requires rounds > 0 && 4 * rounds + 4 <= |rk|
  {
    Xor(SubShift(sb, Rounds(sb, rk, rounds - 1, s)), RoundKey(rk, rounds))
  }

  function InvRounds(sb: Sbox, rk: seq<word>, n: nat, s: State): State
    requires 4 * n + 4 <= |rk|
  {
    if n == 0 then Xor(s, RoundKey(rk, 0))
    else Xor(InvMix(InvSubShift(sb, InvRounds(sb, rk, n - 1, s))), RoundKey(rk, n))
  }

  /** EqInvCipher of section 5.3.5 of FIPS 197. */
  function EqInvCipher(sb: Sbox, rk: seq<word>, rounds: nat, s: State): State
    requires rounds > 0 && 4 * rounds + 4 <= |rk|
  {
    Xor(InvSubShift(sb, InvRounds(sb, rk, rounds - 1, s)), RoundKey(rk, rounds))
  }

  // ---------- decryption undoes encryption ----------

  lemma InvSubShiftUndoes(sb: Sbox, s: State)
    requires IsPermutation(sb)
    ensures InvSubShift(sb, SubShift(sb, s)) == s
  {
    hide Word, Byte3, Byte2, Byte1, Byte0;
    var t := SubShift(sb, s);
    ColumnBytes(sb, s.s0, s.s1, s.s2, s.s3);
    ColumnBytes(sb, s.s1, s.s2, s.s3, s.s0);
    ColumnBytes(sb, s.s2, s.s3, s.s0, s.s1);
    ColumnBytes(sb, s.s3, s.s0, s.s1, s.s2);
    WordOfBytes(s.s0);
    WordOfBytes(s.s1);
    WordOfBytes(s.s2);
    WordOfBytes(s.s3);
  }

  lemma ColumnBytes(sb: Sbox, a: word, b: word, c: word, d: word)
    ensures var w := SubShiftColumn(sb, a, b, c, d);
            Byte3(w) == sb.forward(Byte3(a)) && Byte2(w) == sb.forward(Byte2(b))
            && Byte1(w) == sb.forward(Byte1(c)) && Byte0(w) == sb.forward(Byte0(d))
  {
    BytesOfWord(sb.forward(Byte3(a)), sb.forward(Byte2(b)), sb.forward(Byte1(c)), sb.forward(Byte0(d)));
  }

  lemma InvMixStep(s: State, k: State)
    ensures Xor(InvMix(Xor(Mix(s), k)), InvMix(k)) == s
  {
    hide MixColumn, InvMixColumn, AddWords;
    InvMixWord(s.s0, k.s0);
    InvMixWord(s.s1, k.s1);
    InvMixWord(s.s2, k.s2);
    InvMixWord(s.s3, k.s3);
  }

  lemma InvMixWord(s: word, k: word)
    ensures AddWords(InvMixColumn(AddWords(MixColumn(s), k)), InvMixColumn(k)) == s
  {
    InvMixIsLinear(MixColumn(s), k);
    InvMixUndoesMix(s);
    AddWordsTwice(s, InvMixColumn(k));
    hide MixColumn, InvMixColumn, AddWords;
  }

  /** dk is the reversed schedule of ek with InvMixColumns applied to all but the first and last keys. */
  ghost predicate IsDecryptionSchedule(ek: seq<word>, dk: seq<word>, rounds: nat) {
    && 4 * rounds + 4 <= |ek| && 4 * rounds + 4 <= |dk|
    && RoundKey(dk, 0) == RoundKey(ek, rounds) && RoundKey(dk, rounds) == RoundKey(ek, 0)
    && forall n :: 0 < n < rounds ==> RoundKey(dk, n) == InvMix(RoundKey(ek, rounds - n))
  }

  /** After n decryption rounds the state is what SubBytes and ShiftRows produced rounds - n rounds in. */
  lemma {:induction false} InvRoundsMeetRounds(sb: Sbox, ek: seq<word>, dk: seq<word>, rounds: nat, n: nat, s: State)
    requires IsPermutation(sb) && n < rounds && IsDecryptionSchedule(ek, dk, rounds)
    ensures InvRounds(sb, dk, n, Cipher(sb, ek, rounds, s)) == SubShift(sb, Rounds(sb, ek, rounds - 1 - n, s))
  {
    hide SubShift, InvSubShift, Mix, InvMix, IsPermutation, Xor;
    if n == 0 {
      XorTwice(SubShift(sb, Rounds(sb, ek, rounds - 1, s)), RoundKey(ek, rounds));
    } else {
      InvRoundsMeetRounds(sb, ek, dk, rounds, n - 1, s);
      InvSubShiftUndoes(sb, Rounds(sb, ek, rounds - n, s));
      InvMixStep(SubShift(sb, Rounds(sb, ek, rounds - n - 1, s)), RoundKey(ek, rounds - n));
    }
  }

  lemma XorTwice(s: State, k: State)
    ensures Xor(Xor(s, k), k) == s
  {
    AddWordsTwice(s.s0, k.s0);
    AddWordsTwice(s.s1, k.s1);
    AddWordsTwice(s.s2, k.s2);
    AddWordsTwice(s.s3, k.s3);
    hide AddWords;
  }

  /** For every key schedule and block, the equivalent inverse cipher undoes the cipher. */
  lemma DecryptUndoesEncrypt(sb: Sbox, ek: seq<word>, dk: seq<word>, rounds: nat, s: State)
    requires IsPermutation(sb) && rounds > 0 && IsDecryptionSchedule(ek, dk, rounds)
    ensures EqInvCipher(sb, dk, rounds, Cipher(sb, ek, rounds, s)) == s
  {
    hide SubShift, InvSubShift, IsPermutation, Xor;
    InvRoundsMeetRounds(sb, ek, dk, rounds, rounds - 1, s);
    InvSubShiftUndoes(sb, Rounds(sb, ek, 0, s));
    XorTwice(s, RoundKey(ek, 0));
  }
}
