/** AES as FIPS 197 writes it, byte by byte: products of polynomials, the state as 16 bytes with byte r of column c at
    4c + r, and the key expansion as a recurrence on bytes. The words and tables of c/aes.c are measured against it. */
module AesReference {

  import opened AesBlock
  import opened AesKeys
  import opened AesRounds
  import opened Cbc
  import opened KeySchedule

  // ---------- multiplication in GF(2^8), section 4.2 ----------

  type poly = bv16

  /** A multiple of b, when a has the bit. */
  function Term(a: byte, bit: byte, multiple: poly): poly {
    if a & bit != 0 then multiple else 0
  }

  /** The product of a and b as polynomials. */
  function Product(a: byte, b: byte): poly {
    var p := b as poly;
    Term(a, 0x01, p) ^ Term(a, 0x02, p << 1) ^ Term(a, 0x04, p << 2) ^ Term(a, 0x08, p << 3)
    ^ Term(a, 0x10, p << 4) ^ Term(a, 0x20, p << 5) ^ Term(a, 0x40, p << 6) ^ Term(a, 0x80, p << 7)
  }

  /** p without the coefficient with this bit, by adding a multiple of the modulus. */
  function Reduce(p: poly, bit: poly, multiple: poly): poly {
    if p & bit != 0 then p ^ multiple else p
  }

  /** x^8 + x^4 + x^3 + x + 1 */
  const MODULUS: poly := 0x11b

  function Remainder(p: poly): poly {
    var p := Reduce(p, 0x4000, MODULUS << 6);
    var p := Reduce(p, 0x2000, MODULUS << 5);
    var p := Reduce(p, 0x1000, MODULUS << 4);
    var p := Reduce(p, 0x0800, MODULUS << 3);
    var p := Reduce(p, 0x0400, MODULUS << 2);
    var p := Reduce(p, 0x0200, MODULUS << 1);
    Reduce(p, 0x0100, MODULUS)
  }

  function Times(a: byte, b: byte): byte { (Remainder(Product(a, b)) & 0xff) as byte }

  lemma TimesOne(b: byte)
    ensures Times(1, b) == b
  {
  }

  lemma TimesTwo(b: byte)
    ensures Times(2, b) == XTime(b)
  {
  }

  lemma TimesThree(b: byte)
    ensures Times(3, b) == Mul3(b)
  {
  }

  lemma SmallFactors(b: byte)
    ensures Times(1, b) == b && Times(2, b) == XTime(b) && Times(3, b) == Mul3(b)
  {
    hide Times, XTime, Mul3;
    TimesOne(b);
    TimesTwo(b);
    TimesThree(b);
  }

  // ---------- the cipher, section 5.1 ----------

  function SubBytes(sb: Sbox, s: seq<byte>): (t: seq<byte>)
    requires |s| == 16
    ensures |t| == 16
  {
    seq(16, i requires 0 <= i < 16 => sb.forward(s[i]))
  }

  /** Row r moves r columns to the left. */
  function ShiftRows(s: seq<byte>): (t: seq<byte>)
    requires |s| == 16
    ensures |t| == 16
  {
    seq(16, i requires 0 <= i < 16 => s[4 * ((i / 4 + i % 4) % 4) + i % 4])
  }

  /** The matrix of MixColumns. */
  function RowTimesColumn(r: nat, a: byte, b: byte, c: byte, d: byte): byte
    requires r < 4
  {
    match r
    case 0 => Add(Add(Times(2, a), Times(3, b)), Add(Times(1, c), Times(1, d)))
    case 1 => Add(Add(Times(1, a), Times(2, b)), Add(Times(3, c), Times(1, d)))
    case 2 => Add(Add(Times(1, a), Times(1, b)), Add(Times(2, c), Times(3, d)))
    case 3 => Add(Add(Times(3, a), Times(1, b)), Add(Times(1, c), Times(2, d)))
  }

  function MixColumns(s: seq<byte>): (t: seq<byte>)
    requires |s| == 16
    ensures |t| == 16
  {
    seq(16, i requires 0 <= i < 16 =>
      var r, c := i % 4, i / 4;
      RowTimesColumn(r, s[4 * c], s[4 * c + 1], s[4 * c + 2], s[4 * c + 3]))
  }

  function AddRoundKey(s: seq<byte>, w: seq<byte>, round: nat): (t: seq<byte>)
    requires |s| == 16 && 16 * round + 16 <= |w|
    ensures |t| == 16
  {
    seq(16, i requires 0 <= i < 16 => Add(s[i], w[16 * round + i]))
  }

  function AfterRounds(sb: Sbox, w: seq<byte>, n: nat, s: seq<byte>): (t: seq<byte>)
    requires 16 * n + 16 <= |w| && |s| == 16
    ensures |t| == 16
  {
    if n == 0 then AddRoundKey(s, w, 0)
    else AddRoundKey(MixColumns(ShiftRows(SubBytes(sb, AfterRounds(sb, w, n - 1, s)))), w, n)
  }

  function Encryption197(sb: Sbox, w: seq<byte>, rounds: nat, s: seq<byte>): (t: seq<byte>)
    requires rounds > 0 && 16 * rounds + 16 <= |w| && |s| == 16
    ensures |t| == 16
  {
    AddRoundKey(ShiftRows(SubBytes(sb, AfterRounds(sb, w, rounds - 1, s))), w, rounds)
  }

  // ---------- words and columns as bytes ----------

  function ByteOf(w: word, r: nat): byte
    requires r < 4
  {
    if r == 0 then Byte3(w) else if r == 1 then Byte2(w) else if r == 2 then Byte1(w) else Byte0(w)
  }

  function ColumnOf(s: State, c: nat): word
    requires c < 4
  {
    if c == 0 then s.s0 else if c == 1 then s.s1 else if c == 2 then s.s2 else s.s3
  }

  lemma StateByte(s: State, i: nat)
    requires i < 16
    ensures ToBytes(s)[i] == ByteOf(ColumnOf(s, i / 4), i % 4)
  {
    hide WordBytes, ByteOf;
    ByteInWord(ColumnOf(s, i / 4), i % 4);
    if i < 4 {} else if i < 8 {} else if i < 12 {}
  }

  lemma ByteInWord(w: word, r: nat)
    requires r < 4
    ensures WordBytes(w)[r] == ByteOf(w, r)
  {
    hide Byte3, Byte2, Byte1, Byte0;
  }

  function KeyBytes(rk: seq<word>): (w: seq<byte>)
    ensures |w| == 4 * |rk|
  {
    seq(4 * |rk|, i requires 0 <= i < 4 * |rk| => ByteOf(rk[i / 4], i % 4))
  }

  lemma RoundKeyByte(rk: seq<word>, n: nat, i: nat)
    requires 4 * n + 4 <= |rk| && i < 16
    ensures ByteOf(ColumnOf(RoundKey(rk, n), i / 4), i % 4) == KeyBytes(rk)[16 * n + i]
  {
    hide ByteOf;
    assert (16 * n + i) / 4 == 4 * n + i / 4 && (16 * n + i) % 4 == i % 4;
  }

  lemma ByteOfWord(b3: byte, b2: byte, b1: byte, b0: byte, r: nat)
    requires r < 4
    ensures ByteOf(Word(b3, b2, b1, b0), r) == [b3, b2, b1, b0][r]
  {
    hide Word, Byte3, Byte2, Byte1, Byte0;
    BytesOfWord(b3, b2, b1, b0);
  }

  lemma ByteOfSum(v: word, w: word, r: nat)
    requires r < 4
    ensures ByteOf(AddWords(v, w), r) == Add(ByteOf(v, r), ByteOf(w, r))
  {
    hide Byte3, Byte2, Byte1, Byte0, AddWords, Add;
    BytesOfSum(v, w);
  }

  // ---------- the steps agree ----------

  lemma KeyAdditionAgrees(s: State, rk: seq<word>, n: nat)
    requires 4 * n + 4 <= |rk|
    ensures ToBytes(Xor(s, RoundKey(rk, n))) == AddRoundKey(ToBytes(s), KeyBytes(rk), n)
  {
    hide ToBytes, ByteOf, KeyBytes, AddWords, Add, RoundKey, ColumnOf, Xor;
    var k := RoundKey(rk, n);
    forall i | 0 <= i < 16 ensures ToBytes(Xor(s, k))[i] == Add(ToBytes(s)[i], KeyBytes(rk)[16 * n + i]) {
      StateByte(Xor(s, k), i);
      StateByte(s, i);
      RoundKeyByte(rk, n, i);
      ColumnOfSum(s, k, i / 4);
      ByteOfSum(ColumnOf(s, i / 4), ColumnOf(k, i / 4), i % 4);
    }
  }

  lemma ColumnOfSum(s: State, k: State, c: nat)
    requires c < 4
    ensures ColumnOf(Xor(s, k), c) == AddWords(ColumnOf(s, c), ColumnOf(k, c))
  {
    hide AddWords;
  }

  lemma SubShiftAgrees(sb: Sbox, s: State)
    ensures ToBytes(SubShift(sb, s)) == ShiftRows(SubBytes(sb, ToBytes(s)))
  {
    hide ToBytes, ByteOf, ColumnOf, SubShift, ShiftRows, SubBytes;
    forall i | 0 <= i < 16 ensures ToBytes(SubShift(sb, s))[i] == ShiftRows(SubBytes(sb, ToBytes(s)))[i] {
      var c, r := i / 4, i % 4;
      var m := (c + r) % 4;
      StateByte(SubShift(sb, s), i);
      ColumnBytesOf(s, m);
      SubShiftByte(sb, s, c, r);
      ShiftedByteOf(sb, ToBytes(s), i);
    }
  }

  lemma ShiftedByteOf(sb: Sbox, t: seq<byte>, i: nat)
    requires |t| == 16 && i < 16
    ensures ShiftRows(SubBytes(sb, t))[i] == sb.forward(t[4 * ((i / 4 + i % 4) % 4) + i % 4])
  {
  }

  lemma SubShiftByte(sb: Sbox, s: State, c: nat, r: nat)
    requires c < 4 && r < 4
    ensures ByteOf(ColumnOf(SubShift(sb, s), c), r) == sb.forward(ByteOf(ColumnOf(s, (c + r) % 4), r))
  {
    hide ColumnOf, SubShift, SubShiftColumn;
    ShiftedColumn(sb, s, c);
    ByteOfColumn(sb, ColumnOf(s, c), ColumnOf(s, (c + 1) % 4), ColumnOf(s, (c + 2) % 4), ColumnOf(s, (c + 3) % 4), r);
    if r == 0 {} else if r == 1 {} else if r == 2 {}
  }

  lemma ShiftedColumn(sb: Sbox, s: State, c: nat)
    requires c < 4
    ensures ColumnOf(SubShift(sb, s), c)
            == SubShiftColumn(sb, ColumnOf(s, c), ColumnOf(s, (c + 1) % 4), ColumnOf(s, (c + 2) % 4),
                              ColumnOf(s, (c + 3) % 4))
  {
    hide SubShiftColumn;
    assert (c + 1) % 4 == if c == 3 then 0 else c + 1;
    assert (c + 2) % 4 == if c >= 2 then c - 2 else c + 2;
    assert (c + 3) % 4 == if c == 0 then 3 else c - 1;
  }

  lemma ByteOfColumn(sb: Sbox, x: word, y: word, z: word, t: word, r: nat)
    requires r < 4
    ensures ByteOf(SubShiftColumn(sb, x, y, z, t), r) == sb.forward(ByteOf([x, y, z, t][r], r))
  {
    hide Word, ByteOf, Byte3, Byte2, Byte1, Byte0;
    ByteOfWord(sb.forward(Byte3(x)), sb.forward(Byte2(y)), sb.forward(Byte1(z)), sb.forward(Byte0(t)), r);
    ByteOfEach(x, y, z, t, r);
    if r == 0 {} else if r == 1 {} else if r == 2 {}
  }

  lemma ByteOfEach(x: word, y: word, z: word, t: word, r: nat)
    requires r < 4
    ensures ByteOf([x, y, z, t][r], r) == [Byte3(x), Byte2(y), Byte1(z), Byte0(t)][r]
  {
    hide Byte3, Byte2, Byte1, Byte0;
  }

  lemma MixAgrees(s: State)
    ensures ToBytes(Mix(s)) == MixColumns(ToBytes(s))
  {
    hide ToBytes, MixColumn, RowTimesColumn, ByteOf;
    forall i | 0 <= i < 16 ensures ToBytes(Mix(s))[i] == MixColumns(ToBytes(s))[i] {
      var c, r := i / 4, i % 4;
      StateByte(Mix(s), i);
      ColumnBytesOf(s, c);
      MixByte(ColumnOf(s, c), r);
    }
  }

  lemma ColumnBytesOf(s: State, c: nat)
    requires c < 4
    ensures ToBytes(s)[4 * c] == ByteOf(ColumnOf(s, c), 0) && ToBytes(s)[4 * c + 1] == ByteOf(ColumnOf(s, c), 1)
    ensures ToBytes(s)[4 * c + 2] == ByteOf(ColumnOf(s, c), 2) && ToBytes(s)[4 * c + 3] == ByteOf(ColumnOf(s, c), 3)
  {
    hide ToBytes, ByteOf;
    StateByte(s, 4 * c);
    StateByte(s, 4 * c + 1);
    StateByte(s, 4 * c + 2);
    StateByte(s, 4 * c + 3);
  }

  lemma MixByte(w: word, r: nat)
    requires r < 4
    ensures ByteOf(MixColumn(w), r) == RowTimesColumn(r, ByteOf(w, 0), ByteOf(w, 1), ByteOf(w, 2), ByteOf(w, 3))
  {
    hide Word, Byte3, Byte2, Byte1, Byte0, MixRow, RowTimesColumn;
    var a, b, c, d := Byte3(w), Byte2(w), Byte1(w), Byte0(w);
    BytesOfWord(MixRow(a, b, c, d), MixRow(b, c, d, a), MixRow(c, d, a, b), MixRow(d, a, b, c));
    RowsAreProducts(a, b, c, d);
  }

  lemma RowsAreProducts(a: byte, b: byte, c: byte, d: byte)
    ensures RowTimesColumn(0, a, b, c, d) == MixRow(a, b, c, d) && RowTimesColumn(1, a, b, c, d) == MixRow(b, c, d, a)
    ensures RowTimesColumn(2, a, b, c, d) == MixRow(c, d, a, b) && RowTimesColumn(3, a, b, c, d) == MixRow(d, a, b, c)
  {
    hide Times, XTime, Mul3, Add;
    SmallFactors(a);
    SmallFactors(b);
    SmallFactors(c);
    SmallFactors(d);
    var a2, a3, b2, b3 := XTime(a), Mul3(a), XTime(b), Mul3(b);
    var c2, c3, d2, d3 := XTime(c), Mul3(c), XTime(d), Mul3(d);
    AddIsAbelian(Add(b2, c3), Add(d, a), 0);
    AddSwap(a, b2, c3, d);
    AddIsAbelian(a, Add(b2, c3), d);
    Rotated(a, b2, c3, d);
    Rotated(d2, a3, b, c);
    AddIsAbelian(Add(a, b), Add(c2, d3), 0);
  }

  lemma Rotated(a: byte, b: byte, c: byte, d: byte)
    ensures Add(Add(a, b), Add(c, d)) == Add(Add(b, c), Add(d, a))
  {
    hide Add;
    AddIsAbelian(a, b, Add(c, d));
    AddIsAbelian(a, Add(b, Add(c, d)), 0);
    AddIsAbelian(b, Add(c, d), a);
    AddIsAbelian(c, d, a);
    AddIsAbelian(b, c, Add(d, a));
  }

  lemma {:induction false} RoundsAgree(sb: Sbox, rk: seq<word>, n: nat, s: State)
    requires 4 * n + 4 <= |rk|
    ensures ToBytes(Rounds(sb, rk, n, s)) == AfterRounds(sb, KeyBytes(rk), n, ToBytes(s))
  {
    hide ToBytes, KeyBytes, Xor, Mix, SubShift, RoundKey, MixColumns, ShiftRows, SubBytes, AddRoundKey;
    if n == 0 {
      KeyAdditionAgrees(s, rk, 0);
    } else {
      var before := Rounds(sb, rk, n - 1, s);
      RoundsAgree(sb, rk, n - 1, s);
      SubShiftAgrees(sb, before);
      MixAgrees(SubShift(sb, before));
      KeyAdditionAgrees(Mix(SubShift(sb, before)), rk, n);
    }
  }

  /** The cipher on words is the cipher on bytes. */
  lemma EncryptionAgrees(sb: Sbox, rk: seq<word>, rounds: nat, b: seq<byte>)
    requires rounds > 0 && 4 * rounds + 4 <= |rk| && |b| == 16
    ensures EncryptBlock(sb, rk, rounds, b) == Encryption197(sb, KeyBytes(rk), rounds, b)
  {
    hide ToBytes, FromBytes, KeyBytes, Xor, SubShift, RoundKey, ShiftRows, SubBytes, AddRoundKey, Rounds, AfterRounds;
    var s := FromBytes(b);
    BytesRoundTrip(b);
    RoundsAgree(sb, rk, rounds - 1, s);
    SubShiftAgrees(sb, Rounds(sb, rk, rounds - 1, s));
    KeyAdditionAgrees(SubShift(sb, Rounds(sb, rk, rounds - 1, s)), rk, rounds);
  }

  // ---------- the key expansion, section 5.2 ----------

  /** x to the power of n - 1. */
  function RoundConstant(n: nat): byte
    requires n > 0
  {
    if n == 1 then 1 else Times(2, RoundConstant(n - 1))
  }

  /** What is added to the byte one key length before byte i. */
  function Fed(sb: Sbox, size: nat, w: seq<byte>, i: nat): byte
    requires 16 <= size <= i < |w| && size % 4 == 0 && |w| % 4 == 0
  {
    var j, r, nk := i / 4, i % 4, size / 4;
    if j % nk == 0 then
      Add(sb.forward(w[4 * (j - 1) + (r + 1) % 4]), if r == 0 then RoundConstant(j / nk) else 0)
    else if nk > 6 && j % nk == 4 then sb.forward(w[i - 4])
    else w[i - 4]
  }

  function Rounds197(size: nat): nat { if size == 16 then 10 else if size == 24 then 12 else 14 }

  /** w is the expansion of the key, byte by byte. */
  ghost predicate IsExpansion(sb: Sbox, key: seq<byte>, w: seq<byte>) {
    && |key| in {16, 24, 32} && |w| == 16 * (Rounds197(|key|) + 1)
    && forall i {:trigger w[i]} :: 0 <= i < |w| ==>
         w[i] == if i < |key| then key[i] else Add(w[i - |key|], Fed(sb, |key|, w, i))
  }

  lemma {:induction false} ExpansionIsUniqueUpTo(sb: Sbox, key: seq<byte>, v: seq<byte>, w: seq<byte>, i: nat)
    requires IsExpansion(sb, key, v) && IsExpansion(sb, key, w) && |v| == |w| && i <= |v|
    ensures v[..i] == w[..i]
  {
    hide IsExpansion;
    if i > 0 {
      ExpansionIsUniqueUpTo(sb, key, v, w, i - 1);
      NextByteIsSame(sb, key, v, w, i - 1);
      OneMoreByte(v, i - 1);
      OneMoreByte(w, i - 1);
    }
  }

  lemma OneMoreByte(v: seq<byte>, i: nat)
    requires i < |v|
    ensures v[..i + 1] == v[..i] + [v[i]]
  {
  }

  lemma NextByteIsSame(sb: Sbox, key: seq<byte>, v: seq<byte>, w: seq<byte>, k: nat)
    requires IsExpansion(sb, key, v) && IsExpansion(sb, key, w) && |v| == |w| && k < |v| && v[..k] == w[..k]
    ensures v[k] == w[k]
  {
    hide Add, Fed;
    if k >= |key| {
      SamePrefix(v, w, k, k - |key|);
      SameFed(sb, |key|, v, w, k);
    }
  }

  lemma SamePrefix(v: seq<byte>, w: seq<byte>, k: nat, i: nat)
    requires i < k <= |v| == |w| && v[..k] == w[..k]
    ensures v[i] == w[i]
  {
    assert v[..k][i] == w[..k][i];
  }

  lemma SameFed(sb: Sbox, size: nat, v: seq<byte>, w: seq<byte>, i: nat)
    requires 16 <= size <= i < |v| == |w| && size % 4 == 0 && |v| % 4 == 0 && v[..i] == w[..i]
    ensures Fed(sb, size, v, i) == Fed(sb, size, w, i)
  {
    hide Add, RoundConstant;
    SamePrefix(v, w, i, 4 * (i / 4 - 1) + (i % 4 + 1) % 4);
    SamePrefix(v, w, i, i - 4);
  }

  /** There is only one. */
  lemma ExpansionIsUnique(sb: Sbox, key: seq<byte>, v: seq<byte>, w: seq<byte>)
    requires IsExpansion(sb, key, v) && IsExpansion(sb, key, w)
    ensures v == w
  {
    hide Fed, Add;
    ExpansionIsUniqueUpTo(sb, key, v, w, |v|);
    assert v[..|v|] == v && w[..|w|] == w;
  }

  lemma {:induction false} RoundConstantIsRconByte(n: nat)
    requires n > 0
    ensures RoundConstant(n) == RconByte(n)
  {
    hide Times, XTime;
    if n > 1 {
      RoundConstantIsRconByte(n - 1);
      SmallFactors(RoundConstant(n - 1));
    }
  }

  lemma ByteOfRotated(sb: Sbox, w: word, n: nat, r: nat)
    requires r < 4 && n > 0
    ensures ByteOf(AddWords(SubWord(sb, RotWord(w)), Rcon(n)), r)
            == Add(sb.forward(ByteOf(w, (r + 1) % 4)), if r == 0 then RoundConstant(n) else 0)
  {
    hide Word, Byte3, Byte2, Byte1, Byte0, AddWords, Add, RconByte, RoundConstant;
    var a, b, c, d := Byte3(w), Byte2(w), Byte1(w), Byte0(w);
    ByteOfSum(SubWord(sb, RotWord(w)), Rcon(n), r);
    BytesOfWord(b, c, d, a);
    BytesOfWord(sb.forward(b), sb.forward(c), sb.forward(d), sb.forward(a));
    BytesOfWord(RconByte(n), 0, 0, 0);
    RoundConstantIsRconByte(n);
    if r == 0 {} else if r == 1 {} else if r == 2 {}
  }

  lemma ByteOfSubstituted(sb: Sbox, w: word, r: nat)
    requires r < 4
    ensures ByteOf(SubWord(sb, w), r) == sb.forward(ByteOf(w, r))
  {
    hide Word, Byte3, Byte2, Byte1, Byte0;
    BytesOfWord(sb.forward(Byte3(w)), sb.forward(Byte2(w)), sb.forward(Byte1(w)), sb.forward(Byte0(w)));
  }

  lemma BytesOfKeyWords(key: seq<byte>, i: nat)
    requires |key| % 4 == 0 && i < |key|
    ensures ByteOf(KeyWords(key)[i / 4], i % 4) == key[i]
  {
    hide Word, ByteOf;
    var j := i / 4;
    ByteOfWord(key[4 * j], key[4 * j + 1], key[4 * j + 2], key[4 * j + 3], i % 4);
  }

  /** What is added to the word one key length before word j. */
  function FedWord(sb: Sbox, nk: nat, before: word, j: nat): word
    requires 0 < nk <= j
  {
    if j % nk == 0 then AddWords(SubWord(sb, RotWord(before)), Rcon(j / nk))
    else if nk > 6 && j % nk == 4 then SubWord(sb, before)
    else before
  }

  lemma WordOfSchedule(sb: Sbox, words: seq<word>, j: nat)
    requires 0 < |words| <= j
    ensures W(sb, words, j) == AddWords(W(sb, words, j - |words|), FedWord(sb, |words|, W(sb, words, j - 1), j))
  {
    hide AddWords, SubWord, RotWord, Rcon;
  }

  lemma ByteOfFed(sb: Sbox, size: nat, w: seq<byte>, before: word, j: nat, r: nat)
    requires size in {16, 24, 32} && r < 4 && size <= 4 * j && 4 * j + r < |w| && |w| % 4 == 0
    requires w[4 * j - 4] == ByteOf(before, 0) && w[4 * j - 3] == ByteOf(before, 1)
    requires w[4 * j - 2] == ByteOf(before, 2) && w[4 * j - 1] == ByteOf(before, 3)
    ensures ByteOf(FedWord(sb, size / 4, before, j), r) == Fed(sb, size, w, 4 * j + r)
  {
    hide ByteOf, AddWords, Add, SubWord, RotWord, Rcon, RoundConstant;
    var nk := size / 4;
    assert (4 * j + r) / 4 == j && (4 * j + r) % 4 == r;
    if j % nk == 0 {
      ByteOfRotated(sb, before, j / nk, r);
    } else if nk > 6 && j % nk == 4 {
      ByteOfSubstituted(sb, before, r);
    }
  }

  /** The bytes of the words of the schedule. */
  ghost predicate AreScheduleBytes(sb: Sbox, key: seq<byte>, w: seq<byte>) {
    && |key| in {16, 24, 32} && |w| == 16 * (Rounds197(|key|) + 1)
    && forall k {:trigger w[k]} :: 0 <= k < |w| ==> w[k] == ByteOf(W(sb, KeyWords(key), k / 4), k % 4)
  }

  lemma ScheduleByte(sb: Sbox, key: seq<byte>, w: seq<byte>, j: nat, r: nat)
    requires AreScheduleBytes(sb, key, w) && r < 4 && 4 * j + r < |w|
    ensures w[4 * j + r] == ByteOf(W(sb, KeyWords(key), j), r)
  {
    hide ByteOf, W, KeyWords;
    assert (4 * j + r) / 4 == j && (4 * j + r) % 4 == r;
  }

  lemma ScheduleSizes(sb: Sbox, key: seq<byte>, w: seq<byte>)
    requires AreScheduleBytes(sb, key, w)
    ensures |key| in {16, 24, 32} && |w| % 4 == 0
  {
    hide W;
  }

  /** One byte of a word of the schedule. */
  lemma ByteOfSchedule(sb: Sbox, key: seq<byte>, w: seq<byte>, j: nat, r: nat)
    requires AreScheduleBytes(sb, key, w) && r < 4 && |key| <= 4 * j && 4 * j + 4 <= |w|
    ensures w[4 * j + r] == Add(w[4 * j + r - |key|], Fed(sb, |key|, w, 4 * j + r))
  {
    hide ByteOf, AddWords, Add, Fed, FedWord, W, KeyWords, AreScheduleBytes;
    ScheduleSizes(sb, key, w);
    var words, nk := KeyWords(key), |key| / 4;
    var before := W(sb, words, j - 1);
    ScheduleByte(sb, key, w, j - 1, 0);
    ScheduleByte(sb, key, w, j - 1, 1);
    ScheduleByte(sb, key, w, j - 1, 2);
    ScheduleByte(sb, key, w, j - 1, 3);
    ByteOfFed(sb, |key|, w, before, j, r);
    ScheduleByte(sb, key, w, j, r);
    ScheduleByte(sb, key, w, j - nk, r);
    assert 4 * (j - nk) + r == 4 * j + r - |key|;
    WordOfSchedule(sb, words, j);
    ByteOfSum(W(sb, words, j - nk), FedWord(sb, nk, before, j), r);
  }

  lemma WordByWord(sb: Sbox, key: seq<byte>, w: seq<byte>)
    requires AreScheduleBytes(sb, key, w)
    ensures IsExpansion(sb, key, w)
  {
    hide ByteOf, W, Fed, Add, KeyWords;
    forall i {:trigger w[i]} | 0 <= i < |w|
      ensures w[i] == if i < |key| then key[i] else Add(w[i - |key|], Fed(sb, |key|, w, i))
    {
      if i < |key| {
        BytesOfKeyWords(key, i);
        FirstWord(sb, KeyWords(key), i / 4);
      } else {
        ByteOfSchedule(sb, key, w, i / 4, i % 4);
      }
    }
  }

  /** The schedule of c/aes.c is the expansion. */
  lemma ScheduleIsExpansion(sb: Sbox, key: seq<byte>)
    requires KeyLengthIsLegal(|key|)
    ensures IsExpansion(sb, key, KeyBytes(EncryptionKey(sb, key)))
  {
    hide ByteOf, W, IsExpansion, KeyWords;
    WordByWord(sb, key, KeyBytes(EncryptionKey(sb, key)));
  }

  lemma FirstWord(sb: Sbox, words: seq<word>, j: nat)
    requires j < |words|
    ensures W(sb, words, j) == words[j]
  {
  }

  // ---------- encryption ----------

  /** c is the encryption of b under the key, sections 5.1 and 5.2. */
  ghost predicate IsEncryption(sb: Sbox, key: seq<byte>, b: seq<byte>, c: seq<byte>) {
    |b| == 16 && exists w: seq<byte> ::
      IsExpansion(sb, key, w) && c == Encryption197(sb, w, Rounds197(|key|), b)
  }

  lemma EncryptionIsUnique(sb: Sbox, key: seq<byte>, b: seq<byte>, c: seq<byte>, d: seq<byte>)
    requires IsEncryption(sb, key, b, c) && IsEncryption(sb, key, b, d)
    ensures c == d
  {
    hide Fed, Encryption197;
    var v: seq<byte> :| IsExpansion(sb, key, v) && c == Encryption197(sb, v, Rounds197(|key|), b);
    var w: seq<byte> :| IsExpansion(sb, key, w) && d == Encryption197(sb, w, Rounds197(|key|), b);
    ExpansionIsUnique(sb, key, v, w);
  }

  /** What c/aes.c computes under the expanded key is the encryption. */
  lemma EncryptBlockIsEncryption(sb: Sbox, key: seq<byte>, b: seq<byte>)
    requires KeyLengthIsLegal(|key|) && |b| == 16
    ensures IsEncryption(sb, key, b, EncryptBlock(sb, EncryptionKey(sb, key), RoundsFor(|key|), b))
  {
    hide IsExpansion, Encryption197, EncryptBlock, EncryptionKey, KeyBytes;
    var w := KeyBytes(EncryptionKey(sb, key));
    ScheduleIsExpansion(sb, key);
    EncryptionAgrees(sb, EncryptionKey(sb, key), RoundsFor(|key|), b);
    assert RoundsFor(|key|) == Rounds197(|key|);
  }

  /** So is what a keyed object makes of a block; the key array holds the expansion, big-endian in words. */
  lemma KeyedEncrypts(sb: Sbox, key: seq<byte>, b: seq<byte>)
    requires KeyLengthIsLegal(|key|) && |b| == 16
    ensures var k := KeyedBy(sb, key, Encryption);
            k.Ready() && IsEncryption(sb, key, b, k.Enc(b)) && IsExpansion(sb, key, KeyBytes(k.rk))
  {
    hide IsExpansion, EncryptBlock, EncryptionKey, KeyBytes, IsEncryption;
    ScheduleIsExpansion(sb, key);
    EncryptBlockIsEncryption(sb, key, b);
    assert 2 * (RoundsFor(|key|) / 2) == RoundsFor(|key|);
  }

  // ---------- examples of FIPS 197 ----------

  /** Sections 4.2 and 4.2.1. */
  lemma ProductExamples()
    ensures Times(0x57, 0x83) == 0xc1 && Times(0x57, 0x13) == 0xfe
  {
  }

  const ROUND_CONSTANTS: seq<byte> := [0x01, 0x02, 0x04, 0x08, 0x10, 0x20, 0x40, 0x80, 0x1b, 0x36]

  /** Section 5.2. */
  lemma {:induction false} RoundConstants(n: nat)
    requires 0 < n <= 10
    ensures RoundConstant(n) == ROUND_CONSTANTS[n - 1]
  {
    hide Times, XTime;
    if n > 1 {
      RoundConstants(n - 1);
      TimesTwo(ROUND_CONSTANTS[n - 2]);
      Doubled(n - 1);
    }
  }

  lemma Doubled(n: nat)
    requires 0 < n < 10
    ensures XTime(ROUND_CONSTANTS[n - 1]) == ROUND_CONSTANTS[n]
  {
  }

  /** The first column in round 1 of appendix B. */
  lemma ColumnExample(s: seq<byte>)
    requires |s| == 16 && s[0] == 0xd4 && s[1] == 0xbf && s[2] == 0x5d && s[3] == 0x30
    ensures MixColumns(s)[0] == 0x04 && MixColumns(s)[1] == 0x66
    ensures MixColumns(s)[2] == 0x81 && MixColumns(s)[3] == 0xe5
  {
    hide Times, Add;
    ColumnTerms();
    ColumnSums();
  }

  lemma ColumnTerms()
    ensures Times(1, 0xd4) == 0xd4 && Times(2, 0xd4) == 0xb3 && Times(3, 0xd4) == 0x67
    ensures Times(1, 0xbf) == 0xbf && Times(2, 0xbf) == 0x65 && Times(3, 0xbf) == 0xda
    ensures Times(1, 0x5d) == 0x5d && Times(2, 0x5d) == 0xba && Times(3, 0x5d) == 0xe7
    ensures Times(1, 0x30) == 0x30 && Times(2, 0x30) == 0x60 && Times(3, 0x30) == 0x50
  {
    hide Times;
    FourTerms(0xd4, 0xb3, 0x67);
    FourTerms(0xbf, 0x65, 0xda);
    FourTerms(0x5d, 0xba, 0xe7);
    FourTerms(0x30, 0x60, 0x50);
  }

  lemma FourTerms(b: byte, double: byte, triple: byte)
    requires XTime(b) == double && Add(double, b) == triple
    ensures Times(1, b) == b && Times(2, b) == double && Times(3, b) == triple
  {
    hide Times, Add;
    SmallFactors(b);
  }

  lemma ColumnSums()
    ensures Add(Add(0xb3, 0xda), Add(0x5d, 0x30)) == 0x04 && Add(Add(0xd4, 0x65), Add(0xe7, 0x30)) == 0x66
    ensures Add(Add(0xd4, 0xbf), Add(0xba, 0x50)) == 0x81 && Add(Add(0x67, 0xbf), Add(0x5d, 0x60)) == 0xe5
  {
  }

  lemma FourthWord(sb: Sbox, key: seq<byte>, w: seq<byte>, r: nat)
    requires IsExpansion(sb, key, w) && |key| == 16 && r < 4
    ensures |w| == 176 && w[16 + r] == Add(key[r], Add(sb.forward(key[12 + (r + 1) % 4]), if r == 0 then 1 else 0))
  {
    hide Add;
    assert RoundConstant(1) == 1;
    assert (16 + r) / 4 == 4 && (16 + r) % 4 == r;
    assert Fed(sb, 16, w, 16 + r) == Add(sb.forward(w[12 + (r + 1) % 4]), if r == 0 then 1 else 0);
  }

  const EXAMPLE_KEY: seq<byte> :=
    [0x2b, 0x7e, 0x15, 0x16, 0x28, 0xae, 0xd2, 0xa6, 0xab, 0xf7, 0x15, 0x88, 0x09, 0xcf, 0x4f, 0x3c]

  const FOURTH_WORD: seq<byte> := [0xa0, 0xfa, 0xfe, 0x17]

  /** The first word that appendix A.1 derives, for every substitution with these four entries. */
  lemma ExpansionExample(sb: Sbox, w: seq<byte>, r: nat)
    requires IsExpansion(sb, EXAMPLE_KEY, w) && r < 4
    requires sb.forward(0xcf) == 0x8a && sb.forward(0x4f) == 0x84
    requires sb.forward(0x3c) == 0xeb && sb.forward(0x09) == 0x01
    ensures |w| == 176 && w[16 + r] == FOURTH_WORD[r]
  {
    hide IsExpansion;
    FourthWord(sb, EXAMPLE_KEY, w, r);
    if r == 0 {} else if r == 1 {} else if r == 2 {}
  }
}
