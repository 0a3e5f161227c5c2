/** Words of 32 bits as numbers, and the bytes they are written in. */
module WordNumerals {

  import opened AesBlock
  import opened AesRounds
  import H = Ghash
  import opened Numerals

  const WORD_LIMIT: nat := 0x1_0000_0000

  function Number(b: byte): nat { b as nat }

  lemma NumberOfZero()
    ensures Number(0) == 0
  {
  }

  function Value(b3: nat, b2: nat, b1: nat, b0: nat): nat {
    0x100_0000 * b3 + 0x1_0000 * b2 + 0x100 * b1 + b0
  }

  function ValueOfFour(a: byte, b: byte, c: byte, d: byte): nat {
    Value(Number(a), Number(b), Number(c), Number(d))
  }

  lemma ValueOfWord(a: byte, b: byte, c: byte, d: byte)
    ensures var w := WordBytes(Word(a, b, c, d)); ValueOfFour(w[0], w[1], w[2], w[3]) == ValueOfFour(a, b, c, d)
  {
    hide Word, Byte3, Byte2, Byte1, Byte0, ValueOfFour;
    BytesOfWord(a, b, c, d);
  }

  lemma ValueOfBytes(b: seq<byte>)
    requires |b| == 4
    ensures ValueOfFour(b[0], b[1], b[2], b[3]) == FromBigEndian(b)
  {
    hide FromBigEndian, Value;
    assert b[..3][..2] == b[..2] && b[..2][..1] == b[..1] && b[..1][..0] == [];
    LastByte(b);
    LastByte(b[..3]);
    LastByte(b[..2]);
    LastByte(b[..1]);
    EmptyBlock();
    Digits(b[0] as nat, b[1] as nat, b[2] as nat, b[3] as nat);
  }

  lemma Digits(a: nat, b: nat, c: nat, d: nat)
    ensures Value(a, b, c, d) == 256 * (256 * (256 * (256 * 0 + a) + b) + c) + d
  {
  }

  lemma LastByte(b: seq<byte>)
    requires b != []
    ensures FromBigEndian(b) == 256 * FromBigEndian(b[..|b| - 1]) + b[|b| - 1] as nat
  {
  }

  lemma BytesOfValue(b: seq<byte>)
    requires |b| == 4
    ensures b == BigEndian(ValueOfFour(b[0], b[1], b[2], b[3]), 4)
  {
    hide BigEndian, FromBigEndian, ValueOfFour;
    ValueOfBytes(b);
    ValueOfBlock(b);
  }

  lemma ValueOfNumbered(n: nat, b: seq<byte>)
    requires n < WORD_LIMIT && b == BigEndian(n, 4)
    ensures ValueOfFour(b[0], b[1], b[2], b[3]) == n
  {
    hide BigEndian, ValueOfFour, FromBigEndian, Power256;
    FourthPower();
    BigEndianRoundTrip(n, 4);
    ValueOfBytes(b);
  }

  lemma FourthPower()
    ensures Power256(4) == WORD_LIMIT
  {
    assert Power256(2) == 0x1_0000;
  }

  // ---------- eight times a 32-bit number ----------

  function Join(h: byte, l: byte): byte { (h << 3) | (l >> 5) }

  function Top(b: byte): byte { b >> 5 }

  function High3(b: byte): bv3 { (b >> 5) as bv3 }

  function Low5(b: byte): bv5 { (b & 0x1f) as bv5 }

  function Glue35(h: bv3, l: bv5): byte { (h as byte << 5) | l as byte }

  function Glue53(h: bv5, l: bv3): byte { (h as byte << 3) | l as byte }

  lemma NumberOfGlued35(h: bv3, l: bv5)
    ensures Number(Glue35(h, l)) == 32 * h as nat + l as nat && h as nat < 8 && l as nat < 32
  {
  }

  lemma NumberOfGlued53(h: bv5, l: bv3)
    ensures Number(Glue53(h, l)) == 8 * h as nat + l as nat
  {
  }

  lemma Parts(h: byte, l: byte)
    ensures h == Glue35(High3(h), Low5(h)) && Join(h, l) == Glue53(Low5(h), High3(l))
    ensures Top(h) == Glue35(0, High3(h) as bv5)
  {
  }

  lemma NumberOfThree(h: bv3)
    ensures (h as bv5) as nat == h as nat && (0 as bv3) as nat == 0
  {
  }

  lemma NumbersOfParts(h: byte, l: byte)
    ensures Number(h) == 32 * High3(h) as nat + Low5(h) as nat && High3(h) as nat < 8 && Low5(h) as nat < 32
    ensures Number(Join(h, l)) == 8 * Low5(h) as nat + High3(l) as nat && Number(Top(h)) == High3(h) as nat
  {
    hide Number, Glue35, Glue53, High3, Low5, Join, Top;
    Parts(h, l);
    NumberOfGlued35(High3(h), Low5(h));
    NumberOfGlued53(Low5(h), High3(l));
    NumberOfThree(High3(h));
    NumberOfGlued35(0, High3(h) as bv5);
  }

  /** The upper three and the lower five bits as numbers. */
  lemma Halves(b: byte, l: byte) returns (x: nat, y: nat, z: nat)
    ensures x < 8 && y < 32 && z < 8 && Number(b) == 32 * x + y && Number(Top(b)) == x
    ensures Number(Join(b, l)) == 8 * y + z && Number(l) / 32 == z
  {
    hide Number, High3, Low5, Join, Top;
    NumbersOfParts(b, l);
    NumbersOfParts(l, l);
    x, y, z := High3(b) as nat, Low5(b) as nat, High3(l) as nat;
  }

  lemma NumberOfJoined(h: byte, l: byte)
    ensures Number(Join(h, l)) == 8 * (Number(h) % 32) + Number(l) / 32 && Number(Top(h)) == Number(h) / 32
  {
    hide Number, Join, Top;
    var x, y, z := Halves(h, l);
  }

  lemma ValueOfGlued(a: byte, b: byte, c: byte, d: byte)
    ensures ((a as word << 24) | (b as word << 16) | (c as word << 8) | d as word) as nat
            == 0x100_0000 * (a as nat) + 0x1_0000 * (b as nat) + 0x100 * (c as nat) + d as nat
  {
  }

  lemma NumberOfWord(a: byte, b: byte, c: byte, d: byte)
    ensures Word(a, b, c, d) as nat == ValueOfFour(a, b, c, d)
  {
    ValueOfGlued(a, b, c, d);
  }

  lemma WordAndBack(w: word)
    ensures w as nat as word == w
  {
  }

  /** The word that holds n, from the four bytes that write it. */
  lemma WordOfNumber(n: nat)
    requires n < WORD_LIMIT
    ensures var b := BigEndian(n, 4); n as word == Word(b[0], b[1], b[2], b[3])
  {
    hide Word, BigEndian, ValueOfFour;
    var b := BigEndian(n, 4);
    ValueOfNumbered(n, b);
    NumberOfWord(b[0], b[1], b[2], b[3]);
    WordAndBack(Word(b[0], b[1], b[2], b[3]));
  }

  lemma WordShiftedRight(a: byte, b: byte, c: byte, d: byte, top: byte)
    requires top == a >> 5
    ensures Word(a, b, c, d) >> 29 == Word(0, 0, 0, top)
  {
  }

  lemma WordShiftedLeft(a: byte, b: byte, c: byte, d: byte, j: byte, k: byte, l: byte, m: byte)
    requires j == (a << 3) | (b >> 5) && k == (b << 3) | (c >> 5) && l == (c << 3) | (d >> 5) && m == d << 3
    ensures Word(a, b, c, d) << 3 == Word(j, k, l, m)
  {
  }

  lemma PartsAre(h: byte, l: byte)
    ensures Top(h) == h >> 5 && Join(h, l) == (h << 3) | (l >> 5) && Join(h, 0) == h << 3
  {
  }

  lemma RightHalf(a: byte, b: byte, c: byte, d: byte)
    ensures WordBytes(Word(a, b, c, d) >> 29) == [0, 0, 0, Top(a)]
  {
    hide Word, Top, Join, Byte3, Byte2, Byte1, Byte0;
    PartsAre(a, b);
    WordShiftedRight(a, b, c, d, Top(a));
    BytesOfWord(0, 0, 0, Top(a));
  }

  lemma LeftHalf(a: byte, b: byte, c: byte, d: byte)
    ensures WordBytes(Word(a, b, c, d) << 3) == [Join(a, b), Join(b, c), Join(c, d), Join(d, 0)]
  {
    hide Word, Top, Join, Byte3, Byte2, Byte1, Byte0;
    PartsAre(a, b);
    PartsAre(b, c);
    PartsAre(c, d);
    PartsAre(d, 0);
    WordShiftedLeft(a, b, c, d, Join(a, b), Join(b, c), Join(c, d), Join(d, 0));
    BytesOfWord(Join(a, b), Join(b, c), Join(c, d), Join(d, 0));
  }

  lemma FlattenOfBytes(a: byte, b: byte, c: byte, d: byte)
    ensures H.FlattenSzInBits(Word(a, b, c, d))
            == [0, 0, 0, Top(a), Join(a, b), Join(b, c), Join(c, d), Join(d, 0)]
  {
    hide Word, Join, Top, WordBytes;
    RightHalf(a, b, c, d);
    LeftHalf(a, b, c, d);
  }

  /** The shifts and masks of c/aes.c on the word that holds n give eight times n in eight bytes. */
  lemma FlattenIsEightTimes(n: nat)
    requires n < WORD_LIMIT
    ensures H.FlattenSzInBits(n as word) == BigEndian(8 * n, 8)
  {
    hide H.FlattenSzInBits, BigEndian;
    var b := BigEndian(n, 4);
    WordOfNumber(n);
    BytesAreEightTimes(n, b);
  }

  lemma BytesAreEightTimes(n: nat, b: seq<byte>)
    requires n < WORD_LIMIT && b == BigEndian(n, 4)
    ensures H.FlattenSzInBits(Word(b[0], b[1], b[2], b[3])) == BigEndian(8 * n, 8)
  {
    hide Word, H.FlattenSzInBits, BigEndian, Number, Join, Top;
    FlattenOfBytes(b[0], b[1], b[2], b[3]);
    var f, e := H.FlattenSzInBits(Word(b[0], b[1], b[2], b[3])), BigEndian(8 * n, 8);
    EightTimes(n, b);
    NumberOfZero();
    SameNumbers(f[0], e[0], f[1], e[1]);
    SameNumbers(f[2], e[2], f[3], e[3]);
    SameNumbers(f[4], e[4], f[5], e[5]);
    SameNumbers(f[6], e[6], f[7], e[7]);
    SameEight(f, e);
  }

  lemma SameNumbers(a: byte, b: byte, c: byte, d: byte)
    requires Number(a) == Number(b) && Number(c) == Number(d)
    ensures a == b && c == d
  {
    SameNumber(a, b);
    SameNumber(c, d);
  }

  lemma SameEight(f: seq<byte>, e: seq<byte>)
    requires |f| == |e| == 8 && f[0] == e[0] && f[1] == e[1] && f[2] == e[2] && f[3] == e[3]
    requires f[4] == e[4] && f[5] == e[5] && f[6] == e[6] && f[7] == e[7]
    ensures f == e
  {
  }

  lemma SameNumber(a: byte, b: byte)
    ensures Number(a) == Number(b) ==> a == b
  {
    ByteIsSmall(a);
    ByteIsSmall(b);
  }

  lemma Weights()
    ensures Power256(0) == 1 && Power256(1) == 0x100 && Power256(2) == 0x1_0000 && Power256(3) == 0x100_0000
    ensures Power256(4) == 0x1_0000_0000 && Power256(5) == 0x100_0000_0000
    ensures Power256(6) == 0x1_0000_0000_0000 && Power256(7) == 0x100_0000_0000_0000
  {
    PowerZero();
    PowerStep(1);
    PowerStep(2);
    PowerStep(3);
    PowerStep(4);
    PowerStep(5);
    PowerStep(6);
    PowerStep(7);
    hide Power256;
  }

  /** The bytes of n and of eight times n. */
  lemma EightTimes(n: nat, b: seq<byte>)
    requires n < WORD_LIMIT && b == BigEndian(n, 4)
    ensures var e := BigEndian(8 * n, 8);
            && Number(e[0]) == 0 && Number(e[1]) == 0 && Number(e[2]) == 0 && Number(e[3]) == Number(Top(b[0]))
            && Number(e[4]) == Number(Join(b[0], b[1])) && Number(e[5]) == Number(Join(b[1], b[2]))
            && Number(e[6]) == Number(Join(b[2], b[3])) && Number(e[7]) == Number(Join(b[3], 0))
  {
    hide BigEndian, Join, Top, Number, Power256;
    ValueOfNumbered(n, b);
    NumbersBelow(b[0], b[1]);
    NumbersBelow(b[2], b[3]);
    EightTimesValue(Number(b[0]), Number(b[1]), Number(b[2]), Number(b[3]));
    HighHalf(n);
    LowHalf(n);
    JoinedNumbers(b[0], b[1], b[2], b[3]);
  }

  lemma JoinedNumbers(a: byte, b: byte, c: byte, d: byte)
    ensures Number(Top(a)) == Number(a) / 32 && Number(Join(a, b)) == 8 * (Number(a) % 32) + Number(b) / 32
    ensures Number(Join(b, c)) == 8 * (Number(b) % 32) + Number(c) / 32
    ensures Number(Join(c, d)) == 8 * (Number(c) % 32) + Number(d) / 32
    ensures Number(Join(d, 0)) == 8 * (Number(d) % 32)
  {
    hide Join, Top, Number;
    NumberOfJoined(a, b);
    NumberOfJoined(b, c);
    NumberOfJoined(c, d);
    NumberOfJoined(d, 0);
    NumberOfZero();
  }

  lemma HighHalf(n: nat)
    ensures var e := BigEndian(8 * n, 8);
            && Number(e[0]) == 8 * n / 0x100_0000_0000_0000 % 256 && Number(e[1]) == 8 * n / 0x1_0000_0000_0000 % 256
            && Number(e[2]) == 8 * n / 0x100_0000_0000 % 256 && Number(e[3]) == 8 * n / 0x1_0000_0000 % 256
  {
    hide BigEndian, Number, Power256;
    Weights();
    ByteOfEight(8 * n, 0);
    ByteOfEight(8 * n, 1);
    ByteOfEight(8 * n, 2);
    ByteOfEight(8 * n, 3);
  }

  lemma LowHalf(n: nat)
    ensures var e := BigEndian(8 * n, 8);
            && Number(e[4]) == 8 * n / 0x100_0000 % 256 && Number(e[5]) == 8 * n / 0x1_0000 % 256
            && Number(e[6]) == 8 * n / 0x100 % 256 && Number(e[7]) == 8 * n / 1 % 256
  {
    hide BigEndian, Number, Power256;
    Weights();
    ByteOfEight(8 * n, 4);
    ByteOfEight(8 * n, 5);
    ByteOfEight(8 * n, 6);
    ByteOfEight(8 * n, 7);
  }

  lemma NumbersBelow(a: byte, b: byte)
    ensures Number(a) < 256 && Number(b) < 256
  {
  }

  lemma ByteOfEight(n: nat, i: nat)
    requires i < 8
    ensures Number(BigEndian(n, 8)[i]) == n / Power256(7 - i) % 256
  {
    hide BigEndian, Power256;
    BigEndianByte(n, 8, i);
  }

  lemma EightTimesValue(a: nat, b: nat, c: nat, d: nat)
    requires a < 256 && b < 256 && c < 256 && d < 256
    ensures var v := 8 * Value(a, b, c, d);
            && v / 0x100_0000_0000_0000 % 256 == 0 && v / 0x1_0000_0000_0000 % 256 == 0
            && v / 0x100_0000_0000 % 256 == 0 && v / 0x1_0000_0000 % 256 == a / 32
            && v / 0x100_0000 % 256 == 8 * (a % 32) + b / 32 && v / 0x1_0000 % 256 == 8 * (b % 32) + c / 32
            && v / 0x100 % 256 == 8 * (c % 32) + d / 32 && v / 1 % 256 == 8 * (d % 32)
  {
    hide Value;
    HighBytes(a, b, c, d);
    LowBytes(a, b, c, d);
    EightTimesByte(0, a, b / 32);
    EightTimesByte(8 * a, b, c / 32);
    EightTimesByte(256 * (8 * a) + 8 * b, c, d / 32);
    EightTimesByte(256 * (256 * (8 * a) + 8 * b) + 8 * c, d, 0);
  }

  lemma HighBytes(a: nat, b: nat, c: nat, d: nat)
    requires a < 256 && b < 256 && c < 256 && d < 256
    ensures var v := 8 * Value(a, b, c, d);
            && v / 0x100_0000_0000_0000 % 256 == 0 && v / 0x1_0000_0000_0000 % 256 == 0
            && v / 0x100_0000_0000 % 256 == 0 && v / 0x1_0000_0000 % 256 == a / 32
  {
    var v := 8 * Value(a, b, c, d);
    QuotientIs(v, 0x100_0000_0000_0000, 0, v);
    QuotientIs(v, 0x1_0000_0000_0000, 0, v);
    QuotientIs(v, 0x100_0000_0000, 0, v);
    QuotientIs(v, 0x1_0000_0000, a / 32, 8 * (0x100_0000 * (a % 32) + 0x1_0000 * b + 0x100 * c + d));
  }

  lemma LowBytes(a: nat, b: nat, c: nat, d: nat)
    requires a < 256 && b < 256 && c < 256 && d < 256
    ensures var v := 8 * Value(a, b, c, d);
            v / 0x100_0000 == 8 * a + b / 32 && v / 0x1_0000 == 256 * (8 * a) + 8 * b + c / 32
    ensures var v := 8 * Value(a, b, c, d);
            v / 0x100 == 256 * (256 * (8 * a) + 8 * b) + 8 * c + d / 32
            && v / 1 == 256 * (256 * (256 * (8 * a) + 8 * b) + 8 * c) + 8 * d
  {
    var v := 8 * Value(a, b, c, d);
    QuotientIs(v, 0x100_0000, 8 * a + b / 32, 8 * (0x1_0000 * (b % 32) + 0x100 * c + d));
    QuotientIs(v, 0x1_0000, 256 * (8 * a) + 8 * b + c / 32, 8 * (0x100 * (c % 32) + d));
    QuotientIs(v, 0x100, 256 * (256 * (8 * a) + 8 * b) + 8 * c + d / 32, 8 * (d % 32));
  }

  lemma EightTimesByte(m: nat, b: nat, carry: nat)
    requires b < 256 && carry < 8
    ensures (256 * m + 8 * b + carry) % 256 == 8 * (b % 32) + carry
  {
    RemainderIs(256 * m + 8 * b + carry, 256, m + b / 32, 8 * (b % 32) + carry);
  }
}
