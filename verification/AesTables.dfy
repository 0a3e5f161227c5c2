/** The table lookups of c/aes.c: one exclusive-or of four table entries does the byte substitution, the row
    shift and the column mixing of a whole column. */
module AesTables {

  import opened AesBlock

  // ---------- sums of four words ----------

  /** a ^ b ^ c ^ d */
  function AddFour(a: word, b: word, c: word, d: word): word {
    AddWords(AddWords(AddWords(a, b), c), d)
  }

  function Sum4(a: byte, b: byte, c: byte, d: byte): byte {
    Add(Add(Add(a, b), c), d)
  }

  lemma Sum4Rotations(a: byte, b: byte, c: byte, d: byte)
    ensures Sum4(a, b, c, d) == Add(Add(a, b), Add(c, d)) && Sum4(a, b, c, d) == Add(Add(b, c), Add(d, a))
    ensures Sum4(a, b, c, d) == Add(Add(c, d), Add(a, b)) && Sum4(a, b, c, d) == Add(Add(d, a), Add(b, c))
  {
    hide Add;
    AddIsAbelian(Add(a, b), c, d);
    AddRotate(a, b, c, d);
    AddRotate(b, c, d, a);
    AddRotate(c, d, a, b);
  }

  /** The sum of four words whose bytes are given row by row. */
  lemma SumOfColumns(p: seq<byte>, q: seq<byte>, r: seq<byte>, s: seq<byte>)
    requires |p| == |q| == |r| == |s| == 4
    ensures AddFour(Word(p[0], p[1], p[2], p[3]), Word(q[0], q[1], q[2], q[3]), Word(r[0], r[1], r[2], r[3]),
                    Word(s[0], s[1], s[2], s[3]))
            == Word(Sum4(p[0], q[0], r[0], s[0]), Sum4(p[1], q[1], r[1], s[1]),
                    Sum4(p[2], q[2], r[2], s[2]), Sum4(p[3], q[3], r[3], s[3]))
  {
    hide Word, AddWords, Add;
    SumOfWords(p[0], p[1], p[2], p[3], q[0], q[1], q[2], q[3]);
    SumOfWords(Add(p[0], q[0]), Add(p[1], q[1]), Add(p[2], q[2]), Add(p[3], q[3]), r[0], r[1], r[2], r[3]);
    SumOfWords(Add(Add(p[0], q[0]), r[0]), Add(Add(p[1], q[1]), r[1]), Add(Add(p[2], q[2]), r[2]),
               Add(Add(p[3], q[3]), r[3]), s[0], s[1], s[2], s[3]);
  }

  // ---------- full rounds ----------

  function TeColumn(sb: Sbox, a: word, b: word, c: word, d: word, k: word): word {
    AddWords(AddFour(Te0(sb, Byte3(a)), Te1(sb, Byte2(b)), Te2(sb, Byte1(c)), Te3(sb, Byte0(d))), k)
  }

  function TdColumn(sb: Sbox, a: word, b: word, c: word, d: word, k: word): word {
    AddWords(AddFour(Td0(sb, Byte3(a)), Td1(sb, Byte2(b)), Td2(sb, Byte1(c)), Td3(sb, Byte0(d))), k)
  }

  lemma TeSum(x: byte, y: byte, z: byte, t: byte)
    ensures AddFour(Word(XTime(x), x, x, Mul3(x)), Word(Mul3(y), XTime(y), y, y), Word(z, Mul3(z), XTime(z), z),
                    Word(t, t, Mul3(t), XTime(t)))
            == Word(MixRow(x, y, z, t), MixRow(y, z, t, x), MixRow(z, t, x, y), MixRow(t, x, y, z))
  {
    hide Word, AddFour, Add, XTime, Mul3, Sum4;
    SumOfColumns([XTime(x), x, x, Mul3(x)], [Mul3(y), XTime(y), y, y], [z, Mul3(z), XTime(z), z],
                 [t, t, Mul3(t), XTime(t)]);
    Sum4Rotations(XTime(x), Mul3(y), z, t);
    Sum4Rotations(x, XTime(y), Mul3(z), t);
    Sum4Rotations(x, y, XTime(z), Mul3(t));
    Sum4Rotations(Mul3(x), y, z, XTime(t));
  }

  lemma TdSum(x: byte, y: byte, z: byte, t: byte)
    ensures AddFour(Word(Mul14(x), Mul9(x), Mul13(x), Mul11(x)), Word(Mul11(y), Mul14(y), Mul9(y), Mul13(y)),
                    Word(Mul13(z), Mul11(z), Mul14(z), Mul9(z)), Word(Mul9(t), Mul13(t), Mul11(t), Mul14(t)))
            == Word(InvMixRow(x, y, z, t), InvMixRow(y, z, t, x), InvMixRow(z, t, x, y), InvMixRow(t, x, y, z))
  {
    hide Word, AddFour, Add, Mul9, Mul11, Mul13, Mul14, Sum4;
    SumOfColumns([Mul14(x), Mul9(x), Mul13(x), Mul11(x)], [Mul11(y), Mul14(y), Mul9(y), Mul13(y)],
                 [Mul13(z), Mul11(z), Mul14(z), Mul9(z)], [Mul9(t), Mul13(t), Mul11(t), Mul14(t)]);
    Sum4Rotations(Mul14(x), Mul11(y), Mul13(z), Mul9(t));
    Sum4Rotations(Mul9(x), Mul14(y), Mul11(z), Mul13(t));
    Sum4Rotations(Mul13(x), Mul9(y), Mul14(z), Mul11(t));
    Sum4Rotations(Mul11(x), Mul13(y), Mul9(z), Mul14(t));
  }

  lemma TeColumnIsRound(sb: Sbox, a: word, b: word, c: word, d: word, k: word)
    ensures TeColumn(sb, a, b, c, d, k) == AddWords(MixColumn(SubShiftColumn(sb, a, b, c, d)), k)
  {
    hide Word, AddWords, AddFour, MixRow, Byte3, Byte2, Byte1, Byte0, XTime, Mul3;
    var x, y, z, t := sb.forward(Byte3(a)), sb.forward(Byte2(b)), sb.forward(Byte1(c)), sb.forward(Byte0(d));
    TeSum(x, y, z, t);
    BytesOfWord(x, y, z, t);
  }

  lemma TdColumnIsRound(sb: Sbox, a: word, b: word, c: word, d: word, k: word)
    ensures TdColumn(sb, a, b, c, d, k) == AddWords(InvMixColumn(InvSubShiftColumn(sb, a, b, c, d)), k)
  {
    hide Word, AddWords, AddFour, InvMixRow, Byte3, Byte2, Byte1, Byte0, Mul9, Mul11, Mul13, Mul14;
    var x, y, z, t := sb.backward(Byte3(a)), sb.backward(Byte2(b)), sb.backward(Byte1(c)), sb.backward(Byte0(d));
    TdSum(x, y, z, t);
    BytesOfWord(x, y, z, t);
  }

  // ---------- the last round ----------

  /** The four masked lookups of Te[4] that the schedule and the last round use. */
  function MaskedTe4(sb: Sbox, a: byte, b: byte, c: byte, d: byte): word {
    (Te4(sb, a) & 0xff000000) ^ (Te4(sb, b) & 0x00ff0000) ^ (Te4(sb, c) & 0x0000ff00) ^ (Te4(sb, d) & 0x000000ff)
  }

  function MaskedTd4(sb: Sbox, a: byte, b: byte, c: byte, d: byte): word {
    (Td4(sb, a) & 0xff000000) ^ (Td4(sb, b) & 0x00ff0000) ^ (Td4(sb, c) & 0x0000ff00) ^ (Td4(sb, d) & 0x000000ff)
  }

  lemma MaskedTe4IsWord(sb: Sbox, a: byte, b: byte, c: byte, d: byte)
    ensures MaskedTe4(sb, a, b, c, d) == Word(sb.forward(a), sb.forward(b), sb.forward(c), sb.forward(d))
  {
    hide Word;
    MaskedBytes(sb.forward(a), sb.forward(b), sb.forward(c), sb.forward(d));
  }

  lemma MaskedTd4IsWord(sb: Sbox, a: byte, b: byte, c: byte, d: byte)
    ensures MaskedTd4(sb, a, b, c, d) == Word(sb.backward(a), sb.backward(b), sb.backward(c), sb.backward(d))
  {
    hide Word;
    MaskedBytes(sb.backward(a), sb.backward(b), sb.backward(c), sb.backward(d));
  }

  lemma MaskedBytes(a: byte, b: byte, c: byte, d: byte)
    ensures (Word(a, a, a, a) & 0xff000000) ^ (Word(b, b, b, b) & 0x00ff0000) ^ (Word(c, c, c, c) & 0x0000ff00)
            ^ (Word(d, d, d, d) & 0x000000ff) == Word(a, b, c, d)
  {
  }

  // ---------- the decryption schedule ----------

  /** InvMixColumns of a key word through Td, with the substitution in Td cancelled by one in Te[4]. */
  function InvMixTable(sb: Sbox, w: word): word {
    AddFour(Td0(sb, Byte0(Te4(sb, Byte3(w)))), Td1(sb, Byte0(Te4(sb, Byte2(w)))), Td2(sb, Byte0(Te4(sb, Byte1(w)))),
            Td3(sb, Byte0(Te4(sb, Byte0(w)))))
  }

  lemma InvMixTableIsInvMix(sb: Sbox, w: word)
    requires IsPermutation(sb)
    ensures InvMixTable(sb, w) == InvMixColumn(w)
  {
    hide Word, AddWords, AddFour, InvMixRow, Byte3, Byte2, Byte1, Byte0, Mul9, Mul11, Mul13, Mul14, Te4, IsPermutation;
    var a, b, c, d := Byte3(w), Byte2(w), Byte1(w), Byte0(w);
    Te4Cancels(sb, a);
    Te4Cancels(sb, b);
    Te4Cancels(sb, c);
    Te4Cancels(sb, d);
    TdSum(a, b, c, d);
  }

  lemma Te4Cancels(sb: Sbox, b: byte)
    requires IsPermutation(sb)
    ensures Byte0(Te4(sb, b)) == sb.forward(b) && sb.backward(sb.forward(b)) == b
  {
    hide Word, Byte3, Byte2, Byte1, Byte0;
    var s := sb.forward(b);
    BytesOfWord(s, s, s, s);
  }
}
