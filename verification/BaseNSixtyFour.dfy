/** Base 64 of section 4 of RFC 4648, three bytes to four characters, as a reference for the encoder with six
    bits to a character and blocks of four characters. */
module Base64 {

  import opened AesBlock
  import opened BaseBits
  import opened BaseNEncoding
  import opened Gf128
  import opened GcmBits

  function LowBits(b: byte, k: nat): byte
    requires k <= 8
  {
    if k == 2 then b & 3 else if k == 4 then b & 15 else b & 63
  }

  /** The four values of three bytes. */
  function Quad(a: byte, b: byte, c: byte): (q: seq<byte>)
    ensures |q| == 4
  {
    [ShiftRight(a, 2), Or(ShiftLeft(LowBits(a, 2), 4), ShiftRight(b, 4)),
     Or(ShiftLeft(LowBits(b, 4), 2), ShiftRight(c, 6)),
     LowBits(c, 6)]
  }

  /** The values of a message: whole groups of 24 bits, and a last group of 8 or 16 bits filled up with zeros. */
  function Values(m: seq<byte>): seq<byte> {
    if m == [] then []
    else if |m| == 1 then Quad(m[0], 0, 0)[..2]
    else if |m| == 2 then Quad(m[0], m[1], 0)[..3]
    else Quad(m[0], m[1], m[2]) + Values(m[3..])
  }

  /** How many padding characters follow: none, two after 8 bits, one after 16 bits. */
  function Pads(m: seq<byte>): nat {
    if m == [] then 0 else if |m| == 1 then 2 else if |m| == 2 then 1 else Pads(m[3..])
  }

  lemma LowHas(b: byte, k: nat, i: nat)
    requires k in {2, 4, 6} && i < 8
    ensures Has(LowBits(b, k), Mask(i)) == (i >= 8 - k && Has(b, Mask(i)))
  {
    if i == 0 {} else if i == 1 {} else if i == 2 {} else if i == 3 {} else if i == 4 {} else if i == 5 {}
    else if i == 6 {}
  }

  lemma BitsOfLow(b: byte, k: nat)
    requires k in {2, 4, 6}
    ensures Bits8(LowBits(b, k)) == Zeros(8 - k) + Bits8(b)[8 - k..]
  {
    hide Has, LowBits, Mask;
    var r := Zeros(8 - k) + Bits8(b)[8 - k..];
    forall i | 0 <= i < 8 ensures Has(LowBits(b, k), Mask(i)) == r[i] {
      LowHas(b, k, i);
    }
  }

  /** The last k bits of a and the first 6 - k of b. */
  lemma Joined(a: byte, b: byte, k: nat)
    requires k in {2, 4}
    ensures Or(ShiftLeft(LowBits(a, k), 6 - k), ShiftRight(b, 2 + k)) == Val(Bits8(a)[8 - k..] + Bits8(b)[..6 - k])
  {
    hide Bits8, Val, Or, ShiftLeft, ShiftRight, LowBits;
    BitsOfLow(a, k);
    BitsOfShiftLeft(LowBits(a, k), 6 - k);
    BitsOfShiftRight(b, 2 + k);
    ShiftedLow(Bits8(a)[8 - k..], k);
    PlacedByte(ShiftLeft(LowBits(a, k), 6 - k), ShiftRight(b, 2 + k), Bits8(a)[8 - k..], Bits8(b)[..6 - k], 2);
  }

  lemma ShiftedLow(x: Bits, k: nat)
    requires |x| == k <= 6
    ensures (Zeros(8 - k) + x)[6 - k..] + Zeros(6 - k) == Zeros(2) + (x + Zeros(6 - k))
  {
  }

  lemma FirstSix(a: byte)
    ensures ShiftRight(a, 2) == Val(Bits8(a)[..6])
  {
    hide Bits8, Val, ShiftRight;
    BitsOfShiftRight(a, 2);
    ValIsUnique(ShiftRight(a, 2), Bits8(a)[..6]);
  }

  lemma LastSix(c: byte)
    ensures LowBits(c, 6) == Val(Bits8(c)[2..])
  {
    hide Bits8, Val, LowBits;
    BitsOfLow(c, 6);
    ValIsUnique(LowBits(c, 6), Bits8(c)[2..]);
  }

  /** The four groups of six bits of three bytes. */
  lemma QuadValues(a: byte, b: byte, c: byte)
    ensures Quad(a, b, c) == [Val(Bits8(a)[..6]), Val(Bits8(a)[6..] + Bits8(b)[..4]),
                              Val(Bits8(b)[4..] + Bits8(c)[..2]), Val(Bits8(c)[2..])]
  {
    hide Bits8, Val, Or, ShiftLeft, ShiftRight, LowBits;
    FirstSix(a);
    Joined(a, b, 2);
    Joined(b, c, 4);
    LastSix(c);
  }

  lemma CharsStep(bits: Bits, g: Bits, rest: Bits)
    requires bits == g + rest && |g| == 6
    ensures Chars(6, bits) == [Val(g)] + Chars(6, rest) && Rest(6, bits) == Rest(6, rest)
  {
    hide Val;
    assert bits[..6] == g && bits[6..] == rest;
  }

  lemma ThreeBytes(a: Bits, b: Bits, c: Bits, rest: Bits)
    requires |a| == |b| == |c| == 8
    ensures var bits := a + (b + (c + rest));
            && Chars(6, bits) == [Val(a[..6]), Val(a[6..] + b[..4]), Val(b[4..] + c[..2]), Val(c[2..])] + Chars(6, rest)
            && Rest(6, bits) == Rest(6, rest)
  {
    hide Val, Chars, Rest;
    Pieces(a, b, c, rest);
    var r3 := c[2..] + rest;
    var r2 := (b[4..] + c[..2]) + r3;
    var r1 := (a[6..] + b[..4]) + r2;
    CharsStep(a[..6] + r1, a[..6], r1);
    CharsStep(r1, a[6..] + b[..4], r2);
    CharsStep(r2, b[4..] + c[..2], r3);
    CharsStep(r3, c[2..], rest);
  }

  lemma Pieces(a: Bits, b: Bits, c: Bits, rest: Bits)
    requires |a| == |b| == |c| == 8
    ensures a + (b + (c + rest)) == a[..6] + ((a[6..] + b[..4]) + ((b[4..] + c[..2]) + (c[2..] + rest)))
  {
  }

  lemma BitsOfCons(b: byte, s: seq<byte>)
    ensures BitsOf([b] + s) == Bits8(b) + BitsOf(s)
  {
    hide Bits8;
    assert ([b] + s)[1..] == s;
  }

  lemma ThreeAndRest<T>(m: seq<T>)
    requires |m| >= 3
    ensures m == [m[0]] + ([m[1]] + ([m[2]] + m[3..]))
  {
  }

  lemma BitsOfThree(m: seq<byte>)
    requires |m| >= 3
    ensures BitsOf(m) == Bits8(m[0]) + (Bits8(m[1]) + (Bits8(m[2]) + BitsOf(m[3..])))
  {
    hide Bits8, BitsOf;
    ThreeAndRest(m);
    BitsOfCons(m[0], [m[1]] + ([m[2]] + m[3..]));
    BitsOfCons(m[1], [m[2]] + m[3..]);
    BitsOfCons(m[2], m[3..]);
  }

  /** With six bits to a character the encoder's values are those of RFC 4648. */
  lemma {:induction false} ValuesAgree(m: seq<byte>)
    ensures EncodedValues(6, BitsOf(m)) == Values(m)
    decreases |m|
  {
    hide Val, Bits8, Quad, BitsOf, Chars, Rest;
    if m == [] {
      EmptyBits();
    } else if |m| == 1 {
      OneByte(m);
    } else if |m| == 2 {
      TwoBytes(m);
    } else {
      ValuesAgree(m[3..]);
      BitsOfThree(m);
      ThreeBytes(Bits8(m[0]), Bits8(m[1]), Bits8(m[2]), BitsOf(m[3..]));
      QuadValues(m[0], m[1], m[2]);
      var r := Rest(6, BitsOf(m[3..]));
      var last := if r == [] then [] else [Val(r + Zeros(6 - |r|))];
      Associate(Quad(m[0], m[1], m[2]), Chars(6, BitsOf(m[3..])), last);
    }
  }

  lemma EmptyBits()
    ensures BitsOf([]) == [] && Chars(6, []) == [] && Rest(6, []) == []
  {
  }

  lemma OneByte(m: seq<byte>)
    requires |m| == 1
    ensures EncodedValues(6, BitsOf(m)) == Quad(m[0], 0, 0)[..2]
  {
    hide Val, Bits8, Quad, EncodedValues;
    assert m == [m[0]];
    BitsOfOne(m[0]);
    EightBits(Bits8(m[0]));
    ZeroByteBits();
    QuadValues(m[0], 0, 0);
    assert Zeros(8)[..4] == Zeros(4);
  }

  lemma EightBits(a: Bits)
    requires |a| == 8
    ensures EncodedValues(6, a) == [Val(a[..6]), Val(a[6..] + Zeros(4))]
  {
    hide Val, Chars, Rest;
    assert a == a[..6] + a[6..];
    CharsStep(a, a[..6], a[6..]);
    PartOfGroup(6, a[6..]);
  }

  lemma TwoBytes(m: seq<byte>)
    requires |m| == 2
    ensures EncodedValues(6, BitsOf(m)) == Quad(m[0], m[1], 0)[..3]
  {
    hide Val, Bits8, Quad, Chars, Rest, BitsOf;
    var a, b := Bits8(m[0]), Bits8(m[1]);
    assert m == [m[0]] + [m[1]];
    BitsOfConcat([m[0]], [m[1]]);
    BitsOfOne(m[0]);
    BitsOfOne(m[1]);
    TwoPieces(a, b);
    CharsStep(a + b, a[..6], (a[6..] + b[..4]) + b[4..]);
    CharsStep((a[6..] + b[..4]) + b[4..], a[6..] + b[..4], b[4..]);
    PartOfGroup(6, b[4..]);
    ZeroByteBits();
    QuadValues(m[0], m[1], 0);
    assert Zeros(8)[..2] == Zeros(2);
  }

  lemma TwoPieces(a: Bits, b: Bits)
    requires |a| == |b| == 8
    ensures a + b == a[..6] + ((a[6..] + b[..4]) + b[4..])
  {
  }

  lemma {:induction false} PadsAgree(m: seq<byte>)
    ensures PadCount(4, |Values(m)|) == Pads(m)
    decreases |m|
  {
    hide Quad;
    if |m| >= 3 {
      PadsAgree(m[3..]);
    }
  }

  /** The whole of section 4: what the encoder makes of a message with 6 bits to a character, blocks of four and
      a padding character is the values looked up in the alphabet, and then the padding. */
  lemma EncodedIsBase64(alphabet: seq<byte>, pad: byte, m: seq<byte>)
    requires |alphabet| == 64
    ensures AreValues(alphabet, Values(m))
    ensures Encoded(alphabet, 6, 4, Padding(pad), m) == Looked(alphabet, Values(m)) + Repeated(pad, Pads(m))
  {
    hide BitsOf, EncodedValues, Values, Looked, PadCount;
    ValuesAgree(m);
    PadsAgree(m);
    ValuesAreSmall(6, BitsOf(m));
  }

  /** Six bits to a character make blocks of four characters. */
  lemma BlocksOfFour(bytes: nat, size: nat)
    requires bytes > 0 && 8 * bytes == 6 * size && forall b {:trigger IsWhole(6, b)} :: 0 < b < bytes ==> !IsWhole(6, b)
    ensures size == 4
  {
    assert IsWhole(6, 3);
  }
}
