/** The word forms of GMULT, c/aes.c: a block as four 32-bit or two 64-bit big-endian words. */
module GmultWords {

  import opened AesBlock
  import opened AesRounds
  import opened Gf128
  import opened GcmBits
  import opened Gmult
  import opened XorBuffers

  // ---------- one word ----------

  /** (w >> 1), with a bit carried in at the top */
  function ShiftedWord(w: word, carryIn: bool): word {
    (w >> 1) | (if carryIn then 0x80000000 else 0)
  }

  function LowWordBit(w: word): bool { w & 1 != 0 }

  function HighWordBit(w: word): bool { w & 0x80000000 != 0 }

  lemma ShiftedWordBytes(w: word, carryIn: bool)
    ensures IsShifted(WordBytes(w), carryIn, WordBytes(ShiftedWord(w, carryIn)))
    ensures LowWordBit(w) == LowBit(WordBytes(w)[3])
  {
    ShiftedHigh(w, carryIn);
    ShiftedLow(w, carryIn);
    hide Byte3, Byte2, Byte1, Byte0, ShiftedWord, ShiftedByte, LowBit, LowWordBit;
  }

  lemma ShiftedHigh(w: word, carryIn: bool)
    ensures Byte3(ShiftedWord(w, carryIn)) == ShiftedByte(Byte3(w), carryIn)
    ensures Byte2(ShiftedWord(w, carryIn)) == ShiftedByte(Byte2(w), LowBit(Byte3(w)))
  {
  }

  lemma ShiftedLow(w: word, carryIn: bool)
    ensures Byte1(ShiftedWord(w, carryIn)) == ShiftedByte(Byte1(w), LowBit(Byte2(w)))
    ensures Byte0(ShiftedWord(w, carryIn)) == ShiftedByte(Byte0(w), LowBit(Byte1(w)))
    ensures LowWordBit(w) == LowBit(Byte0(w))
  {
  }

  lemma LeftShiftedWordBytes(w: word)
    ensures IsLeftShifted(WordBytes(w), WordBytes(w << 1)) && HighWordBit(w) == HighBit(WordBytes(w)[0])
  {
    LeftShiftedHigh(w);
    LeftShiftedLow(w);
    hide Byte3, Byte2, Byte1, Byte0, LeftShiftedByte, HighBit, HighWordBit;
  }

  lemma LeftShiftedHigh(w: word)
    ensures Byte3(w << 1) == LeftShiftedByte(Byte3(w), HighBit(Byte2(w)))
    ensures Byte2(w << 1) == LeftShiftedByte(Byte2(w), HighBit(Byte1(w)))
    ensures HighWordBit(w) == HighBit(Byte3(w))
  {
  }

  lemma LeftShiftedLow(w: word)
    ensures Byte1(w << 1) == LeftShiftedByte(Byte1(w), HighBit(Byte0(w)))
    ensures Byte0(w << 1) == LeftShiftedByte(Byte0(w), false)
  {
  }

  function WordBits(w: word): (r: Bits)
    ensures |r| == 32
  {
    BitsOf(WordBytes(w))
  }

  lemma WordBitsShifted(w: word, carryIn: bool)
    ensures WordBits(ShiftedWord(w, carryIn)) == [carryIn] + WordBits(w)[..31] && WordBits(w)[31] == LowWordBit(w)
  {
    hide BitsOf, WordBytes, IsShifted, ShiftedWord, LowWordBit, LowBit;
    ShiftedWordBytes(w, carryIn);
    BitsOfShifted(WordBytes(w), carryIn, WordBytes(ShiftedWord(w, carryIn)));
  }

  lemma WordBitsLeftShifted(w: word)
    ensures WordBits(w << 1) == WordBits(w)[1..] + [false] && WordBits(w)[0] == HighWordBit(w)
  {
    hide BitsOf, WordBytes, IsLeftShifted, HighWordBit, HighBit;
    LeftShiftedWordBytes(w);
    BitsOfLeftShifted(WordBytes(w), WordBytes(w << 1));
  }

  lemma WordBitsOfSum(v: word, w: word)
    ensures WordBits(AddWords(v, w)) == Plus(WordBits(v), WordBits(w))
  {
    hide BitsOf, Byte3, Byte2, Byte1, Byte0, AddWords, Add;
    BytesOfSum(v, w);
    BitsOfXor(WordBytes(v), WordBytes(w));
    assert XorBytes(WordBytes(v), WordBytes(w)) == WordBytes(AddWords(v, w));
  }

  // ---------- several words ----------

  function WordsBits(s: seq<word>): (r: Bits)
    ensures |r| == 32 * |s|
  {
    if s == [] then [] else WordBits(s[0]) + WordsBits(s[1..])
  }

  ghost predicate AreShifted(s: seq<word>, carryIn: bool, t: seq<word>) {
    && |s| == |t|
    && forall i {:trigger t[i]} :: 0 <= i < |s| ==>
       t[i] == ShiftedWord(s[i], if i == 0 then carryIn else LowWordBit(s[i - 1]))
  }

  lemma {:induction false} WordsBitsShifted(s: seq<word>, carryIn: bool, t: seq<word>)
    requires s != [] && AreShifted(s, carryIn, t)
    ensures WordsBits(t) == [carryIn] + WordsBits(s)[..32 * |s| - 1]
    ensures WordsBits(s)[32 * |s| - 1] == LowWordBit(s[|s| - 1])
  {
    hide WordBits, LowWordBit, ShiftedWord;
    WordBitsShifted(s[0], carryIn);
    if |s| == 1 {
      OneWord(s);
      OneWord(t);
    } else {
      WordsBitsShifted(s[1..], LowWordBit(s[0]), t[1..]);
      ShiftsJoin(carryIn, WordBits(s[0]), WordsBits(s[1..]));
    }
  }

  lemma OneWord(s: seq<word>)
    requires |s| == 1
    ensures WordsBits(s) == WordBits(s[0])
  {
    hide WordBits;
    assert s[1..] == [];
  }

  function XorWords(s: seq<word>, t: seq<word>): (r: seq<word>)
    requires |s| == |t|
    ensures |r| == |s|
  {
    seq(|s|, i requires 0 <= i < |s| => AddWords(s[i], t[i]))
  }

  lemma {:induction false} WordsBitsOfXor(s: seq<word>, t: seq<word>)
    requires |s| == |t|
    ensures WordsBits(XorWords(s, t)) == Plus(WordsBits(s), WordsBits(t))
  {
    hide WordBits, AddWords;
    if s != [] {
      assert XorWords(s, t)[1..] == XorWords(s[1..], t[1..]);
      WordsBitsOfXor(s[1..], t[1..]);
      WordBitsOfSum(s[0], t[0]);
    }
  }

  lemma WordReducer(t: seq<word>)
    requires |t| == 4
    ensures WordsBits(t[0 := AddWords(t[0], 0xe1000000)]) == Plus(WordsBits(t), Reducer())
  {
    hide WordBits, AddWords;
    var u := t[0 := AddWords(t[0], 0xe1000000)];
    assert u[1..] == t[1..];
    WordBitsOfSum(t[0], 0xe1000000);
    TopReducer();
  }

  lemma TopReducer()
    ensures WordBits(0xe1000000) + Zeros(96) == Reducer()
  {
    TopReducerBytes();
    hide BitsOf;
    assert WordBytes(0xe1000000) == [0xe1] + ZeroBytes(3);
    BitsOfConcat([0xe1], ZeroBytes(3));
    BitsOfOne(0xe1);
    BitsOfZeroBytes(3);
    ReductionBits();
  }

  lemma TopReducerBytes()
    ensures Byte3(0xe1000000) == 0xe1 && Byte2(0xe1000000) == 0 && Byte1(0xe1000000) == 0 && Byte0(0xe1000000) == 0
  {
  }

  // ---------- GMULT on 32-bit words (GCM_WORD32) ----------

  /** The right shift of V with its reduction, written twice in the source. */
  method ShiftWords(v: array<word>)
    requires v.Length == 4
    modifies v
    ensures WordsBits(v[..]) == TimesX(WordsBits(old(v[..])))
  {
    hide WordsBits, AddWords, LowWordBit, ShiftedWord, Plus, Reducer;
    ghost var before := v[..];
    var reduce := LowWordBit(v[3]);
    v[3] := ShiftedWord(v[3], LowWordBit(v[2]));
    v[2] := ShiftedWord(v[2], LowWordBit(v[1]));
    v[1] := ShiftedWord(v[1], LowWordBit(v[0]));
    v[0] := ShiftedWord(v[0], false);
    WordsBitsShifted(before, false, v[..]);
    WordReducer(v[..]);
    if reduce {
      v[0] := AddWords(v[0], 0xe1000000);
    }
  }

  method AddAllWords(z: array<word>, v: array<word>)
    requires z.Length == v.Length == 4 && z != v
    modifies z
    ensures z[..] == XorWords(old(z[..]), v[..])
  {
    hide AddWords;
    z[0] := AddWords(z[0], v[0]);
    z[1] := AddWords(z[1], v[1]);
    z[2] := AddWords(z[2], v[2]);
    z[3] := AddWords(z[3], v[3]);
  }

  method AbsorbWordBit(z: array<word>, v: array<word>, y: word, n: nat, ghost rest: Bits, ghost total: Bits)
    returns (next: word)
    requires z != v && z.Length == v.Length == 4 && 0 < n <= 32
    requires Plus(WordsBits(z[..]), Mul(WordsBits(v[..]), WordBits(y)[..n] + rest)) == total
    modifies z, v
    ensures Plus(WordsBits(z[..]), Mul(WordsBits(v[..]), WordBits(next)[..n - 1] + rest)) == total
  {
    hide WordsBits, Plus, Mul, TimesX, WordBits, HighWordBit, XorWords;
    ghost var todo := WordBits(y)[..n] + rest;
    SerialStep(WordsBits(z[..]), WordsBits(v[..]), todo);
    WordsBitsOfXor(z[..], v[..]);
    WordBitsLeftShifted(y);
    ShiftedAway(WordBits(y), n);
    assert todo[1..] == WordBits(y)[..n][1..] + rest;
    if HighWordBit(y) {
      AddAllWords(z, v);
    }
    ShiftWords(v);
    next := y << 1;
  }

  method AbsorbWord(z: array<word>, v: array<word>, y0: word, ghost rest: Bits)
    requires z != v && z.Length == v.Length == 4
    modifies z, v
    ensures Plus(WordsBits(z[..]), Mul(WordsBits(v[..]), rest))
            == old(Plus(WordsBits(z[..]), Mul(WordsBits(v[..]), WordBits(y0) + rest)))
  {
    hide WordsBits, Plus, Mul, WordBits;
    ghost var total := Plus(WordsBits(z[..]), Mul(WordsBits(v[..]), WordBits(y0) + rest));
    assert WordBits(y0)[..32] == WordBits(y0);
    var y := y0;
    for j := 0 to 32
      invariant Plus(WordsBits(z[..]), Mul(WordsBits(v[..]), WordBits(y)[..32 - j] + rest)) == total
    {
      y := AbsorbWordBit(z, v, y, 32 - j, rest, total);
    }
    assert WordBits(y)[..0] + rest == rest;
  }

  lemma WordsBitsFrom(s: seq<word>, i: nat)
    requires i < |s|
    ensures WordsBits(s[i..]) == WordBits(s[i]) + WordsBits(s[i + 1..])
  {
    hide WordBits;
    assert s[i..][1..] == s[i + 1..];
  }

  method Gmult32(x: array<word>, y: array<word>)
    requires x.Length == y.Length == 4 && x != y
    modifies x
    ensures WordsBits(x[..]) == Mul(WordsBits(old(x[..])), WordsBits(y[..]))
  {
    hide WordsBits, Plus, Mul, WordBits;
    var z := new word[4](_ => 0);
    var v := new word[] [x[0], x[1], x[2], x[3]];
    assert v[..] == x[..];
    ZeroWords(z[..]);
    ghost var product := Mul(WordsBits(x[..]), WordsBits(y[..]));
    PlusLaws(product, product, product);
    assert y[0..] == y[..];
    for i := 0 to 4
      invariant x[..] == old(x[..]) && y[..] == old(y[..])
      invariant Plus(WordsBits(z[..]), Mul(WordsBits(v[..]), WordsBits(y[i..]))) == product
    {
      WordsBitsFrom(y[..], i);
      assert y[..][i..] == y[i..] && y[..][i + 1..] == y[i + 1..];
      AbsorbWord(z, v, y[i], WordsBits(y[i + 1..]));
    }
    MulOfNoWords(WordsBits(v[..]), y[4..]);
    PlusLaws(WordsBits(z[..]), WordsBits(z[..]), WordsBits(z[..]));
    x[0], x[1], x[2], x[3] := z[0], z[1], z[2], z[3];
    assert x[..] == z[..];
  }

  lemma MulOfNoWords(v: Bits, s: seq<word>)
    requires |v| == 128 && s == []
    ensures Mul(v, WordsBits(s)) == Zeros(128)
  {
  }

  lemma {:induction false} ZeroWords(z: seq<word>)
    requires forall i :: 0 <= i < |z| ==> z[i] == 0
    ensures WordsBits(z) == Zeros(32 * |z|)
  {
    hide WordBits;
    if z != [] {
      ZeroWord();
      ZeroWords(z[1..]);
    }
  }

  lemma ZeroWord()
    ensures WordBits(0) == Zeros(32)
  {
    ZeroWordBytes();
    hide BitsOf, Byte3, Byte2, Byte1, Byte0;
    assert WordBytes(0) == ZeroBytes(4);
    BitsOfZeroBytes(4);
  }

  lemma ZeroWordBytes()
    ensures Byte3(0) == 0 && Byte2(0) == 0 && Byte1(0) == 0 && Byte0(0) == 0
  {
  }

  // ---------- GMULT on 64-bit words ----------

  type long = bv64

  function High(w: long): word { ((w >> 32) & 0xffffffff) as word }
  function Low(w: long): word { (w & 0xffffffff) as word }

  function LongBits(w: long): (r: Bits)
    ensures |r| == 64
  {
    WordBits(High(w)) + WordBits(Low(w))
  }

  function AddLongs(v: long, w: long): long { v ^ w }

  function ShiftedLong(w: long, carryIn: bool): long {
    (w >> 1) | (if carryIn then 0x8000000000000000 else 0)
  }

  function LowLongBit(w: long): bool { w & 1 != 0 }

  function HighLongBit(w: long): bool { w & 0x8000000000000000 != 0 }

  lemma ShiftedLongHalves(w: long, carryIn: bool)
    ensures High(ShiftedLong(w, carryIn)) == ShiftedWord(High(w), carryIn)
    ensures Low(ShiftedLong(w, carryIn)) == ShiftedWord(Low(w), LowWordBit(High(w)))
    ensures LowLongBit(w) == LowWordBit(Low(w))
  {
    ShiftedLongHigh(w, carryIn);
    ShiftedLongLow(w, carryIn);
    hide *;
  }

  lemma ShiftedLongHigh(w: long, carryIn: bool)
    ensures High(ShiftedLong(w, carryIn)) == ShiftedWord(High(w), carryIn)
  {
  }

  lemma ShiftedLongLow(w: long, carryIn: bool)
    ensures Low(ShiftedLong(w, carryIn)) == ShiftedWord(Low(w), LowWordBit(High(w)))
    ensures LowLongBit(w) == LowWordBit(Low(w))
  {
    if LowWordBit(High(w)) {
      CarryCrosses(w);
    } else {
      NothingCrosses(w);
    }
    CarryStaysHigh(w, carryIn);
    LowestBit(w);
    hide *;
  }

  lemma LowestBit(w: long)
    ensures LowLongBit(w) == LowWordBit(Low(w))
  {
  }

  lemma CarryStaysHigh(w: long, carryIn: bool)
    ensures Low(ShiftedLong(w, carryIn)) == Low(w >> 1)
  {
  }

  lemma CarryCrosses(w: long)
    requires LowWordBit(High(w))
    ensures Low(w >> 1) == ShiftedWord(Low(w), true)
  {
  }

  lemma NothingCrosses(w: long)
    requires !LowWordBit(High(w))
    ensures Low(w >> 1) == ShiftedWord(Low(w), false)
  {
  }

  function CarriedWord(w: word, carryIn: bool): word {
    (w << 1) | (if carryIn then 1 else 0)
  }

  lemma LeftShiftedLongHalves(w: long)
    ensures High(w << 1) == CarriedWord(High(w), HighWordBit(Low(w)))
    ensures Low(w << 1) == Low(w) << 1 && HighLongBit(w) == HighWordBit(High(w))
  {
  }

  lemma HalvesOfSum(v: long, w: long)
    ensures High(AddLongs(v, w)) == AddWords(High(v), High(w)) && Low(AddLongs(v, w)) == AddWords(Low(v), Low(w))
  {
  }

  lemma LongBitsShifted(w: long, carryIn: bool)
    ensures LongBits(ShiftedLong(w, carryIn)) == [carryIn] + LongBits(w)[..63] && LongBits(w)[63] == LowLongBit(w)
  {
    hide WordBits, High, Low, ShiftedLong, ShiftedWord, LowWordBit, LowLongBit;
    ShiftedLongHalves(w, carryIn);
    WordBitsShifted(High(w), carryIn);
    WordBitsShifted(Low(w), LowWordBit(High(w)));
    ShiftsJoin(carryIn, WordBits(High(w)), WordBits(Low(w)));
  }

  lemma LongBitsLeftShifted(w: long)
    ensures LongBits(w << 1) == LongBits(w)[1..] + [false] && LongBits(w)[0] == HighLongBit(w)
  {
    hide WordBits, High, Low, HighWordBit, HighLongBit, CarriedWord;
    LeftShiftedLongHalves(w);
    WordBitsLeftShifted(Low(w));
    WordBitsCarried(High(w), HighWordBit(Low(w)));
    LeftShiftsJoin(WordBits(High(w)), WordBits(Low(w)));
  }

  /** A left shift with a bit carried in at the bottom. */
  lemma WordBitsCarried(w: word, carryIn: bool)
    ensures WordBits(CarriedWord(w, carryIn)) == WordBits(w)[1..] + [carryIn]
    ensures WordBits(w)[0] == HighWordBit(w)
  {
    hide WordBits, HighWordBit, AddWords, CarriedWord;
    WordBitsLeftShifted(w);
    if carryIn {
      CarryIsSum(w);
      WordBitsOfSum(w << 1, 1);
      WordBitsOfOne();
      var p := WordBits(w)[1..];
      assert Plus(p + [false], Zeros(31) + [true]) == p + [true];
    } else {
      NoCarry(w);
    }
  }

  lemma NoCarry(w: word)
    ensures CarriedWord(w, false) == w << 1
  {
  }

  lemma CarryIsSum(w: word)
    ensures CarriedWord(w, true) == AddWords(w << 1, 1)
  {
  }

  lemma WordBitsOfOne()
    ensures WordBits(1) == Zeros(31) + [true]
  {
    OneBytes();
    hide BitsOf, Byte3, Byte2, Byte1, Byte0;
    assert WordBytes(1) == ZeroBytes(3) + [1];
    BitsOfConcat(ZeroBytes(3), [1]);
    BitsOfZeroBytes(3);
    BitsOfOne(1);
    LastBit();
    assert Zeros(24) + (Zeros(7) + [true]) == Zeros(31) + [true];
  }

  lemma LastBit()
    ensures Bits8(1) == Zeros(7) + [true]
  {
  }

  lemma OneBytes()
    ensures Byte3(1) == 0 && Byte2(1) == 0 && Byte1(1) == 0 && Byte0(1) == 1
  {
  }

  lemma LongBitsOfSum(v: long, w: long)
    ensures LongBits(AddLongs(v, w)) == Plus(LongBits(v), LongBits(w))
  {
    hide WordBits, High, Low, AddLongs, AddWords;
    HalvesOfSum(v, w);
    WordBitsOfSum(High(v), High(w));
    WordBitsOfSum(Low(v), Low(w));
    PlusOfConcat(WordBits(High(v)), WordBits(Low(v)), WordBits(High(w)), WordBits(Low(w)));
  }

  lemma PlusOfConcat(a: Bits, b: Bits, c: Bits, d: Bits)
    requires |a| == |c| && |b| == |d|
    ensures Plus(a + b, c + d) == Plus(a, c) + Plus(b, d)
  {
  }

  function PairBits(s: seq<long>): (r: Bits)
    requires |s| == 2
    ensures |r| == 128
  {
    LongBits(s[0]) + LongBits(s[1])
  }

  lemma LongReducer(v0: long, v1: long)
    ensures PairBits([AddLongs(v0, 0xe100000000000000), v1]) == Plus(PairBits([v0, v1]), Reducer())
  {
    hide LongBits, AddLongs;
    LongBitsOfSum(v0, 0xe100000000000000);
    TopLongReducer();
    PlusOfConcat(LongBits(v0), LongBits(v1), LongBits(0xe100000000000000), Zeros(64));
    PlusLaws(LongBits(v1), LongBits(v1), LongBits(v1));
  }

  lemma TopLongReducer()
    ensures LongBits(0xe100000000000000) + Zeros(64) == Reducer()
  {
    ReducerHalves();
    hide WordBits, High, Low, Reducer;
    TopReducer();
    ZeroWord();
    assert Zeros(32) + Zeros(64) == Zeros(96);
    assert (WordBits(0xe1000000) + Zeros(32)) + Zeros(64) == WordBits(0xe1000000) + Zeros(96);
  }

  lemma ReducerHalves()
    ensures High(0xe100000000000000) == 0xe1000000 && Low(0xe100000000000000) == 0
  {
  }

  method ShiftPair(v: array<long>)
    requires v.Length == 2
    modifies v
    ensures PairBits(v[..]) == TimesX(PairBits(old(v[..])))
  {
    hide LongBits, AddLongs, LowLongBit, ShiftedLong, Plus, Reducer;
    LongBitsShifted(v[0], false);
    LongBitsShifted(v[1], LowLongBit(v[0]));
    ShiftsJoin(false, LongBits(v[0]), LongBits(v[1]));
    ghost var before := v[..];
    assert PairBits(before)[127] == LowLongBit(v[1]);
    if LowLongBit(v[1]) {
      v[1] := ShiftedLong(v[1], LowLongBit(v[0]));
      v[0] := ShiftedLong(v[0], false);
      LongReducer(v[0], v[1]);
      v[0] := AddLongs(v[0], 0xe100000000000000);
    } else {
      v[1] := ShiftedLong(v[1], LowLongBit(v[0]));
      v[0] := ShiftedLong(v[0], false);
    }
  }

  method AbsorbLongBit(z: array<long>, v: array<long>, y: long, n: nat, ghost rest: Bits, ghost total: Bits)
    returns (next: long)
    requires z != v && z.Length == v.Length == 2 && 0 < n <= 64
    requires Plus(PairBits(z[..]), Mul(PairBits(v[..]), LongBits(y)[..n] + rest)) == total
    modifies z, v
    ensures Plus(PairBits(z[..]), Mul(PairBits(v[..]), LongBits(next)[..n - 1] + rest)) == total
  {
    hide Plus, Mul, TimesX, LongBits, HighLongBit, AddLongs;
    ghost var todo := LongBits(y)[..n] + rest;
    SerialStep(PairBits(z[..]), PairBits(v[..]), todo);
    LongBitsOfSum(z[0], v[0]);
    LongBitsOfSum(z[1], v[1]);
    PlusOfConcat(LongBits(z[0]), LongBits(z[1]), LongBits(v[0]), LongBits(v[1]));
    LongBitsLeftShifted(y);
    ShiftedAway(LongBits(y), n);
    assert todo[1..] == LongBits(y)[..n][1..] + rest;
    if HighLongBit(y) {
      z[0] := AddLongs(z[0], v[0]);
      z[1] := AddLongs(z[1], v[1]);
    }
    ShiftPair(v);
    next := y << 1;
  }

  method AbsorbLong(z: array<long>, v: array<long>, y0: long, ghost rest: Bits)
    requires z != v && z.Length == v.Length == 2
    modifies z, v
    ensures Plus(PairBits(z[..]), Mul(PairBits(v[..]), rest))
            == old(Plus(PairBits(z[..]), Mul(PairBits(v[..]), LongBits(y0) + rest)))
  {
    hide Plus, Mul, LongBits;
    ghost var total := Plus(PairBits(z[..]), Mul(PairBits(v[..]), LongBits(y0) + rest));
    assert LongBits(y0)[..64] == LongBits(y0);
    var y := y0;
    for j := 0 to 64
      invariant Plus(PairBits(z[..]), Mul(PairBits(v[..]), LongBits(y)[..64 - j] + rest)) == total
    {
      y := AbsorbLongBit(z, v, y, 64 - j, rest, total);
    }
    assert LongBits(y)[..0] + rest == rest;
  }

  method Gmult64(x: array<long>, y: array<long>)
    requires x.Length == y.Length == 2 && x != y
    modifies x
    ensures PairBits(x[..]) == Mul(PairBits(old(x[..])), PairBits(y[..]))
  {
    hide Plus, Mul, LongBits;
    var z := new long[2](_ => 0);
    var v := new long[] [x[0], x[1]];
    assert v[..] == x[..];
    ZeroPair();
    assert z[..] == [0, 0];
    ghost var product := Mul(PairBits(x[..]), PairBits(y[..]));
    PlusLaws(product, product, product);
    AbsorbLong(z, v, y[0], LongBits(y[1]));
    assert LongBits(y[1]) + [] == LongBits(y[1]);
    AbsorbLong(z, v, y[1], []);
    MulOfNothing(PairBits(v[..]));
    PlusLaws(PairBits(z[..]), PairBits(z[..]), PairBits(z[..]));
    x[0], x[1] := z[0], z[1];
    assert x[..] == z[..];
  }

  lemma ZeroPair()
    ensures PairBits([0, 0]) == Zeros(128)
  {
    ZeroHalves();
    hide WordBits, High, Low;
    ZeroWord();
  }

  lemma ZeroHalves()
    ensures High(0) == 0 && Low(0) == 0
  {
  }
}
