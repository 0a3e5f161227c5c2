/** GHASH of section 6.4 of NIST SP 800-38D in the four builds of c/aes.c. */
module Ghash {

  import opened AesBlock
  import opened AesRounds
  import opened Buffers
  import opened Gf128
  import opened GcmBits
  import opened Gmult
  import opened GmultTable
  import opened GmultWords
  import opened XorBuffers

  /** Which of the four forms was compiled in. */
  datatype Build = Small | Table | Word64 | Word32

  // ---------- the specification ----------

  /** A final block of fewer than sixteen bytes is filled up with zeros. */
  function Padded(b: seq<byte>): (p: seq<byte>)
    requires |b| <= 16
    ensures |p| == 16
  {
    b + ZeroBytes(16 - |b|)
  }

  function Min(a: nat, b: nat): nat { if a < b then a else b }

  function FirstBlock(data: seq<byte>): (b: seq<byte>)
    ensures |b| == 16
  {
    Padded(data[..Min(16, |data|)])
  }

  function AfterFirst(data: seq<byte>): (rest: seq<byte>)
    ensures data != [] ==> |rest| < |data|
  {
    data[Min(16, |data|)..]
  }

  function Absorb(h: Bits, x: Bits, block: seq<byte>): (y: Bits)
    requires |h| == |x| == 128 && |block| == 16
    ensures |y| == 128
  {
    Mul(Plus(x, BitsOf(block)), h)
  }

  function AbsorbAll(h: Bits, x: Bits, data: seq<byte>): (y: Bits)
    requires |h| == |x| == 128
    ensures |y| == 128
    decreases |data|
  {
    if data == [] then x else AbsorbAll(h, Absorb(h, x, FirstBlock(data)), AfterFirst(data))
  }

  /** The number of bits in n bytes as a 64-bit number, in bytes. */
  function BitCount(n: word): (b: seq<byte>)
    ensures |b| == 8
  {
    var bits := (n as long) * 8;
    WordBytes(High(bits)) + WordBytes(Low(bits))
  }

  function GhashBits(h: Bits, a: seq<byte>, c: seq<byte>): (y: Bits)
    requires |h| == 128 && |a| < 0x1_0000_0000 && |c| < 0x1_0000_0000
    ensures |y| == 128
  {
    Absorb(h, AbsorbAll(h, AbsorbAll(h, Zeros(128), a), c), BitCount(|a| as word) + BitCount(|c| as word))
  }

  /** s is the block whose bits are the hash. */
  ghost predicate IsGhash(h: Bits, a: seq<byte>, c: seq<byte>, s: seq<byte>) {
    |h| == 128 && |a| < 0x1_0000_0000 && |c| < 0x1_0000_0000 && |s| == 16 && BitsOf(s) == GhashBits(h, a, c)
  }

  lemma GhashIsUnique(h: Bits, a: seq<byte>, c: seq<byte>, s: seq<byte>, t: seq<byte>)
    requires IsGhash(h, a, c, s) && IsGhash(h, a, c, t)
    ensures s == t
  {
    hide BitsOf, GhashBits;
    BitsOfIsInjective(s, t);
  }

  // ---------- the length block ----------

  function FlattenSzInBits(sz: word): (b: seq<byte>)
    ensures |b| == 8
  {
    WordBytes(sz >> 29) + WordBytes(sz << 3)
  }

  lemma FlattenIsBitCount(sz: word)
    ensures FlattenSzInBits(sz) == BitCount(sz)
  {
    hide WordBytes;
    BitCountWords(sz);
  }

  lemma BitCountWords(sz: word)
    ensures High((sz as long) * 8) == sz >> 29 && Low((sz as long) * 8) == sz << 3
  {
  }

  // ---------- the byte builds ----------

  ghost predicate HasKey(build: Build, H: array<byte>, m: array<seq<byte>>)
    reads H, m
  {
    H.Length == 16 && (build == Table ==> IsTable(BitsOf(H[..]), m[..]))
  }

  /** xorbuf(x, block); GMULT(x, h) */
  method AbsorbBlock(build: Build, x: array<byte>, block: seq<byte>, H: array<byte>, m: array<seq<byte>>)
    requires x.Length == 16 && {x as object} !! {H, m} && |block| == 16 && HasKey(build, H, m)
    modifies x
    ensures BitsOf(x[..]) == Absorb(BitsOf(H[..]), BitsOf(old(x[..])), block)
  {
    hide BitsOf, Mul, Plus, XorBytes, IsTable;
    BitsOfXor(x[..], block);
    XorInto(x, block);
    if build == Table {
      GmultByTable(x, m, BitsOf(H[..]));
    } else {
      GmultSerial(x, H);
    }
  }

  method AbsorbBytes(build: Build, x: array<byte>, data: seq<byte>, H: array<byte>, m: array<seq<byte>>)
    requires x.Length == 16 && {x as object} !! {H, m} && HasKey(build, H, m)
    modifies x
    ensures BitsOf(x[..]) == AbsorbAll(BitsOf(H[..]), BitsOf(old(x[..])), data)
  {
    hide BitsOf, Absorb, IsTable, Padded;
    if |data| != 0 {
      ghost var h, total := BitsOf(H[..]), AbsorbAll(BitsOf(H[..]), BitsOf(x[..]), data);
      var blocks, partial := |data| / 16, |data| % 16;
      assert data[0..] == data;
      for i := 0 to blocks
        invariant BitsOf(H[..]) == h && AbsorbAll(h, BitsOf(x[..]), data[16 * i..]) == total
      {
        WholeBlock(data, i);
        AbsorbBlock(build, x, data[16 * i..16 * i + 16], H, m);
      }
      if partial != 0 {
        var scratch := Padded(data[16 * blocks..]);
        PartialBlock(data, blocks);
        AbsorbBlock(build, x, scratch, H, m);
      }
    }
  }

  lemma WholeBlock(data: seq<byte>, i: nat)
    requires 16 * i + 16 <= |data|
    ensures FirstBlock(data[16 * i..]) == data[16 * i..16 * i + 16]
    ensures AfterFirst(data[16 * i..]) == data[16 * (i + 1)..]
  {
    var rest := data[16 * i..];
    assert rest[..16] == data[16 * i..16 * i + 16];
    assert rest[..16] + ZeroBytes(0) == rest[..16];
  }

  lemma PartialBlock(data: seq<byte>, i: nat)
    requires 16 * i < |data| < 16 * i + 16
    ensures FirstBlock(data[16 * i..]) == Padded(data[16 * i..]) && AfterFirst(data[16 * i..]) == []
  {
    var rest := data[16 * i..];
    assert rest[..|rest|] == rest;
  }

  method GhashBytes(build: Build, H: array<byte>, m: array<seq<byte>>, a: seq<byte>, c: seq<byte>)
    returns (s: seq<byte>)
    requires HasKey(build, H, m) && |a| < 0x1_0000_0000 && |c| < 0x1_0000_0000
    ensures IsGhash(BitsOf(H[..]), a, c, s)
  {
    hide BitsOf, Absorb, IsTable, AbsorbAll, BitCount, FlattenSzInBits;
    var x := new byte[16](_ => 0);
    assert x[..] == ZeroBytes(16);
    BitsOfZeroBytes(16);
    AbsorbBytes(build, x, a, H, m);
    AbsorbBytes(build, x, c, H, m);
    FlattenIsBitCount(|a| as word);
    FlattenIsBitCount(|c| as word);
    AbsorbBlock(build, x, FlattenSzInBits(|a| as word) + FlattenSzInBits(|c| as word), H, m);
    s := x[..];
  }

  // ---------- loading blocks into words ----------

  /** Sixteen bytes as four big-endian words. */
  function LoadWords(b: seq<byte>): (w: seq<word>)
    requires |b| == 16
    ensures |w| == 4
  {
    [Word(b[0], b[1], b[2], b[3]), Word(b[4], b[5], b[6], b[7]), Word(b[8], b[9], b[10], b[11]),
     Word(b[12], b[13], b[14], b[15])]
  }

  function StoreWords(w: seq<word>): (b: seq<byte>)
    requires |w| == 4
    ensures |b| == 16
  {
    WordBytes(w[0]) + WordBytes(w[1]) + WordBytes(w[2]) + WordBytes(w[3])
  }

  lemma BytesOfLoaded(b: seq<byte>, i: nat)
    requires i + 4 <= |b|
    ensures WordBytes(Word(b[i], b[i + 1], b[i + 2], b[i + 3])) == b[i..i + 4]
  {
    hide Word, Byte3, Byte2, Byte1, Byte0;
    BytesOfWord(b[i], b[i + 1], b[i + 2], b[i + 3]);
  }

  lemma StoredBits(w: seq<word>)
    requires |w| == 4
    ensures BitsOf(StoreWords(w)) == WordsBits(w)
  {
    hide BitsOf, WordBytes;
    BitsOfConcat(WordBytes(w[0]), WordBytes(w[1]));
    BitsOfConcat(WordBytes(w[0]) + WordBytes(w[1]), WordBytes(w[2]));
    BitsOfConcat(WordBytes(w[0]) + WordBytes(w[1]) + WordBytes(w[2]), WordBytes(w[3]));
    FourWords(w);
  }

  lemma FourWords(w: seq<word>)
    requires |w| == 4
    ensures WordsBits(w) == WordBits(w[0]) + WordBits(w[1]) + WordBits(w[2]) + WordBits(w[3])
  {
    hide WordBits, WordsBits;
    assert w[0..] == w;
    WordsBitsFrom(w, 0);
    WordsBitsFrom(w, 1);
    WordsBitsFrom(w, 2);
    WordsBitsFrom(w, 3);
    NoWords(w[4..]);
    ConcatFour(WordBits(w[0]), WordBits(w[1]), WordBits(w[2]), WordBits(w[3]));
  }

  lemma ConcatFour(a: Bits, b: Bits, c: Bits, d: Bits)
    ensures a + (b + (c + (d + []))) == a + b + c + d
  {
  }

  lemma NoWords(w: seq<word>)
    requires w == []
    ensures WordsBits(w) == []
  {
  }

  lemma LoadedBytes(b: seq<byte>)
    requires |b| == 16
    ensures StoreWords(LoadWords(b)) == b
  {
    hide Word, WordBytes;
    BytesOfLoaded(b, 0);
    BytesOfLoaded(b, 4);
    BytesOfLoaded(b, 8);
    BytesOfLoaded(b, 12);
    assert b == b[0..4] + b[4..8] + b[8..12] + b[12..16];
  }

  lemma LoadedBits(b: seq<byte>)
    requires |b| == 16
    ensures WordsBits(LoadWords(b)) == BitsOf(b)
  {
    hide BitsOf, WordsBits, LoadWords, StoreWords;
    LoadedBytes(b);
    StoredBits(LoadWords(b));
  }

  // ---------- the 32-bit build ----------

  /** x ^= big; GMULT(x, bigH) */
  method AbsorbWords(x: array<word>, big: seq<word>, bigH: array<word>)
    requires x.Length == bigH.Length == 4 && x != bigH && |big| == 4
    modifies x
    ensures WordsBits(x[..]) == Mul(Plus(WordsBits(old(x[..])), WordsBits(big)), WordsBits(bigH[..]))
  {
    hide WordsBits, Mul, Plus, AddWords;
    WordsBitsOfXor(x[..], big);
    ghost var sum := XorWords(x[..], big);
    x[0] := AddWords(x[0], big[0]);
    x[1] := AddWords(x[1], big[1]);
    x[2] := AddWords(x[2], big[2]);
    x[3] := AddWords(x[3], big[3]);
    assert x[..] == sum;
    Gmult32(x, bigH);
  }

  method AbsorbBlock32(x: array<word>, block: seq<byte>, bigH: array<word>)
    requires x.Length == bigH.Length == 4 && x != bigH && |block| == 16
    modifies x
    ensures WordsBits(x[..]) == Absorb(WordsBits(bigH[..]), WordsBits(old(x[..])), block)
  {
    hide WordsBits, Mul, Plus, BitsOf, LoadWords;
    LoadedBits(block);
    AbsorbWords(x, LoadWords(block), bigH);
  }

  method AbsorbBytes32(x: array<word>, data: seq<byte>, bigH: array<word>)
    requires x.Length == bigH.Length == 4 && x != bigH
    modifies x
    ensures WordsBits(x[..]) == AbsorbAll(WordsBits(bigH[..]), WordsBits(old(x[..])), data)
  {
    hide WordsBits, Absorb, Padded;
    if |data| != 0 {
      ghost var h, total := WordsBits(bigH[..]), AbsorbAll(WordsBits(bigH[..]), WordsBits(x[..]), data);
      var blocks, partial := |data| / 16, |data| % 16;
      assert data[0..] == data;
      for i := 0 to blocks
        invariant WordsBits(bigH[..]) == h && AbsorbAll(h, WordsBits(x[..]), data[16 * i..]) == total
      {
        WholeBlock(data, i);
        AbsorbBlock32(x, data[16 * i..16 * i + 16], bigH);
      }
      if partial != 0 {
        PartialBlock(data, blocks);
        AbsorbBlock32(x, Padded(data[16 * blocks..]), bigH);
      }
    }
  }

  method GhashWords32(H: array<byte>, a: seq<byte>, c: seq<byte>) returns (s: seq<byte>)
    requires H.Length == 16 && |a| < 0x1_0000_0000 && |c| < 0x1_0000_0000
    ensures IsGhash(BitsOf(H[..]), a, c, s)
  {
    hide BitsOf, WordsBits, AbsorbAll, BitCount, Mul, Plus, LoadWords, StoreWords;
    var x := new word[4](_ => 0);
    ZeroWords(x[..]);
    var h := LoadWords(H[..]);
    LoadedBits(H[..]);
    var bigH := new word[] [h[0], h[1], h[2], h[3]];
    assert bigH[..] == h;
    AbsorbBytes32(x, a, bigH);
    AbsorbBytes32(x, c, bigH);
    var aSz, cSz := |a| as word, |c| as word;
    LengthWords(aSz, cSz);
    AbsorbWords(x, [aSz >> 29, aSz << 3, cSz >> 29, cSz << 3], bigH);
    StoredBits(x[..]);
    s := StoreWords(x[..]);
  }

  lemma LengthWords(aSz: word, cSz: word)
    ensures WordsBits([aSz >> 29, aSz << 3, cSz >> 29, cSz << 3]) == BitsOf(BitCount(aSz) + BitCount(cSz))
  {
    hide BitsOf, WordsBits, BitCount, WordBytes;
    var w := [aSz >> 29, aSz << 3, cSz >> 29, cSz << 3];
    StoredBits(w);
    FlattenIsBitCount(aSz);
    FlattenIsBitCount(cSz);
    assert StoreWords(w) == FlattenSzInBits(aSz) + FlattenSzInBits(cSz);
  }

  // ---------- the 64-bit build ----------

  function Join(high: word, low: word): long {
    (high as long << 32) | low as long
  }

  lemma JoinedHalves(high: word, low: word)
    ensures High(Join(high, low)) == high && Low(Join(high, low)) == low
  {
  }

  function LoadLongs(b: seq<byte>): (w: seq<long>)
    requires |b| == 16
    ensures |w| == 2
  {
    var v := LoadWords(b);
    [Join(v[0], v[1]), Join(v[2], v[3])]
  }

  function StoreLongs(w: seq<long>): (b: seq<byte>)
    requires |w| == 2
    ensures |b| == 16
  {
    StoreWords([High(w[0]), Low(w[0]), High(w[1]), Low(w[1])])
  }

  lemma StoredLongBits(w: seq<long>)
    requires |w| == 2
    ensures BitsOf(StoreLongs(w)) == PairBits(w)
  {
    hide BitsOf, High, Low, StoreWords, WordBits, WordsBits;
    var v := [High(w[0]), Low(w[0]), High(w[1]), Low(w[1])];
    StoredBits(v);
    FourWords(v);
    var p, q, r, s := WordBits(v[0]), WordBits(v[1]), WordBits(v[2]), WordBits(v[3]);
    assert p + q + r + s == (p + q) + (r + s);
  }

  lemma LoadedLongBits(b: seq<byte>)
    requires |b| == 16
    ensures PairBits(LoadLongs(b)) == BitsOf(b)
  {
    hide BitsOf, High, Low, StoreWords, LoadWords, PairBits, Join;
    var v := LoadWords(b);
    JoinedHalves(v[0], v[1]);
    JoinedHalves(v[2], v[3]);
    assert v == [v[0], v[1], v[2], v[3]];
    LoadedBytes(b);
    StoredLongBits(LoadLongs(b));
  }

  method AbsorbLongs(x: array<long>, big: seq<long>, bigH: array<long>)
    requires x.Length == bigH.Length == 2 && x != bigH && |big| == 2
    modifies x
    ensures PairBits(x[..]) == Mul(Plus(PairBits(old(x[..])), PairBits(big)), PairBits(bigH[..]))
  {
    hide LongBits, Mul, Plus, AddLongs;
    LongBitsOfSum(x[0], big[0]);
    LongBitsOfSum(x[1], big[1]);
    PlusOfConcat(LongBits(x[0]), LongBits(x[1]), LongBits(big[0]), LongBits(big[1]));
    x[0] := AddLongs(x[0], big[0]);
    x[1] := AddLongs(x[1], big[1]);
    Gmult64(x, bigH);
  }

  method AbsorbBlock64(x: array<long>, block: seq<byte>, bigH: array<long>)
    requires x.Length == bigH.Length == 2 && x != bigH && |block| == 16
    modifies x
    ensures PairBits(x[..]) == Absorb(PairBits(bigH[..]), PairBits(old(x[..])), block)
  {
    hide PairBits, Mul, Plus, BitsOf, LoadLongs;
    LoadedLongBits(block);
    AbsorbLongs(x, LoadLongs(block), bigH);
  }

  method AbsorbBytes64(x: array<long>, data: seq<byte>, bigH: array<long>)
    requires x.Length == bigH.Length == 2 && x != bigH
    modifies x
    ensures PairBits(x[..]) == AbsorbAll(PairBits(bigH[..]), PairBits(old(x[..])), data)
  {
    hide PairBits, Absorb, Padded;
    if |data| != 0 {
      ghost var h, total := PairBits(bigH[..]), AbsorbAll(PairBits(bigH[..]), PairBits(x[..]), data);
      var blocks, partial := |data| / 16, |data| % 16;
      assert data[0..] == data;
      for i := 0 to blocks
        invariant PairBits(bigH[..]) == h && AbsorbAll(h, PairBits(x[..]), data[16 * i..]) == total
      {
        WholeBlock(data, i);
        AbsorbBlock64(x, data[16 * i..16 * i + 16], bigH);
      }
      if partial != 0 {
        PartialBlock(data, blocks);
        AbsorbBlock64(x, Padded(data[16 * blocks..]), bigH);
      }
    }
  }

  method GhashWords64(H: array<byte>, a: seq<byte>, c: seq<byte>) returns (s: seq<byte>)
    requires H.Length == 16 && |a| < 0x1_0000_0000 && |c| < 0x1_0000_0000
    ensures IsGhash(BitsOf(H[..]), a, c, s)
  {
    hide BitsOf, PairBits, AbsorbAll, BitCount, Mul, Plus, LoadLongs, StoreLongs;
    var x := new long[2](_ => 0);
    ZeroPair();
    assert x[..] == [0, 0];
    var h := LoadLongs(H[..]);
    LoadedLongBits(H[..]);
    var bigH := new long[] [h[0], h[1]];
    assert bigH[..] == h;
    AbsorbBytes64(x, a, bigH);
    AbsorbBytes64(x, c, bigH);
    var aBits, cBits := (|a| as word as long) * 8, (|c| as word as long) * 8;
    LengthLongs(|a| as word, |c| as word);
    AbsorbLongs(x, [aBits, cBits], bigH);
    StoredLongBits(x[..]);
    s := StoreLongs(x[..]);
  }

  lemma LengthLongs(aSz: word, cSz: word)
    ensures PairBits([(aSz as long) * 8, (cSz as long) * 8]) == BitsOf(BitCount(aSz) + BitCount(cSz))
  {
    hide BitsOf, High, Low, WordBytes, PairBits;
    var w := [(aSz as long) * 8, (cSz as long) * 8];
    StoredLongBits(w);
    assert StoreLongs(w) == BitCount(aSz) + BitCount(cSz);
  }

  /** GHASH in whichever build. */
  method GhashMethod(build: Build, H: array<byte>, m: array<seq<byte>>, a: seq<byte>, c: seq<byte>)
    returns (s: seq<byte>)
    requires HasKey(build, H, m) && |a| < 0x1_0000_0000 && |c| < 0x1_0000_0000
    ensures IsGhash(BitsOf(H[..]), a, c, s)
  {
    hide IsGhash, BitsOf, IsTable;
    match build
    case Small => s := GhashBytes(build, H, m, a, c);
    case Table => s := GhashBytes(build, H, m, a, c);
    case Word64 => s := GhashWords64(H, a, c);
    case Word32 => s := GhashWords32(H, a, c);
  }
}
