/** Galois/Counter Mode in closed form, as sections 6.4, 6.5 and 7.1 of NIST SP 800-38D define it for a 96-bit IV:
    where each byte of the text and of the tag comes from. */
module GcmReference {

  import opened AesBlock
  import opened AesCipher
  import opened AesRounds
  import opened Buffers
  import opened Cbc
  import opened Gcm
  import opened GcmBits
  import G = Gf128
  import H = Ghash
  import opened Numerals
  import opened WordNumerals
  import opened XorBuffers

  // ---------- the counter ----------

  /** The 96 bits of the IV and a 32-bit number. */
  function Numbered(iv: seq<byte>, n: nat): (b: seq<byte>)
    requires |iv| >= 12
    ensures |b| == 16
  {
    iv[..12] + BigEndian(n % WORD_LIMIT, 4)
  }

  lemma Incremented(b: byte)
    ensures (Increment(b) == 0 <==> Number(b) == 255) && (Increment(b) != 0 ==> Number(Increment(b)) == Number(b) + 1)
    ensures Number(b) < 256
  {
  }

  /** Counting in bytes: the bytes that are full become zero. */
  lemma Carried(a: nat, b: nat, c: nat, d: nat)
    requires a < 256 && b < 256 && c < 256 && d < 256
    ensures (Value(a, b, c, d) + 1) % WORD_LIMIT
            == if d < 255 then Value(a, b, c, d + 1)
               else if c < 255 then Value(a, b, c + 1, 0)
               else if b < 255 then Value(a, b + 1, 0, 0)
               else if a < 255 then Value(a + 1, 0, 0, 0)
               else 0
  {
  }

  lemma ValueOfSuccessor(a: byte, b: byte, c: byte, d: byte)
    ensures var w := WordBytes(Successor(Word(a, b, c, d)));
            ValueOfFour(w[0], w[1], w[2], w[3]) == (ValueOfFour(a, b, c, d) + 1) % WORD_LIMIT
  {
    hide Word, WordBytes, Successor, Increment, Value, Number;
    NumberOfZero();
    Incremented(a);
    Incremented(b);
    Incremented(c);
    Incremented(d);
    Carried(Number(a), Number(b), Number(c), Number(d));
    if Increment(d) != 0 {
      CarryIntoNothing(a, b, c, d);
      ValueOfWord(a, b, c, Increment(d));
    } else if Increment(c) != 0 {
      CarryIntoOne(a, b, c, d);
      ValueOfWord(a, b, Increment(c), 0);
    } else if Increment(b) != 0 {
      CarryIntoTwo(a, b, c, d);
      ValueOfWord(a, Increment(b), 0, 0);
    } else {
      CarryIntoThree(a, b, c, d);
      ValueOfWord(Increment(a), 0, 0, 0);
      ValueOfZeros();
    }
  }

  lemma ValueOfZeros()
    ensures Value(0, 0, 0, 0) == 0
  {
  }

  /** The next counter block carries the next number. */
  lemma NextIsNumbered(iv: seq<byte>, n: nat)
    requires |iv| >= 12
    ensures NextCounter(Numbered(iv, n)) == Numbered(iv, n + 1)
  {
    hide BigEndian, ValueOfFour, Word, WordBytes, Successor;
    var ctr := Numbered(iv, n);
    var b := ctr[12..];
    assert b == BigEndian(n % WORD_LIMIT, 4) && ctr[..12] == iv[..12];
    var w := WordBytes(Successor(Word(ctr[12], ctr[13], ctr[14], ctr[15])));
    ValueOfSuccessor(ctr[12], ctr[13], ctr[14], ctr[15]);
    ValueOfNumbered(n % WORD_LIMIT, b);
    BytesOfValue(w);
    OneFurther(n);
  }

  lemma OneFurther(n: nat)
    ensures (n % WORD_LIMIT + 1) % WORD_LIMIT == (n + 1) % WORD_LIMIT
  {
  }

  lemma InitialIsNumbered(iv: seq<byte>)
    requires |iv| == 16
    ensures InitialCounter(iv) == Numbered(iv, 1)
  {
    hide BigEndian, ValueOfFour;
    BytesOfValue([0, 0, 0, 1]);
    OneInFour();
  }

  lemma OneInFour()
    ensures ValueOfFour(0, 0, 0, 1) == 1
  {
  }

  // ---------- the text ----------

  /** Byte i of c is byte i of p under byte i % 16 of the encryption of the IV and a number: 2 in the first block, one
      more in each block after it, modulo 2^32. */
  ghost predicate IsGcmText(k: Keyed, iv: seq<byte>, p: seq<byte>, c: seq<byte>) {
    && k.Ready() && |iv| == 16 && |c| == |p|
    && forall i {:trigger c[i]} :: 0 <= i < |c| ==>
         c[i] == p[i] ^ k.Enc(iv[..12] + BigEndian((i / 16 + 2) % 0x1_0000_0000, 4))[i % 16]
  }

  lemma {:induction false} CtrByte(k: Keyed, iv: seq<byte>, n: nat, p: seq<byte>, i: nat)
    requires k.Ready() && |iv| == 16 && i < |p|
    ensures CtrXor(k, Numbered(iv, n), p)[i] == Add(p[i], k.Enc(Numbered(iv, n + 1 + i / 16))[i % 16])
    decreases i
  {
    hide Numbered, NextCounter, Keyed.Enc, Keyed.Ready, XorBytes, Add;
    var ctr := Numbered(iv, n);
    NextIsNumbered(iv, n);
    CtrUnfolds(k, ctr, p);
    var b := H.Min(16, |p|);
    if i < 16 {
      XorByte(k.Enc(Numbered(iv, n + 1))[..b], p[..b], i);
    } else {
      CtrByte(k, iv, n + 1, p[16..], i - 16);
      assert (i - 16) / 16 == i / 16 - 1 && (i - 16) % 16 == i % 16;
    }
  }

  lemma CtrUnfolds(k: Keyed, ctr: seq<byte>, p: seq<byte>)
    requires k.Ready() && |ctr| == 16 && p != []
    ensures var b := H.Min(16, |p|);
            CtrXor(k, ctr, p) == XorBytes(k.Enc(NextCounter(ctr))[..b], p[..b]) + CtrXor(k, NextCounter(ctr), p[b..])
  {
    hide NextCounter, Keyed.Enc, Keyed.Ready, XorBytes;
  }

  lemma XorByte(a: seq<byte>, b: seq<byte>, i: nat)
    requires i < |a| == |b|
    ensures XorBytes(a, b)[i] == Add(b[i], a[i])
  {
    AddIsAbelian(a[i], b[i], 0);
  }

  /** The counter-mode function of this project in closed form. */
  lemma CtrIsGcmText(k: Keyed, iv: seq<byte>, p: seq<byte>)
    requires k.Ready() && |iv| == 16
    ensures IsGcmText(k, iv, p, CtrXor(k, InitialCounter(iv), p))
  {
    hide NextCounter, Keyed.Enc, Keyed.Ready, XorBytes, InitialCounter, CtrXor, BigEndian;
    InitialIsNumbered(iv);
    var c := CtrXor(k, InitialCounter(iv), p);
    forall i | 0 <= i < |c|
      ensures c[i] == p[i] ^ k.Enc(iv[..12] + BigEndian((i / 16 + 2) % 0x1_0000_0000, 4))[i % 16]
    {
      CtrByte(k, iv, 1, p, i);
    }
  }

  // ---------- the hash ----------

  /** Zeros up to the next multiple of sixteen bytes. */
  function WholeBlocks(data: seq<byte>): (p: seq<byte>)
    ensures |p| % 16 == 0
  {
    data + ZeroBytes((16 - |data| % 16) % 16)
  }

  /** The input of GHASH, step 5 of Algorithm 4. */
  function Formatted(a: seq<byte>, c: seq<byte>): seq<byte> {
    WholeBlocks(a) + WholeBlocks(c) + (BigEndian(8 * |a|, 8) + BigEndian(8 * |c|, 8))
  }

  /** Algorithm 2 over the first n blocks of x. */
  function Hashed(h: G.Bits, x: seq<byte>, n: nat): (y: G.Bits)
    requires |h| == 128 && 16 * n <= |x|
    ensures |y| == 128
  {
    if n == 0 then G.Zeros(128)
    else G.Mul(G.Plus(Hashed(h, x, n - 1), BitsOf(x[16 * n - 16..16 * n])), h)
  }

  lemma {:induction false} HashedOfPrefix(h: G.Bits, x: seq<byte>, y: seq<byte>, n: nat)
    requires |h| == 128 && 16 * n <= |x|
    ensures Hashed(h, x + y, n) == Hashed(h, x, n)
  {
    hide G.Mul, G.Plus, BitsOf;
    if n > 0 {
      HashedOfPrefix(h, x, y, n - 1);
      assert (x + y)[16 * n - 16..16 * n] == x[16 * n - 16..16 * n];
    }
  }

  lemma HashedOfBlock(h: G.Bits, x: seq<byte>, b: seq<byte>)
    requires |h| == 128 && |x| % 16 == 0 && |b| == 16
    ensures Hashed(h, x + b, |x + b| / 16) == H.Absorb(h, Hashed(h, x, |x| / 16), b)
  {
    hide G.Mul, G.Plus, BitsOf;
    var n := |x| / 16;
    HashedOfPrefix(h, x, b, n);
    assert (x + b)[16 * n..16 * n + 16] == b && |x + b| / 16 == n + 1;
  }

  lemma NoBytesNoBlocks()
    ensures WholeBlocks([]) == []
  {
  }

  lemma BlockAndRest(data: seq<byte>)
    requires data != []
    ensures WholeBlocks(data) == H.FirstBlock(data) + WholeBlocks(H.AfterFirst(data))
  {
    var n := |data|;
    if n <= 16 {
      assert H.AfterFirst(data) == [];
      NoBytesNoBlocks();
      assert (16 - n % 16) % 16 == 16 - n;
    } else {
      assert (n - 16) % 16 == n % 16;
      assert data == data[..16] + data[16..];
    }
  }

  lemma {:induction false} AbsorbAllIsHashed(h: G.Bits, x: seq<byte>, data: seq<byte>)
    requires |h| == 128 && |x| % 16 == 0
    ensures H.AbsorbAll(h, Hashed(h, x, |x| / 16), data)
            == Hashed(h, x + WholeBlocks(data), |x + WholeBlocks(data)| / 16)
    decreases |data|
  {
    hide H.Absorb, Hashed, H.FirstBlock, H.AfterFirst, WholeBlocks;
    if data == [] {
      NoBytesNoBlocks();
      assert x + [] == x;
    } else {
      var b, rest := H.FirstBlock(data), H.AfterFirst(data);
      BlockAndRest(data);
      HashedOfBlock(h, x, b);
      AbsorbAllIsHashed(h, x + b, rest);
      assert x + (b + WholeBlocks(rest)) == x + b + WholeBlocks(rest);
    }
  }

  /** s is the hash of section 6.4 of the input formatted as in section 7.1. */
  ghost predicate IsStandardHash(h: G.Bits, a: seq<byte>, c: seq<byte>, s: seq<byte>) {
    |h| == 128 && |s| == 16 && BitsOf(s) == Hashed(h, Formatted(a, c), |Formatted(a, c)| / 16)
  }

  lemma BitCountIsEightTimes(n: nat)
    requires n < WORD_LIMIT
    ensures H.BitCount(n as word) == BigEndian(8 * n, 8)
  {
    hide H.BitCount, H.FlattenSzInBits, BigEndian;
    FlattenIsEightTimes(n);
    H.FlattenIsBitCount(n as word);
  }

  lemma HashIsStandard(h: G.Bits, a: seq<byte>, c: seq<byte>)
    requires |h| == 128 && |a| < WORD_LIMIT && |c| < WORD_LIMIT
    ensures H.GhashBits(h, a, c) == Hashed(h, Formatted(a, c), |Formatted(a, c)| / 16)
  {
    hide H.Absorb, H.AbsorbAll, Hashed, WholeBlocks, H.BitCount, BigEndian;
    TextsAreHashed(h, a, c);
    BitCountIsEightTimes(|a|);
    BitCountIsEightTimes(|c|);
    WholeTogether(WholeBlocks(a), WholeBlocks(c));
    HashedOfBlock(h, WholeBlocks(a) + WholeBlocks(c), BigEndian(8 * |a|, 8) + BigEndian(8 * |c|, 8));
  }

  lemma TextsAreHashed(h: G.Bits, a: seq<byte>, c: seq<byte>)
    requires |h| == 128
    ensures var x := WholeBlocks(a) + WholeBlocks(c);
            H.AbsorbAll(h, H.AbsorbAll(h, G.Zeros(128), a), c) == Hashed(h, x, |x| / 16)
  {
    hide H.AbsorbAll, Hashed, WholeBlocks;
    NothingHashed(h);
    AbsorbAllIsHashed(h, [], a);
    assert [] + WholeBlocks(a) == WholeBlocks(a);
    AbsorbAllIsHashed(h, WholeBlocks(a), c);
  }

  lemma WholeTogether(x: seq<byte>, y: seq<byte>)
    requires |x| % 16 == 0 && |y| % 16 == 0
    ensures |x + y| % 16 == 0
  {
  }

  lemma NothingHashed(h: G.Bits)
    requires |h| == 128
    ensures Hashed(h, [], 0) == G.Zeros(128)
  {
  }

  // ---------- the tag ----------

  /** The hash s, with the encryption of the IV and the number 1 added byte by byte, cut to the length of the tag;
      the hash key is the encryption of the zero block. */
  ghost predicate IsGcmTagFrom(k: Keyed, iv: seq<byte>, a: seq<byte>, c: seq<byte>, tag: seq<byte>, s: seq<byte>) {
    && k.Ready() && |iv| == 16 && |tag| <= 16 && IsStandardHash(BitsOf(k.Enc(seq(16, _ => 0))), a, c, s)
    && forall i {:trigger tag[i]} :: 0 <= i < |tag| ==> tag[i] == s[i] ^ k.Enc(iv[..12] + [0, 0, 0, 1])[i]
  }

  ghost predicate IsGcmTag(k: Keyed, iv: seq<byte>, a: seq<byte>, c: seq<byte>, tag: seq<byte>) {
    exists s: seq<byte> :: IsGcmTagFrom(k, iv, a, c, tag, s)
  }

  lemma TagFromIsGcmTagFrom(k: Keyed, iv: seq<byte>, a: seq<byte>, c: seq<byte>, tag: seq<byte>, s: seq<byte>)
    requires k.Ready() && |iv| == 16 && |a| < WORD_LIMIT && |c| < WORD_LIMIT
    ensures IsTagFrom(k, k.Enc(ZeroBytes(16)), iv, a, c, tag, s) <==> IsGcmTagFrom(k, iv, a, c, tag, s)
  {
    hide Keyed.Enc, Keyed.Ready, BitsOf, Hashed, Formatted, H.GhashBits, BigEndian, ValueOfFour, XorBytes;
    HashIsStandard(BitsOf(k.Enc(ZeroBytes(16))), a, c);
    assert seq(16, _ => 0 as byte) == ZeroBytes(16);
    if |s| == 16 && |tag| <= 16 {
      CutSum(s, k.Enc(iv[..12] + [0, 0, 0, 1]), tag);
    }
  }

  lemma CutSum(s: seq<byte>, mask: seq<byte>, tag: seq<byte>)
    requires |s| == |mask| == 16 && |tag| <= 16
    ensures tag == XorBytes(s, mask)[..|tag|] <==>
            forall i {:trigger tag[i]} :: 0 <= i < |tag| ==> tag[i] == s[i] ^ mask[i]
  {
  }

  /** The tags of this project are those of the standard, for every length up to sixteen. */
  lemma TagIsGcmTag(k: Keyed, iv: seq<byte>, a: seq<byte>, c: seq<byte>, tag: seq<byte>)
    requires k.Ready() && |iv| == 16 && |a| < WORD_LIMIT && |c| < WORD_LIMIT
    ensures IsTag(k, k.Enc(ZeroBytes(16)), iv, a, c, tag) <==> IsGcmTag(k, iv, a, c, tag)
  {
    hide IsTagFrom, IsGcmTagFrom, Keyed.Enc, Keyed.Ready;
    forall s: seq<byte>
      ensures IsTagFrom(k, k.Enc(ZeroBytes(16)), iv, a, c, tag, s) <==> IsGcmTagFrom(k, iv, a, c, tag, s)
    {
      TagFromIsGcmTagFrom(k, iv, a, c, tag, s);
    }
  }

  // ---------- what the methods leave ----------

  /** AesGcmEncrypt leaves the ciphertext and the tag of the standard. */
  method EncryptsByStandard(aes: Aes, build: H.Build, out: array<byte>, input: array<byte>, sz: nat,
                            authTag: array<byte>, authTagSz: nat, authIn: seq<byte>)
    requires GcmReady(aes, build) && {out as object, input, authTag} !! {aes.reg, aes.tmp, aes.H, aes.M0}
    requires authTag != out
    requires sz <= out.Length && sz <= input.Length && authTagSz <= 16 && authTagSz <= authTag.Length
    requires sz < WORD_LIMIT && |authIn| < WORD_LIMIT
    modifies out, authTag
    ensures IsGcmText(old(aes.KeyInUse()), old(aes.reg[..]), old(input[..sz]), out[..sz])
    ensures IsGcmTag(old(aes.KeyInUse()), old(aes.reg[..]), authIn, out[..sz], authTag[..authTagSz])
    ensures out[sz..] == old(out[sz..]) && authTag[authTagSz..] == old(authTag[authTagSz..])
  {
    hide InitialCounter, Spliced, CtrXor, IsTag, IsGcmText, IsGcmTag, EncryptBlock;
    ghost var k, iv, p, whole := aes.KeyInUse(), aes.reg[..], input[..sz], out[..];
    AesGcmEncrypt(aes, build, out, input, sz, authTag, authTagSz, authIn);
    ghost var c := CtrXor(k, InitialCounter(iv), p);
    CtrIsGcmText(k, iv, p);
    SpliceRead(whole, 0, c);
    SpliceBeyond(whole, 0, c, sz, |whole|);
    assert out[..sz] == out[..][0..sz] && out[sz..] == out[..][sz..|whole|];
    TagIsGcmTag(k, iv, authIn, c, authTag[..authTagSz]);
  }

  /** AesGcmDecrypt accepts exactly the tag of the standard, and then leaves the text of the standard. */
  method DecryptsByStandard(aes: Aes, build: H.Build, out: array<byte>, input: array<byte>, sz: nat,
                            authTag: seq<byte>, authIn: seq<byte>) returns (status: GcmStatus)
    requires GcmReady(aes, build) && {out as object, input} !! {aes.reg, aes.tmp, aes.H, aes.M0}
    requires sz <= out.Length && sz <= input.Length && |authTag| <= 16
    requires sz < WORD_LIMIT && |authIn| < WORD_LIMIT
    modifies out
    ensures status == Authentic <==>
            IsGcmTag(old(aes.KeyInUse()), old(aes.reg[..]), authIn, old(input[..sz]), authTag)
    ensures status == Authentic ==>
            IsGcmText(old(aes.KeyInUse()), old(aes.reg[..]), old(input[..sz]), out[..sz])
    ensures status == Authentic ==> out[sz..] == old(out[sz..])
    ensures status != Authentic ==> out[..] == old(out[..])
  {
    hide InitialCounter, Spliced, CtrXor, IsTag, IsGcmText, IsGcmTag, EncryptBlock;
    ghost var k, iv, c, whole := aes.KeyInUse(), aes.reg[..], input[..sz], out[..];
    status := AesGcmDecrypt(aes, build, out, input, sz, authTag, authIn);
    TagIsGcmTag(k, iv, authIn, c, authTag);
    if status == Authentic {
      ghost var p := CtrXor(k, InitialCounter(iv), c);
      CtrIsGcmText(k, iv, c);
      SpliceRead(whole, 0, p);
      SpliceBeyond(whole, 0, p, sz, |whole|);
      assert out[..sz] == out[..][0..sz] && out[sz..] == out[..][sz..|whole|];
    }
  }
}
