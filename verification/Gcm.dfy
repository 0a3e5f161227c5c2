/** AesGcmSetKey, AesGcmEncrypt and AesGcmDecrypt of c/aes.c: Galois/Counter Mode with a 96-bit IV, section 7 of
    NIST SP 800-38D. */
module Gcm {

  import opened AesBlock
  import opened AesKeys
  import opened AesRounds
  import opened Buffers
  import opened Cbc
  import opened AesCipher
  import Gf = Gf128
  import opened GcmBits
  import opened Ghash
  import opened GmultTable
  import opened XorBuffers

  // ---------- the counter ----------

  /** The first counter block: the IV with the counter set to one. */
  function InitialCounter(iv: seq<byte>): (ctr: seq<byte>)
    requires |iv| == 16
    ensures |ctr| == 16
  {
    iv[..12] + [0, 0, 0, 1]
  }

  function Successor(w: word): word { w + 1 }

  /** The last four bytes count, as one big-endian word that wraps around. */
  function NextCounter(ctr: seq<byte>): (next: seq<byte>)
    requires |ctr| == 16
    ensures |next| == 16
  {
    ctr[..12] + WordBytes(Successor(Word(ctr[12], ctr[13], ctr[14], ctr[15])))
  }

  lemma NextCounterKeepsIv(ctr: seq<byte>)
    requires |ctr| == 16
    ensures InitialCounter(NextCounter(ctr)) == InitialCounter(ctr)
  {
    hide Word, WordBytes;
    assert NextCounter(ctr)[..12] == ctr[..12];
  }

  /** ++b, with the wrap-around of an unsigned char */
  function Increment(b: byte): byte { b + 1 }

  lemma CarryIntoNothing(a: byte, b: byte, c: byte, d: byte)
    requires Increment(d) != 0
    ensures Successor(Word(a, b, c, d)) == Word(a, b, c, Increment(d))
  {
  }

  lemma CarryIntoOne(a: byte, b: byte, c: byte, d: byte)
    requires Increment(d) == 0 && Increment(c) != 0
    ensures Successor(Word(a, b, c, d)) == Word(a, b, Increment(c), 0)
  {
  }

  lemma CarryIntoTwo(a: byte, b: byte, c: byte, d: byte)
    requires Increment(d) == 0 && Increment(c) == 0 && Increment(b) != 0
    ensures Successor(Word(a, b, c, d)) == Word(a, Increment(b), 0, 0)
  {
  }

  lemma CarryIntoThree(a: byte, b: byte, c: byte, d: byte)
    requires Increment(d) == 0 && Increment(c) == 0 && Increment(b) == 0
    ensures Successor(Word(a, b, c, d)) == Word(Increment(a), 0, 0, 0)
  {
  }

  /** IncrementGcmCounter: carry leftwards until a byte does not wrap. */
  method IncrementGcmCounter(ctr: array<byte>)
    requires ctr.Length == 16
    modifies ctr
    ensures ctr[..] == NextCounter(old(ctr[..]))
  {
    hide Increment, NextCounter;
    ghost var before := ctr[..];
    var i := 15;
    while i >= 12
      invariant 11 <= i <= 15
      invariant forall k {:trigger ctr[k]} :: 0 <= k < 16 ==> ctr[k] == if k > i then 0 else before[k]
      invariant forall k :: i < k < 16 ==> Increment(before[k]) == 0
    {
      ctr[i] := Increment(ctr[i]);
      if ctr[i] != 0 {
        CounterStops(before, ctr[..], i);
        return;
      }
      i := i - 1;
    }
    assert ctr[12] == 0 && Increment(before[12]) == 0;
    CounterWraps(before, ctr[..]);
  }

  lemma LastFour(s: seq<byte>)
    requires |s| == 16
    ensures s == s[..12] + [s[12], s[13], s[14], s[15]]
  {
  }

  /** after is before with the last four bytes replaced by those of the word one further. */
  lemma NextCounterIs(before: seq<byte>, after: seq<byte>)
    requires |before| == |after| == 16 && after[..12] == before[..12]
    requires Successor(Word(before[12], before[13], before[14], before[15]))
             == Word(after[12], after[13], after[14], after[15])
    ensures after == NextCounter(before)
  {
    hide Word, Byte3, Byte2, Byte1, Byte0, Successor;
    BytesOfWord(after[12], after[13], after[14], after[15]);
    LastFour(after);
  }

  lemma CounterStops(before: seq<byte>, after: seq<byte>, i: nat)
    requires |before| == |after| == 16 && 12 <= i < 16
    requires forall k {:trigger after[k]} :: 0 <= k < 16 ==>
      after[k] == if k > i then 0 else if k == i then Increment(before[i]) else before[k]
    requires forall k :: i < k < 16 ==> Increment(before[k]) == 0
    requires after[i] != 0
    ensures after == NextCounter(before)
  {
    hide Word, NextCounter, Increment, Successor;
    var a, b, c, d := before[12], before[13], before[14], before[15];
    if i == 15 {
      CarryIntoNothing(a, b, c, d);
    } else if i == 14 {
      CarryIntoOne(a, b, c, d);
    } else if i == 13 {
      CarryIntoTwo(a, b, c, d);
    } else {
      CarryIntoThree(a, b, c, d);
    }
    NextCounterIs(before, after);
  }

  lemma CounterWraps(before: seq<byte>, after: seq<byte>)
    requires |before| == |after| == 16
    requires forall k {:trigger after[k]} :: 0 <= k < 16 ==> after[k] == if k > 11 then 0 else before[k]
    requires forall k :: 11 < k < 16 ==> Increment(before[k]) == 0
    ensures after == NextCounter(before)
  {
    hide Word, NextCounter, Increment, Successor;
    CarryIntoThree(before[12], before[13], before[14], before[15]);
    NextCounterIs(before, after);
  }

  // ---------- the mode ----------

  /** Counter-mode encryption from the counter after ctr on. */
  function CtrXor(k: Keyed, ctr: seq<byte>, p: seq<byte>): (c: seq<byte>)
    requires k.Ready() && |ctr| == 16
    ensures |c| == |p|
    decreases |p|
  {
    if p == [] then []
    else
      var next := NextCounter(ctr);
      var n := Min(16, |p|);
      XorBytes(k.Enc(next)[..n], p[..n]) + CtrXor(k, next, p[n..])
  }

  /** Counter mode undoes itself, for every length. */
  lemma {:induction false} CtrRoundTrip(k: Keyed, ctr: seq<byte>, p: seq<byte>)
    requires k.Ready() && |ctr| == 16
    ensures CtrXor(k, ctr, CtrXor(k, ctr, p)) == p
    decreases |p|
  {
    hide Keyed.Enc, Keyed.Ready, XorBytes, NextCounter;
    if p != [] {
      var next := NextCounter(ctr);
      var n := Min(16, |p|);
      var c := CtrXor(k, ctr, p);
      var mask := k.Enc(next)[..n];
      assert c[..n] == XorBytes(mask, p[..n]) && c[n..] == CtrXor(k, next, p[n..]);
      XorBytesTwice(p[..n], mask);
      CtrRoundTrip(k, next, p[n..]);
      assert p == p[..n] + p[n..];
    }
  }

  /** tag is the hash s of a and c, masked with the encrypted first counter block and cut to its length. */
  ghost predicate IsTagFrom(k: Keyed, h: seq<byte>, iv: seq<byte>, a: seq<byte>, c: seq<byte>, tag: seq<byte>,
                            s: seq<byte>) {
    && k.Ready() && |h| == |iv| == 16 && |tag| <= 16 && IsGhash(BitsOf(h), a, c, s)
    && tag == XorBytes(s, k.Enc(InitialCounter(iv)))[..|tag|]
  }

  ghost predicate IsTag(k: Keyed, h: seq<byte>, iv: seq<byte>, a: seq<byte>, c: seq<byte>, tag: seq<byte>) {
    exists s: seq<byte> :: IsTagFrom(k, h, iv, a, c, tag, s)
  }

  lemma TagIsUnique(k: Keyed, h: seq<byte>, iv: seq<byte>, a: seq<byte>, c: seq<byte>, t: seq<byte>, u: seq<byte>)
    requires IsTag(k, h, iv, a, c, t) && IsTag(k, h, iv, a, c, u) && |t| == |u|
    ensures t == u
  {
    hide IsGhash, BitsOf, InitialCounter, XorBytes, Keyed.Enc, Keyed.Ready;
    var r: seq<byte> :| IsTagFrom(k, h, iv, a, c, t, r);
    var s: seq<byte> :| IsTagFrom(k, h, iv, a, c, u, s);
    GhashIsUnique(BitsOf(h), a, c, r, s);
  }

  // ---------- the methods ----------

  /** What AesGcmSetKey establishes and the two directions rely on. */
  ghost predicate GcmReady(aes: Aes, build: Build)
    reads aes, aes.key, aes.H, aes.M0
  {
    && aes.Valid() && aes.IsSetUp() && aes.KeyInUse().Ready()
    && aes.H[..] == aes.KeyInUse().Enc(ZeroBytes(16)) && HasKey(build, aes.H, aes.M0)
  }

  method AesGcmSetKey(aes: Aes, build: Build, key: seq<byte>, implicitIV: seq<byte>)
    requires aes.Valid() && IsPermutation(aes.sbox) && |implicitIV| == 4
    modifies aes, aes.key, aes.reg, aes.H, aes.M0
    ensures KeyLengthIsLegal(|key|) ==> GcmReady(aes, build) && aes.KeyInUse() == KeyedBy(aes.sbox, key, Encryption)
    ensures KeyLengthIsLegal(|key|) ==> aes.reg[..] == implicitIV + ZeroBytes(12)
    ensures !KeyLengthIsLegal(|key|) ==>
      aes.rounds == old(aes.rounds) && aes.key[..] == old(aes.key[..]) && aes.reg[..] == old(aes.reg[..])
    ensures !KeyLengthIsLegal(|key|) ==> aes.H[..] == old(aes.H[..]) && aes.M0[..] == old(aes.M0[..])
  {
    hide IsPermutation, Schedule, EncryptBlock, BitsOf, IsTable, Spliced;
    if !KeyLengthIsLegal(|key|) {
      return;
    }
    var status := aes.SetKey(key, Iv(implicitIV + ZeroBytes(12)), Encryption);
    SpliceAll(aes.H[..], aes.KeyInUse().Enc(ZeroBytes(16)));
    aes.EncryptOne(ZeroBytes(16), aes.H, 0);
    if build == Table {
      GenerateM0(aes.M0, aes.H[..]);
    }
  }

  /** One block of the counter-mode loop, or the partial block after it. */
  method CtrStep(aes: Aes, ctr: array<byte>, block: seq<byte>, out: array<byte>, at: nat)
    requires aes.Valid() && aes.IsSetUp() && ctr.Length == 16 && ctr != out && |block| <= 16
    requires at + |block| <= out.Length
    modifies ctr, out
    ensures ctr[..] == NextCounter(old(ctr[..]))
    ensures out[..] == Spliced(old(out[..]), at, XorBytes(old(aes.KeyInUse()).Enc(ctr[..])[..|block|], block))
  {
    hide EncryptBlock, NextCounter, XorBytes, Spliced;
    ghost var whole := out[..];
    IncrementGcmCounter(ctr);
    var scratch := new byte[16](_ => 0);
    SpliceAll(scratch[..], aes.KeyInUse().Enc(ctr[..]));
    aes.EncryptOne(ctr[..], scratch, 0);
    CopyInto(out, at, XorBytes(scratch[..|block|], block));
  }

  /** The first n blocks and the counter that goes with them, on the way to the whole of CtrXor. */
  ghost predicate CtrDone(k: Keyed, ctr0: seq<byte>, p: seq<byte>, n: nat, ctr: seq<byte>, done: seq<byte>) {
    && k.Ready() && |ctr0| == |ctr| == 16 && |done| == n <= |p| && InitialCounter(ctr) == InitialCounter(ctr0)
    && done + CtrXor(k, ctr, p[n..]) == CtrXor(k, ctr0, p)
  }

  lemma CtrStarts(k: Keyed, ctr0: seq<byte>, p: seq<byte>)
    requires k.Ready() && |ctr0| == 16
    ensures CtrDone(k, ctr0, p, 0, ctr0, [])
  {
    hide CtrXor;
    assert p[0..] == p && [] + CtrXor(k, ctr0, p) == CtrXor(k, ctr0, p);
  }

  lemma CtrContinues(k: Keyed, ctr0: seq<byte>, p: seq<byte>, n: nat, ctr: seq<byte>, done: seq<byte>, b: nat)
    requires CtrDone(k, ctr0, p, n, ctr, done) && n < |p| && b == Min(16, |p| - n)
    ensures CtrDone(k, ctr0, p, n + b, NextCounter(ctr), done + XorBytes(k.Enc(NextCounter(ctr))[..b], p[n..n + b]))
  {
    hide NextCounter, XorBytes, InitialCounter, Keyed.Enc, Keyed.Ready;
    NextCounterKeepsIv(ctr);
    var rest := p[n..];
    assert rest[..b] == p[n..n + b] && rest[b..] == p[n + b..];
    ConcatAssociates(done, XorBytes(k.Enc(NextCounter(ctr))[..b], p[n..n + b]),
                     CtrXor(k, NextCounter(ctr), p[n + b..]));
  }

  lemma CtrFinishes(k: Keyed, ctr0: seq<byte>, p: seq<byte>, ctr: seq<byte>, done: seq<byte>)
    requires CtrDone(k, ctr0, p, |p|, ctr, done)
    ensures done == CtrXor(k, ctr0, p) && InitialCounter(ctr) == InitialCounter(ctr0)
  {
    assert p[|p|..] == [] && done + [] == done;
  }

  /** Bytes n to n + b of what the input held at first: still there, even when the output is the input buffer. */
  method NextBytes(input: array<byte>, n: nat, b: nat, ghost whole: seq<byte>, ghost inPlace: bool,
                   ghost done: seq<byte>)
    returns (block: seq<byte>)
    requires n + b <= input.Length == |whole| && |done| == n
    requires input[..] == if inPlace then Spliced(whole, 0, done) else whole
    ensures block == whole[n..n + b]
  {
    hide Spliced;
    if inPlace {
      SpliceBeyond(whole, 0, done, n, n + b);
    }
    block := input[n..n + b];
    assert block == input[..][n..n + b];
  }

  /** One block or partial block, read after whatever was written before it. */
  method CtrBlock(aes: Aes, ctr: array<byte>, out: array<byte>, input: array<byte>, n: nat, b: nat, ghost k: Keyed,
                  ghost ctr0: seq<byte>, ghost p: seq<byte>, ghost whole: seq<byte>, ghost source: seq<byte>,
                  ghost done: seq<byte>)
    returns (ghost next: seq<byte>)
    requires aes.Valid() && aes.IsSetUp() && aes.KeyInUse() == k && ctr.Length == 16 && ctr !in {out, input}
    requires |done| == n < |p| && b == Min(16, |p| - n) && CtrDone(k, ctr0, p, n, ctr[..], done)
    requires |p| <= out.Length == |whole| && |p| <= input.Length == |source| && p == source[..|p|]
    requires input[..] == if input == out then Spliced(source, 0, done) else source
    requires out[..] == Spliced(whole, 0, done)
    modifies ctr, out
    ensures |next| == n + b && CtrDone(k, ctr0, p, n + b, ctr[..], next) && out[..] == Spliced(whole, 0, next)
  {
    hide NextCounter, XorBytes, Spliced, EncryptBlock, CtrDone;
    CtrContinues(k, ctr0, p, n, ctr[..], done, b);
    var block := NextBytes(input, n, b, source, input == out, done);
    assert block == p[n..n + b];
    CtrStep(aes, ctr, block, out, n);
    SpliceTwice(whole, 0, done, XorBytes(k.Enc(ctr[..])[..b], block));
    next := done + XorBytes(k.Enc(ctr[..])[..b], block);
  }

  /** The counter-mode loop of both directions; the output may be the input buffer itself. */
  method CtrCrypt(aes: Aes, ctr: array<byte>, out: array<byte>, input: array<byte>, sz: nat)
    requires aes.Valid() && aes.IsSetUp() && ctr.Length == 16 && ctr !in {out, input} && sz <= out.Length
    requires sz <= input.Length
    modifies ctr, out
    ensures InitialCounter(ctr[..]) == InitialCounter(old(ctr[..]))
    ensures out[..] == Spliced(old(out[..]), 0, CtrXor(old(aes.KeyInUse()), old(ctr[..]), old(input[..sz])))
  {
    hide NextCounter, XorBytes, Spliced, CtrDone, EncryptBlock, InitialCounter, CtrXor;
    ghost var k, ctr0, whole, source := aes.KeyInUse(), ctr[..], out[..], input[..];
    ghost var p := source[..sz];
    ghost var done := [];
    var blocks, partial := sz / 16, sz % 16;
    SpliceNothing(whole, 0);
    CtrStarts(k, ctr0, p);
    for i := 0 to blocks
      invariant aes.KeyInUse() == k && (input != out ==> input[..] == source)
      invariant |done| == 16 * i && out[..] == Spliced(whole, 0, done) && CtrDone(k, ctr0, p, 16 * i, ctr[..], done)
    {
      done := CtrBlock(aes, ctr, out, input, 16 * i, 16, k, ctr0, p, whole, source, done);
    }
    if partial != 0 {
      done := CtrBlock(aes, ctr, out, input, 16 * blocks, partial, k, ctr0, p, whole, source, done);
    }
    CtrFinishes(k, ctr0, p, ctr[..], done);
  }

  // ---------- authenticated encryption ----------

  datatype GcmStatus = Authentic | AesGcmAuthE

  /** The hash masked with the encrypted first counter block. */
  method FullTag(aes: Aes, build: Build, ctr: seq<byte>, a: seq<byte>, c: seq<byte>) returns (t: seq<byte>)
    requires GcmReady(aes, build) && |ctr| == 16 && ctr == InitialCounter(ctr)
    requires |a| < 0x1_0000_0000 && |c| < 0x1_0000_0000
    ensures |t| == 16
    ensures forall n {:trigger t[..n]} :: 0 <= n <= 16 ==> IsTag(aes.KeyInUse(), aes.H[..], ctr, a, c, t[..n])
  {
    hide InitialCounter, XorBytes, Spliced, EncryptBlock, IsGhash, BitsOf, IsTable;
    var s := GhashMethod(build, aes.H, aes.M0, a, c);
    GhashLength(BitsOf(aes.H[..]), a, c, s);
    var scratch := new byte[16](_ => 0);
    SpliceAll(scratch[..], aes.KeyInUse().Enc(ctr));
    aes.EncryptOne(ctr, scratch, 0);
    t := XorBytes(s, scratch[..]);
    forall n | 0 <= n <= 16 ensures IsTag(aes.KeyInUse(), aes.H[..], ctr, a, c, t[..n]) {
      assert IsTagFrom(aes.KeyInUse(), aes.H[..], ctr, a, c, t[..n], s);
    }
  }

  lemma GhashLength(h: Gf.Bits, a: seq<byte>, c: seq<byte>, s: seq<byte>)
    requires IsGhash(h, a, c, s)
    ensures |s| == 16
  {
  }

  lemma InitialIsInitial(iv: seq<byte>)
    requires |iv| == 16
    ensures InitialCounter(InitialCounter(iv)) == InitialCounter(iv)
  {
    assert InitialCounter(iv)[..12] == iv[..12];
  }

  lemma TagOfInitial(k: Keyed, h: seq<byte>, iv: seq<byte>, a: seq<byte>, c: seq<byte>, t: seq<byte>)
    requires |iv| == 16 && IsTag(k, h, InitialCounter(iv), a, c, t)
    ensures IsTag(k, h, iv, a, c, t)
  {
    hide InitialCounter, XorBytes, IsGhash, Keyed.Enc, Keyed.Ready;
    InitialIsInitial(iv);
    var s: seq<byte> :| IsTagFrom(k, h, InitialCounter(iv), a, c, t, s);
    assert IsTagFrom(k, h, iv, a, c, t, s);
  }

  /** The ciphertext goes to out, its first |authTag| bytes of tag to authTag. */
  method AesGcmEncrypt(aes: Aes, build: Build, out: array<byte>, input: array<byte>, sz: nat,
                       authTag: array<byte>, authTagSz: nat, authIn: seq<byte>)
    requires GcmReady(aes, build) && {out as object, input, authTag} !! {aes.reg, aes.tmp, aes.H, aes.M0}
    requires authTag != out
    requires sz <= out.Length && sz <= input.Length && authTagSz <= 16 && authTagSz <= authTag.Length
    requires sz < 0x1_0000_0000 && |authIn| < 0x1_0000_0000
    modifies out, authTag
    ensures var p := old(input[..sz]);
            var c := CtrXor(old(aes.KeyInUse()), InitialCounter(old(aes.reg[..])), p);
            && out[..] == Spliced(old(out[..]), 0, c)
            && IsTag(old(aes.KeyInUse()), old(aes.H[..]), old(aes.reg[..]), authIn, c, authTag[..authTagSz])
            && authTag[authTagSz..] == old(authTag[authTagSz..])
  {
    hide InitialCounter, XorBytes, Spliced, CtrXor, IsTag, IsTable, BitsOf, EncryptBlock;
    ghost var iv, whole, k := aes.reg[..], out[..], aes.KeyInUse();
    var ctr := new byte[16](_ => 0);
    var j0 := InitialCounter(aes.reg[..]);
    SpliceAll(ctr[..], j0);
    CopyInto(ctr, 0, j0);
    CtrCrypt(aes, ctr, out, input, sz);
    InitialIsInitial(iv);
    var c := out[0..sz];
    SpliceRead(whole, 0, CtrXor(k, j0, old(input[..sz])));
    var t := FullTag(aes, build, InitialCounter(ctr[..]), authIn, c);
    TagOfInitial(k, aes.H[..], iv, authIn, c, t[..authTagSz]);
    ghost var tagBuffer := authTag[..];
    CopyInto(authTag, 0, t[..authTagSz]);
    SpliceRead(tagBuffer, 0, t[..authTagSz]);
    SpliceBeyond(tagBuffer, 0, t[..authTagSz], authTagSz, |tagBuffer|);
    assert authTag[..authTagSz] == authTag[..][0..authTagSz] && authTag[authTagSz..] == authTag[..][authTagSz..];
  }

  /** Nothing is written unless the tag is right. */
  method AesGcmDecrypt(aes: Aes, build: Build, out: array<byte>, input: array<byte>, sz: nat,
                       authTag: seq<byte>, authIn: seq<byte>) returns (status: GcmStatus)
    requires GcmReady(aes, build) && {out as object, input} !! {aes.reg, aes.tmp, aes.H, aes.M0}
    requires sz <= out.Length && sz <= input.Length && |authTag| <= 16
    requires sz < 0x1_0000_0000 && |authIn| < 0x1_0000_0000
    modifies out
    ensures status == Authentic <==>
            IsTag(old(aes.KeyInUse()), old(aes.H[..]), old(aes.reg[..]), authIn, old(input[..sz]), authTag)
    ensures out[..] ==
            if status == Authentic
            then Spliced(old(out[..]), 0,
                         CtrXor(old(aes.KeyInUse()), InitialCounter(old(aes.reg[..])), old(input[..sz])))
            else old(out[..])
  {
    hide InitialCounter, XorBytes, Spliced, CtrXor, IsTag, IsTable, BitsOf, EncryptBlock;
    ghost var iv, k := aes.reg[..], aes.KeyInUse();
    var ctr := new byte[16](_ => 0);
    var j0 := InitialCounter(aes.reg[..]);
    SpliceAll(ctr[..], j0);
    CopyInto(ctr, 0, j0);
    InitialIsInitial(iv);
    var t := FullTag(aes, build, ctr[..], authIn, input[..sz]);
    var n := |authTag|;
    TagOfInitial(k, aes.H[..], iv, authIn, input[..sz], t[..n]);
    if authTag != t[..n] {
      WrongTag(k, aes.H[..], iv, authIn, input[..sz], t[..n], authTag);
      return AesGcmAuthE;
    }
    CtrCrypt(aes, ctr, out, input, sz);
    return Authentic;
  }

  lemma WrongTag(k: Keyed, h: seq<byte>, iv: seq<byte>, a: seq<byte>, c: seq<byte>, right: seq<byte>, wrong: seq<byte>)
    requires IsTag(k, h, iv, a, c, right) && |wrong| == |right| && wrong != right
    ensures !IsTag(k, h, iv, a, c, wrong)
  {
    hide IsTag;
    if IsTag(k, h, iv, a, c, wrong) {
      TagIsUnique(k, h, iv, a, c, right, wrong);
    }
  }

  /** Encrypting any plaintext and decrypting the result under the tag that came with it, of any length up to
      sixteen, returns the plaintext; the second buffer need not have held anything in particular. */
  method EncryptThenDecrypt(aes: Aes, build: Build, p: seq<byte>, authTagSz: nat, authIn: seq<byte>)
    returns (status: GcmStatus, plain: seq<byte>)
    requires GcmReady(aes, build) && authTagSz <= 16 && |p| < 0x1_0000_0000 && |authIn| < 0x1_0000_0000
    ensures status == Authentic && plain == p
  {
    hide GcmReady, IsTag, CtrXor, InitialCounter, Spliced, KeyedBy;
    GcmReadyFacts(aes, build);
    ghost var k, j0 := aes.KeyInUse(), InitialCounter(aes.reg[..]);
    var buffer := new byte[|p|](i requires 0 <= i < |p| => p[i]);
    assert buffer[..] == p && buffer[..|p|] == p;
    var tag := new byte[16](_ => 0);
    AesGcmEncrypt(aes, build, buffer, buffer, |p|, tag, authTagSz, authIn);
    SpliceAll(p, CtrXor(k, j0, p));
    assert buffer[..|p|] == buffer[..];
    var out := new byte[|p|](_ => 0);
    ghost var blank := out[..];
    status := AesGcmDecrypt(aes, build, out, buffer, |p|, tag[..authTagSz], authIn);
    CtrRoundTrip(k, j0, p);
    SpliceAll(blank, p);
    plain := out[..];
  }

  lemma GcmReadyFacts(aes: Aes, build: Build)
    requires GcmReady(aes, build)
    ensures aes.Valid() && aes.IsSetUp() && aes.KeyInUse().Ready()
  {
  }
}
