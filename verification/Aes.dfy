/** struct Aes of c/aes.c: key setup, one block in either direction, and CBC in place or between buffers. */
module AesCipher {

  import opened AesBlock
  import opened KeySchedule
  import opened AesKeys
  import opened AesRounds
  import opened Buffers
  import opened Cbc
  import opened XorBuffers

  datatype Iv = NoIv | Iv(bytes: seq<byte>)

  class Aes {
    const sbox: Sbox
    const key: array<word>
    var rounds: nat
    const reg: array<byte>
    const tmp: array<byte>
    const H: array<byte>
    const M0: array<seq<byte>>

    ghost predicate Valid() {
      && key.Length == 60 && reg.Length == 16 && tmp.Length == 16 && H.Length == 16 && M0.Length == 256
      && reg != tmp && H !in {reg, tmp}
    }

    ghost function KeyInUse(): (k: Keyed)
      reads this, key
    {
      Keyed(sbox, if 8 * (rounds / 2) + 4 <= key.Length then key[..8 * (rounds / 2) + 4] else key[..], rounds / 2)
    }

    /** AesEncrypt and AesDecrypt refuse to run unless the number of rounds is one a key set up. */
    predicate IsSetUp()
      reads this
    {
      0 < rounds / 2 <= 7
    }

    constructor (sb: Sbox)
      ensures Valid() && sbox == sb && rounds == 0
      ensures fresh(key) && fresh(reg) && fresh(tmp) && fresh(H) && fresh(M0)
    {
      sbox := sb;
      key := new word[60](_ => 0);
      reg := new byte[16](_ => 0);
      tmp := new byte[16](_ => 0);
      H := new byte[16](_ => 0);
      M0 := new seq<byte>[256](_ => []);
      rounds := 0;
    }

    method LoadKey(userKey: seq<byte>)
      requires Valid() && KeyLengthIsLegal(|userKey|)
      modifies key
      ensures Expanded(sbox, KeyWords(userKey), key[..], |userKey| / 4)
    {
      hide Word;
      for i := 0 to |userKey| / 4
        invariant forall j :: 0 <= j < i ==> key[j] == KeyWords(userKey)[j]
      {
        key[i] := Word(userKey[4 * i], userKey[4 * i + 1], userKey[4 * i + 2], userKey[4 * i + 3]);
      }
    }

    method ExpandKey(userKey: seq<byte>)
      requires Valid() && KeyLengthIsLegal(|userKey|)
      modifies key
      ensures Expanded(sbox, KeyWords(userKey), key[..], 4 * RoundsFor(|userKey|) + 4)
    {
      hide Expanded, KeyWords;
      LoadKey(userKey);
      if |userKey| == 16 {
        Expand128(sbox, KeyWords(userKey), key);
      } else if |userKey| == 24 {
        Expand192(sbox, KeyWords(userKey), key);
      } else {
        Expand256(sbox, KeyWords(userKey), key);
      }
    }

    method InvertKey(userKey: seq<byte>)
      requires Valid() && IsPermutation(sbox) && KeyLengthIsLegal(|userKey|)
      requires Expanded(sbox, KeyWords(userKey), key[..], 4 * RoundsFor(|userKey|) + 4)
      modifies key
      ensures key[..4 * RoundsFor(|userKey|) + 4] == DecryptionKey(sbox, userKey)
    {
      hide Expanded, KeyWords, Mirrored, Mixed, DecryptionKey;
      ghost var expanded := key[..];
      ReverseRoundKeys(key, RoundsFor(|userKey|));
      ghost var mirrored := key[..];
      MixRoundKeys(sbox, key, RoundsFor(|userKey|));
      MirroredAndMixed(sbox, userKey, expanded, mirrored, key[..]);
    }

    /** AesSetKey on a host without AES instructions */
    method SetKey(userKey: seq<byte>, iv: Iv, dir: Direction) returns (status: Status)
      requires Valid() && IsPermutation(sbox) && (iv.Iv? ==> |iv.bytes| == 16)
      modifies this, key, reg
      ensures status == if KeyLengthIsLegal(|userKey|) then Success else BadFuncArg
      ensures status == Success ==> IsSetUp() && rounds == RoundsFor(|userKey|)
      ensures status == Success ==> KeyInUse() == KeyedBy(sbox, userKey, dir)
      ensures status == Success ==> reg[..] == if iv.Iv? then iv.bytes else old(reg[..])
      ensures status != Success ==> rounds == old(rounds) && key[..] == old(key[..]) && reg[..] == old(reg[..])
    {
      hide EncryptionKey, DecryptionKey, IsPermutation, Expanded, KeyWords;
      if !KeyLengthIsLegal(|userKey|) {
        return BadFuncArg;
      }
      rounds := |userKey| / 4 + 6;
      ExpandKey(userKey);
      ExpandedIsEncryptionKey(sbox, userKey, key[..]);
      if dir == Decryption {
        InvertKey(userKey);
      }
      if iv.Iv? {
        SpliceAll(reg[..], iv.bytes);
        CopyInto(reg, 0, iv.bytes);
      }
      return Success;
    }

    /** AesEncrypt; the whole input is read before any output is written */
    method EncryptOne(inBlock: seq<byte>, outBlock: array<byte>, at: nat)
      requires Valid() && |inBlock| == 16 && at + 16 <= outBlock.Length
      modifies outBlock
      ensures outBlock[..] ==
              if IsSetUp() then Spliced(old(outBlock[..]), at, KeyInUse().Enc(inBlock)) else old(outBlock[..])
    {
      hide FromBytes, ToBytes, Cipher;
      var r := rounds / 2;
      if r > 7 || r == 0 {
        return;
      }
      var c := EncryptState(sbox, key, r, FromBytes(inBlock));
      CopyInto(outBlock, at, ToBytes(c));
    }

    /** AesDecrypt */
    method DecryptOne(inBlock: seq<byte>, outBlock: array<byte>, at: nat)
      requires Valid() && |inBlock| == 16 && at + 16 <= outBlock.Length
      modifies outBlock
      ensures outBlock[..] ==
              if IsSetUp() then Spliced(old(outBlock[..]), at, KeyInUse().Dec(inBlock)) else old(outBlock[..])
    {
      hide FromBytes, ToBytes, EqInvCipher;
      var r := rounds / 2;
      if r > 7 || r == 0 {
        return;
      }
      var c := DecryptState(sbox, key, r, FromBytes(inBlock));
      CopyInto(outBlock, at, ToBytes(c));
    }

    // ---------- CBC ----------

    /** One pass of the loop of AesCbcEncrypt. */
    method ChainEncrypt(p: seq<byte>, out: array<byte>, at: nat)
      requires Valid() && IsSetUp() && |p| == 16 && out != reg && at + 16 <= out.Length
      modifies reg, out
      ensures reg[..] == KeyInUse().Enc(XorBytes(old(reg[..]), p))
      ensures out[..] == Spliced(old(out[..]), at, reg[..])
    {
      hide XorBytes, EncryptBlock, Spliced, Keyed.Enc;
      XorInto(reg, p);
      var x := reg[..];
      EncryptOne(x, reg, 0);
      SpliceAll(x, KeyInUse().Enc(x));
      CopyInto(out, at, reg[..]);
    }

    /** One pass of the loop of AesCbcDecrypt, the exclusive-or done in a copy of the output block. */
    method ChainDecrypt(c: seq<byte>, out: array<byte>, at: nat)
      requires Valid() && IsSetUp() && |c| == 16 && out != reg && out != tmp && at + 16 <= out.Length
      modifies reg, tmp, out
      ensures reg[..] == c
      ensures out[..] == Spliced(old(out[..]), at, XorBytes(KeyInUse().Dec(c), old(reg[..])))
    {
      hide XorBytes, DecryptBlock, Spliced, Keyed.Dec;
      SpliceAll(tmp[..], c);
      SpliceAll(reg[..], c);
      ghost var whole, d := out[..], KeyInUse().Dec(c);
      CopyInto(tmp, 0, c);
      DecryptOne(tmp[..], out, at);
      SpliceRead(whole, at, d);
      var mask := reg[..];
      CopyInto(out, at, XorBytes(out[at..at + 16], mask));
      SpliceOver(whole, at, d, XorBytes(d, mask));
      CopyInto(reg, 0, tmp[..]);
    }

    /** Block n of what the input held at first: still there, even when the output is the input buffer. */
    method NextBlock(input: array<byte>, inAt: nat, sz: nat, n: nat,
                     ghost whole: seq<byte>, ghost inPlace: bool, ghost done: seq<byte>)
      returns (block: seq<byte>)
      requires inAt + sz <= input.Length == |whole| && 16 * n + 16 <= sz && |done| == 16 * n
      requires input[..] == if inPlace then Spliced(whole, inAt, done) else whole
      ensures block == BlockAt(whole[inAt..inAt + sz], n)
    {
      hide Spliced;
      if inPlace {
        SpliceBeyond(whole, inAt, done, inAt + 16 * n, inAt + 16 * n + 16);
      }
      SliceOfSlice(whole, inAt, sz, 16 * n, 16 * n + 16);
      block := input[inAt + 16 * n..inAt + 16 * n + 16];
      assert block == input[..][inAt + 16 * n..inAt + 16 * n + 16];
    }

    /** The output may be the input buffer itself. */
    method CbcEncrypt(out: array<byte>, outAt: nat, input: array<byte>, inAt: nat, sz: nat)
      requires Valid() && IsSetUp() && {out, input} !! {reg, tmp} && (out == input ==> outAt == inAt)
      requires outAt + sz <= out.Length && inAt + sz <= input.Length
      modifies reg, out
      ensures var p := old(input[inAt..inAt + sz]);
              var c := Encrypted(old(KeyInUse()), old(reg[..]), p, sz / 16);
              out[..] == Spliced(old(out[..]), outAt, c) && reg[..] == Chain(old(reg[..]), c, sz / 16)
    {
      hide EncryptBlock, XorBytes, Spliced, Keyed.Enc, BlockAt;
      ghost var k, iv, whole, source := KeyInUse(), reg[..], out[..], input[..];
      ghost var p := source[inAt..inAt + sz];
      SpliceNothing(whole, outAt);
      for n := 0 to sz / 16
        invariant KeyInUse() == k && (input != out ==> input[..] == source)
        invariant out[..] == Spliced(whole, outAt, Encrypted(k, iv, p, n))
        invariant reg[..] == Chain(iv, Encrypted(k, iv, p, n), n)
      {
        ghost var c := Encrypted(k, iv, p, n);
        var block := NextBlock(input, inAt, sz, n, source, input == out, c);
        ChainEncrypt(block, out, outAt + 16 * n);
        SpliceTwice(whole, outAt, c, reg[..]);
        LastBlock(c, reg[..], n);
      }
    }

    method CbcDecrypt(out: array<byte>, outAt: nat, input: array<byte>, inAt: nat, sz: nat)
      requires Valid() && IsSetUp() && {out, input} !! {reg, tmp} && (out == input ==> outAt == inAt)
      requires outAt + sz <= out.Length && inAt + sz <= input.Length
      modifies reg, tmp, out
      ensures var c := old(input[inAt..inAt + sz]);
              var p := Decrypted(old(KeyInUse()), old(reg[..]), c, sz / 16);
              out[..] == Spliced(old(out[..]), outAt, p) && reg[..] == Chain(old(reg[..]), c, sz / 16)
    {
      hide DecryptBlock, XorBytes, Spliced, Keyed.Dec, BlockAt;
      ghost var k, iv, whole, source := KeyInUse(), reg[..], out[..], input[..];
      ghost var c := source[inAt..inAt + sz];
      SpliceNothing(whole, outAt);
      for n := 0 to sz / 16
        invariant KeyInUse() == k && (input != out ==> input[..] == source)
        invariant out[..] == Spliced(whole, outAt, Decrypted(k, iv, c, n))
        invariant reg[..] == Chain(iv, c, n)
      {
        ghost var p, mask := Decrypted(k, iv, c, n), reg[..];
        var block := NextBlock(input, inAt, sz, n, source, input == out, p);
        ChainDecrypt(block, out, outAt + 16 * n);
        SpliceTwice(whole, outAt, p, XorBytes(k.Dec(block), mask));
      }
    }
  }

  /** Encrypting in place in two calls is encrypting in one: reg carries the chain between the calls. */
  method EncryptInTwoCalls(cipher: Aes, data: array<byte>, m: nat, n: nat)
    requires cipher.Valid() && cipher.IsSetUp() && data !in {cipher.reg, cipher.tmp}
    requires data.Length == 16 * (m + n)
    modifies data, cipher.reg
    ensures data[..] == Encrypted(cipher.KeyInUse(), old(cipher.reg[..]), old(data[..]), m + n)
  {
    hide Spliced, Encrypted, Chain;
    ghost var k, iv, p := cipher.KeyInUse(), cipher.reg[..], data[..];
    ghost var first, rest := Encrypted(k, iv, p, m), p[16 * m..];
    assert p[0..16 * m] == p[..16 * m];
    EncryptedOfPrefix(k, iv, p[..16 * m], rest, m);
    assert p[..16 * m] + rest == p;
    cipher.CbcEncrypt(data, 0, data, 0, 16 * m);
    SpliceBeyond(p, 0, first, 16 * m, 16 * (m + n));
    assert p[16 * m..16 * (m + n)] == rest;
    assert data[..][16 * m..16 * (m + n)] == rest;
    assert data[16 * m..16 * (m + n)] == data[..][16 * m..16 * (m + n)];
    cipher.CbcEncrypt(data, 16 * m, data, 16 * m, 16 * n);
    ghost var last := Encrypted(k, Chain(iv, first, m), rest, n);
    SpliceTwice(p, 0, first, last);
    EncryptedInTwoCalls(k, iv, p, m, n);
    SpliceAll(p, first + last);
  }

  /** Decrypting in place in one call what was encrypted in two returns the plaintext. */
  method CbcThereAndBack(encryptor: Aes, decryptor: Aes, data: array<byte>, m: nat, n: nat)
    requires encryptor.Valid() && decryptor.Valid() && encryptor.IsSetUp() && decryptor.IsSetUp()
    requires Inverse(encryptor.KeyInUse(), decryptor.KeyInUse()) && encryptor.reg[..] == decryptor.reg[..]
    requires data.Length == 16 * (m + n)
    requires {data, encryptor.reg, encryptor.tmp} !! {decryptor.reg, decryptor.tmp}
    requires data !in {encryptor.reg, encryptor.tmp}
    modifies data, encryptor.reg, decryptor.reg, decryptor.tmp
    ensures data[..] == old(data[..])
  {
    hide Spliced, Encrypted, Decrypted, Chain, Inverse, Keyed.Ready;
    InverseAreReady(encryptor.KeyInUse(), decryptor.KeyInUse());
    ghost var ek, dk, iv, p := encryptor.KeyInUse(), decryptor.KeyInUse(), encryptor.reg[..], data[..];
    EncryptInTwoCalls(encryptor, data, m, n);
    ghost var c := data[..];
    assert data[0..16 * (m + n)] == c;
    decryptor.CbcDecrypt(data, 0, data, 0, 16 * (m + n));
    CbcRoundTrip(ek, dk, iv, p, m + n);
    assert p[..16 * (m + n)] == p;
    SpliceAll(c, p);
  }
}
