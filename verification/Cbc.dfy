/** Cipher block chaining, section 6.2 of NIST SP 800-38A, as AesCbcEncrypt and AesCbcDecrypt of c/aes.c do it. */
module Cbc {

  import opened AesBlock
  import opened AesKeys
  import opened AesRounds
  import opened XorBuffers

  // ---------- keyed block functions ----------

  /** What the block functions read of a keyed object; half is the number of double rounds. */
  datatype Keyed = Keyed(sb: Sbox, rk: seq<word>, half: nat) {
    predicate Ready() { 0 < half && 8 * half + 4 <= |rk| }

    function Enc(b: seq<byte>): (c: seq<byte>)
      requires Ready() && |b| == 16
      ensures |c| == 16
    {
      EncryptBlock(sb, rk, 2 * half, b)
    }

    function Dec(b: seq<byte>): (c: seq<byte>)
      requires Ready() && |b| == 16
      ensures |c| == 16
    {
      DecryptBlock(sb, rk, 2 * half, b)
    }
  }

  /** The block functions of ek and dk are inverse. */
  ghost predicate Inverse(ek: Keyed, dk: Keyed) {
    ek.Ready() && dk.Ready() && forall b: seq<byte> {:trigger ek.Enc(b)} :: |b| == 16 ==> dk.Dec(ek.Enc(b)) == b
  }

  function KeyedBy(sb: Sbox, userKey: seq<byte>, dir: Direction): Keyed
    requires KeyLengthIsLegal(|userKey|)
  {
    Keyed(sb, Schedule(sb, userKey, dir), RoundsFor(|userKey|) / 2)
  }

  lemma KeyedAreInverse(sb: Sbox, userKey: seq<byte>)
    requires IsPermutation(sb) && KeyLengthIsLegal(|userKey|)
    ensures Inverse(KeyedBy(sb, userKey, Encryption), KeyedBy(sb, userKey, Decryption))
  {
    hide EncryptionKey, DecryptionKey, EncryptBlock, DecryptBlock, IsPermutation;
    var ek, dk := KeyedBy(sb, userKey, Encryption), KeyedBy(sb, userKey, Decryption);
    forall b: seq<byte> | |b| == 16 ensures dk.Dec(ek.Enc(b)) == b {
      BlockRoundTrip(sb, userKey, b);
    }
  }

  // ---------- the mode ----------

  /** The block numbered n. */
  function BlockAt(s: seq<byte>, n: nat): (b: seq<byte>)
    requires 16 * n + 16 <= |s|
    ensures |b| == 16
  {
    s[16 * n..16 * n + 16]
  }

  /** The chaining value before block n: the IV, then the previous block of ciphertext. */
  function Chain(iv: seq<byte>, c: seq<byte>, n: nat): (b: seq<byte>)
    requires |iv| == 16 && 16 * n <= |c|
    ensures |b| == 16
  {
    if n == 0 then iv else BlockAt(c, n - 1)
  }

  lemma LastBlock(c: seq<byte>, b: seq<byte>, n: nat)
    requires |c| == 16 * n && |b| == 16
    ensures BlockAt(c + b, n) == b
  {
  }

  function Encrypted(k: Keyed, iv: seq<byte>, p: seq<byte>, n: nat): (c: seq<byte>)
    requires k.Ready() && |iv| == 16 && 16 * n <= |p|
    ensures |c| == 16 * n
  {
    if n == 0 then []
    else
      var c := Encrypted(k, iv, p, n - 1);
      c + k.Enc(XorBytes(Chain(iv, c, n - 1), BlockAt(p, n - 1)))
  }

  function Decrypted(k: Keyed, iv: seq<byte>, c: seq<byte>, n: nat): (p: seq<byte>)
    requires k.Ready() && |iv| == 16 && 16 * n <= |c|
    ensures |p| == 16 * n
  {
    if n == 0 then []
    else Decrypted(k, iv, c, n - 1) + XorBytes(k.Dec(BlockAt(c, n - 1)), Chain(iv, c, n - 1))
  }

  lemma {:induction false} DecryptedOfPrefix(k: Keyed, iv: seq<byte>, c: seq<byte>, more: seq<byte>, n: nat)
    requires k.Ready() && |iv| == 16 && 16 * n <= |c|
    ensures Decrypted(k, iv, c + more, n) == Decrypted(k, iv, c, n)
  {
    hide Keyed.Dec, Keyed.Ready, XorBytes;
    if n > 0 {
      DecryptedOfPrefix(k, iv, c, more, n - 1);
      assert BlockAt(c + more, n - 1) == BlockAt(c, n - 1);
      assert Chain(iv, c + more, n - 1) == Chain(iv, c, n - 1);
    }
  }

  lemma {:induction false} EncryptedOfPrefix(k: Keyed, iv: seq<byte>, p: seq<byte>, more: seq<byte>, n: nat)
    requires k.Ready() && |iv| == 16 && 16 * n <= |p|
    ensures Encrypted(k, iv, p + more, n) == Encrypted(k, iv, p, n)
  {
    hide Keyed.Enc, Keyed.Ready, XorBytes;
    if n > 0 {
      EncryptedOfPrefix(k, iv, p, more, n - 1);
      assert BlockAt(p + more, n - 1) == BlockAt(p, n - 1);
    }
  }

  /** Decryption undoes encryption, for every IV and every number of blocks. */
  lemma {:induction false} CbcRoundTrip(ek: Keyed, dk: Keyed, iv: seq<byte>, p: seq<byte>, n: nat)
    requires Inverse(ek, dk) && |iv| == 16 && 16 * n <= |p|
    ensures Decrypted(dk, iv, Encrypted(ek, iv, p, n), n) == p[..16 * n]
  {
    hide Keyed.Dec, Keyed.Enc, Keyed.Ready, XorBytes, Inverse, BlockAt, Chain;
    if n > 0 {
      CbcRoundTrip(ek, dk, iv, p, n - 1);
      InverseAreReady(ek, dk);
      var c := Encrypted(ek, iv, p, n - 1);
      var x := XorBytes(Chain(iv, c, n - 1), BlockAt(p, n - 1));
      InverseAt(ek, dk, x);
      DecryptedOfPrefix(dk, iv, c, ek.Enc(x), n - 1);
      LastBlock(c, ek.Enc(x), n - 1);
      ChainWithMore(iv, c, ek.Enc(x), n - 1);
      XorBytesTwice(BlockAt(p, n - 1), Chain(iv, c, n - 1));
      OneBlockMore(p, n - 1);
    } else {
      InverseAreReady(ek, dk);
    }
  }

  lemma ChainWithMore(iv: seq<byte>, c: seq<byte>, more: seq<byte>, n: nat)
    requires |iv| == 16 && 16 * n <= |c|
    ensures Chain(iv, c + more, n) == Chain(iv, c, n)
  {
  }

  lemma OneBlockMore(s: seq<byte>, n: nat)
    requires 16 * n + 16 <= |s|
    ensures s[..16 * n] + BlockAt(s, n) == s[..16 * (n + 1)]
  {
  }

  lemma InverseAreReady(ek: Keyed, dk: Keyed)
    requires Inverse(ek, dk)
    ensures ek.Ready() && dk.Ready()
  {
  }

  lemma InverseAt(ek: Keyed, dk: Keyed, b: seq<byte>)
    requires Inverse(ek, dk) && |b| == 16
    ensures ek.Ready() && dk.Ready() && dk.Dec(ek.Enc(b)) == b
  {
  }

  lemma BlockBeyond(s: seq<byte>, m: nat, n: nat)
    requires 16 * (m + n) + 16 <= |s|
    ensures BlockAt(s[16 * m..], n) == BlockAt(s, m + n)
  {
  }

  lemma ChainBeyond(iv: seq<byte>, c: seq<byte>, d: seq<byte>, m: nat, n: nat)
    requires |iv| == 16 && |c| == 16 * m && 16 * n <= |d|
    ensures Chain(iv, c + d, m + n) == Chain(Chain(iv, c, m), d, n)
  {
  }

  lemma ChainOfPrefix(iv: seq<byte>, c: seq<byte>, m: nat)
    requires |iv| == 16 && 16 * m <= |c|
    ensures Chain(iv, c[..16 * m], m) == Chain(iv, c, m)
  {
  }

  lemma ConcatAssociates(a: seq<byte>, b: seq<byte>, c: seq<byte>)
    ensures (a + b) + c == a + (b + c)
  {
  }

  /** Encrypting m blocks and then n more from the last ciphertext block is encrypting m + n at once. */
  lemma {:induction false} EncryptedInTwoCalls(k: Keyed, iv: seq<byte>, p: seq<byte>, m: nat, n: nat)
    requires k.Ready() && |iv| == 16 && 16 * (m + n) <= |p|
    ensures var c := Encrypted(k, iv, p, m);
            Encrypted(k, iv, p, m + n) == c + Encrypted(k, Chain(iv, c, m), p[16 * m..], n)
  {
    hide Keyed.Enc, Keyed.Ready, XorBytes, BlockAt, Chain;
    var c := Encrypted(k, iv, p, m);
    if n > 0 {
      EncryptedInTwoCalls(k, iv, p, m, n - 1);
      var d := Encrypted(k, Chain(iv, c, m), p[16 * m..], n - 1);
      BlockBeyond(p, m, n - 1);
      ChainBeyond(iv, c, d, m, n - 1);
      ConcatAssociates(c, d, k.Enc(XorBytes(Chain(Chain(iv, c, m), d, n - 1), BlockAt(p, m + n - 1))));
    }
  }

  lemma {:induction false} DecryptedInTwoCalls(k: Keyed, iv: seq<byte>, c: seq<byte>, m: nat, n: nat)
    requires k.Ready() && |iv| == 16 && 16 * (m + n) <= |c|
    ensures Decrypted(k, iv, c, m + n) == Decrypted(k, iv, c, m) + Decrypted(k, Chain(iv, c, m), c[16 * m..], n)
  {
    hide Keyed.Dec, Keyed.Ready, XorBytes, BlockAt, Chain;
    if n > 0 {
      DecryptedInTwoCalls(k, iv, c, m, n - 1);
      BlockBeyond(c, m, n - 1);
      ChainBeyond(iv, c[..16 * m], c[16 * m..], m, n - 1);
      ChainOfPrefix(iv, c, m);
      assert c[..16 * m] + c[16 * m..] == c;
      ConcatAssociates(Decrypted(k, iv, c, m), Decrypted(k, Chain(iv, c, m), c[16 * m..], n - 1),
                       XorBytes(k.Dec(BlockAt(c, m + n - 1)), Chain(iv, c, m + n - 1)));
    }
  }
}
