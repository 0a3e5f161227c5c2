/** Cipher block chaining block by block, as section 6.2 of NIST SP 800-38A writes it, and what the methods leave. */
module CbcReference {

  import opened AesBlock
  import opened AesCipher
  import opened AesRounds
  import opened Buffers
  import opened Cbc
  import opened XorBuffers

  /** Byte i of what block j is chained with: the block of ciphertext before it, or the IV. */
  function Before(iv: seq<byte>, c: seq<byte>, j: nat, i: nat): byte
    requires |iv| == 16 && i < 16 && 16 * j <= |c|
  {
    if j == 0 then iv[i] else c[16 * j - 16 + i]
  }

  /** Block j of c is the encryption of block j of p with the block before added byte by byte. */
  ghost predicate IsCbcBlock(k: Keyed, iv: seq<byte>, p: seq<byte>, c: seq<byte>, j: nat)
    requires k.Ready() && |iv| == 16 && 16 * j + 16 <= |p| == |c|
  {
    c[16 * j..16 * j + 16] == k.Enc(seq(16, i requires 0 <= i < 16 => p[16 * j + i] ^ Before(iv, c, j, i)))
  }

  ghost predicate IsCbc(k: Keyed, iv: seq<byte>, p: seq<byte>, c: seq<byte>) {
    && k.Ready() && |iv| == 16 && |p| == |c| && |p| % 16 == 0
    && forall j: nat {:trigger IsCbcBlock(k, iv, p, c, j)} :: 16 * j + 16 <= |p| ==> IsCbcBlock(k, iv, p, c, j)
  }

  /** Block j of p is the decryption of block j of c with the block before added byte by byte. */
  ghost predicate IsCbcInverseBlock(k: Keyed, iv: seq<byte>, c: seq<byte>, p: seq<byte>, j: nat)
    requires k.Ready() && |iv| == 16 && 16 * j + 16 <= |p| == |c|
  {
    forall i {:trigger Before(iv, c, j, i)} :: 0 <= i < 16 ==>
      p[16 * j + i] == k.Dec(c[16 * j..16 * j + 16])[i] ^ Before(iv, c, j, i)
  }

  ghost predicate IsCbcInverse(k: Keyed, iv: seq<byte>, c: seq<byte>, p: seq<byte>) {
    && k.Ready() && |iv| == 16 && |p| == |c| && |p| % 16 == 0
    && forall j: nat {:trigger IsCbcInverseBlock(k, iv, c, p, j)} ::
         16 * j + 16 <= |p| ==> IsCbcInverseBlock(k, iv, c, p, j)
  }

  // ---------- encryption ----------

  lemma ChainedInput(iv: seq<byte>, p: seq<byte>, c: seq<byte>, j: nat)
    requires |iv| == 16 && 16 * j + 16 <= |p| && 16 * j <= |c|
    ensures XorBytes(Chain(iv, c, j), BlockAt(p, j))
            == seq(16, i requires 0 <= i < 16 => p[16 * j + i] ^ Before(iv, c, j, i))
  {
    hide Before, Chain, BlockAt, XorBytes;
    var x := XorBytes(Chain(iv, c, j), BlockAt(p, j));
    forall i | 0 <= i < 16 ensures x[i] == p[16 * j + i] ^ Before(iv, c, j, i) {
      ChainByte(iv, c, j, i);
      assert BlockAt(p, j)[i] == p[16 * j + i] by { BlockByte(p, j, i); }
      SumByte(Chain(iv, c, j), BlockAt(p, j), i);
    }
  }

  lemma ChainByte(iv: seq<byte>, c: seq<byte>, j: nat, i: nat)
    requires |iv| == 16 && 16 * j <= |c| && i < 16
    ensures Chain(iv, c, j)[i] == Before(iv, c, j, i)
  {
  }

  lemma BlockByte(p: seq<byte>, j: nat, i: nat)
    requires 16 * j + 16 <= |p| && i < 16
    ensures BlockAt(p, j)[i] == p[16 * j + i]
  {
  }

  lemma SumByte(a: seq<byte>, b: seq<byte>, i: nat)
    requires i < |a| == |b|
    ensures XorBytes(a, b)[i] == a[i] ^ b[i] == b[i] ^ a[i]
  {
    AddIsAbelian(a[i], b[i], 0);
  }

  lemma BlockStays(k: Keyed, iv: seq<byte>, p: seq<byte>, c: seq<byte>, more: seq<byte>, q: seq<byte>, j: nat)
    requires k.Ready() && |iv| == 16 && 16 * j + 16 <= |p| == |c| && |q| == |p| + |more|
    requires q[..|p|] == p && IsCbcBlock(k, iv, p, c, j)
    ensures IsCbcBlock(k, iv, q, c + more, j)
  {
    hide Keyed.Enc, Keyed.Ready;
    var x := seq(16, i requires 0 <= i < 16 => p[16 * j + i] ^ Before(iv, c, j, i));
    var y := seq(16, i requires 0 <= i < 16 => q[16 * j + i] ^ Before(iv, c + more, j, i));
    forall i | 0 <= i < 16 ensures x[i] == y[i] {
      assert q[..|p|][16 * j + i] == q[16 * j + i];
    }
    assert x == y;
    assert (c + more)[16 * j..16 * j + 16] == c[16 * j..16 * j + 16];
  }

  lemma {:induction false} EncryptedIsCbc(k: Keyed, iv: seq<byte>, p: seq<byte>, n: nat)
    requires k.Ready() && |iv| == 16 && 16 * n <= |p|
    ensures IsCbc(k, iv, p[..16 * n], Encrypted(k, iv, p, n))
  {
    hide Keyed.Enc, Keyed.Ready, XorBytes, Chain, BlockAt, IsCbcBlock;
    if n > 0 {
      EncryptedIsCbc(k, iv, p, n - 1);
      var c, before, after := Encrypted(k, iv, p, n - 1), p[..16 * (n - 1)], p[..16 * n];
      var b := k.Enc(XorBytes(Chain(iv, c, n - 1), BlockAt(p, n - 1)));
      assert after[..|before|] == before;
      forall j: nat | 16 * j + 16 <= |after| ensures IsCbcBlock(k, iv, after, c + b, j) {
        if j < n - 1 {
          BlockStays(k, iv, before, c, b, after, j);
        } else {
          LastIsCbcBlock(k, iv, p, c, n - 1);
        }
      }
    }
  }

  lemma LastIsCbcBlock(k: Keyed, iv: seq<byte>, p: seq<byte>, c: seq<byte>, m: nat)
    requires k.Ready() && |iv| == 16 && 16 * m + 16 <= |p| && |c| == 16 * m
    ensures IsCbcBlock(k, iv, p[..16 * m + 16], c + k.Enc(XorBytes(Chain(iv, c, m), BlockAt(p, m))), m)
  {
    hide Keyed.Enc, Keyed.Ready, XorBytes, Chain, BlockAt;
    var b := k.Enc(XorBytes(Chain(iv, c, m), BlockAt(p, m)));
    ChainedInput(iv, p, c, m);
    SameInput(iv, p, c, b, m);
    assert (c + b)[16 * m..16 * m + 16] == b;
  }

  lemma SameInput(iv: seq<byte>, p: seq<byte>, c: seq<byte>, b: seq<byte>, m: nat)
    requires |iv| == 16 && 16 * m + 16 <= |p| && |c| == 16 * m
    ensures seq(16, i requires 0 <= i < 16 => p[16 * m + i] ^ Before(iv, c, m, i))
            == seq(16, i requires 0 <= i < 16 => p[..16 * m + 16][16 * m + i] ^ Before(iv, c + b, m, i))
  {
    forall i | 0 <= i < 16 ensures Before(iv, c + b, m, i) == Before(iv, c, m, i) {
    }
    hide Before;
  }

  // ---------- decryption ----------

  lemma {:induction false} DecryptedByte(k: Keyed, iv: seq<byte>, c: seq<byte>, n: nat, j: nat, i: nat)
    requires k.Ready() && |iv| == 16 && 16 * n <= |c| && j < n && i < 16
    ensures Decrypted(k, iv, c, n)[16 * j + i] == k.Dec(c[16 * j..16 * j + 16])[i] ^ Before(iv, c, j, i)
  {
    hide Keyed.Dec, Keyed.Ready, Before, Chain, XorBytes;
    if j < n - 1 {
      DecryptedByte(k, iv, c, n - 1, j, i);
    } else {
      ChainByte(iv, c, j, i);
      SumByte(k.Dec(BlockAt(c, j)), Chain(iv, c, j), i);
    }
  }

  lemma InverseBlock(k: Keyed, iv: seq<byte>, c: seq<byte>, n: nat, j: nat)
    requires k.Ready() && |iv| == 16 && 16 * n <= |c| && j < n
    ensures IsCbcInverseBlock(k, iv, c[..16 * n], Decrypted(k, iv, c, n), j)
  {
    hide Keyed.Dec, Keyed.Ready, Decrypted, Before;
    var front, p := c[..16 * n], Decrypted(k, iv, c, n);
    assert front[16 * j..16 * j + 16] == c[16 * j..16 * j + 16];
    forall i {:trigger Before(iv, front, j, i)} | 0 <= i < 16
      ensures p[16 * j + i] == k.Dec(front[16 * j..16 * j + 16])[i] ^ Before(iv, front, j, i)
    {
      DecryptedByte(k, iv, c, n, j, i);
      BeforeOfFront(iv, c, 16 * n, j, i);
    }
  }

  lemma BeforeOfFront(iv: seq<byte>, c: seq<byte>, n: nat, j: nat, i: nat)
    requires |iv| == 16 && i < 16 && 16 * j <= n <= |c|
    ensures Before(iv, c[..n], j, i) == Before(iv, c, j, i)
  {
  }

  lemma DecryptedIsCbcInverse(k: Keyed, iv: seq<byte>, c: seq<byte>, n: nat)
    requires k.Ready() && |iv| == 16 && 16 * n <= |c|
    ensures IsCbcInverse(k, iv, c[..16 * n], Decrypted(k, iv, c, n))
  {
    hide Keyed.Dec, Keyed.Ready, Decrypted, IsCbcInverseBlock;
    var front, p := c[..16 * n], Decrypted(k, iv, c, n);
    forall j: nat | 16 * j + 16 <= |p| ensures IsCbcInverseBlock(k, iv, front, p, j) {
      InverseBlock(k, iv, c, n, j);
    }
  }

  // ---------- what the methods leave ----------

  /** The chaining value after a call: the last block of ciphertext, or what it was. */
  function Carried(iv: seq<byte>, c: seq<byte>): seq<byte> {
    if |c| < 16 then iv else c[|c| - 16..]
  }

  lemma ChainIsCarried(iv: seq<byte>, c: seq<byte>, n: nat)
    requires |iv| == 16 && |c| == 16 * n
    ensures Chain(iv, c, n) == Carried(iv, c)
  {
  }

  /** AesCbcEncrypt leaves the ciphertext of the standard where it should, and the last block in reg, also when the
      output is the input. */
  method CbcEncryptsByStandard(aes: Aes, out: array<byte>, outAt: nat, input: array<byte>, inAt: nat, n: nat)
    requires aes.Valid() && aes.IsSetUp() && {out, input} !! {aes.reg, aes.tmp} && (out == input ==> outAt == inAt)
    requires outAt + 16 * n <= out.Length && inAt + 16 * n <= input.Length
    modifies aes.reg, out
    ensures IsCbc(old(aes.KeyInUse()), old(aes.reg[..]), old(input[inAt..inAt + 16 * n]), out[outAt..outAt + 16 * n])
    ensures aes.reg[..] == Carried(old(aes.reg[..]), out[outAt..outAt + 16 * n])
    ensures out[..outAt] == old(out[..outAt]) && out[outAt + 16 * n..] == old(out[outAt + 16 * n..])
  {
    hide Spliced, Encrypted, IsCbc, EncryptBlock, Chain, Carried;
    ghost var k, iv, p, whole := aes.KeyInUse(), aes.reg[..], input[inAt..inAt + 16 * n], out[..];
    ghost var c := Encrypted(k, iv, p, n);
    assert 16 * n / 16 == n;
    aes.CbcEncrypt(out, outAt, input, inAt, 16 * n);
    EncryptedIsCbc(k, iv, p, n);
    assert p[..16 * n] == p;
    ChainIsCarried(iv, c, n);
    Placed(whole, outAt, c, out[..]);
    assert out[outAt..outAt + 16 * n] == out[..][outAt..outAt + 16 * n];
    assert out[..outAt] == out[..][..outAt] && out[outAt + 16 * n..] == out[..][outAt + 16 * n..];
  }

  /** AesCbcDecrypt likewise, reg then holding the last block of its input. */
  method CbcDecryptsByStandard(aes: Aes, out: array<byte>, outAt: nat, input: array<byte>, inAt: nat, n: nat)
    requires aes.Valid() && aes.IsSetUp() && {out, input} !! {aes.reg, aes.tmp} && (out == input ==> outAt == inAt)
    requires outAt + 16 * n <= out.Length && inAt + 16 * n <= input.Length
    modifies aes.reg, aes.tmp, out
    ensures var c := old(input[inAt..inAt + 16 * n]);
            IsCbcInverse(old(aes.KeyInUse()), old(aes.reg[..]), c, out[outAt..outAt + 16 * n])
            && aes.reg[..] == Carried(old(aes.reg[..]), c)
    ensures out[..outAt] == old(out[..outAt]) && out[outAt + 16 * n..] == old(out[outAt + 16 * n..])
  {
    hide Spliced, Decrypted, IsCbcInverse, DecryptBlock, Chain, Carried;
    ghost var k, iv, c, whole := aes.KeyInUse(), aes.reg[..], input[inAt..inAt + 16 * n], out[..];
    ghost var p := Decrypted(k, iv, c, n);
    assert 16 * n / 16 == n;
    aes.CbcDecrypt(out, outAt, input, inAt, 16 * n);
    DecryptedIsCbcInverse(k, iv, c, n);
    assert c[..16 * n] == c;
    ChainIsCarried(iv, c, n);
    Placed(whole, outAt, p, out[..]);
    assert out[outAt..outAt + 16 * n] == out[..][outAt..outAt + 16 * n];
    assert out[..outAt] == out[..][..outAt] && out[outAt + 16 * n..] == out[..][outAt + 16 * n..];
  }

  lemma Placed(whole: seq<byte>, at: nat, part: seq<byte>, after: seq<byte>)
    requires at + |part| <= |whole| && after == Spliced(whole, at, part)
    ensures |after| == |whole| && after[at..at + |part|] == part
    ensures after[..at] == whole[..at] && after[at + |part|..] == whole[at + |part|..]
  {
  }
}
