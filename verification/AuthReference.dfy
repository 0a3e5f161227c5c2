/** Whole messages of CCM and EAX in closed form: where each byte of the ciphertext and of the tag comes from. */
module AuthReference {

  import opened AesBlock
  import opened AuthEnc
  import opened AuthEncRuns
  import opened BlockCiphers
  import opened CcmMode
  import opened CcmReference
  import C = Cmacs
  import opened EaxMode
  import opened MacReference
  import opened Pieces
  import opened XorBuffers

  type Stream = (seq<byte>, nat) -> byte

  /** c is p under the keystream of this block from a position on. */
  ghost predicate IsUnderStream(stream: Stream, block: seq<byte>, from: nat, p: seq<byte>, c: seq<byte>) {
    |c| == |p| && forall i {:trigger c[i]} :: 0 <= i < |c| ==> c[i] == p[i] ^ stream(block, from + i)
  }

  lemma StreamedIsUnder(stream: Stream, block: seq<byte>, from: nat, p: seq<byte>)
    ensures IsUnderStream(stream, block, from, p, Streamed(stream, block, from, p))
  {
  }

  lemma UnderIsSymmetric(stream: Stream, block: seq<byte>, from: nat, p: seq<byte>, c: seq<byte>)
    requires IsUnderStream(stream, block, from, p, c)
    ensures IsUnderStream(stream, block, from, c, p)
  {
    forall i {:trigger p[i]} | 0 <= i < |p| ensures p[i] == c[i] ^ stream(block, from + i) {
      Uncovered(p[i], stream(block, from + i), c[i]);
    }
  }

  lemma Uncovered(a: byte, b: byte, c: byte)
    ensures c == a ^ b ==> a == c ^ b
  {
    AddCancels(a, b);
  }

  // ---------- CCM, RFC 3610 ----------

  /** The last block of the chain over the first block b, the header behind its length, and the plaintext. */
  function CcmMac(cipher: BlockCipher, b: seq<byte>, header: seq<byte>, p: seq<byte>): (t: seq<byte>)
    requires IsBlockCipher(cipher) && cipher.size == 16 && |b| == 16
    ensures |t| == 16
  {
    WholeSum(b, ZeroFilled(16, LengthPrefix(|header|) + header), ZeroFilled(16, p));
    LastOfChain(cipher, b + ZeroFilled(16, LengthPrefix(|header|) + header) + ZeroFilled(16, p))
  }

  /** Ciphertext and tag of the plaintext p, with its first block b and its counter block a. The keystream encrypts the
      counter blocks that start with a; the first sixteen bytes of it cover the tag. */
  ghost predicate IsCcmWith(cipher: BlockCipher, stream: Stream, digestSize: nat, nonce: seq<byte>, header: seq<byte>,
                            p: seq<byte>, c: seq<byte>, tag: seq<byte>, a: seq<byte>, b: seq<byte>) {
    && IsBlockCipher(cipher) && cipher.size == 16 && |tag| <= 16
    && IsFirstBlock(b, digestSize, nonce, |header|, |p|) && IsCounterBlock(a, nonce, 0)
    && IsUnderStream(stream, a, 16, p, c) && IsUnderStream(stream, a, 0, CcmMac(cipher, b, header, p)[..|tag|], tag)
  }

  ghost predicate IsCcm(cipher: BlockCipher, stream: Stream, digestSize: nat, nonce: seq<byte>, header: seq<byte>,
                        p: seq<byte>, c: seq<byte>, tag: seq<byte>) {
    exists a: seq<byte>, b: seq<byte> :: IsCcmWith(cipher, stream, digestSize, nonce, header, p, c, tag, a, b)
  }

  lemma TagIsCcm(cipher: BlockCipher, stream: Stream, f: Format, header: seq<byte>, p: seq<byte>, c: seq<byte>,
                 tag: seq<byte>)
    requires IsBlockCipher(cipher) && cipher.size == 16 && |tag| <= 16 && Matches(f, header, p)
    requires IsUnderStream(stream, CounterBlock(f.nonce), 16, p, c)
    requires tag == Streamed(stream, CounterBlock(f.nonce), 0, T(cipher, f, header, p)[..|tag|])
    ensures IsCcm(cipher, stream, f.digestSize, f.nonce, header, p, c, tag)
  {
    hide IsBlockCipher, B0, LengthPrefix, ZeroFilled, LastOfChain, Formatted, T, Streamed, IsUnderStream;
    hide IsFirstBlock, IsCounterBlock, CounterBlock;
    NonceLength(f);
    B0IsFirstBlock(f);
    CounterBlockIsFirst(f.nonce);
    FormattedIs(f, header, p);
    TIsStandard(cipher, f, header, p);
    StreamedIsUnder(stream, CounterBlock(f.nonce), 0, T(cipher, f, header, p)[..|tag|]);
    assert IsCcmWith(cipher, stream, f.digestSize, f.nonce, header, p, c, tag, CounterBlock(f.nonce), B0(f));
  }

  lemma NonceLength(f: Format)
    requires IsFormat(f)
    ensures 7 <= |f.nonce| <= 13
  {
  }

  // ---------- EAX ----------

  /** OMAC_t */
  function OmacOf(k: C.Keys, t: nat, m: seq<byte>): (mac: seq<byte>)
    requires C.AreKeys(k)
    ensures |mac| == k.cipher.size
  {
    LastOfChain(k.cipher, OmacInput(k, t, m))
  }

  /** Ciphertext and tag of the plaintext p: the keystream starts with the MAC of the nonce, which also goes into the
      tag, with the MACs of the header and of the ciphertext. */
  ghost predicate IsEax(k: C.Keys, stream: Stream, nonce: seq<byte>, header: seq<byte>, p: seq<byte>, c: seq<byte>,
                        tag: seq<byte>) {
    && C.AreSubkeys(k) && |tag| <= k.cipher.size && IsUnderStream(stream, OmacOf(k, 0, nonce), 0, p, c)
    && forall i {:trigger tag[i]} :: 0 <= i < |tag| ==>
         tag[i] == OmacOf(k, 0, nonce)[i] ^ OmacOf(k, 1, header)[i] ^ OmacOf(k, 2, c)[i]
  }

  lemma TagIsEax(k: C.Keys, stream: Stream, nonce: seq<byte>, header: seq<byte>, p: seq<byte>, c: seq<byte>,
                 tag: seq<byte>)
    requires C.AreSubkeys(k) && |tag| <= k.cipher.size
    requires IsUnderStream(stream, Omac(k, 0, nonce), 0, p, c)
    requires tag == EaxTag(k, nonce, header, c)[..|tag|]
    ensures IsEax(k, stream, nonce, header, p, c, tag)
  {
    hide C.AreSubkeys, LastOfChain, OmacInput, Omac, EaxTag, IsUnderStream;
    SubkeysAreKeys(k);
    OmacIsStandard(k, 0, nonce);
    SmallNumbers();
    forall i {:trigger tag[i]} | 0 <= i < |tag|
      ensures tag[i] == OmacOf(k, 0, nonce)[i] ^ OmacOf(k, 1, header)[i] ^ OmacOf(k, 2, c)[i]
    {
      EaxTagByte(k, nonce, header, c, i);
    }
  }

  lemma SubkeysAreKeys(k: C.Keys)
    requires C.AreSubkeys(k)
    ensures C.AreKeys(k)
  {
  }

  // ---------- what a run leaves ----------

  /** Whatever the pieces, output and tag are those of RFC 3610 or of EAX: encryption takes the plaintext in and gives
      the ciphertext out, decryption the other way round. */
  method RunByStandard(a: AuthenticatedCipher, iv: seq<byte>, headers: seq<seq<byte>>, texts: seq<seq<byte>>, size: nat)
    returns (status: Status, output: seq<byte>, tag: seq<byte>)
    requires a.Valid() && (a.kind == Eax ==> a.idle) && size <= a.cipher.size
    modifies a, a.buffer, a.second, a.mac, a.mac.reg
    ensures a.Valid() && a.mac.Subkeys() == old(a.mac.Subkeys())
    ensures status == Done <==> IsAdmissible(a.kind, iv, |Flat(headers)|, |Flat(texts)|)
    ensures var p, c := if a.forward then Flat(texts) else output, if a.forward then output else Flat(texts);
            status == Done ==>
              && |tag| == size
              && if a.kind == Ccm then IsCcm(a.cipher, a.stream, a.digestSize, iv, Flat(headers), p, c, tag)
                 else IsEax(a.mac.Subkeys(), a.stream, iv, Flat(headers), p, c, tag)
  {
    hide AuthenticatedCipher.Valid, IsTag, C.AreSubkeys, Flat, IsAdmissible, IsBlockCipher, Streamed;
    hide CounterBlock, Omac, C.AreKeys, IsUnderStream, IsCcm, IsEax;
    status, output, tag := Run(a, iv, headers, texts, size);
    if status == Done {
      SubkeysAreKeys(a.mac.Subkeys());
      RunIsStandard(a.kind, a.forward, a.mac.Subkeys(), a.stream, a.digestSize, iv, Flat(headers), Flat(texts), output,
                    size, tag);
    }
  }

  lemma RunIsStandard(kind: Kind, forward: bool, k: C.Keys, stream: Stream, digestSize: nat, iv: seq<byte>,
                      header: seq<byte>, input: seq<byte>, output: seq<byte>, size: nat, tag: seq<byte>)
    requires C.AreSubkeys(k) && (kind == Ccm ==> k.cipher.size == 16) && size <= k.cipher.size && C.AreKeys(k)
    requires output == Transformed(kind, k, stream, iv, input)
    requires IsTag(kind, k, stream, digestSize, iv, header, if (kind == Ccm) == forward then input else output, size,
                   tag)
    ensures |tag| == size
    ensures var p, c := if forward then input else output, if forward then output else input;
            if kind == Ccm then IsCcm(k.cipher, stream, digestSize, iv, header, p, c, tag)
            else IsEax(k, stream, iv, header, p, c, tag)
  {
    hide C.AreSubkeys, Omac, EaxTag, T, CounterBlock, IsUnderStream, IsCcm, IsEax, IsBlockCipher;
    var p, c := if forward then input else output, if forward then output else input;
    StreamedIsUnder(stream, SessionIv(kind, k, iv), SessionStart(kind), input);
    if !forward {
      UnderIsSymmetric(stream, SessionIv(kind, k, iv), SessionStart(kind), input, output);
    }
    if kind == Ccm {
      TagIsCcm(k.cipher, stream, Format(digestSize, iv, |header|, |p|), header, p, c, tag);
    } else {
      TagIsEax(k, stream, iv, header, p, c, tag);
    }
  }
}
