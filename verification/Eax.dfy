/** EAX of eax.cpp: the tag as an exclusive-or of three CMACs, each with its own tweak block. */
module EaxMode {

  import opened AesBlock
  import opened BlockCiphers
  import opened Cmacs
  import opened XorBuffers

  /** [t]_n: a block of zeros that ends in t. */
  function Tweak(n: nat, t: byte): (b: seq<byte>)
    requires n > 0
    ensures |b| == n
  {
    Zeroes(n - 1) + [t]
  }

  function Omac(k: Keys, t: byte, m: seq<byte>): (mac: seq<byte>)
    requires AreKeys(k)
    ensures |mac| == k.cipher.size
  {
    Mac(k, Tweak(k.cipher.size, t) + m)
  }

  /** The tag before truncation. */
  function EaxTag(k: Keys, nonce: seq<byte>, header: seq<byte>, ciphertext: seq<byte>): (tag: seq<byte>)
    requires AreKeys(k)
    ensures |tag| == k.cipher.size
  {
    XorBytes(XorBytes(Omac(k, 0, nonce), Omac(k, 1, header)), Omac(k, 2, ciphertext))
  }

  /** The tag when the MAC object held the bytes dirt before the nonce was fed in. */
  function DirtyTag(k: Keys, dirt: seq<byte>, nonce: seq<byte>, header: seq<byte>,
                    ciphertext: seq<byte>): (tag: seq<byte>)
    requires AreKeys(k)
    ensures |tag| == k.cipher.size
  {
    XorBytes(XorBytes(Mac(k, dirt + Tweak(k.cipher.size, 0) + nonce), Omac(k, 1, header)), Omac(k, 2, ciphertext))
  }

  /** A clean MAC object gives the EAX tag. */
  lemma CleanTag(k: Keys, nonce: seq<byte>, header: seq<byte>, ciphertext: seq<byte>)
    requires AreKeys(k)
    ensures DirtyTag(k, [], nonce, header, ciphertext) == EaxTag(k, nonce, header, ciphertext)
  {
    hide Mac;
    assert [] + Tweak(k.cipher.size, 0) + nonce == Tweak(k.cipher.size, 0) + nonce;
  }
}
