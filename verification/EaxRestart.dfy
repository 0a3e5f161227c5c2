/** EAX resynchronized in the middle of a message: the tag of the next one, in the caller's terms. */
module EaxRestarts {

  import opened AesBlock
  import opened AuthEnc
  import opened AuthEncRuns
  import opened BlockCiphers
  import C = Cmacs
  import opened Numerals
  import opened EaxLeftovers
  import opened EaxMode
  import opened InvertibleCiphers
  import opened XorBuffers

  /** The tag of whatever message comes next is sure to be the EAX tag exactly when a key has just been set or the last
      TruncatedFinal returned Done. */
  lemma SureExactlyWhenIdle(a: AuthenticatedCipher)
    requires a.Valid() && a.kind == Eax && 2 * (|a.mac.message| / a.cipher.size) <= Power256(a.cipher.size)
    ensures AlwaysEax(a.cipher.size, a.mac.message) <==> a.idle
  {
    hide AuthenticatedCipher.Valid, AlwaysEax, Power256;
    PartsOfValid(a);
    IdleIsEmpty(a);
    AlwaysEaxIffClean(a.cipher.size, a.mac.message);
  }

  lemma HeldInHeader(a: AuthenticatedCipher)
    requires a.Valid() && a.clean && a.kind == Eax && a.state == IVSet
    ensures a.cipher.size > 0 && a.mac.message == Tweak(a.cipher.size, 1) + a.session.header
  {
  }

  lemma TagIsDirtyTag(a: AuthenticatedCipher, s: Session, tag: seq<byte>)
    requires a.Shape() && a.kind == Eax && a.IsSessionTag(s, a.cipher.size, tag) && s.header == s.text == []
    ensures C.AreSubkeys(KeysOf(a.cipher)) && C.AreKeys(KeysOf(a.cipher))
    ensures tag == DirtyTag(KeysOf(a.cipher), s.dirt, s.nonce, [], [])
  {
    hide DirtyTag, KeysOf;
    KeysOfAreSubkeys(a.cipher);
    SubkeysAreUnique(a.mac.Subkeys(), KeysOf(a.cipher));
  }

  /** A message is abandoned after its header, and the next one, empty, goes through: its tag, and when that is the tag
      of EAX. */
  method Interrupted(cipher: BlockCipher, stream: (seq<byte>, nat) -> byte, abandoned: seq<byte>, header: seq<byte>,
                     nonce: seq<byte>) returns (tag: seq<byte>)
    requires IsBlockCipher(cipher) && C.IsSupported(cipher.size)
    ensures C.AreSubkeys(KeysOf(cipher)) && C.AreKeys(KeysOf(cipher))
    ensures tag == DirtyTag(KeysOf(cipher), Tweak(cipher.size, 1) + header, nonce, [], [])
    ensures IsInvertible(cipher) && |header| % cipher.size == 0 ==>
      (tag == EaxTag(KeysOf(cipher), nonce, [], [])
       <==> Chained(cipher, Zeroes(cipher.size), Tweak(cipher.size, 1) + header) == Zeroes(cipher.size))
  {
    hide AuthenticatedCipher.Valid, AuthenticatedCipher.IsSessionTag;
    hide C.AreSubkeys, C.AreKeys, IsBlockCipher, IsInvertible, Chained, DirtyTag, EaxTag, Tweak, KeysOf;
    var a := new AuthenticatedCipher(Eax, true, cipher, stream, 0);
    var status := a.Resynchronize(abandoned);
    Accounts(a);
    status := a.Update(header);
    HeldInHeader(a);
    assert [] + header == header;
    status := a.Resynchronize(nonce);
    Accounts(a);
    status, tag := a.TruncatedFinal(cipher.size);
    PartsOfValid(a);
    TagIsDirtyTag(a, a.session, tag);
    if IsInvertible(cipher) && |header| % cipher.size == 0 {
      WholeHeaderShows(cipher, header, nonce);
    }
  }

  lemma WholeHeaderShows(cipher: BlockCipher, header: seq<byte>, nonce: seq<byte>)
    requires IsInvertible(cipher) && C.IsSupported(cipher.size) && |header| % cipher.size == 0
    ensures IsBlockCipher(cipher) && C.AreKeys(KeysOf(cipher))
    ensures DirtyTag(KeysOf(cipher), Tweak(cipher.size, 1) + header, nonce, [], [])
            == EaxTag(KeysOf(cipher), nonce, [], [])
            <==> Chained(cipher, Zeroes(cipher.size), Tweak(cipher.size, 1) + header) == Zeroes(cipher.size)
  {
    hide C.AreSubkeys, IsInvertible, Chained, DirtyTag, EaxTag, Tweak, KeysOf;
    InvertibleIsCipher(cipher);
    KeysOfAreSubkeys(cipher);
    SubkeysAreKeys(KeysOf(cipher));
    OneBlockLess(cipher.size + |header|, cipher.size);
    WholeBlocksShow(KeysOf(cipher), Tweak(cipher.size, 1) + header, nonce, [], []);
  }

  lemma IdentityKeepsTweak(n: nat)
    requires n > 0
    ensures IsInvertible(Identity(n)) && IsBlockCipher(Identity(n))
    ensures Chained(Identity(n), Zeroes(n), Tweak(n, 1) + []) == Tweak(n, 1) != Zeroes(n)
  {
    IdentityIsInvertible(n);
    assert Tweak(n, 1) + [] == Tweak(n, 1);
    OneBlock(Identity(n), Zeroes(n), Tweak(n, 1));
    XorBytesTwice(Zeroes(n), Tweak(n, 1));
    AddZeroes(Tweak(n, 1));
    assert Tweak(n, 1)[n - 1] == 1;
  }

  /** An input that fails: with the identity, two calls of Resynchronize are enough. */
  method ResynchronizedTwice(n: nat, stream: (seq<byte>, nat) -> byte, abandoned: seq<byte>, nonce: seq<byte>)
    returns (tag: seq<byte>)
    requires C.IsSupported(n)
    ensures IsBlockCipher(Identity(n)) && C.AreKeys(KeysOf(Identity(n)))
    ensures tag != EaxTag(KeysOf(Identity(n)), nonce, [], [])
  {
    hide Chained, DirtyTag, EaxTag, Tweak, KeysOf, C.AreKeys, C.AreSubkeys;
    IdentityKeepsTweak(n);
    OneBlockLess(n, n);
    tag := Interrupted(Identity(n), stream, abandoned, [], nonce);
  }
}
