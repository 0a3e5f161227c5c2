/** Whole messages through an authenticated cipher, from Resynchronize to TruncatedFinal, however the header and the
    text are cut into calls. */
module AuthEncRuns {

  import opened AesBlock
  import opened AuthEnc
  import opened BlockCiphers
  import opened CcmMode
  import C = Cmacs
  import opened EaxMode
  import opened GcmBits
  import opened Numerals
  import opened Pieces

  // ---------- what a message is bound to come to ----------

  /** Nonce and lengths that no call refuses. */
  predicate IsAdmissible(kind: Kind, iv: seq<byte>, headerLength: nat, textLength: nat) {
    && headerLength < 0x1_0000_0000_0000_0000
    && if kind == Ccm then 7 <= |iv| <= 13 && textLength < Power256(15 - |iv|) else textLength < 0x1_0000_0000_0000_0000
  }

  /** Where the keystream starts. */
  function SessionIv(kind: Kind, k: C.Keys, iv: seq<byte>): seq<byte>
    requires C.AreKeys(k)
  {
    if kind == Ccm then CounterBlock(iv) else Omac(k, 0, iv)
  }

  function SessionStart(kind: Kind): nat { if kind == Ccm then 16 else 0 }

  function Transformed(kind: Kind, k: C.Keys, stream: (seq<byte>, nat) -> byte, iv: seq<byte>,
                       data: seq<byte>): (r: seq<byte>)
    requires C.AreKeys(k)
    ensures |r| == |data|
  {
    Streamed(stream, SessionIv(kind, k, iv), SessionStart(kind), data)
  }

  /** The tag of RFC 3610 over the plaintext for CCM, and of EAX over the ciphertext. */
  ghost predicate IsTag(kind: Kind, k: C.Keys, stream: (seq<byte>, nat) -> byte, digestSize: nat, iv: seq<byte>,
                        header: seq<byte>, text: seq<byte>, size: nat, tag: seq<byte>)
    requires C.AreKeys(k) && size <= k.cipher.size && (kind == Ccm ==> k.cipher.size == 16)
  {
    if kind == Ccm then
      var f := Format(digestSize, iv, |header|, |text|);
      IsFormat(f) && tag == Streamed(stream, CounterBlock(iv), 0, T(k.cipher, f, header, text)[..size])
    else
      tag == EaxTag(k, iv, header, text)[..size]
  }

  /** The subkeys are determined by the cipher. */
  lemma SubkeysAreUnique(k: C.Keys, l: C.Keys)
    requires C.AreSubkeys(k) && C.AreSubkeys(l) && k.cipher == l.cipher
    ensures C.AreKeys(k) && k == l
  {
    BitsOfIsInjective(k.k1, l.k1);
    BitsOfIsInjective(k.k2, l.k2);
  }

  // ---------- running a message through ----------

  method FeedHeader(a: AuthenticatedCipher, pieces: seq<seq<byte>>)
    requires a.Valid() && a.clean && a.state == IVSet
    modifies a`num, a`state, a`session, a`hooks, a`totalHeaderLength, a`totalFooterLength
    modifies a.buffer, a.second, a.mac, a.mac.reg
    ensures a.Valid() && a.state == IVSet && a.mac.Subkeys() == old(a.mac.Subkeys())
    ensures a.session == Fed(old(a.session), Header, Flat(pieces))
  {
    hide AuthenticatedCipher.Valid;
    var i := 0;
    assert a.session == Fed(a.session, Header, []);
    while i < |pieces|
      invariant 0 <= i <= |pieces| && a.Valid() && a.state == IVSet && a.mac.Subkeys() == old(a.mac.Subkeys())
      invariant a.session == Fed(old(a.session), Header, Flat(pieces[..i]))
    {
      var status := a.Update(pieces[i]);
      FlatStep(pieces, i);
      FedInTwo(old(a.session), Header, Flat(pieces[..i]), pieces[i]);
      i := i + 1;
    }
    assert pieces[..i] == pieces;
  }

  lemma FedInTwo(s: Session, phase: Phase, x: seq<byte>, y: seq<byte>)
    ensures Fed(Fed(s, phase, x), phase, y) == Fed(s, phase, x + y) && Fed(s, phase, []) == s
  {
    assert s.header + x + y == s.header + (x + y) && s.header + [] == s.header;
    assert s.text + x + y == s.text + (x + y) && s.text + [] == s.text;
    assert s.footer + x + y == s.footer + (x + y) && s.footer + [] == s.footer;
  }

  /** What a clean session that has not been finished knows of itself. */
  lemma Accounts(a: AuthenticatedCipher)
    requires a.Valid() && a.clean
    ensures a.state != KeySet && a.totalMessageLength == |a.consumed| && a.totalHeaderLength == |a.session.header|
    ensures a.totalFooterLength == |a.session.footer|
    ensures a.state == IVSet ==> a.consumed == [] && a.produced == []
    ensures a.kind == Ccm && a.state != IVSet ==> a.aadLength == |a.session.header|
    ensures a.kind == Ccm && a.state == IVSet ==> 7 <= |a.session.nonce| <= 13 && a.L == 15 - |a.session.nonce|
  {
    hide AuthenticatedCipher.Parts, AuthenticatedCipher.Follows;
  }

  /** What is authenticated of the data: itself, or what it was transformed to. */
  function Chosen(input: bool, data: seq<byte>, output: seq<byte>): seq<byte> {
    if input then data else output
  }

  /** One more piece. */
  lemma FeedStep(s: Session, input: bool, pieces: seq<seq<byte>>, i: nat, output: seq<byte>, part: seq<byte>)
    requires i < |pieces|
    ensures Flat(pieces[..i + 1]) == Flat(pieces[..i]) + pieces[i] && |Flat(pieces[..i + 1])| <= |Flat(pieces)|
    ensures Fed(Fed(s, Confidential, Chosen(input, Flat(pieces[..i]), output)), Confidential,
                Chosen(input, pieces[i], part))
            == Fed(s, Confidential, Chosen(input, Flat(pieces[..i + 1]), output + part))
  {
    FlatStep(pieces, i);
    FlatLonger(pieces, i + 1);
    hide Flat, Fed;
    FedInTwo(s, Confidential, Chosen(input, Flat(pieces[..i]), output), Chosen(input, pieces[i], part));
  }

  lemma NoPieces(s: Session, input: bool)
    ensures Flat<byte>([]) == [] && Fed(s, Confidential, Chosen(input, Flat([]), [])) == s
  {
    FedInTwo(s, Confidential, [], []);
  }

  method FeedText(a: AuthenticatedCipher, pieces: seq<seq<byte>>) returns (status: Status, output: seq<byte>)
    requires a.Valid() && a.clean && a.state == IVSet
    modifies a`num, a`state, a`session, a`hooks, a`ctrPos, a`consumed, a`produced, a`totalMessageLength, a`clean
    modifies a.buffer, a.second, a.mac, a.mac.reg
    ensures a.Valid() && a.mac.Subkeys() == old(a.mac.Subkeys())
    ensures status == Done ==> a.clean && a.state in {IVSet, AuthUntransformed, AuthTransformed}
    ensures status == Done ==>
      a.consumed == Flat(pieces) && a.produced == output && |Flat(pieces)| <= a.MaxMessageLength()
    ensures status == Done ==>
      a.session == Fed(old(a.session), Confidential, Chosen(a.AuthenticatesInput(), Flat(pieces), output))
    ensures status != Done ==>
      |Flat(pieces)| > a.MaxMessageLength() || (a.kind == Ccm && a.aadLength != a.totalHeaderLength)
  {
    hide AuthenticatedCipher.Valid, AuthenticatedCipher.MaxMessageLength, AuthenticatedCipher.AuthenticatesInput;
    hide Streamed, Fed, Flat;
    var i := 0;
    status, output := Done, [];
    Accounts(a);
    NoPieces(a.session, a.AuthenticatesInput());
    while i < |pieces|
      invariant 0 <= i <= |pieces| && a.Valid() && a.clean && a.mac.Subkeys() == old(a.mac.Subkeys())
      invariant a.state in {IVSet, AuthUntransformed, AuthTransformed} && status == Done
      invariant a.consumed == Flat(pieces[..i]) && a.produced == output && |a.consumed| <= a.MaxMessageLength()
      invariant a.session
                == Fed(old(a.session), Confidential, Chosen(a.AuthenticatesInput(), Flat(pieces[..i]), output))
    {
      var part;
      Accounts(a);
      status, part := a.ProcessData(pieces[i]);
      FeedStep(old(a.session), a.AuthenticatesInput(), pieces, i, output, part);
      if status != Done {
        return status, [];
      }
      output := output + part;
      i := i + 1;
    }
    assert pieces[..i] == pieces;
  }

  // ---------- whole messages ----------

  /** A new message: the nonce, and for CCM the lengths. */
  method Open(a: AuthenticatedCipher, iv: seq<byte>, headerLength: nat, textLength: nat) returns (status: Status)
    requires a.Valid() && (a.kind == Eax ==> a.idle)
    modifies a, a.buffer, a.second, a.mac, a.mac.reg
    ensures a.Valid() && a.mac.Subkeys() == old(a.mac.Subkeys())
    ensures status == Done ==> a.clean && a.state == IVSet && a.session == Session(iv, [], [], [], [])
    ensures status == Done && a.kind == Ccm ==>
      a.specified && a.aadLength == headerLength && a.messageLength == textLength
    ensures status == Done && a.kind == Ccm ==> a.L == 15 - |iv|
    ensures status == Done <==> a.kind == Ccm ==> IsAdmissible(a.kind, iv, headerLength, textLength)
  {
    hide AuthenticatedCipher.Valid;
    if a.kind == Eax {
      IdleIsEmpty(a);
    }
    status := a.Resynchronize(iv);
    if status == Done && a.kind == Ccm {
      Accounts(a);
      EightBytes();
      status := a.SpecifyDataLengths(headerLength, textLength, 0);
    }
  }

  lemma IdleIsEmpty(a: AuthenticatedCipher)
    requires a.Valid() && a.kind == Eax
    ensures a.idle <==> a.mac.message == []
  {
  }

  lemma Keystream(a: AuthenticatedCipher)
    requires a.Valid() && a.clean && (a.kind == Eax ==> a.session.dirt == [])
    ensures C.AreSubkeys(a.mac.Subkeys()) && a.mac.cipher == a.cipher
    ensures a.produced == Transformed(a.kind, a.mac.Subkeys(), a.stream, a.session.nonce, a.consumed)
  {
    hide AuthenticatedCipher.Follows, Streamed, C.Mac;
    assert [] + Tweak(a.cipher.size, 0) == Tweak(a.cipher.size, 0);
  }

  lemma TagOfSession(a: AuthenticatedCipher, s: Session, size: nat, tag: seq<byte>)
    requires a.Shape() && size <= a.cipher.size && a.IsSessionTag(s, size, tag) && (a.kind == Eax ==> s.dirt == [])
    requires a.kind == Ccm ==> a.specified
    ensures C.AreKeys(a.mac.Subkeys()) && a.mac.cipher == a.cipher && (a.kind == Ccm ==> a.cipher.size == 16)
    ensures IsTag(a.kind, a.mac.Subkeys(), a.stream, a.digestSize, s.nonce, s.header, s.text, size, tag)
  {
    hide DirtyTag, EaxTag, Streamed, T;
    CleanTag(a.mac.Subkeys(), s.nonce, s.header, s.text);
  }

  method Finish(a: AuthenticatedCipher, size: nat) returns (status: Status, tag: seq<byte>)
    requires a.Valid() && a.clean && a.state in {IVSet, AuthUntransformed, AuthTransformed} && size <= a.cipher.size
    requires a.session.footer == [] && (a.kind == Ccm ==> a.specified) && (a.kind == Eax ==> a.session.dirt == [])
    modifies a`num, a`hooks, a`ctrPos, a`state, a`idle, a`clean, a.buffer, a.second, a.mac, a.mac.reg
    ensures a.Valid() && a.mac.Subkeys() == old(a.mac.Subkeys())
    ensures C.AreSubkeys(a.mac.Subkeys()) && a.mac.cipher == a.cipher && (a.kind == Ccm ==> a.cipher.size == 16)
    ensures status == Done <==> |a.session.header| < 0x1_0000_0000_0000_0000
                                && (a.kind == Ccm ==>
                                      a.aadLength == |a.session.header| && a.messageLength == |a.consumed|)
    ensures status == Done ==> IsTag(a.kind, a.mac.Subkeys(), a.stream, a.digestSize, a.session.nonce, a.session.header,
                                     a.session.text, size, tag)
    ensures status == Done ==> a.idle
  {
    hide AuthenticatedCipher.Valid, AuthenticatedCipher.IsSessionTag, IsTag, Transformed, C.AreSubkeys;
    Keystream(a);
    Accounts(a);
    status, tag := a.TruncatedFinal(size);
    PartsOfValid(a);
    if status == Done {
      TagOfSession(a, a.session, size, tag);
    }
  }

  lemma WholeSession(iv: seq<byte>, header: seq<byte>, text: seq<byte>)
    ensures Fed(Fed(Session(iv, [], [], [], []), Header, header), Confidential, text)
            == Session(iv, [], header, text, [])
  {
    assert [] + header == header && [] + text == text;
  }

  /** Header and text of an opened message. */
  method Feed(a: AuthenticatedCipher, iv: seq<byte>, headers: seq<seq<byte>>, texts: seq<seq<byte>>)
    returns (status: Status, output: seq<byte>)
    requires a.Valid() && a.clean && a.state == IVSet && a.session == Session(iv, [], [], [], [])
    requires a.kind == Ccm ==> a.aadLength == |Flat(headers)|
    modifies a`num, a`state, a`session, a`hooks, a`totalHeaderLength, a`totalFooterLength
    modifies a`ctrPos, a`consumed, a`produced, a`totalMessageLength, a`clean
    modifies a.buffer, a.second, a.mac, a.mac.reg
    ensures a.Valid() && a.mac.Subkeys() == old(a.mac.Subkeys())
    ensures status == Done <==> |Flat(texts)| <= a.MaxMessageLength()
    ensures status == Done ==> a.clean && a.state in {IVSet, AuthUntransformed, AuthTransformed}
    ensures status == Done ==> a.consumed == Flat(texts) && a.produced == output
    ensures status == Done ==>
      a.session == Session(iv, [], Flat(headers), Chosen(a.AuthenticatesInput(), Flat(texts), output), [])
  {
    hide AuthenticatedCipher.Valid, AuthenticatedCipher.MaxMessageLength, Fed;
    FeedHeader(a, headers);
    Accounts(a);
    assert a.session.header == Flat(headers) by {
      WholeSession(iv, Flat(headers), []);
      FedInTwo(a.session, Confidential, [], []);
    }
    status, output := FeedText(a, texts);
    WholeSession(iv, Flat(headers), Chosen(a.AuthenticatesInput(), Flat(texts), output));
  }

  lemma Admits(a: AuthenticatedCipher, iv: seq<byte>, headerLength: nat, textLength: nat)
    requires a.kind == Ccm ==> a.L == 15 - |iv| && IsAdmissible(a.kind, iv, headerLength, textLength)
    ensures IsAdmissible(a.kind, iv, headerLength, textLength)
            <==> headerLength < 0x1_0000_0000_0000_0000 && textLength <= a.MaxMessageLength()
  {
    EightBytes();
  }

  /** What is left to do once a message is opened. */
  method RunOpened(a: AuthenticatedCipher, iv: seq<byte>, headers: seq<seq<byte>>, texts: seq<seq<byte>>, size: nat)
    returns (status: Status, output: seq<byte>, tag: seq<byte>)
    requires a.Valid() && a.clean && a.state == IVSet && a.session == Session(iv, [], [], [], [])
    requires a.kind == Ccm ==> a.specified && a.aadLength == |Flat(headers)| && a.messageLength == |Flat(texts)|
    requires size <= a.cipher.size
    modifies a, a.buffer, a.second, a.mac, a.mac.reg
    ensures a.Valid() && a.mac.Subkeys() == old(a.mac.Subkeys())
    ensures C.AreSubkeys(a.mac.Subkeys()) && a.mac.cipher == a.cipher && (a.kind == Ccm ==> a.cipher.size == 16)
    ensures status == Done <==> |Flat(headers)| < 0x1_0000_0000_0000_0000 && |Flat(texts)| <= old(a.MaxMessageLength())
    ensures status == Done ==> output == Transformed(a.kind, a.mac.Subkeys(), a.stream, iv, Flat(texts))
    ensures status == Done ==>
      IsTag(a.kind, a.mac.Subkeys(), a.stream, a.digestSize, iv, Flat(headers),
            Chosen(a.AuthenticatesInput(), Flat(texts), output), size, tag)
    ensures status == Done ==> a.idle
  {
    hide AuthenticatedCipher.Valid, AuthenticatedCipher.MaxMessageLength, AuthenticatedCipher.AuthenticatesInput;
    hide IsTag, Transformed, C.AreSubkeys, C.AreKeys, C.IsSupported, Flat, Chosen;
    tag := [];
    status, output := Feed(a, iv, headers, texts);
    PartsOfValid(a);
    if status == Done {
      Keystream(a);
      status, tag := Finish(a, size);
    }
  }

  /** A whole message in any pieces: no call fails exactly when the nonce and the lengths are admissible, and then the
      output and the tag depend only on the nonce, the header and the text. */
  method Run(a: AuthenticatedCipher, iv: seq<byte>, headers: seq<seq<byte>>, texts: seq<seq<byte>>, size: nat)
    returns (status: Status, output: seq<byte>, tag: seq<byte>)
    requires a.Valid() && (a.kind == Eax ==> a.idle) && size <= a.cipher.size
    modifies a, a.buffer, a.second, a.mac, a.mac.reg
    ensures a.Valid() && a.mac.Subkeys() == old(a.mac.Subkeys())
    ensures C.AreSubkeys(a.mac.Subkeys()) && a.mac.cipher == a.cipher && (a.kind == Ccm ==> a.cipher.size == 16)
    ensures status == Done <==> IsAdmissible(a.kind, iv, |Flat(headers)|, |Flat(texts)|)
    ensures status == Done ==> output == Transformed(a.kind, a.mac.Subkeys(), a.stream, iv, Flat(texts))
    ensures status == Done ==>
      IsTag(a.kind, a.mac.Subkeys(), a.stream, a.digestSize, iv, Flat(headers),
            Chosen(a.AuthenticatesInput(), Flat(texts), output), size, tag)
    ensures status == Done ==> a.idle
  {
    hide AuthenticatedCipher.Valid, AuthenticatedCipher.MaxMessageLength, AuthenticatedCipher.AuthenticatesInput;
    hide IsTag, Transformed, C.AreSubkeys, C.AreKeys, C.IsSupported, Flat, Chosen, IsAdmissible;
    output, tag := [], [];
    PartsOfValid(a);
    status := Open(a, iv, |Flat(headers)|, |Flat(texts)|);
    if status == Done {
      Admits(a, iv, |Flat(headers)|, |Flat(texts)|);
      status, output, tag := RunOpened(a, iv, headers, texts, size);
    }
    PartsOfValid(a);
  }

  lemma PartsOfValid(a: AuthenticatedCipher)
    requires a.Valid()
    ensures a.Shape() && C.AreSubkeys(a.mac.Subkeys()) && a.mac.cipher == a.cipher
    ensures a.kind == Ccm ==> a.cipher.size == 16
  {
  }

  lemma TransformedTwice(kind: Kind, k: C.Keys, stream: (seq<byte>, nat) -> byte, iv: seq<byte>, data: seq<byte>)
    requires C.AreKeys(k)
    ensures Transformed(kind, k, stream, iv, Transformed(kind, k, stream, iv, data)) == data
  {
    StreamedTwice(stream, SessionIv(kind, k, iv), SessionStart(kind), data);
  }

  lemma TagIsUnique(kind: Kind, k: C.Keys, stream: (seq<byte>, nat) -> byte, digestSize: nat, iv: seq<byte>,
                    header: seq<byte>, text: seq<byte>, size: nat, tag: seq<byte>, other: seq<byte>)
    requires C.AreKeys(k) && size <= k.cipher.size && (kind == Ccm ==> k.cipher.size == 16)
    requires IsTag(kind, k, stream, digestSize, iv, header, text, size, tag)
    requires IsTag(kind, k, stream, digestSize, iv, header, text, size, other)
    ensures tag == other
  {
  }

  /** Decryption returns the text and computes the same tag, however header, text and ciphertext were cut. */
  method ThereAndBack(kind: Kind, cipher: BlockCipher, stream: (seq<byte>, nat) -> byte, digestSize: nat, iv: seq<byte>,
                      headers: seq<seq<byte>>, texts: seq<seq<byte>>, headerCuts: seq<nat>, textCuts: seq<nat>,
                      size: nat)
    returns (status: Status, sealed: seq<byte>, tag: seq<byte>, plain: seq<byte>, check: seq<byte>)
    requires IsBlockCipher(cipher) && C.IsSupported(cipher.size) && size <= cipher.size
    requires kind == Ccm ==> cipher.size == 16 && 4 <= digestSize <= 16 && digestSize % 2 == 0
    ensures status == Done <==> IsAdmissible(kind, iv, |Flat(headers)|, |Flat(texts)|)
    ensures status == Done ==> plain == Flat(texts) && check == tag && |sealed| == |plain|
  {
    hide AuthenticatedCipher.Valid, IsTag, Transformed, C.AreSubkeys, Flat, IsAdmissible, IsBlockCipher;
    plain, check := [], [];
    var encryptor := new AuthenticatedCipher(kind, true, cipher, stream, digestSize);
    status, sealed, tag := Run(encryptor, iv, headers, texts, size);
    if status == Done {
      var decryptor := new AuthenticatedCipher(kind, false, cipher, stream, digestSize);
      FlatOfCut(Flat(headers), headerCuts);
      FlatOfCut(sealed, textCuts);
      status, plain, check := Run(decryptor, iv, Cut(Flat(headers), headerCuts), Cut(sealed, textCuts), size);
      SubkeysAreUnique(encryptor.mac.Subkeys(), decryptor.mac.Subkeys());
      TransformedTwice(kind, encryptor.mac.Subkeys(), stream, iv, Flat(texts));
      TagIsUnique(kind, encryptor.mac.Subkeys(), stream, digestSize, iv, Flat(headers),
                  if kind == Ccm then Flat(texts) else sealed, size, tag, check);
    }
  }
}
