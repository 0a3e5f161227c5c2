/** AuthenticatedSymmetricCipherBase of authenc.cpp, with the hooks that CCM (ccm.cpp) and EAX (eax.cpp) override
    chosen by the kind of the object. */
module AuthEnc {

  import opened AesBlock
  import opened BlockCiphers
  import opened Buffers
  import opened CbcMacs
  import opened CcmMode
  import C = Cmacs
  import opened EaxMode
  import opened GcmBits
  import opened Numerals
  import opened XorBuffers

  datatype Kind = Ccm | Eax

  datatype Status = Done | BadState | InvalidArgument

  /** State_Start is the state before a key is set, which no constructed object is in. */
  datatype State = KeySet | IVSet | AuthUntransformed | AuthTransformed | AuthFooter

  /** The three stretches of data between Resynchronize and TruncatedFinal. */
  datatype Phase = Header | Confidential | Footer

  /** The virtual calls that close the stretches. */
  datatype Hook = LastHeaderBlock | LastConfidentialBlock | LastFooterBlock

  /** What has been fed in since Resynchronize: dirt is what the MAC object of EAX held then, and text is the
      data that is authenticated as the message. */
  datatype Session = Session(nonce: seq<byte>, dirt: seq<byte>, header: seq<byte>, text: seq<byte>, footer: seq<byte>)

  function Fed(s: Session, phase: Phase, data: seq<byte>): Session {
    match phase
    case Header => s.(header := s.header + data)
    case Confidential => s.(text := s.text + data)
    case Footer => s.(footer := s.footer + data)
  }

  // ---------- what the authenticator holds in each stretch ----------

  /** The register of CCM at the start of a stretch. */
  function CcmStart(c: BlockCipher, f: Format, s: Session, phase: Phase): (x: seq<byte>)
    requires IsBlockCipher(c) && c.size == 16 && IsFormat(f)
    ensures |x| == 16
  {
    match phase
    case Header => Opening(c, f)
    case Confidential => AfterHeader(c, f, s.header)
    case Footer => T(c, f, s.header, s.text)
  }

  /** What is chained onto it. */
  function CcmData(f: Format, s: Session, phase: Phase): seq<byte> {
    match phase
    case Header => LengthPrefix(f.headerLength) + s.header
    case Confidential => s.text
    case Footer => s.footer
  }

  ghost predicate CcmFollows(c: BlockCipher, f: Format, s: Session, phase: Phase, cbc: seq<byte>, buffered: seq<byte>) {
    && IsBlockCipher(c) && c.size == 16 && IsFormat(f)
    && Buffered(c, CcmStart(c, f, s, phase), CcmData(f, s, phase), cbc, buffered)
  }

  /** The message in the MAC object, and the mask the tag will be exclusive-ored with. */
  ghost predicate EaxFollows(k: C.Keys, s: Session, phase: Phase, message: seq<byte>, mask: seq<byte>) {
    && C.AreKeys(k) && k.cipher.size > 0
    && var n := k.cipher.size;
       var nonceMac := C.Mac(k, s.dirt + Tweak(n, 0) + s.nonce);
       match phase
       case Header => message == Tweak(n, 1) + s.header && mask == nonceMac
       case Confidential => message == Tweak(n, 2) + s.text && mask == XorBytes(nonceMac, Omac(k, 1, s.header))
       case Footer => message == Tweak(n, 2) + s.text + s.footer && mask == XorBytes(nonceMac, Omac(k, 1, s.header))
  }

  lemma CcmFed(c: BlockCipher, f: Format, s: Session, phase: Phase, cbc: seq<byte>, buffered: seq<byte>,
               more: seq<byte>)
    requires CcmFollows(c, f, s, phase, cbc, buffered)
    ensures IsBlockCipher(c) && |cbc| == c.size && c.size > 0
    ensures CcmFollows(c, f, Fed(s, phase, more), phase, Chained(c, cbc, buffered + more),
                       Leftover(c.size, buffered + more))
  {
    hide IsBlockCipher, Buffered, Chained, Leftover, IsFormat, CcmStart, CcmData;
    SameStart(c, f, s, phase, more);
    MoreData(f, s, phase, more);
    BufferedMore(c, CcmStart(c, f, s, phase), CcmData(f, s, phase), cbc, buffered, more);
  }

  lemma SameStart(c: BlockCipher, f: Format, s: Session, phase: Phase, more: seq<byte>)
    requires IsBlockCipher(c) && c.size == 16 && IsFormat(f)
    ensures CcmStart(c, f, Fed(s, phase, more), phase) == CcmStart(c, f, s, phase)
  {
    hide IsBlockCipher, Opening, AfterHeader, T;
  }

  lemma MoreData(f: Format, s: Session, phase: Phase, more: seq<byte>)
    ensures CcmData(f, Fed(s, phase, more), phase) == CcmData(f, s, phase) + more
  {
    hide LengthPrefix;
    match phase
    case Header =>
      assert (LengthPrefix(f.headerLength) + s.header) + more == LengthPrefix(f.headerLength) + (s.header + more);
    case Confidential =>
    case Footer =>
  }

  lemma EaxFed(k: C.Keys, s: Session, phase: Phase, message: seq<byte>, mask: seq<byte>, more: seq<byte>)
    requires EaxFollows(k, s, phase, message, mask)
    ensures EaxFollows(k, Fed(s, phase, more), phase, message + more, mask)
  {
    hide C.Mac, C.AreKeys, Omac, Tweak;
    var n := k.cipher.size;
    match phase
    case Header => assert (Tweak(n, 1) + s.header) + more == Tweak(n, 1) + (s.header + more);
    case Confidential => assert (Tweak(n, 2) + s.text) + more == Tweak(n, 2) + (s.text + more);
    case Footer => assert (Tweak(n, 2) + s.text + s.footer) + more == Tweak(n, 2) + s.text + (s.footer + more);
  }

  lemma CcmHeaderEnds(c: BlockCipher, f: Format, s: Session, cbc: seq<byte>, buffered: seq<byte>)
    requires CcmFollows(c, f, s, Header, cbc, buffered) && s.text == []
    ensures |cbc| == c.size && |buffered| < c.size
    ensures CcmFollows(c, f, s, Confidential, if buffered == [] then cbc else c.process(HeldIn(cbc, buffered)), [])
  {
    hide IsBlockCipher, Buffered, IsFormat, HeldIn, CbcMac;
    BufferedLast(c, Opening(c, f), LengthPrefix(f.headerLength) + s.header, cbc, buffered);
    BufferedNothing(c, AfterHeader(c, f, s.header));
  }

  lemma CcmTextEnds(c: BlockCipher, f: Format, s: Session, cbc: seq<byte>, buffered: seq<byte>)
    requires CcmFollows(c, f, s, Confidential, cbc, buffered) && s.footer == []
    ensures |cbc| == c.size && |buffered| < c.size
    ensures CcmFollows(c, f, s, Footer, if buffered == [] then cbc else c.process(HeldIn(cbc, buffered)), [])
  {
    hide IsBlockCipher, Buffered, IsFormat, HeldIn, CbcMac, T;
    BufferedLast(c, AfterHeader(c, f, s.header), s.text, cbc, buffered);
    PartsAreT(c, f, s.header, s.text);
    BufferedNothing(c, T(c, f, s.header, s.text));
  }

  // ---------- the data buffer ----------

  /** The first counter block of CCM: a flag byte, the nonce and a zero counter. */
  function CounterBlock(nonce: seq<byte>): seq<byte> {
    if |nonce| <= 13 then [(14 - |nonce|) as byte] + nonce + Zeroes(15 - |nonce|) else []
  }

  /** The keystream from a position on, exclusive-ored over data. */
  function Streamed(stream: (seq<byte>, nat) -> byte, iv: seq<byte>, at: nat, data: seq<byte>): (r: seq<byte>)
    ensures |r| == |data|
  {
    seq(|data|, i requires 0 <= i < |data| => Add(data[i], stream(iv, at + i)))
  }

  lemma StreamedInTwo(stream: (seq<byte>, nat) -> byte, iv: seq<byte>, at: nat, a: seq<byte>, b: seq<byte>)
    ensures Streamed(stream, iv, at, a + b) == Streamed(stream, iv, at, a) + Streamed(stream, iv, at + |a|, b)
  {
    hide Add;
  }

  lemma StreamedTwice(stream: (seq<byte>, nat) -> byte, iv: seq<byte>, at: nat, data: seq<byte>)
    ensures Streamed(stream, iv, at, Streamed(stream, iv, at, data)) == data
  {
    forall i | 0 <= i < |data| ensures Add(Add(data[i], stream(iv, at + i)), stream(iv, at + i)) == data[i] {
      AddCancels(data[i], stream(iv, at + i));
    }
    hide Add;
  }

  /** Filling up a partly filled block and chaining it is chaining the two pieces together. */
  lemma FilledBlock(c: BlockCipher, cbc: seq<byte>, held: seq<byte>, input: seq<byte>)
    requires IsBlockCipher(c) && |cbc| == c.size && |held| <= c.size <= |held| + |input|
    ensures var block := held + input[..c.size - |held|];
            && |block| == c.size && |Step(c, cbc, block)| == c.size && Chained(c, cbc, block) == Step(c, cbc, block)
            && Chained(c, cbc, held + input) == Chained(c, Step(c, cbc, block), input[c.size - |held|..])
            && Leftover(c.size, held + input) == Leftover(c.size, input[c.size - |held|..])
  {
    hide IsBlockCipher, Step;
    BlockSizePositive(c);
    var n := c.size - |held|;
    var block := held + input[..n];
    StepLength(c, cbc, block);
    assert (held + input)[..c.size] == block && (held + input)[c.size..] == input[n..];
    assert block[..c.size] == block && block[c.size..] == [];
  }

  lemma NotFilled(c: BlockCipher, cbc: seq<byte>, data: seq<byte>)
    requires IsBlockCipher(c) && |cbc| == c.size && |data| < c.size
    ensures Chained(c, cbc, data) == cbc && Leftover(c.size, data) == data
  {
  }

  class AuthenticatedCipher {
    const kind: Kind
    const forward: bool
    const cipher: BlockCipher
    const stream: (seq<byte>, nat) -> byte
    const digestSize: nat
    const buffer: array<byte>
    const second: array<byte>
    /** The MAC object of EAX. */
    const mac: C.CmacState
    var state: State
    var num: nat
    var totalHeaderLength: nat
    var totalMessageLength: nat
    var totalFooterLength: nat
    var L: nat
    var aadLength: nat
    var messageLength: nat
    var ctrIv: seq<byte>
    var ctrPos: nat

    /** A key has just been set, or the last TruncatedFinal returned Done. */
    ghost var idle: bool
    /** No call has failed half-way since Resynchronize. */
    ghost var clean: bool
    /** The lengths have been declared since Resynchronize; CCM promises nothing before that. */
    ghost var specified: bool
    /** They were declared when the nonce was no longer in the buffer. */
    ghost var spoiled: bool
    ghost var session: Session
    ghost var hooks: seq<Hook>
    /** The data transformed since Resynchronize. */
    ghost var consumed: seq<byte>
    ghost var produced: seq<byte>

    /** What never changes, and the MAC object. */
    ghost predicate Parts()
      reads mac, mac.reg, mac.k1, mac.k2
    {
      && IsBlockCipher(cipher) && cipher.size > 0 && mac.Valid() && mac.cipher == cipher && C.AreSubkeys(mac.Subkeys())
      && buffer.Length == second.Length == cipher.size
      && {buffer, second} !! {mac.reg, mac.k1, mac.k2} && buffer != second
      && (kind == Ccm ==> cipher.size == 16 && 4 <= digestSize <= 16 && digestSize % 2 == 0)
    }

    ghost predicate Shape()
      reads `num, `L, mac, mac.reg, mac.k1, mac.k2
    {
      Parts() && num < cipher.size && (kind == Eax ==> num == 0) && (kind == Ccm ==> 2 <= L <= 8)
    }

    ghost function FormatOf(): Format
      reads `session, `aadLength, `messageLength
    {
      Format(digestSize, session.nonce, aadLength, messageLength)
    }

    ghost predicate Follows(phase: Phase)
      requires Shape()
      reads `num, `L, `session, `specified, `aadLength, `messageLength, buffer, second, mac, mac.reg, mac.k1, mac.k2
    {
      if kind == Ccm then
        specified ==> CcmFollows(cipher, FormatOf(), session, phase, second[..], buffer[..num])
      else
        EaxFollows(mac.Subkeys(), session, phase, mac.message, second[..])
    }

    /** SetKey, for a key the cipher stands for. */
    constructor (kind: Kind, forward: bool, cipher: BlockCipher, stream: (seq<byte>, nat) -> byte, digestSize: nat)
      requires IsBlockCipher(cipher) && C.IsSupported(cipher.size)
      requires kind == Ccm ==> cipher.size == 16 && 4 <= digestSize <= 16 && digestSize % 2 == 0
      ensures Valid() && state == KeySet && idle && mac.message == []
      ensures this.kind == kind && this.forward == forward && this.cipher == cipher && this.stream == stream
      ensures this.digestSize == digestSize
      ensures fresh(buffer) && fresh(second) && fresh(mac) && fresh(mac.reg) && fresh(mac.k1) && fresh(mac.k2)
    {
      this.kind, this.forward, this.cipher, this.stream, this.digestSize := kind, forward, cipher, stream, digestSize;
      mac := new C.CmacState(cipher);
      buffer := new byte[cipher.size](_ => 0);
      second := new byte[cipher.size](_ => 0);
      state, num, L := KeySet, 0, 8;
      totalHeaderLength, totalMessageLength, totalFooterLength := 0, 0, 0;
      aadLength, messageLength := 0, 0;
      ctrIv, ctrPos := [], 0;
      idle, clean, specified, spoiled, hooks, consumed, produced := true, false, false, false, [], [], [];
      session := Session([], [], [], [], []);
    }

    // ---------- the hooks ----------

    /** AuthenticateBlocks */
    method AuthenticateBlocks(data: seq<byte>) returns (leftOver: nat)
      requires Shape()
      modifies second, mac, mac.reg
      ensures Shape() && mac.Subkeys() == old(mac.Subkeys())
      ensures kind == Ccm ==>
        leftOver == |Leftover(cipher.size, data)| && second[..] == Chained(cipher, old(second[..]), data)
      ensures kind == Ccm ==> mac.message == old(mac.message)
      ensures kind == Eax ==> leftOver == 0 && mac.message == old(mac.message) + data && second[..] == old(second[..])
    {
      hide IsBlockCipher, C.Holds, Chained, Leftover, C.AreSubkeys;
      match kind
      case Ccm =>
        leftOver := AdvancedProcessBlocks(cipher, second, data);
      case Eax =>
        mac.Update(data);
        leftOver := 0;
    }

    function AuthenticationBlockSize(): nat {
      if kind == Ccm then cipher.size else 1
    }

    /** The part of AuthenticateData after a left-over block has been dealt with. */
    method AuthenticateRest(input: seq<byte>)
      requires Shape() && num == 0
      modifies `num, buffer, second, mac, mac.reg
      ensures Shape() && mac.Subkeys() == old(mac.Subkeys())
      ensures kind == Ccm ==> second[..] == Chained(cipher, old(second[..]), input)
      ensures kind == Ccm ==> buffer[..num] == Leftover(cipher.size, input) && mac.message == old(mac.message)
      ensures kind == Eax ==> mac.message == old(mac.message) + input && second[..] == old(second[..])
    {
      hide IsBlockCipher, C.Holds, Chained, Leftover, C.AreSubkeys, Spliced;
      var rest := input;
      if |input| >= AuthenticationBlockSize() {
        var leftOver := AuthenticateBlocks(input);
        LeftoverIsSuffix(cipher.size, input);
        rest := input[|input| - leftOver..];
      } else {
        NotFilled(cipher, second[..], input);
        assert |input| == 0 ==> mac.message + input == mac.message;
      }
      SpliceRead(buffer[..], 0, rest);
      CopyInto(buffer, 0, rest);
      num := |rest|;
      assert buffer[..num] == buffer[..][0..num];
    }

    /** AuthenticateData: data is gathered into blocks of AuthenticationBlockSize. */
    method AuthenticateData(input: seq<byte>)
      requires Shape()
      modifies `num, buffer, second, mac, mac.reg
      ensures Shape() && mac.Subkeys() == old(mac.Subkeys())
      ensures kind == Ccm ==> second[..] == Chained(cipher, old(second[..]), old(buffer[..num]) + input)
      ensures kind == Ccm ==>
        buffer[..num] == Leftover(cipher.size, old(buffer[..num]) + input) && mac.message == old(mac.message)
      ensures kind == Eax ==> mac.message == old(mac.message) + input && second[..] == old(second[..])
    {
      hide IsBlockCipher, C.Holds, Chained, Leftover, C.AreSubkeys, Spliced;
      var blockSize := AuthenticationBlockSize();
      var rest := input;
      ghost var held := buffer[..num];
      assert held == [] ==> held + input == input;
      if num != 0 {
        if num + |input| >= blockSize {
          var n := blockSize - num;
          FilledBlock(cipher, second[..], held, input);
          FillBuffer(input[..n]);
          assert buffer[..] == buffer[..blockSize];
          var leftOver := AuthenticateBlocks(buffer[..]);
          rest := input[n..];
          num := 0;
        } else {
          NotFilled(cipher, second[..], held + input);
          FillBuffer(input);
          num := num + |input|;
          return;
        }
      }
      AuthenticateRest(rest);
    }

    /** memcpy(data + num, input, len) */
    method FillBuffer(input: seq<byte>)
      requires num + |input| <= buffer.Length
      modifies buffer
      ensures buffer[..num + |input|] == old(buffer[..num]) + input
    {
      hide Spliced;
      ghost var whole := buffer[..];
      SplicedPrefix(whole, num, input);
      CopyInto(buffer, num, input);
      assert buffer[..num + |input|] == buffer[..][..num + |input|];
      assert whole[..num] == buffer[..num];
    }

    /** AuthenticateData as one more piece of the current stretch. */
    method Authenticate(ghost phase: Phase, input: seq<byte>)
      requires Shape()
      modifies `num, `session, buffer, second, mac, mac.reg
      ensures Shape() && mac.Subkeys() == old(mac.Subkeys())
      ensures session == Fed(old(session), phase, input) && (old(Follows(phase)) ==> Follows(phase))
      ensures old(Loaded()) ==> Loaded()
    {
      hide IsBlockCipher, C.Holds, C.AreSubkeys, Chained, Leftover, CcmFollows, EaxFollows, Fed;
      if Follows(phase) {
        if kind == Ccm && specified {
          CcmFed(cipher, FormatOf(), session, phase, second[..], buffer[..num], input);
        }
        if kind == Eax {
          EaxFed(mac.Subkeys(), session, phase, mac.message, second[..], input);
        }
      }
      FedKeepsNonce(session, phase, input);
      AuthenticateData(input);
      session := Fed(session, phase, input);
    }

    // ---------- sessions ----------

    /** AuthenticationIsOnPlaintext() == IsForwardTransformation() */
    predicate AuthenticatesInput() { (kind == Ccm) == forward }

    ghost function StreamStart(): nat { if kind == Ccm then 16 else 0 }

    /** The counter block of CCM, A_0 of section 2.3 of RFC 3610, or the nonce's MAC in EAX. */
    ghost function StreamIv(k: C.Keys, nonce: seq<byte>, dirt: seq<byte>): seq<byte> {
      if kind == Ccm then CounterBlock(nonce)
      else if C.AreKeys(k) && cipher.size > 0 then C.Mac(k, dirt + Tweak(cipher.size, 0) + nonce)
      else []
    }

    /** The header and footer totals, the keystream and the transformed data agree with the session. */
    ghost predicate Accounted()
      reads `session, `totalHeaderLength, `totalFooterLength, `ctrIv, `ctrPos, `consumed, `produced
      reads mac.k1, mac.k2
    {
      && totalHeaderLength == |session.header| && totalFooterLength == |session.footer|
      && ctrIv == StreamIv(mac.Subkeys(), session.nonce, session.dirt) && ctrPos == StreamStart() + |consumed|
      && produced == Streamed(stream, ctrIv, StreamStart(), consumed)
      && session.text == (if AuthenticatesInput() then consumed else produced)
    }

    ghost predicate Consistent()
      requires Shape()
      reads this, buffer, second, mac, mac.reg, mac.k1, mac.k2
    {
      totalMessageLength == |consumed| && Settled()
    }

    /** The hooks that have fired, and what the authenticator holds, state by state. */
    ghost predicate Settled()
      requires Shape()
      reads this, buffer, second, mac, mac.reg, mac.k1, mac.k2
    {
      && Accounted()
      && match state
         case KeySet => false
         case IVSet =>
           && hooks == [] && consumed == [] && session.footer == [] && Follows(Header)
           && (kind == Ccm ==> 7 <= |session.nonce| <= 13 && L == 15 - |session.nonce|)
           && (kind == Ccm && CanSpecify() ==> num == 0 && buffer[1..16 - L] == session.nonce)
         case AuthUntransformed =>
           && AuthenticatesInput() && hooks == [LastHeaderBlock] && session.footer == []
           && Follows(Confidential) && HeaderChecked()
         case AuthTransformed =>
           && !AuthenticatesInput() && hooks == [LastHeaderBlock] && session.footer == []
           && Follows(Confidential) && HeaderChecked()
         case AuthFooter =>
           hooks == [LastHeaderBlock, LastConfidentialBlock] && Follows(Footer) && HeaderChecked() && TextChecked()
    }

    ghost predicate HeaderChecked()
      reads `session, `aadLength
    {
      kind == Ccm ==> aadLength == |session.header|
    }

    ghost predicate TextChecked()
      reads `session, `messageLength
    {
      kind == Ccm ==> messageLength == |session.text|
    }

    /** The nonce is still in the buffer for B0. */
    ghost predicate CanSpecify()
      reads `session, `specified, `spoiled, `aadLength
    {
      !spoiled && session.header == [] && (specified ==> aadLength == 0)
    }

    /** Something is in the MAC object of EAX. */
    ghost predicate Loaded()
      reads mac
    {
      kind == Eax ==> mac.message != []
    }

    /** Between messages the MAC object is empty, and only then. */
    ghost predicate Rested()
      reads this, mac
    {
      if idle then state == KeySet && (kind == Eax ==> mac.message == []) else Loaded()
    }

    ghost predicate Valid()
      reads this, buffer, second, mac, mac.reg, mac.k1, mac.k2
    {
      Shape() && Rested() && (clean ==> Consistent())
    }

    // ---------- the hooks that close a stretch ----------

    /** AuthenticateLastHeaderBlock */
    method CloseHeader() returns (status: Status)
      requires Shape()
      modifies `num, `hooks, buffer, second, mac, mac.reg
      ensures Shape() && mac.Subkeys() == old(mac.Subkeys())
      ensures status == if kind == Ccm && aadLength != totalHeaderLength then InvalidArgument else Done
      ensures status == Done ==> num == 0 && hooks == old(hooks) + [LastHeaderBlock]
      ensures status == Done && old(Follows(Header)) && session.text == [] ==> Follows(Confidential)
      ensures old(Loaded()) ==> Loaded()
      ensures status != Done ==> num == old(num) && hooks == old(hooks) && buffer[..] == old(buffer[..])
      ensures status != Done ==> second[..] == old(second[..]) && mac.message == old(mac.message)
    {
      hide IsBlockCipher, C.Holds, C.AreSubkeys, CcmFollows, HeldIn;
      match kind {
        case Ccm =>
          if aadLength != totalHeaderLength {
            return InvalidArgument;
          }
          if specified && Follows(Header) && session.text == [] {
            CcmHeaderEnds(cipher, FormatOf(), session, second[..], buffer[..num]);
          }
          LastBlock(cipher, second, buffer[..num]);
          num := 0;
          assert buffer[..0] == [];
        case Eax =>
          EaxCloseHeader();
      }
      hooks := hooks + [LastHeaderBlock];
      return Done;
    }

    method EaxCloseHeader()
      requires Shape() && kind == Eax
      modifies buffer, second, mac, mac.reg
      ensures Shape() && mac.Subkeys() == old(mac.Subkeys())
      ensures old(Follows(Header)) && session.text == [] ==> Follows(Confidential)
      ensures Loaded()
    {
      hide IsBlockCipher, C.Holds, C.AreSubkeys, C.Mac, Spliced, XorBytes, Tweak;
      ghost var n := cipher.size;
      var headerMac := mac.TruncatedFinal(cipher.size);
      WholeMac(mac.Subkeys(), old(mac.message));
      SpliceAll(buffer[..], headerMac);
      CopyInto(buffer, 0, headerMac);
      XorInto(second, buffer[..]);
      SetTweak(2);
      mac.Update(buffer[..]);
      assert [] + Tweak(n, 2) == Tweak(n, 2) + [];
    }

    /** memset(m_buffer, 0, blockSize); m_buffer[blockSize-1] = t */
    method SetTweak(t: byte)
      requires buffer.Length == cipher.size > 0
      modifies buffer
      ensures buffer[..] == Tweak(cipher.size, t)
    {
      CopyInto(buffer, 0, Zeroes(cipher.size));
      SpliceAll(old(buffer[..]), Zeroes(cipher.size));
      hide Spliced;
      buffer[cipher.size - 1] := t;
      assert Zeroes(cipher.size)[..cipher.size - 1] == Zeroes(cipher.size - 1);
    }

    /** AuthenticateLastConfidentialBlock, which EAX does not override */
    method CloseText() returns (status: Status)
      requires Shape()
      modifies `num, `hooks, second
      ensures Shape() && mac.Subkeys() == old(mac.Subkeys())
      ensures status == if kind == Ccm && messageLength != totalMessageLength then InvalidArgument else Done
      ensures status == Done ==> num == 0 && hooks == old(hooks) + [LastConfidentialBlock]
      ensures status == Done && old(Follows(Confidential)) && session.footer == [] ==> Follows(Footer)
      ensures status != Done ==> num == old(num) && hooks == old(hooks) && second[..] == old(second[..])
    {
      hide IsBlockCipher, C.Holds, C.AreSubkeys, CcmFollows, HeldIn, C.Mac, Tweak, XorBytes;
      match kind {
        case Ccm =>
          if messageLength != totalMessageLength {
            return InvalidArgument;
          }
          if specified && Follows(Confidential) && session.footer == [] {
            CcmTextEnds(cipher, FormatOf(), session, second[..], buffer[..num]);
          }
          LastBlock(cipher, second, buffer[..num]);
          num := 0;
          assert buffer[..0] == [];
        case Eax =>
          assert Tweak(cipher.size, 2) + session.text + [] == Tweak(cipher.size, 2) + session.text;
      }
      hooks := hooks + [LastConfidentialBlock];
      return Done;
    }

    // ---------- starting a session ----------

    /** The length field gets what the nonce leaves, but no more than eight bytes. */
    static function FieldLength(ivLength: nat): nat
      requires ivLength <= 15
    {
      if 15 - ivLength > 8 then 8 else 15 - ivLength
    }

    /** Resync of CCM: the counter block is built in the data buffer, where its nonce stays for B0. */
    method CcmResync(iv: seq<byte>)
      requires Shape() && kind == Ccm && 7 <= |iv| <= 13
      modifies `L, `ctrIv, `ctrPos, `aadLength, `messageLength, buffer
      ensures Shape() && L == 15 - |iv| && aadLength == messageLength == 0
      ensures ctrIv == CounterBlock(iv) && ctrPos == 16 && buffer[1..16 - L] == iv
    {
      hide IsBlockCipher, C.Holds, C.AreSubkeys, Spliced;
      L := FieldLength(|iv|);
      var block := [(L - 1) as byte] + iv + Zeroes(15 - |iv|);
      SpliceAll(buffer[..], block);
      CopyInto(buffer, 0, block);
      assert buffer[1..16 - L] == block[1..16 - L] == iv;
      ctrIv := buffer[..];
      ctrPos := 16;
      aadLength, messageLength := 0, 0;
    }

    /** Resync of EAX: the nonce's MAC, over whatever the MAC object still held, becomes the mask and the IV. */
    method EaxResync(iv: seq<byte>)
      requires Shape() && kind == Eax
      modifies `ctrIv, `ctrPos, buffer, second, mac, mac.reg
      ensures Shape() && mac.Subkeys() == old(mac.Subkeys()) && C.AreKeys(mac.Subkeys())
      ensures second[..] == C.Mac(mac.Subkeys(), old(mac.message) + Tweak(cipher.size, 0) + iv)
      ensures mac.message == Tweak(cipher.size, 1) && ctrIv == second[..] && ctrPos == 0
    {
      hide IsBlockCipher, C.Holds, C.AreSubkeys, C.Mac, Spliced, Tweak;
      SetTweak(0);
      mac.Update(buffer[..]);
      mac.Update(iv);
      ghost var fed := mac.message;
      var nonceMac := mac.TruncatedFinal(cipher.size);
      WholeMac(mac.Subkeys(), fed);
      SpliceAll(second[..], nonceMac);
      CopyInto(second, 0, nonceMac);
      SetTweak(1);
      mac.Update(buffer[..]);
      assert [] + Tweak(cipher.size, 1) == Tweak(cipher.size, 1);
      ctrIv := second[..];
      ctrPos := 0;
    }

    /** The totals and the ghost record of a session with nothing fed in. */
    ghost predicate Cleared(iv: seq<byte>)
      reads this
    {
      && num == totalHeaderLength == totalMessageLength == totalFooterLength == 0
      && !idle && !specified && !spoiled && hooks == [] && consumed == [] && produced == []
      && session.nonce == iv && session.header == [] && session.text == [] && session.footer == []
    }

    ghost method ClearRecord(iv: seq<byte>)
      requires Shape()
      modifies `idle, `clean, `specified, `spoiled, `hooks, `consumed, `produced, `session
      ensures Shape() && !idle && !clean && !specified && !spoiled && hooks == [] && consumed == [] && produced == []
      ensures session == Session(iv, if kind == Eax then mac.message else [], [], [], [])
    {
      hide Parts;
      idle, clean, specified, spoiled, hooks, consumed, produced := false, false, false, false, [], [], [];
      session := Session(iv, if kind == Eax then mac.message else [], [], [], []);
    }

    method ClearSession(iv: seq<byte>)
      requires Shape()
      modifies `num, `totalHeaderLength, `totalMessageLength, `totalFooterLength, `state
      modifies `idle, `clean, `specified, `spoiled, `hooks, `consumed, `produced, `session
      ensures Shape() && Cleared(iv) && !clean
      ensures session.dirt == (if kind == Eax then mac.message else [])
    {
      hide Parts;
      ClearRecord(iv);
      num := 0;
      totalHeaderLength := 0;
      totalMessageLength := 0;
      totalFooterLength := 0;
      state := KeySet;
    }

    method OpenCcm(iv: seq<byte>)
      requires Shape() && kind == Ccm && 7 <= |iv| <= 13 && Cleared(iv)
      modifies this, buffer
      ensures Valid() && clean && !idle && state == IVSet && !specified && !spoiled && session == old(session)
      ensures mac.Subkeys() == old(mac.Subkeys())
    {
      hide IsBlockCipher, C.Holds, C.AreSubkeys, CcmFollows, CounterBlock;
      CcmResync(iv);
      state := IVSet;
      clean := true;
    }

    method OpenEax(iv: seq<byte>)
      requires Shape() && kind == Eax && Cleared(iv) && session.dirt == mac.message
      modifies this, buffer, second, mac, mac.reg
      ensures Valid() && clean && !idle && state == IVSet && !specified && !spoiled && session == old(session)
      ensures mac.Subkeys() == old(mac.Subkeys())
    {
      hide IsBlockCipher, C.Holds, C.AreSubkeys, C.Mac, Tweak;
      EaxResync(iv);
      assert Tweak(cipher.size, 1) + [] == Tweak(cipher.size, 1);
      state := IVSet;
      clean := true;
    }

    method Resynchronize(iv: seq<byte>) returns (status: Status)
      requires Valid()
      modifies this, buffer, second, mac, mac.reg
      ensures Valid() && mac.Subkeys() == old(mac.Subkeys())
      ensures status == if kind == Ccm && !(7 <= |iv| <= 13) then InvalidArgument else Done
      ensures !idle && (clean <==> status == Done)
      ensures status == Done ==> state == IVSet && !specified && !spoiled
      ensures status == Done ==> session == Session(iv, if kind == Eax then old(mac.message) else [], [], [], [])
    {
      hide Shape, Consistent, C.Mac;
      ClearSession(iv);
      if kind == Ccm && !(7 <= |iv| <= 13) {
        return InvalidArgument;
      }
      if kind == Ccm {
        OpenCcm(iv);
      } else {
        OpenEax(iv);
      }
      return Done;
    }

    function MaxHeaderLength(): nat { 0x1_0000_0000_0000_0000 - 1 }

    function MaxMessageLength(): nat
      reads `L
    {
      if kind == Ccm && L < 8 then Power256(L) - 1 else 0x1_0000_0000_0000_0000 - 1
    }

    function MaxFooterLength(): nat { 0 }

    /** SpecifyDataLengths and UncheckedSpecifyDataLengths. Called before any data, and before a first call has put the
        length of a header in the buffer, they count for the tag. */
    method SpecifyDataLengths(headerLength: nat, textLength: nat, footerLength: nat) returns (status: Status)
      requires Valid()
      modifies `num, `aadLength, `messageLength, `specified, `spoiled, buffer, second
      ensures Valid() && mac.Subkeys() == old(mac.Subkeys()) && session == old(session)
      ensures mac.message == old(mac.message)
      ensures status == if headerLength > MaxHeaderLength() || textLength > MaxMessageLength() || footerLength > 0
                        then InvalidArgument
                        else if kind == Ccm && state != IVSet then BadState else Done
      ensures status == Done && kind == Ccm ==> aadLength == headerLength && messageLength == textLength
      ensures status == Done ==> (specified <==> clean && old(CanSpecify())) && spoiled == !old(CanSpecify())
      ensures status != Done ==> specified == old(specified) && spoiled == old(spoiled)
      ensures status != Done ==> aadLength == old(aadLength) && messageLength == old(messageLength)
    {
      hide Parts, CcmFollows, EaxFollows, StreamIv, Streamed, Loaded, Power256;
      if headerLength > MaxHeaderLength() || textLength > MaxMessageLength() || footerLength > MaxFooterLength() {
        return InvalidArgument;
      }
      if kind == Ccm && state != IVSet {
        return BadState;
      }
      if kind == Ccm {
        CcmSpecify(headerLength, textLength);
      } else {
        specified, spoiled := clean && CanSpecify(), !CanSpecify();
      }
      return Done;
    }

    method CcmSpecify(headerLength: nat, textLength: nat)
      requires Valid() && kind == Ccm && state == IVSet
      requires headerLength <= MaxHeaderLength() && textLength <= MaxMessageLength()
      modifies `num, `aadLength, `messageLength, `specified, `spoiled, buffer, second
      ensures Valid() && aadLength == headerLength && messageLength == textLength
      ensures mac.Subkeys() == old(mac.Subkeys())
      ensures (specified <==> clean && old(CanSpecify())) && spoiled == !old(CanSpecify())
    {
      hide Parts, CcmFollows, EaxFollows, StreamIv, Streamed, Loaded, Power256;
      ghost var inTime := CanSpecify();
      WriteLengths(headerLength, textLength);
      specified, spoiled := clean && inTime, !inTime;
    }

    /** B0, encrypted, and the length of the header in front of it. */
    method WriteLengths(headerLength: nat, textLength: nat)
      requires Shape() && kind == Ccm && headerLength <= MaxHeaderLength() && textLength <= MaxMessageLength()
      modifies `num, `aadLength, `messageLength, buffer, second
      ensures Shape() && aadLength == headerLength && messageLength == textLength
      ensures mac.Subkeys() == old(mac.Subkeys())
      ensures session.header == [] && old(num == 0 && buffer[1..16 - L] == session.nonce) ==>
        && CcmFollows(cipher, FormatOf(), session, Header, second[..], buffer[..num])
        && (headerLength == 0 ==> num == 0 && buffer[1..16 - L] == session.nonce)
    {
      hide IsBlockCipher, C.Holds, C.AreSubkeys, Buffered, Power256, Opening, LengthPrefix, CcmFollows;
      EightBytes();
      aadLength := headerLength;
      messageLength := textLength;
      var nonce := buffer[1..cipher.size - L];
      OpenCbc(cipher, Format(digestSize, nonce, headerLength, textLength), second);
      if headerLength > 0 {
        num := OpenHeader(headerLength, buffer);
      }
      if session.header == [] && old(num == 0 && buffer[1..16 - L] == session.nonce) {
        NoPrefix();
        assert buffer[..0] == [];
        OpenedFollows(cipher, FormatOf(), session, second[..], buffer[..num]);
      }
    }

    // ---------- feeding a session ----------

    /** More header, or more footer; the first footer data closes the message. */
    method Update(input: seq<byte>) returns (status: Status)
      requires Valid()
      modifies `num, `state, `session, `hooks, `totalHeaderLength, `totalFooterLength, buffer, second, mac, mac.reg
      ensures Valid() && mac.Subkeys() == old(mac.Subkeys())
      ensures status == if |input| == 0 then Done
                        else if old(state) == KeySet then BadState
                        else if old(state) in {AuthUntransformed, AuthTransformed} && kind == Ccm
                                && messageLength != totalMessageLength
                        then InvalidArgument else Done
      ensures status == Done && |input| > 0 ==>
        session == Fed(old(session), if old(state) == IVSet then Header else Footer, input)
        && state == if old(state) == IVSet then IVSet else AuthFooter
      ensures status != Done || |input| == 0 ==> session == old(session) && state == old(state)
    {
      if |input| == 0 {
        return Done;
      }
      match state {
        case KeySet =>
          return BadState;
        case IVSet =>
          MoreHeader(input);
          return Done;
        case AuthFooter =>
          MoreFooter(input);
          return Done;
        case _ =>
          status := EndText();
          if status != Done {
            return;
          }
          MoreFooter(input);
          return Done;
      }
    }

    method MoreHeader(input: seq<byte>)
      requires Valid() && state == IVSet && |input| > 0
      modifies `num, `session, `totalHeaderLength, buffer, second, mac, mac.reg
      ensures Valid() && mac.Subkeys() == old(mac.Subkeys()) && session == Fed(old(session), Header, input)
    {
      hide Parts, CcmFollows, EaxFollows, Streamed, StreamIv;
      Authenticate(Header, input);
      totalHeaderLength := totalHeaderLength + |input|;
    }

    method MoreFooter(input: seq<byte>)
      requires Valid() && state == AuthFooter
      modifies `num, `session, `totalFooterLength, buffer, second, mac, mac.reg
      ensures Valid() && mac.Subkeys() == old(mac.Subkeys()) && session == Fed(old(session), Footer, input)
    {
      hide Parts, CcmFollows, EaxFollows, Streamed, StreamIv;
      Authenticate(Footer, input);
      totalFooterLength := totalFooterLength + |input|;
    }

    /** AuthenticateLastConfidentialBlock and the move to State_AuthFooter */
    method EndText() returns (status: Status)
      requires Valid() && state in {AuthUntransformed, AuthTransformed}
      modifies `num, `state, `hooks, second
      ensures Valid() && mac.Subkeys() == old(mac.Subkeys()) && session == old(session)
      ensures status == if kind == Ccm && messageLength != totalMessageLength then InvalidArgument else Done
      ensures state == if status == Done then AuthFooter else old(state)
    {
      hide Parts, CcmFollows, EaxFollows, StreamIv, Streamed;
      status := CloseText();
      if status == Done {
        num := 0;
        state := AuthFooter;
      }
    }

    /** The keystream over input, from where it stands. */
    method Transform(input: seq<byte>) returns (output: seq<byte>)
      requires Shape()
      modifies `ctrPos
      ensures Shape() && output == Streamed(stream, ctrIv, old(ctrPos), input) && ctrPos == old(ctrPos) + |input|
    {
      hide Parts, Streamed;
      output := Streamed(stream, ctrIv, ctrPos, input);
      ctrPos := ctrPos + |input|;
    }

    /** AuthenticateLastHeaderBlock and the move to the state for this direction */
    method EndHeader() returns (status: Status)
      requires Shape() && state == IVSet
      modifies `num, `state, `hooks, buffer, second, mac, mac.reg
      ensures Shape() && mac.Subkeys() == old(mac.Subkeys())
      ensures status == if kind == Ccm && aadLength != totalHeaderLength then InvalidArgument else Done
      ensures status == Done ==> state == (if AuthenticatesInput() then AuthUntransformed else AuthTransformed)
      ensures status == Done && old(Settled()) && session.text == [] ==> Settled()
      ensures status != Done ==> state == IVSet
      ensures old(Loaded()) ==> Loaded()
    {
      hide Parts, CcmFollows, EaxFollows, StreamIv, Streamed;
      status := CloseHeader();
      if status == Done {
        num := 0;
        state := if AuthenticatesInput() then AuthUntransformed else AuthTransformed;
      }
    }

    /** Authentication and transformation, in the order the direction asks for. */
    method Pass(input: seq<byte>) returns (output: seq<byte>)
      requires Shape() && state in {AuthUntransformed, AuthTransformed}
      modifies `num, `session, `ctrPos, buffer, second, mac, mac.reg
      ensures Shape() && mac.Subkeys() == old(mac.Subkeys()) && (old(Loaded()) ==> Loaded())
      ensures output == Streamed(stream, ctrIv, old(ctrPos), input) && ctrPos == old(ctrPos) + |input|
      ensures session == Fed(old(session), Confidential, if state == AuthUntransformed then input else output)
      ensures old(Follows(Confidential)) ==> Follows(Confidential)
    {
      hide Parts, CcmFollows, EaxFollows, Streamed, Fed;
      if state == AuthUntransformed {
        Authenticate(Confidential, input);
        output := Transform(input);
      } else {
        output := Transform(input);
        Authenticate(Confidential, output);
      }
    }

    method ProcessText(input: seq<byte>) returns (output: seq<byte>)
      requires Shape() && state in {AuthUntransformed, AuthTransformed}
      modifies `num, `session, `ctrPos, `consumed, `produced, buffer, second, mac, mac.reg
      ensures Shape() && mac.Subkeys() == old(mac.Subkeys()) && (old(Loaded()) ==> Loaded())
      ensures output == Streamed(stream, ctrIv, old(ctrPos), input)
      ensures consumed == old(consumed) + input && produced == old(produced) + output
      ensures old(Settled()) ==>
        Settled() && session == Fed(old(session), Confidential, if AuthenticatesInput() then input else output)
    {
      hide Parts, Follows, Streamed, StreamIv, Loaded;
      StreamedInTwo(stream, ctrIv, StreamStart(), consumed, input);
      output := Pass(input);
      consumed := consumed + input;
      produced := produced + output;
    }

    /** The checks of ProcessData, in the order in which they can fail. */
    ghost function TextStatus(n: nat): Status
      reads this
    {
      if state != KeySet && totalMessageLength + n > MaxMessageLength() then InvalidArgument
      else if state in {KeySet, AuthFooter} then BadState
      else if state == IVSet && kind == Ccm && aadLength != totalHeaderLength then InvalidArgument
      else Done
    }

    /** ProcessData up to the point where it has data to work on. */
    method AdmitText(n: nat) returns (status: Status)
      requires Valid()
      modifies `num, `state, `hooks, `totalMessageLength, `clean, buffer, second, mac, mac.reg
      ensures Shape() && mac.Subkeys() == old(mac.Subkeys()) && status == old(TextStatus(n))
      ensures Rested() && (status != Done ==> !clean)
      ensures status == Done ==> clean == old(clean) && state in {AuthUntransformed, AuthTransformed}
      ensures status == Done && clean ==> Settled() && totalMessageLength == |consumed| + n
    {
      hide Parts, CcmFollows, EaxFollows, StreamIv, Streamed, Power256;
      totalMessageLength := totalMessageLength + n;
      status := Done;
      if state != KeySet && totalMessageLength > MaxMessageLength() {
        status := InvalidArgument;
      } else if state == KeySet || state == AuthFooter {
        status := BadState;
      } else if state == IVSet {
        status := EndHeader();
      }
      if status != Done {
        clean := false;
      }
    }

    /** Text to transform and authenticate; the first closes the header. */
    method ProcessData(input: seq<byte>) returns (status: Status, output: seq<byte>)
      requires Valid()
      modifies `num, `state, `session, `hooks, `ctrPos, `consumed, `produced, `totalMessageLength, `clean
      modifies buffer, second, mac, mac.reg
      ensures Valid() && mac.Subkeys() == old(mac.Subkeys()) && status == old(TextStatus(|input|))
      ensures status == Done ==> output == Streamed(stream, ctrIv, old(ctrPos), input) && clean == old(clean)
      ensures status == Done ==> state in {AuthUntransformed, AuthTransformed}
      ensures status == Done && clean ==>
        session == Fed(old(session), Confidential, if AuthenticatesInput() then input else output)
      ensures status == Done ==> consumed == old(consumed) + input && produced == old(produced) + output
      ensures status != Done ==> !clean && output == []
    {
      hide Parts, Settled, Streamed, TextStatus;
      output := [];
      status := AdmitText(|input|);
      if status == Done {
        output := ProcessText(input);
      }
    }

    // ---------- finishing a session ----------

    /** AuthenticateLastFooterBlock: the first size bytes of the tag */
    method CloseFooter(size: nat) returns (tag: seq<byte>)
      requires Shape() && size <= cipher.size
      modifies `hooks, `ctrPos, mac, mac.reg
      ensures Shape() && mac.Subkeys() == old(mac.Subkeys()) && C.AreKeys(mac.Subkeys())
      ensures hooks == old(hooks) + [LastFooterBlock]
      ensures kind == Ccm ==> tag == Streamed(stream, ctrIv, 0, second[..size]) && mac.message == old(mac.message)
      ensures kind == Eax ==>
        mac.message == [] && tag == XorBytes(C.Mac(mac.Subkeys(), old(mac.message))[..size], second[..size])
    {
      hide IsBlockCipher, C.Holds, C.Mac, Streamed, XorBytes, C.TimesU, BitsOf;
      match kind {
        case Ccm =>
          ctrPos := 0;
          tag := Transform(second[..size]);
        case Eax =>
          var last := mac.TruncatedFinal(size);
          tag := XorBytes(last, second[..size]);
      }
      hooks := hooks + [LastFooterBlock];
    }

    ghost function FinalStatus(): Status
      reads this
    {
      if totalHeaderLength > MaxHeaderLength() || totalFooterLength > 0 then InvalidArgument
      else if state == KeySet then BadState
      else if state == IVSet && kind == Ccm && aadLength != totalHeaderLength then InvalidArgument
      else if state != AuthFooter && kind == Ccm && messageLength != totalMessageLength then InvalidArgument
      else Done
    }

    /** The stretches that are still open are closed, in order. */
    method CloseStretches() returns (status: Status)
      requires Valid() && state != KeySet && totalFooterLength == 0
      modifies `num, `hooks, buffer, second, mac, mac.reg
      ensures Shape() && mac.Subkeys() == old(mac.Subkeys())
      ensures totalHeaderLength <= MaxHeaderLength() ==> status == old(FinalStatus())
      ensures status == Done && clean ==>
        Follows(Footer) && hooks == [LastHeaderBlock, LastConfidentialBlock] && HeaderChecked() && TextChecked()
      ensures old(Loaded()) ==> Loaded()
    {
      hide Parts, CcmFollows, EaxFollows;
      status := Done;
      if state == IVSet {
        status := CloseHeader();
      }
      if status == Done && state != AuthFooter {
        status := CloseText();
      }
    }

    /** For CCM, once the lengths were declared, the encrypted CBC-MAC of the formatted header and text; for EAX the
        exclusive-or of the three MACs, the first of them over whatever the MAC object held before the nonce. */
    ghost predicate IsSessionTag(s: Session, size: nat, tag: seq<byte>)
      requires Shape() && size <= cipher.size
      reads this, mac, mac.reg, mac.k1, mac.k2
    {
      if kind == Ccm then
        specified ==>
          var f := Format(digestSize, s.nonce, |s.header|, |s.text|);
          IsFormat(f) && tag == Streamed(stream, CounterBlock(s.nonce), 0, T(cipher, f, s.header, s.text)[..size])
      else
        C.AreKeys(mac.Subkeys()) && tag == DirtyTag(mac.Subkeys(), s.dirt, s.nonce, s.header, s.text)[..size]
    }

    ghost predicate ReadyForTag()
      requires Shape()
      reads this, buffer, second, mac, mac.reg, mac.k1, mac.k2
    {
      && Follows(Footer) && HeaderChecked() && TextChecked() && session.footer == []
      && (kind == Ccm ==> ctrIv == CounterBlock(session.nonce))
    }

    /** The tag from what the authenticator holds once everything is closed. */
    method SessionTag(size: nat) returns (tag: seq<byte>)
      requires Shape() && size <= cipher.size
      modifies `hooks, `ctrPos, mac, mac.reg
      ensures Shape() && mac.Subkeys() == old(mac.Subkeys()) && hooks == old(hooks) + [LastFooterBlock]
      ensures kind == Eax ==> mac.message == []
      ensures old(ReadyForTag()) ==> IsSessionTag(session, size, tag)
    {
      hide IsBlockCipher, C.Holds, C.AreSubkeys, C.Mac, Streamed, CounterBlock, XorBytes, Buffered, IsFormat, T, Tweak;
      ghost var mask, message := second[..], mac.message;
      if kind == Ccm && specified && Follows(Footer) && session.footer == [] {
        NothingAfter(cipher, CcmStart(cipher, FormatOf(), session, Footer), second[..], buffer[..num]);
      }
      tag := CloseFooter(size);
      assert second[..size] == mask[..size];
      if kind == Eax {
        XorPrefix(C.Mac(mac.Subkeys(), message), mask, size);
        assert Tweak(cipher.size, 2) + session.text + [] == Tweak(cipher.size, 2) + session.text;
        XorCommutes(C.Mac(mac.Subkeys(), message), mask);
      }
    }

    method TruncatedFinal(size: nat) returns (status: Status, tag: seq<byte>)
      requires Valid() && size <= cipher.size
      modifies `num, `hooks, `ctrPos, `state, `idle, `clean, buffer, second, mac, mac.reg
      ensures Valid() && mac.Subkeys() == old(mac.Subkeys()) && session == old(session)
      ensures status == old(FinalStatus())
      ensures status == Done ==> state == KeySet && idle && (kind == Eax ==> mac.message == [])
      ensures status != Done ==> idle == old(idle)
      ensures status == Done && old(clean) ==> hooks == [LastHeaderBlock, LastConfidentialBlock, LastFooterBlock]
      ensures status == Done && old(clean) ==> IsSessionTag(session, size, tag)
    {
      hide Parts, CcmFollows, EaxFollows, Streamed, C.Mac, Tweak, CounterBlock, Power256, DirtyTag, T, IsFormat;
      hide C.AreKeys;
      tag := [];
      if totalHeaderLength > MaxHeaderLength() || totalFooterLength > MaxFooterLength() {
        return InvalidArgument, [];
      }
      if state == KeySet {
        return BadState, [];
      }
      status := CloseStretches();
      if status != Done {
        clean := false;
        return status, [];
      }
      tag := SessionTag(size);
      num := 0;
      state := KeySet;
      idle, clean := true, false;
    }

    /** Restart: what was going on is abandoned, and the MAC object keeps what it holds. */
    method Restart()
      requires Valid()
      modifies `state, `clean
      ensures Valid() && state == KeySet && !clean
    {
      state := KeySet;
      clean := false;
    }
  }

  lemma NothingAfter(c: BlockCipher, x: seq<byte>, cbc: seq<byte>, buffered: seq<byte>)
    requires Buffered(c, x, [], cbc, buffered)
    ensures cbc == x && buffered == []
  {
  }

  lemma XorPrefix(a: seq<byte>, b: seq<byte>, n: nat)
    requires |a| == |b| && n <= |a|
    ensures XorBytes(a[..n], b[..n]) == XorBytes(a, b)[..n]
  {
    hide Add;
  }

  lemma XorCommutes(a: seq<byte>, b: seq<byte>)
    requires |a| == |b|
    ensures XorBytes(a, b) == XorBytes(b, a)
  {
    XorBytesTwice(a, b);
  }

  lemma EightBytes()
    ensures Power256(8) == 0x1_0000_0000_0000_0000
  {
    assert Power256(2) == 0x1_0000;
    assert Power256(4) == 0x1_0000_0000;
    assert Power256(6) == 0x1_0000_0000_0000;
  }

  lemma BufferedShort(c: BlockCipher, x: seq<byte>, data: seq<byte>)
    requires IsBlockCipher(c) && |x| == c.size && |data| < c.size
    ensures Buffered(c, x, data, x, data)
  {
  }

  lemma WholeMac(k: C.Keys, m: seq<byte>)
    requires C.AreKeys(k)
    ensures C.Mac(k, m)[..k.cipher.size] == C.Mac(k, m)
  {
    hide C.Mac;
  }

  lemma NoPrefix()
    ensures LengthPrefix(0) == []
  {
  }

  lemma OpenedFollows(c: BlockCipher, f: Format, s: Session, cbc: seq<byte>, buffered: seq<byte>)
    requires IsBlockCipher(c) && c.size == 16 && IsFormat(f) && s.header == [] && |buffered| <= 10
    requires cbc == Opening(c, f) && buffered == LengthPrefix(f.headerLength)
    ensures CcmFollows(c, f, s, Header, cbc, buffered)
  {
    hide IsBlockCipher, IsFormat, Buffered, Opening, LengthPrefix;
    assert LengthPrefix(f.headerLength) + s.header == buffered;
    BufferedShort(c, cbc, buffered);
  }

  lemma SplicedPrefix(whole: seq<byte>, at: nat, mid: seq<byte>)
    requires at + |mid| <= |whole|
    ensures Spliced(whole, at, mid)[..at + |mid|] == whole[..at] + mid
  {
  }

  lemma FedKeepsNonce(s: Session, phase: Phase, data: seq<byte>)
    ensures Fed(s, phase, data).nonce == s.nonce && Fed(s, phase, data).dirt == s.dirt
  {
  }
}
