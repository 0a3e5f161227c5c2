/** CCM of ccm.cpp: the formatting of section 2.2 of RFC 3610, and the pieces of the CBC-MAC over it. */
module CcmMode {

  import opened AesBlock
  import opened BlockCiphers
  import opened Buffers
  import opened CbcMacs
  import opened Numerals
  import opened XorBuffers

  // ---------- the formatting ----------

  /** Parameters of a CCM message: the tag length M, the nonce, and the two lengths declared beforehand. */
  datatype Format = Format(digestSize: nat, nonce: seq<byte>, headerLength: nat, messageLength: nat)

  predicate IsFormat(f: Format) {
    && 4 <= f.digestSize <= 16 && f.digestSize % 2 == 0 && 7 <= |f.nonce| <= 13
    && f.headerLength < 0x1_0000_0000_0000_0000 && f.messageLength < Power256(15 - |f.nonce|)
  }

  /** The number of bytes of the message length field. */
  function L(f: Format): nat
    requires IsFormat(f)
  {
    15 - |f.nonce|
  }

  /** The first block. */
  function B0(f: Format): (b: seq<byte>)
    requires IsFormat(f)
    ensures |b| == 16
  {
    [Flags(f)] + f.nonce + BigEndian(f.messageLength, L(f))
  }

  function Flags(f: Format): byte
    requires IsFormat(f)
  {
    ((if f.headerLength > 0 then 64 else 0) + 8 * ((f.digestSize - 2) / 2) + (L(f) - 1)) as byte
  }

  /** The length of the header in front of it, in one of three encodings; nothing for no header. */
  function LengthPrefix(n: nat): seq<byte> {
    if n == 0 then []
    else if n < 0xff00 then BigEndian(n, 2)
    else if n < 0x1_0000_0000 then [0xff, 0xfe] + BigEndian(n, 4)
    else [0xff, 0xff] + BigEndian(n, 8)
  }

  /** Filled up with zeros to whole blocks. */
  function PaddedTo(size: nat, m: seq<byte>): seq<byte>
    requires size > 0
    decreases |m|
  {
    if m == [] then [] else if |m| <= size then m + Zeroes(size - |m|) else m[..size] + PaddedTo(size, m[size..])
  }

  /** Everything that is authenticated, in blocks. */
  function Formatted(f: Format, header: seq<byte>, message: seq<byte>): seq<byte>
    requires IsFormat(f)
  {
    B0(f) + PaddedTo(16, LengthPrefix(f.headerLength) + header) + PaddedTo(16, message)
  }

  /** T of section 2.2: the CBC-MAC of the formatted blocks. */
  function T(c: BlockCipher, f: Format, header: seq<byte>, message: seq<byte>): (t: seq<byte>)
    requires IsBlockCipher(c) && c.size == 16 && IsFormat(f)
    ensures |t| == 16
  {
    Chained(c, Zeroes(16), Formatted(f, header, message))
  }

  // ---------- the CBC-MAC in three parts ----------

  lemma {:induction false} PaddingIsCbcMac(c: BlockCipher, x: seq<byte>, m: seq<byte>, more: seq<byte>)
    requires IsBlockCipher(c) && |x| == c.size
    ensures c.size > 0 && Chained(c, x, PaddedTo(c.size, m) + more) == Chained(c, CbcMac(c, x, m), more)
    decreases |m|
  {
    hide IsBlockCipher, Step;
    BlockSizePositive(c);
    var p := PaddedTo(c.size, m);
    if m == [] {
      assert p + more == more;
    } else {
      var block := if |m| < c.size then m + Zeroes(c.size - |m|) else m[..c.size];
      StepLength(c, x, block);
      if |m| <= c.size {
        assert block == p;
        assert (p + more)[..c.size] == block && (p + more)[c.size..] == more;
      } else {
        PaddingIsCbcMac(c, Step(c, x, block), m[c.size..], more);
        assert (p + more)[..c.size] == block && (p + more)[c.size..] == PaddedTo(c.size, m[c.size..]) + more;
      }
    }
  }

  /** The register after the first block. */
  function Opening(c: BlockCipher, f: Format): (x: seq<byte>)
    requires IsBlockCipher(c) && c.size == 16 && IsFormat(f)
    ensures |x| == 16
  {
    c.process(B0(f))
  }

  function AfterHeader(c: BlockCipher, f: Format, header: seq<byte>): (x: seq<byte>)
    requires IsBlockCipher(c) && c.size == 16 && IsFormat(f)
    ensures |x| == 16
  {
    CbcMac(c, Opening(c, f), LengthPrefix(f.headerLength) + header)
  }

  /** Encrypting B0, then padding the header and the message separately, is the CBC-MAC of the formatted blocks. */
  lemma PartsAreT(c: BlockCipher, f: Format, header: seq<byte>, message: seq<byte>)
    requires IsBlockCipher(c) && c.size == 16 && IsFormat(f)
    ensures CbcMac(c, AfterHeader(c, f, header), message) == T(c, f, header, message)
  {
    hide IsBlockCipher, CbcMac, B0, LengthPrefix, PaddedTo;
    var h, m := PaddedTo(16, LengthPrefix(f.headerLength) + header), PaddedTo(16, message);
    FirstBlock(c, B0(f), h + m);
    assert B0(f) + h + m == B0(f) + (h + m);
    PaddingIsCbcMac(c, Opening(c, f), LengthPrefix(f.headerLength) + header, m);
    PaddingIsCbcMac(c, AfterHeader(c, f, header), message, []);
    assert m + [] == m;
  }

  lemma FirstBlock(c: BlockCipher, b: seq<byte>, rest: seq<byte>)
    requires IsBlockCipher(c) && |b| == c.size
    ensures |c.process(b)| == c.size && Chained(c, Zeroes(c.size), b + rest) == Chained(c, c.process(b), rest)
  {
    XorWithZeroes(b);
    assert (b + rest)[..c.size] == b && (b + rest)[c.size..] == rest;
    hide XorBytes;
  }

  lemma XorWithZeroes(b: seq<byte>)
    ensures XorBytes(Zeroes(|b|), b) == b
  {
    AddNothing();
    hide Add;
  }

  // ---------- the buffers ----------

  /** cbc and the bytes still buffered are what data leaves from the register x. */
  ghost predicate Buffered(c: BlockCipher, x: seq<byte>, data: seq<byte>, cbc: seq<byte>, buffered: seq<byte>) {
    IsBlockCipher(c) && |x| == c.size && cbc == Chained(c, x, data) && buffered == Leftover(c.size, data)
  }

  lemma BufferedNothing(c: BlockCipher, x: seq<byte>)
    requires IsBlockCipher(c) && |x| == c.size
    ensures Buffered(c, x, [], x, [])
  {
  }

  /** More data after what is buffered. */
  lemma BufferedMore(c: BlockCipher, x: seq<byte>, data: seq<byte>, cbc: seq<byte>, buffered: seq<byte>,
                     more: seq<byte>)
    requires Buffered(c, x, data, cbc, buffered)
    ensures IsBlockCipher(c) && |cbc| == c.size && c.size > 0
    ensures Buffered(c, x, data + more, Chained(c, cbc, buffered + more), Leftover(c.size, buffered + more))
  {
    hide IsBlockCipher, Chained, Leftover;
    BlockSizePositive(c);
    ChainedInTwo(c, x, data, more);
  }

  /** Processing what is buffered as a padded block completes the padded CBC-MAC. */
  lemma BufferedLast(c: BlockCipher, x: seq<byte>, data: seq<byte>, cbc: seq<byte>, buffered: seq<byte>)
    requires Buffered(c, x, data, cbc, buffered)
    ensures IsBlockCipher(c) && |cbc| == c.size && |x| == c.size && |buffered| < c.size
    ensures CbcMac(c, x, data) == if buffered == [] then cbc else c.process(HeldIn(cbc, buffered))
  {
    hide IsBlockCipher, Chained, HeldIn;
    BlockSizePositive(c);
    CbcMacs.MacOfState(c, x, data);
    FinalStep(c, cbc, buffered);
    HoldingNothing(cbc);
  }

  /** xorbuf and ProcessBlock on a last partial block, if there is one */
  method LastBlock(c: BlockCipher, cbc: array<byte>, buffered: seq<byte>)
    requires IsBlockCipher(c) && cbc.Length == c.size && |buffered| <= c.size
    modifies cbc
    ensures cbc[..] == if buffered == [] then old(cbc[..]) else c.process(HeldIn(old(cbc[..]), buffered))
  {
    hide IsBlockCipher, HeldIn, XorredAt;
    if |buffered| > 0 {
      HoldingNothing(cbc[..]);
      HoldingMore(cbc[..], [], buffered);
      assert [] + buffered == buffered;
      XorAt(cbc, 0, buffered);
      ProcessBlock(c, cbc);
    }
  }

  /** The first half of UncheckedSpecifyDataLengths: B0 built in the CBC buffer and encrypted. The length goes
      in as eight bytes, of which the nonce then covers those that the field does not have. */
  method OpenCbc(c: BlockCipher, f: Format, cbc: array<byte>)
    requires IsBlockCipher(c) && c.size == 16 && IsFormat(f) && cbc.Length == 16
    modifies cbc
    ensures cbc[..] == Opening(c, f)
  {
    hide IsBlockCipher, Spliced, BigEndian, Power256, Flags;
    ghost var before := cbc[..];
    cbc[0] := Flags(f);
    CopyInto(cbc, 8, BigEndian(f.messageLength, 8));
    CopyInto(cbc, 1, f.nonce);
    BuiltB0(before, f);
    ProcessBlock(c, cbc);
  }

  lemma BuiltB0(before: seq<byte>, f: Format)
    requires |before| == 16 && IsFormat(f)
    ensures Spliced(Spliced(before[0 := Flags(f)], 8, BigEndian(f.messageLength, 8)), 1, f.nonce) == B0(f)
  {
    hide BigEndian, Power256, Flags;
    BigEndianSuffix(f.messageLength, 8, L(f));
    var length := BigEndian(f.messageLength, 8);
    var built := Spliced(Spliced(before[0 := Flags(f)], 8, length), 1, f.nonce);
    var b0 := B0(f);
    forall i | 0 <= i < 16 ensures built[i] == b0[i] {
      if i > |f.nonce| {
        assert built[i] == length[i - 8] == length[8 - L(f)..][i - 8 - (8 - L(f))];
      }
    }
  }

  /** The second half: the length of the header at the front of the data buffer. */
  method OpenHeader(headerLength: nat, buffer: array<byte>) returns (num: nat)
    requires buffer.Length == 16 && headerLength < 0x1_0000_0000_0000_0000
    modifies buffer
    ensures num == |LengthPrefix(headerLength)| <= 10 && buffer[..num] == LengthPrefix(headerLength)
  {
    hide BigEndian, Spliced;
    var prefix := [];
    if headerLength > 0 {
      if headerLength < 0x10000 - 0x100 {
        prefix := BigEndian(headerLength, 2);
      } else if headerLength < 0x1_0000_0000 {
        prefix := [0xff, 0xfe] + BigEndian(headerLength, 4);
      } else {
        prefix := [0xff, 0xff] + BigEndian(headerLength, 8);
      }
    }
    num := |prefix|;
    SpliceRead(buffer[..], 0, prefix);
    CopyInto(buffer, 0, prefix);
    assert buffer[..num] == buffer[..][0..num];
  }
}
