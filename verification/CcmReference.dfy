/** The blocks of CCM read back as sections 2.2 and 2.3 of RFC 3610 describe them, and the message in closed form. */
module CcmReference {

  import opened AesBlock
  import opened AuthEnc
  import opened BlockCiphers
  import opened CbcMacs
  import opened CcmMode
  import opened MacReference
  import opened Numerals

  // ---------- the first block ----------

  /** b is the first block: the flags, the nonce and the length of the message. */
  ghost predicate IsFirstBlock(b: seq<byte>, digestSize: nat, nonce: seq<byte>, headerLength: nat, messageLength: nat) {
    && |b| == 16 && |nonce| <= 15
    && var flags := b[0] as nat;
    && flags < 128 && (flags / 64 == 1 <==> headerLength > 0)
    && flags / 8 % 8 * 2 + 2 == digestSize && flags % 8 + 1 == 15 - |nonce|
    && b[1..1 + |nonce|] == nonce && FromBigEndian(b[1 + |nonce|..]) == messageLength
  }

  lemma FlagsAsNumber(f: Format)
    requires IsFormat(f)
    ensures Flags(f) as nat == (if f.headerLength > 0 then 64 else 0) + 8 * ((f.digestSize - 2) / 2) + (14 - |f.nonce|)
  {
    hide Power256;
    ByteAndBack((if f.headerLength > 0 then 64 else 0) + 8 * ((f.digestSize - 2) / 2) + (L(f) - 1));
  }

  lemma FlagFields(flags: nat, a: nat, m: nat, l: nat)
    requires a < 2 && m < 8 && l < 8 && flags == 64 * a + 8 * m + l
    ensures flags < 128 && flags / 64 == a && flags / 8 % 8 == m && flags % 8 == l
  {
  }

  lemma FlagsReadBack(f: Format)
    requires IsFormat(f)
    ensures var flags := Flags(f) as nat;
            && flags < 128 && (flags / 64 == 1 <==> f.headerLength > 0)
            && flags / 8 % 8 * 2 + 2 == f.digestSize && flags % 8 + 1 == 15 - |f.nonce|
  {
    hide Flags, Power256;
    FlagsAsNumber(f);
    FlagFields(Flags(f) as nat, if f.headerLength > 0 then 1 else 0, (f.digestSize - 2) / 2, 14 - |f.nonce|);
  }

  /** The block that the project encrypts first carries what it should. */
  lemma B0IsFirstBlock(f: Format)
    requires IsFormat(f)
    ensures IsFirstBlock(B0(f), f.digestSize, f.nonce, f.headerLength, f.messageLength)
  {
    hide Flags, Power256, BigEndian, FromBigEndian;
    FlagsReadBack(f);
    BigEndianRoundTrip(f.messageLength, L(f));
    var b := B0(f);
    assert b[1..1 + |f.nonce|] == f.nonce && b[1 + |f.nonce|..] == BigEndian(f.messageLength, L(f));
  }

  /** And no other block does. */
  lemma FirstBlockIsUnique(b: seq<byte>, d: seq<byte>, digestSize: nat, nonce: seq<byte>, headerLength: nat,
                           messageLength: nat)
    requires IsFirstBlock(b, digestSize, nonce, headerLength, messageLength)
    requires IsFirstBlock(d, digestSize, nonce, headerLength, messageLength)
    ensures b == d
  {
    hide FromBigEndian;
    var n := 1 + |nonce|;
    SameFlags(b[0], d[0]);
    ValueOfBlock(b[n..]);
    ValueOfBlock(d[n..]);
    assert b == [b[0]] + b[1..n] + b[n..] && d == [d[0]] + d[1..n] + d[n..];
  }

  lemma SameFlags(b: byte, d: byte)
    requires b as nat < 128 && d as nat < 128 && (b as nat / 64 == 1 <==> d as nat / 64 == 1)
    requires b as nat / 8 % 8 == d as nat / 8 % 8 && b as nat % 8 == d as nat % 8
    ensures b == d
  {
    SameNumber(b as nat, d as nat);
    ByteIsSmall(b);
    ByteIsSmall(d);
  }

  lemma SameNumber(b: nat, d: nat)
    requires b < 128 && d < 128 && (b / 64 == 1 <==> d / 64 == 1) && b / 8 % 8 == d / 8 % 8 && b % 8 == d % 8
    ensures b == d
  {
  }

  // ---------- the length in front of the header ----------

  /** The length that bytes begin with, read by its first two bytes; nothing when they start none. */
  function ParsePrefix(s: seq<byte>): (nat, nat) {
    if |s| < 2 then (0, 0)
    else
      var v := FromBigEndian(s[..2]);
      if v < 0xff00 then (v, 2)
      else if v == 0xfffe && |s| >= 6 then (FromBigEndian(s[2..6]), 6)
      else if v == 0xffff && |s| >= 10 then (FromBigEndian(s[2..10]), 10)
      else (0, 0)
  }

  lemma PrefixReadBack(n: nat, rest: seq<byte>)
    requires 0 < n < 0x1_0000_0000_0000_0000
    ensures ParsePrefix(LengthPrefix(n) + rest) == (n, |LengthPrefix(n)|)
  {
    hide BigEndian, FromBigEndian, Power256;
    Powers();
    var s := LengthPrefix(n) + rest;
    if n < 0xff00 {
      BigEndianRoundTrip(n, 2);
      assert s[..2] == BigEndian(n, 2);
    } else if n < 0x1_0000_0000 {
      BigEndianRoundTrip(n, 4);
      Markers();
      assert s[..2] == [0xff, 0xfe] && s[2..6] == BigEndian(n, 4);
    } else {
      BigEndianRoundTrip(n, 8);
      Markers();
      assert s[..2] == [0xff, 0xff] && s[2..10] == BigEndian(n, 8);
    }
  }

  lemma Powers()
    ensures Power256(2) == 0x1_0000 && Power256(4) == 0x1_0000_0000 && Power256(8) == 0x1_0000_0000_0000_0000
  {
    assert Power256(2) == 0x1_0000;
    assert Power256(4) == 0x1_0000_0000;
    assert Power256(6) == 0x1_0000_0000_0000;
  }

  lemma Markers()
    ensures FromBigEndian([0xff, 0xfe]) == 0xfffe && FromBigEndian([0xff, 0xff]) == 0xffff
  {
    assert [0xff as byte, 0xfe][..1] == [0xff] && [0xff as byte, 0xff][..1] == [0xff] && [0xff as byte][..0] == [];
  }

  // ---------- the blocks that are authenticated ----------

  lemma {:induction false} PaddedIsZeroFilled(size: nat, m: seq<byte>)
    requires size > 0
    ensures PaddedTo(size, m) == ZeroFilled(size, m)
    decreases |m|
  {
    hide Missing;
    if m == [] {
      NothingMissing(size);
    } else if |m| <= size {
      MissingWithin(size, |m|);
    } else {
      MissingAfterBlock(size, |m|);
      PaddedIsZeroFilled(size, m[size..]);
      assert m == m[..size] + m[size..];
    }
  }

  /** What is authenticated, in closed form: the first block, and the header behind its length and the message, each
      filled up with zeros. */
  lemma FormattedIs(f: Format, header: seq<byte>, message: seq<byte>)
    requires IsFormat(f)
    ensures Formatted(f, header, message)
            == B0(f) + ZeroFilled(16, LengthPrefix(f.headerLength) + header) + ZeroFilled(16, message)
  {
    hide B0, LengthPrefix, PaddedTo, ZeroFilled, IsFormat;
    PaddedIsZeroFilled(16, LengthPrefix(f.headerLength) + header);
    PaddedIsZeroFilled(16, message);
  }

  /** T is the last block of the chain over them. */
  lemma TIsStandard(c: BlockCipher, f: Format, header: seq<byte>, message: seq<byte>)
    requires IsBlockCipher(c) && c.size == 16 && IsFormat(f)
    ensures |Formatted(f, header, message)| % 16 == 0
    ensures T(c, f, header, message) == LastOfChain(c, Formatted(f, header, message))
  {
    hide IsBlockCipher, B0, LengthPrefix, ZeroFilled, Chained, LastOfChain, IsFormat, Formatted;
    FormattedIs(f, header, message);
    WholeSum(B0(f), ZeroFilled(16, LengthPrefix(f.headerLength) + header), ZeroFilled(16, message));
    ChainedIsLast(c, Formatted(f, header, message));
  }

  lemma WholeSum(a: seq<byte>, b: seq<byte>, c: seq<byte>)
    requires |a| % 16 == 0 && |b| % 16 == 0 && |c| % 16 == 0
    ensures |a + b + c| % 16 == 0
  {
  }

  /** Header and message of the lengths that were declared. */
  predicate Matches(f: Format, header: seq<byte>, message: seq<byte>) {
    IsFormat(f) && |header| == f.headerLength && |message| == f.messageLength
  }

  lemma SameFirstBlock(f: Format, g: Format)
    requires IsFormat(f) && IsFormat(g) && B0(f) == B0(g)
    ensures f.digestSize == g.digestSize && f.nonce == g.nonce && f.messageLength == g.messageLength
    ensures f.headerLength > 0 <==> g.headerLength > 0
  {
    hide B0, FromBigEndian, Power256;
    B0IsFirstBlock(f);
    B0IsFirstBlock(g);
  }

  /** The authenticated blocks determine the parameters, the header and the message. */
  lemma FormattedIsInjective(f: Format, header: seq<byte>, message: seq<byte>, g: Format, otherHeader: seq<byte>,
                             otherMessage: seq<byte>)
    requires Matches(f, header, message) && Matches(g, otherHeader, otherMessage)
    requires Formatted(f, header, message) == Formatted(g, otherHeader, otherMessage)
    ensures f == g && header == otherHeader && message == otherMessage
  {
    hide B0, LengthPrefix, ZeroFilled, Power256, Formatted;
    FormattedIs(f, header, message);
    FormattedIs(g, otherHeader, otherMessage);
    var x, y := ZeroFilled(16, LengthPrefix(f.headerLength) + header), ZeroFilled(16, message);
    var z, t := ZeroFilled(16, LengthPrefix(g.headerLength) + otherHeader), ZeroFilled(16, otherMessage);
    var whole, other := B0(f) + x + y, B0(g) + z + t;
    assert whole[..16] == B0(f) && other[..16] == B0(g) && whole[16..] == x + y && other[16..] == z + t;
    SameFirstBlock(f, g);
    SameHeaders(f.headerLength, header, y, g.headerLength, otherHeader, t);
    assert x == z;
    assert (x + y)[|x|..] == y && (z + t)[|z|..] == t;
    SameFilled(message, otherMessage);
  }

  lemma SameFilled(m: seq<byte>, n: seq<byte>)
    requires |m| == |n| && ZeroFilled(16, m) == ZeroFilled(16, n)
    ensures m == n
  {
    hide Missing;
    assert ZeroFilled(16, m)[..|m|] == m && ZeroFilled(16, n)[..|n|] == n;
  }

  lemma SameHeaders(n: nat, header: seq<byte>, rest: seq<byte>, k: nat, other: seq<byte>, otherRest: seq<byte>)
    requires |header| == n < 0x1_0000_0000_0000_0000 && |other| == k < 0x1_0000_0000_0000_0000 && (n > 0 <==> k > 0)
    requires ZeroFilled(16, LengthPrefix(n) + header) + rest == ZeroFilled(16, LengthPrefix(k) + other) + otherRest
    ensures n == k && header == other
  {
    hide LengthPrefix, ParsePrefix, ZeroFilled;
    if n > 0 {
      var tail := HeaderComesFirst(n, header, rest);
      var otherTail := HeaderComesFirst(k, other, otherRest);
      PrefixReadBack(n, header + tail);
      PrefixReadBack(k, other + otherTail);
      HeaderAt(LengthPrefix(n), header, tail);
      HeaderAt(LengthPrefix(k), other, otherTail);
    }
  }

  lemma HeaderComesFirst(n: nat, header: seq<byte>, rest: seq<byte>) returns (tail: seq<byte>)
    ensures ZeroFilled(16, LengthPrefix(n) + header) + rest == LengthPrefix(n) + (header + tail)
  {
    hide LengthPrefix, Missing;
    var x := LengthPrefix(n) + header;
    tail := (ZeroFilled(16, x) + rest)[|x|..];
    assert ZeroFilled(16, x) + rest == x + tail;
  }

  lemma HeaderAt(prefix: seq<byte>, header: seq<byte>, tail: seq<byte>)
    ensures (prefix + (header + tail))[|prefix|..][..|header|] == header
  {
  }

  // ---------- the keystream ----------

  /** A_i of section 2.3: flags that hold only the size of the counter, the nonce, and the number i. */
  ghost predicate IsCounterBlock(b: seq<byte>, nonce: seq<byte>, i: nat) {
    |b| == 16 && |nonce| <= 15 && b[0] as nat + 1 == 15 - |nonce| && b[1..1 + |nonce|] == nonce
    && FromBigEndian(b[1 + |nonce|..]) == i
  }

  lemma CounterBlockIsFirst(nonce: seq<byte>)
    requires 7 <= |nonce| <= 13
    ensures IsCounterBlock(CounterBlock(nonce), nonce, 0)
  {
    hide FromBigEndian;
    ByteAndBack(14 - |nonce|);
    var b := CounterBlock(nonce);
    assert b[1..1 + |nonce|] == nonce && b[1 + |nonce|..] == Zeroes(15 - |nonce|);
    ZeroInBytes(15 - |nonce|);
    ZeroIsSmall(15 - |nonce|);
    BigEndianRoundTrip(0, 15 - |nonce|);
  }

  lemma ZeroIsSmall(k: nat)
    ensures 0 < Power256(k)
  {
  }
}
