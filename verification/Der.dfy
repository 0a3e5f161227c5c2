/** DER lengths, object identifiers and unsigned integers: the printers and parsers of asn.cpp and asn.h. */
module Der {

  import opened Bits

  type octet = n: nat | n < 256

  /** What a BufferedTransformation is used for here: bytes in at one end and out at the other. */
  class ByteQueue {
    var contents: seq<octet>

    constructor ()
      ensures contents == []
    {
      contents := [];
    }

    method Put(b: octet)
      modifies this
      ensures contents == old(contents) + [b]
    {
      contents := contents + [b];
    }

    method PutAll(s: seq<octet>)
      modifies this
      ensures contents == old(contents) + s
    {
      contents := contents + s;
    }

    method Get() returns (ok: bool, b: octet)
      modifies this
      ensures ok == (old(contents) != [])
      ensures ok ==> b == old(contents)[0] && contents == old(contents)[1..]
      ensures !ok ==> contents == []
    {
      if contents == [] {
        return false, 0;
      }
      ok, b := true, contents[0];
      contents := contents[1..];
    }
  }

  // ---------- numbers in bytes ----------

  function NumBytes(n: nat): (k: nat)
    ensures k == 0 <==> n == 0
  {
    if n == 0 then 0 else 1 + NumBytes(n / 256)
  }

  function Bytes(n: nat, k: nat): (b: seq<octet>)
    ensures |b| == k
  {
    if k == 0 then [] else Bytes(n / 256, k - 1) + [n % 256]
  }

  /** The number whose bytes follow those already read into acc. */
  function FromBytes(acc: nat, b: seq<octet>): nat
    decreases |b|
  {
    if b == [] then acc else FromBytes(acc * 256 + b[0], b[1..])
  }

  lemma {:induction false} FromBytesLast(acc: nat, b: seq<octet>, last: octet)
    ensures FromBytes(acc, b + [last]) == FromBytes(acc, b) * 256 + last
    decreases |b|
  {
    if b == [] {
      assert ([last])[1..] == [] && [] + [last] == [last];
    } else {
      assert (b + [last])[1..] == b[1..] + [last];
      FromBytesLast(acc * 256 + b[0], b[1..], last);
    }
  }

  /** Enough bytes give the number back. */
  lemma {:induction false} BytesRoundTrip(n: nat, k: nat)
    requires NumBytes(n) <= k
    ensures FromBytes(0, Bytes(n, k)) == n
  {
    if k > 0 {
      BytesRoundTrip(n / 256, k - 1);
      FromBytesLast(0, Bytes(n / 256, k - 1), n % 256);
    }
  }

  lemma {:induction false} NumBytesBound(n: nat, k: nat)
    requires Shr(n, 8 * k) == 0
    ensures NumBytes(n) <= k
    decreases k
  {
    if n > 0 && k > 0 {
      ShrShr(n, 8, 8 * (k - 1));
      ShrByte(n);
      NumBytesBound(n / 256, k - 1);
    }
  }

  lemma {:induction false} NumBytesAtLeast(n: nat, k: nat)
    requires Shr(n, 8 * k) != 0
    ensures NumBytes(n) > k
    decreases k
  {
    ShrDecreases(n, 8 * k);
    if k > 0 {
      ShrShr(n, 8, 8 * (k - 1));
      ShrByte(n);
      NumBytesAtLeast(n / 256, k - 1);
    }
  }

  lemma ShrByte(n: nat)
    ensures Shr(n, 8) == n / 256
  {
    assert Pow2(8) == 256 by {
      assert Pow2(4) == 16;
    }
    SplitUnique(8, n / 256, n % 256);
  }

  lemma Shr7(n: nat)
    ensures Shr(n, 7) == n / 128
  {
    assert Pow2(7) == 128 by {
      assert Pow2(3) == 8;
    }
    SplitUnique(7, n / 128, n % 128);
  }

  /** A value of at most `bits` bits. */
  lemma WithinBits(n: nat, bits: nat)
    requires n < Pow2(bits)
    ensures Shr(n, bits) == 0
  {
    ShrBeyond(n, bits, bits);
  }

  /** BytePrecision of misc.h: a bisection for the number of bytes. */
  method BytePrecision(value: nat, size: nat) returns (r: nat)
    requires size in {4, 8} && Shr(value, 8 * size) == 0
    ensures r == NumBytes(value)
  {
    hide NumBytes, Shr;
    if value == 0 {
      NumBytesBoundZero();
      return 0;
    }
    ShrNothing(value);
    var l, h := 0, 8 * size;
    while h - l > 8
      invariant 0 <= l < h && l % 8 == 0 && h - l in {8, 16, 32, 64} && Shr(value, h) == 0 && Shr(value, l) != 0
    {
      var t := (l + h) / 2;
      if Shr(value, t) != 0 {
        l := t;
      } else {
        h := t;
      }
    }
    NumBytesBound(value, h / 8);
    NumBytesAtLeast(value, l / 8);
    return h / 8;
  }

  lemma NumBytesBoundZero()
    ensures NumBytes(0) == 0
  {
  }

  lemma ShrNothing(n: nat)
    ensures Shr(n, 0) == n
  {
  }

  /** BitPrecision of misc.h */
  method BitPrecision(value: nat) returns (r: nat)
    requires Shr(value, 32) == 0
    ensures r == BitCount(value)
  {
    hide BitCount, Shr;
    if value == 0 {
      BitCountZero();
      return 0;
    }
    ShrNothing(value);
    var l, h := 0, 32;
    while h - l > 1
      invariant 0 <= l < h && h - l in {1, 2, 4, 8, 16, 32} && Shr(value, h) == 0 && Shr(value, l) != 0
    {
      var t := (l + h) / 2;
      if Shr(value, t) != 0 {
        l := t;
      } else {
        h := t;
      }
    }
    BitCountBounds(value, h);
    return h;
  }

  lemma BitCountZero()
    ensures BitCount(0) == 0
  {
  }

  lemma {:induction false} BitCountBounds(n: nat, h: nat)
    requires h > 0 && Shr(n, h) == 0 && Shr(n, h - 1) != 0
    ensures BitCount(n) == h
  {
    ShrDecreases(n, h - 1);
    if h > 1 {
      BitCountBounds(n / 2, h - 1);
    } else {
      assert Shr(n, 1) == Shr(n / 2, 0);
    }
  }

  // ---------- lengths, section 8.1.3 of X.690 ----------

  const LWORD: nat := 0x1_0000_0000_0000_0000

  /** The bytes of a definite length, the short form when it fits. */
  function DerLength(n: nat): (b: seq<octet>)
    requires n < LWORD
  {
    if n <= 0x7f then [n] else FewBytes(n); [NumBytes(n) + 0x80] + Bytes(n, NumBytes(n))
  }

  lemma FewBytes(n: nat)
    requires n < LWORD
    ensures NumBytes(n) <= 8 && Shr(n, 64) == 0
  {
    hide NumBytes, Shr, Pow2;
    PowersOfTwo();
    WithinBits(n, 64);
    NumBytesBound(n, 8);
  }

  lemma PowersOfTwo()
    ensures Pow2(16) == 0x10000 && Pow2(32) == 0x1_0000_0000 && Pow2(64) == LWORD
  {
    SmallPowers();
    hide Pow2;
    Pow2Add(8, 8);
    Pow2Add(16, 16);
    Pow2Add(32, 32);
  }

  lemma SmallPowers()
    ensures Pow2(8) == 256
  {
    assert Pow2(4) == 16;
  }

  method DERLengthEncode(bt: ByteQueue, length: nat) returns (i: nat)
    requires length < LWORD
    modifies bt
    ensures bt.contents == old(bt.contents) + DerLength(length) && i == |DerLength(length)|
  {
    hide Bytes, NumBytes;
    if length <= 0x7f {
      bt.Put(length);
      return 1;
    }
    FewBytes(length);
    var n := BytePrecision(length, 8);
    bt.Put(n + 0x80);
    i := 1;
    var j := n;
    ghost var start := bt.contents;
    NoBytes(Shr(length, 8 * n));
    while j > 0
      invariant 0 <= j <= n && i == 1 + n - j && bt.contents == start + Bytes(Shr(length, 8 * j), n - j)
    {
      NextByte(length, j, n - j);
      bt.Put(Shr(length, 8 * (j - 1)) % 256);
      i := i + 1;
      j := j - 1;
    }
    ShrNothing(length);
  }

  lemma NoBytes(n: nat)
    ensures Bytes(n, 0) == []
  {
  }

  lemma NextByte(n: nat, j: nat, k: nat)
    requires j > 0
    ensures Bytes(Shr(n, 8 * (j - 1)), k + 1) == Bytes(Shr(n, 8 * j), k) + [Shr(n, 8 * (j - 1)) % 256]
  {
    ShrShr(n, 8 * (j - 1), 8);
    ShrByte(Shr(n, 8 * (j - 1)));
  }

  /** What the parser makes of the front of a queue. */
  datatype Length = Definite(n: nat, rest: seq<octet>) | Indefinite(rest: seq<octet>) | Truncated | Malformed

  /** Reading `count` more bytes onto acc; an eighth-byte overflow is an error. */
  function ReadLength(acc: nat, count: nat, s: seq<octet>): Length
    decreases count
  {
    if count == 0 then Definite(acc, s)
    else if acc >= 0x100_0000_0000_0000 then Malformed
    else if s == [] then Truncated
    else ReadLength(acc * 256 + s[0], count - 1, s[1..])
  }

  function ParseLength(s: seq<octet>): Length {
    if s == [] then Truncated
    else if s[0] < 0x80 then Definite(s[0], s[1..])
    else if s[0] == 0x80 then Indefinite(s[1..])
    else ReadLength(0, s[0] - 0x80, s[1..])
  }

  method BERLengthDecode(bt: ByteQueue) returns (r: Length)
    modifies bt
    ensures r == ParseLength(old(bt.contents))
    ensures r.Definite? || r.Indefinite? ==> bt.contents == r.rest
  {
    hide ReadLength;
    var ok, b := bt.Get();
    if !ok {
      return Truncated;
    }
    if b < 0x80 {
      return Definite(b, bt.contents);
    }
    var lengthBytes := b - 0x80;
    if lengthBytes == 0 {
      return Indefinite(bt.contents);
    }
    var length: nat := 0;
    ghost var whole := ReadLength(0, lengthBytes, bt.contents);
    while lengthBytes > 0
      invariant lengthBytes >= 0 && ReadLength(length, lengthBytes, bt.contents) == whole
    {
      ReadLengthStep(length, lengthBytes, bt.contents);
      lengthBytes := lengthBytes - 1;
      if length >= 0x100_0000_0000_0000 {
        return Malformed;
      }
      ok, b := bt.Get();
      if !ok {
        return Truncated;
      }
      length := length * 256 + b;
    }
    ReadNothing(length, bt.contents);
    return Definite(length, bt.contents);
  }

  lemma ReadLengthStep(acc: nat, count: nat, s: seq<octet>)
    requires count > 0
    ensures ReadLength(acc, count, s) ==
            if acc >= 0x100_0000_0000_0000 then Malformed else if s == [] then Truncated
            else ReadLength(acc * 256 + s[0], count - 1, s[1..])
  {
  }

  lemma ReadNothing(acc: nat, s: seq<octet>)
    ensures ReadLength(acc, 0, s) == Definite(acc, s)
  {
  }

  /** Reading the bytes of n: the overflow check never fires. */
  lemma {:induction false} ReadBytes(n: nat, k: nat, more: nat, s: seq<octet>)
    requires NumBytes(n) <= k && (more > 0 ==> n < 0x100_0000_0000_0000) && n < LWORD
    ensures ReadLength(0, k + more, Bytes(n, k) + s) == ReadLength(n, more, s)
    decreases k
  {
    if k == 0 {
      assert Bytes(n, 0) + s == s;
    } else {
      ReadBytes(n / 256, k - 1, more + 1, [n % 256] + s);
      assert Bytes(n, k) + s == Bytes(n / 256, k - 1) + ([n % 256] + s);
      assert ([n % 256] + s)[1..] == s;
    }
  }

  /** Every 64-bit length is read back, and exactly its own bytes are consumed. */
  lemma LengthRoundTrip(n: nat, rest: seq<octet>)
    requires n < LWORD
    ensures ParseLength(DerLength(n) + rest) == Definite(n, rest)
  {
    hide Bytes, NumBytes, ReadLength;
    var s := DerLength(n) + rest;
    if n <= 0x7f {
      assert s[1..] == rest;
    } else {
      FewBytes(n);
      SomeBytes(n);
      ReadBytes(n, NumBytes(n), 0, rest);
      assert s[1..] == Bytes(n, NumBytes(n)) + rest;
      ReadNothing(n, rest);
    }
  }

  lemma SomeBytes(n: nat)
    requires n > 0
    ensures NumBytes(n) > 0
  {
  }

  // ---------- object identifiers, section 8.19 of X.690 ----------

  const WORD: nat := 0x1_0000_0000

  const OBJECT_IDENTIFIER: octet := 6

  /** The base-128 digits of v, each marked as having another after it. */
  function Marked(v: nat): seq<octet> {
    (if v < 128 then [] else Marked(v / 128)) + [128 + v % 128]
  }

  /** An arc: the digits of v, all but the last marked. */
  function Arc(v: nat): (b: seq<octet>)
    ensures b != []
  {
    MarkedBefore(v) + [v % 128]
  }

  lemma {:induction false} BitCountShift(v: nat, k: nat)
    ensures BitCount(Shr(v, k)) == if BitCount(v) > k then BitCount(v) - k else 0
    decreases k
  {
    if k > 0 && v > 0 {
      BitCountShift(v / 2, k - 1);
    } else if k > 0 {
      BitCountShift(0, k - 1);
    }
  }

  lemma {:induction false} BitCountPositive(v: nat)
    ensures BitCount(v) == 0 <==> v == 0
  {
  }

  /** What is left after shifting by i is a single digit when no more than seven bits are above i. */
  lemma TopDigit(v: nat, i: nat)
    requires BitCount(v) <= i + 7
    ensures Shr(v, i) < 128
  {
    hide BitCount, Shr;
    BitCountShift(v, i + 7);
    BitCountPositive(Shr(v, i + 7));
    ShrShr(v, i, 7);
    Shr7(Shr(v, i));
  }

  lemma NotTopDigit(v: nat, i: nat)
    requires i >= 7 && BitCount(v) > i
    ensures Shr(v, i) > 0 && Shr(v, i - 7) >= 128 && Shr(v, i - 7) / 128 == Shr(v, i)
  {
    hide BitCount, Shr;
    BitCountShift(v, i);
    BitCountPositive(Shr(v, i));
    ShrShr(v, i - 7, 7);
    Shr7(Shr(v, i - 7));
  }

  /** RoundUpToMultipleOf(STDMAX(7U, BitPrecision(v)), 7U) - 7 */
  function FirstShift(bits: nat): nat {
    ((if bits < 7 then 7 else bits) + 6) / 7 * 7 - 7
  }

  predicate IsSevens(i: nat) { i % 7 == 0 }

  lemma SevenLess(i: nat)
    requires IsSevens(i) && i > 0
    ensures i >= 7 && IsSevens(i - 7)
  {
  }

  lemma FirstShiftIsTop(bits: nat)
    ensures IsSevens(FirstShift(bits)) && bits <= FirstShift(bits) + 7
    ensures FirstShift(bits) > 0 ==> bits > FirstShift(bits)
  {
  }

  /** OID::EncodeValue */
  method EncodeValue(bt: ByteQueue, v: nat)
    requires v < WORD
    modifies bt
    ensures bt.contents == old(bt.contents) + Arc(v)
  {
    hide BitCount, Shr, Marked, MarkedBefore, FirstShift, IsSevens, Arc;
    PowersOfTwo();
    WithinBits(v, 32);
    var bits := BitPrecision(v);
    var i: nat := FirstShift(bits);
    FirstShiftIsTop(bits);
    ghost var start := bt.contents;
    TopDigit(v, i);
    NothingMarked(start, Shr(v, i));
    while i != 0
      invariant IsSevens(i) && (i > 0 ==> BitCount(v) > i)
      invariant bt.contents == start + MarkedBefore(Shr(v, i))
      decreases i
    {
      SevenLess(i);
      NotTopDigit(v, i);
      bt.Put(128 + Shr(v, i) % 128);
      i := i - 7;
      MarkedNext(start, bt.contents, Shr(v, i + 7), Shr(v, i));
    }
    ShrNothing(v);
    bt.Put(v % 128);
    ArcEnds(start, v);
  }

  lemma ArcEnds(start: seq<octet>, v: nat)
    ensures start + MarkedBefore(v) + [v % 128] == start + Arc(v)
  {
    hide Marked;
  }

  /** The digits of v before its last. */
  function MarkedBefore(v: nat): seq<octet> {
    if v < 128 then [] else Marked(v / 128)
  }

  lemma NothingMarked(start: seq<octet>, v: nat)
    requires v < 128
    ensures start == start + MarkedBefore(v)
  {
  }

  lemma MarkedNext(start: seq<octet>, s: seq<octet>, v: nat, w: nat)
    requires w >= 128 && w / 128 == v && s == start + MarkedBefore(v) + [128 + v % 128]
    ensures s == start + MarkedBefore(w)
  {
    assert Marked(v) == MarkedBefore(v) + [128 + v % 128];
  }

  datatype Value = Value(v: nat, used: nat, rest: seq<octet>) | BadValue

  /** Reading digits onto acc, until one is not marked; a value about to pass 32 bits is an error. */
  function ParseValue(acc: nat, used: nat, s: seq<octet>): Value
    decreases |s|
  {
    if s == [] || acc >= 0x200_0000 then BadValue
    else if s[0] < 128 then Value(acc * 128 + s[0], used + 1, s[1..])
    else ParseValue(acc * 128 + (s[0] - 128), used + 1, s[1..])
  }

  /** OID::DecodeValue */
  method DecodeValue(bt: ByteQueue) returns (r: Value)
    modifies bt
    ensures r == ParseValue(0, 0, old(bt.contents)) && (r.Value? ==> bt.contents == r.rest)
  {
    hide ParseValue;
    var v: nat, i: nat := 0, 0;
    while true
      invariant ParseValue(v, i, bt.contents) == ParseValue(0, 0, old(bt.contents))
      decreases |bt.contents|
    {
      ParseValueStep(v, i, bt.contents);
      var ok, b := bt.Get();
      if !ok {
        return BadValue;
      }
      i := i + 1;
      if v >= 0x200_0000 {
        return BadValue;
      }
      v := v * 128 + b % 128;
      if b < 128 {
        return Value(v, i, bt.contents);
      }
    }
  }

  lemma ParseValueStep(acc: nat, used: nat, s: seq<octet>)
    ensures ParseValue(acc, used, s) ==
            if s == [] || acc >= 0x200_0000 then BadValue
            else if s[0] < 128 then Value(acc * 128 + s[0] % 128, used + 1, s[1..])
            else ParseValue(acc * 128 + s[0] % 128, used + 1, s[1..])
  {
  }

  /** The marked digits of u are read onto u, and the overflow check does not fire on the way. */
  lemma {:induction false} ReadMarked(u: nat, used: nat, s: seq<octet>)
    requires u < 0x200_0000
    ensures ParseValue(0, used, Marked(u) + s) == ParseValue(u, used + |Marked(u)|, s)
  {
    hide ParseValue;
    var d := 128 + u % 128;
    if u < 128 {
      assert [] + [d] == [d];
      ReadMore(0, used, d, s);
    } else {
      ReadMarked(u / 128, used, [d] + s);
      ConcatAssociates(Marked(u / 128), [d], s);
      ReadMore(u / 128, used + |Marked(u / 128)|, d, s);
    }
  }

  lemma ReadMore(acc: nat, used: nat, d: octet, s: seq<octet>)
    requires d >= 128 && acc < 0x200_0000
    ensures ParseValue(acc, used, [d] + s) == ParseValue(acc * 128 + (d - 128), used + 1, s)
  {
    assert ([d] + s)[1..] == s;
  }

  /** Every 32-bit arc is read back from its own bytes. */
  lemma ArcRoundTrip(v: nat, rest: seq<octet>)
    requires v < WORD
    ensures ParseValue(0, 0, Arc(v) + rest) == Value(v, |Arc(v)|, rest)
  {
    hide Marked, ParseValue;
    var d := v % 128;
    if v < 128 {
      assert [] + [d] == [d];
      ReadLast(0, 0, d, rest);
    } else {
      ReadMarked(v / 128, 0, [d] + rest);
      ConcatAssociates(Marked(v / 128), [d], rest);
      ReadLast(v / 128, |Marked(v / 128)|, d, rest);
    }
  }

  lemma ReadLast(acc: nat, used: nat, d: octet, rest: seq<octet>)
    requires d < 128 && acc < 0x200_0000
    ensures ParseValue(acc, used, [d] + rest) == Value(acc * 128 + d, used + 1, rest)
  {
    assert ([d] + rest)[1..] == rest;
  }

  lemma ConcatAssociates(a: seq<octet>, b: seq<octet>, c: seq<octet>)
    ensures (a + b) + c == a + (b + c)
  {
  }

  function Arcs(values: seq<nat>): seq<octet>
    decreases |values|
  {
    if values == [] then [] else Arc(values[0]) + Arcs(values[1..])
  }

  ghost predicate AreWords(values: seq<nat>) {
    forall i :: 0 <= i < |values| ==> values[i] < WORD
  }

  /** The first two arcs in one byte, as far as a byte can hold them: arithmetic of 32 bits cut to eight. */
  function FirstByte(values: seq<nat>): octet
    requires |values| >= 2
  {
    (values[0] * 40 + values[1]) % WORD % 256
  }

  function OidBody(values: seq<nat>): seq<octet>
    requires |values| >= 2
  {
    [FirstByte(values)] + Arcs(values[2..])
  }

  datatype OidResult = Oid(values: seq<nat>, rest: seq<octet>) | BadOid

  /** Arcs until the declared length is used up, which must happen exactly at the end of one. */
  function ParseArcs(values: seq<nat>, length: nat, s: seq<octet>): OidResult
    decreases length
  {
    if length == 0 then Oid(values, s)
    else
      var r := ParseValue(0, 0, s);
      if r.BadValue? || r.used > length || r.used == 0 then BadOid
      else ParseArcs(values + [r.v], length - r.used, r.rest)
  }

  function ParseOid(s: seq<octet>): OidResult {
    if s == [] || s[0] != OBJECT_IDENTIFIER then BadOid
    else
      var l := ParseLength(s[1..]);
      if !l.Definite? || l.n < 1 || l.rest == [] then BadOid
      else ParseArcs([l.rest[0] / 40, l.rest[0] % 40], l.n - 1, l.rest[1..])
  }

  lemma {:induction false} UsedPositive(acc: nat, used: nat, s: seq<octet>)
    ensures ParseValue(acc, used, s).Value? ==> ParseValue(acc, used, s).used > used
    decreases |s|
  {
    if s != [] && acc < 0x200_0000 && s[0] >= 128 {
      UsedPositive(acc * 128 + (s[0] - 128), used + 1, s[1..]);
    }
  }

  class Oid {
    var values: seq<nat>

    constructor (values: seq<nat>)
      ensures this.values == values
    {
      this.values := values;
    }

    method DEREncode(bt: ByteQueue)
      requires |values| >= 2 && AreWords(values) && |OidBody(values)| < LWORD
      modifies bt
      ensures bt.contents == old(bt.contents) + [OBJECT_IDENTIFIER] + DerLength(|OidBody(values)|) + OidBody(values)
    {
      hide DerLength, Arc;
      var temp := new ByteQueue();
      temp.Put((values[0] * 40 + values[1]) % WORD % 256);
      assert temp.contents == [FirstByte(values)] + Arcs([]);
      for i := 2 to |values|
        invariant bt.contents == old(bt.contents) && temp.contents + Arcs(values[i..]) == OidBody(values)
      {
        assert values[i..][1..] == values[i + 1..];
        ArcsStep(temp.contents, values[i..]);
        EncodeValue(temp, values[i]);
      }
      NoArcs(temp.contents, values[|values|..]);
      bt.Put(OBJECT_IDENTIFIER);
      var used := DERLengthEncode(bt, |temp.contents|);
      bt.PutAll(temp.contents);
    }

    method BERDecode(bt: ByteQueue) returns (ok: bool)
      modifies this, bt
      ensures ok == ParseOid(old(bt.contents)).Oid?
      ensures ok ==> values == ParseOid(old(bt.contents)).values && bt.contents == ParseOid(old(bt.contents)).rest
    {
      hide ParseLength, ParseArcs, ParseValue;
      var got, b := bt.Get();
      if !got || b != OBJECT_IDENTIFIER {
        return false;
      }
      var l := BERLengthDecode(bt);
      if !l.Definite? || l.n < 1 {
        return false;
      }
      got, b := bt.Get();
      if !got {
        return false;
      }
      var length: nat := l.n - 1;
      values := [b / 40, b % 40];
      ghost var whole := ParseArcs(values, length, bt.contents);
      while length > 0
        invariant ParseArcs(values, length, bt.contents) == whole
      {
        ParseArcsStep(values, length, bt.contents);
        UsedPositive(0, 0, bt.contents);
        var r := DecodeValue(bt);
        if r.BadValue? || r.used > length {
          return false;
        }
        values := values + [r.v];
        length := length - r.used;
      }
      NothingToParse(values, bt.contents);
      return true;
    }
  }

  lemma ArcsStep(front: seq<octet>, values: seq<nat>)
    requires values != []
    ensures front + Arcs(values) == (front + Arc(values[0])) + Arcs(values[1..])
  {
    hide Arc;
  }

  lemma NoArcs(front: seq<octet>, values: seq<nat>)
    requires values == []
    ensures front + Arcs(values) == front
  {
  }

  lemma ParseArcsStep(values: seq<nat>, length: nat, s: seq<octet>)
    requires length > 0
    ensures var r := ParseValue(0, 0, s);
            ParseArcs(values, length, s) ==
            if r.BadValue? || r.used > length || r.used == 0 then BadOid
            else ParseArcs(values + [r.v], length - r.used, r.rest)
  {
    hide ParseValue;
  }

  lemma NothingToParse(values: seq<nat>, s: seq<octet>)
    ensures ParseArcs(values, 0, s) == Oid(values, s)
  {
  }

  lemma {:induction false} ArcsRoundTrip(before: seq<nat>, values: seq<nat>, rest: seq<octet>)
    requires AreWords(values)
    ensures ParseArcs(before, |Arcs(values)|, Arcs(values) + rest) == Oid(before + values, rest)
    decreases |values|
  {
    hide ParseValue, Arc;
    if values == [] {
      assert Arcs(values) + rest == rest && before + values == before;
    } else {
      var arc, more := Arc(values[0]), Arcs(values[1..]);
      assert Arcs(values) + rest == arc + (more + rest);
      ArcRoundTrip(values[0], more + rest);
      ParseArcsStep(before, |Arcs(values)|, Arcs(values) + rest);
      ArcsRoundTrip(before + [values[0]], values[1..], rest);
      assert before + [values[0]] + values[1..] == before + values;
    }
  }

  function Encoded(values: seq<nat>): seq<octet>
    requires |values| >= 2 && |OidBody(values)| < LWORD
  {
    [OBJECT_IDENTIFIER] + DerLength(|OidBody(values)|) + OidBody(values)
  }

  /** What is decoded is the list of arcs with the first two replaced by quotient and remainder of the byte. */
  lemma OidDecoded(values: seq<nat>, rest: seq<octet>)
    requires |values| >= 2 && AreWords(values) && |OidBody(values)| < LWORD
    ensures var b := FirstByte(values);
            ParseOid(Encoded(values) + rest) == Oid([b / 40, b % 40] + values[2..], rest)
  {
    hide DerLength, ParseLength, ParseArcs, Arcs;
    var body := OidBody(values);
    var b := FirstByte(values);
    var s := Encoded(values) + rest;
    LengthRoundTrip(|body|, body + rest);
    assert s[1..] == DerLength(|body|) + (body + rest);
    assert (body + rest)[1..] == Arcs(values[2..]) + rest;
    ArcsRoundTrip([b / 40, b % 40], values[2..], rest);
  }

  /** An object identifier is read back exactly when its second arc is below 40 and the two together fit in a byte. */
  lemma OidRoundTripIff(values: seq<nat>, rest: seq<octet>)
    requires |values| >= 2 && AreWords(values) && |OidBody(values)| < LWORD
    ensures ParseOid(Encoded(values) + rest) == Oid(values, rest)
            <==> values[1] < 40 && values[0] * 40 + values[1] < 256
  {
    hide ParseOid, Encoded, Arcs, AreWords;
    OidDecoded(values, rest);
    var b := FirstByte(values);
    var decoded := [b / 40, b % 40] + values[2..];
    assert decoded[0] == b / 40 && decoded[1] == b % 40;
    if values[1] < 40 && values[0] * 40 + values[1] < 256 {
      assert b == values[0] * 40 + values[1];
      assert decoded == values;
    }
  }

  /** 2.48 comes back as 3.8. */
  lemma TwoFortyEight()
    ensures ParseOid(Encoded([2, 48])) == Oid([3, 8], [])
  {
    hide ParseOid, Encoded;
    assert [2, 48][2..] == [];
    assert Encoded([2, 48]) + [] == Encoded([2, 48]);
    OidDecoded([2, 48], []);
    assert [3, 8] + [2, 48][2..] == [3, 8];
  }

  // ---------- unsigned integers, section 8.3 of X.690 ----------

  const BOOLEAN: octet := 1

  /** The bytes of w, at least one. */
  function Digits(w: nat): (b: seq<octet>)
    ensures |b| > 0
  {
    Bytes(w, if w == 0 then 1 else NumBytes(w))
  }

  /** The contents of an INTEGER: its bytes, with a zero in front when the first has its high bit set. */
  function Contents(w: nat): (c: seq<octet>)
    ensures |c| > 0
  {
    if Digits(w)[0] >= 128 then [0] + Digits(w) else Digits(w)
  }

  lemma FourBytes(w: nat)
    requires w < WORD
    ensures NumBytes(w) <= 4
  {
    hide NumBytes, Shr, Pow2;
    PowersOfTwo();
    WithinBits(w, 32);
    NumBytesBound(w, 4);
  }

  lemma {:induction false} FirstByteNotZero(n: nat)
    requires n > 0
    ensures NumBytes(n) > 0 && Bytes(n, NumBytes(n))[0] > 0
  {
    if n >= 256 {
      FirstByteNotZero(n / 256);
    }
  }

  /** The contents are a non-negative number in the fewest bytes: the first nine bits are not all zeros, nor is the
      first bit a one. */
  lemma ContentsAreMinimal(w: nat)
    ensures Contents(w)[0] < 128 && (|Contents(w)| > 1 ==> Contents(w)[0] > 0 || Contents(w)[1] >= 128)
  {
    hide Bytes, NumBytes;
    if w > 0 {
      FirstByteNotZero(w);
    } else {
      ZeroDigits();
    }
  }

  lemma ZeroDigits()
    ensures Digits(0) == [0]
  {
  }

  function EncodedUnsigned(w: nat, tag: octet): seq<octet>
    requires w < WORD
  {
    ContentsLength(w);
    [tag] + DerLength(|Contents(w)|) + Contents(w)
  }

  lemma ContentsLength(w: nat)
    requires w < WORD
    ensures |Contents(w)| <= 5 && |Digits(w)| <= 4
  {
    hide NumBytes;
    FourBytes(w);
  }

  /** Any number of leading zero bytes in front of the digits of w is the number in that many bytes. */
  lemma {:induction false} LeadingZero(w: nat, k: nat)
    requires NumBytes(w) < k
    ensures Bytes(w, k)[0] == 0 && Bytes(w, k)[1..] == Bytes(w, k - 1)
    decreases k
  {
    if k > 1 {
      LeadingZero(w / 256, k - 1);
      assert Bytes(w, k)[1..] == Bytes(w / 256, k - 1)[1..] + [w % 256];
    }
  }

  /** Skipping bc leading zeros of the four bytes of w, down to one byte, leaves its digits. */
  lemma {:induction false} SkippedZeros(w: nat, k: nat, bc: nat)
    requires NumBytes(w) <= k && 1 <= bc <= k && NumBytes(w) <= bc
    ensures Bytes(w, k)[k - bc..] == Bytes(w, bc)
    decreases k
  {
    if bc < k {
      LeadingZero(w, k);
      SkippedZeros(w, k - 1, bc);
      assert Bytes(w, k)[k - bc..] == Bytes(w, k)[1..][k - 1 - bc..];
    } else {
      assert Bytes(w, k)[0..] == Bytes(w, k);
    }
  }

  /** Counting down from four bytes while the first is zero finds how many bytes w needs. */
  lemma TrimStep(w: nat, bc: nat)
    requires w < WORD && 1 <= bc <= 4 && NumBytes(w) <= bc
    ensures Bytes(w, bc)[0] == 0 && bc > 1 ==> NumBytes(w) < bc
    ensures Bytes(w, bc)[0] != 0 || bc == 1 ==> Bytes(w, bc) == Digits(w)
  {
    if NumBytes(w) == bc {
      FirstByteNotZero(w);
    } else {
      LeadingZero(w, bc);
    }
  }

  /** DEREncodeUnsigned for 32 bits: the bytes of w are put behind a zero in buf, and bc counts how many of them
      are needed. */
  method DEREncodeUnsigned(out: ByteQueue, w: nat, asnTag: octet) returns (n: nat)
    requires w < WORD
    modifies out
    ensures asnTag != BOOLEAN ==>
      out.contents == old(out.contents) + EncodedUnsigned(w, asnTag) && n == |EncodedUnsigned(w, asnTag)|
    ensures asnTag == BOOLEAN ==> out.contents == old(out.contents) + [BOOLEAN, 1, if w != 0 then 0xff else 0] && n == 3
  {
    hide Bytes, NumBytes, Digits;
    var content: seq<octet>;
    if asnTag == BOOLEAN {
      content := [if w != 0 then 0xff else 0];
      OneByteLength();
    } else {
      FourBytes(w);
      ContentsLength(w);
      content := TrimmedContents(w);
    }
    out.Put(asnTag);
    var lengthBytes := DERLengthEncode(out, |content|);
    out.PutAll(content);
    n := 1 + lengthBytes + |content|;
  }

  lemma OneByteLength()
    ensures DerLength(1) == [1]
  {
  }

  method TrimmedContents(w: nat) returns (content: seq<octet>)
    requires w < WORD && NumBytes(w) <= 4
    ensures content == Contents(w)
  {
    hide Bytes, NumBytes, Digits;
    var buf := [0] + Bytes(w, 4);
    var bc := 4;
    assert buf[5 - 4..] == Bytes(w, 4);
    while bc > 1 && buf[5 - bc] == 0
      invariant 1 <= bc <= 4 && NumBytes(w) <= bc && buf[5 - bc..] == Bytes(w, bc)
    {
      assert buf[5 - bc..][0] == buf[5 - bc];
      TrimStep(w, bc);
      LeadingZero(w, bc);
      assert buf[5 - (bc - 1)..] == buf[5 - bc..][1..];
      bc := bc - 1;
    }
    assert buf[5 - bc..][0] == buf[5 - bc];
    TrimStep(w, bc);
    ZeroBefore(w, buf, bc);
    if buf[5 - bc] >= 128 {
      bc := bc + 1;
    }
    content := buf[5 - bc..];
  }

  /** When all four bytes are in use the byte before them is the zero that buf starts with, and otherwise one of
      those that were skipped. */
  lemma ZeroBefore(w: nat, buf: seq<octet>, bc: nat)
    requires |buf| == 5 && 1 <= bc <= 4 && buf == [0] + Bytes(w, 4) && NumBytes(w) <= bc
    ensures buf[4 - bc..] == [0] + buf[5 - bc..]
  {
    hide Bytes, NumBytes;
    if bc < 4 {
      SkippedZeros(w, 4, bc + 1);
      LeadingZero(w, bc + 1);
      assert buf[4 - bc] == Bytes(w, 4)[3 - bc] == Bytes(w, 4)[4 - (bc + 1)..][0];
    }
  }

  datatype Unsigned = Unsigned(w: nat, rest: seq<octet>) | BadUnsigned

  /** Leading zeros are dropped only as long as there are more than four bytes. */
  function Stripped(b: seq<octet>): (r: seq<octet>)
    decreases |b|
  {
    if |b| > 4 && b[0] == 0 then Stripped(b[1..]) else b
  }

  /** An indefinite length leaves the count of the caller unset; it is taken as an error here. */
  function ParseUnsigned(s: seq<octet>, tag: octet, minValue: nat, maxValue: nat): Unsigned {
    if s == [] || s[0] != tag then BadUnsigned
    else
      var l := ParseLength(s[1..]);
      if !l.Definite? || l.n > |l.rest| || |Stripped(l.rest[..l.n])| > 4 then BadUnsigned
      else
        var w := FromBytes(0, Stripped(l.rest[..l.n]));
        if w < minValue || w > maxValue then BadUnsigned else Unsigned(w, l.rest[l.n..])
  }

  method BERDecodeUnsigned(input: ByteQueue, asnTag: octet, minValue: nat, maxValue: nat) returns (r: Unsigned)
    modifies input
    ensures r == ParseUnsigned(old(input.contents), asnTag, minValue, maxValue)
    ensures r.Unsigned? ==> input.contents == r.rest
  {
    hide ParseLength, Stripped, FromBytes;
    var ok, b := input.Get();
    if !ok || b != asnTag {
      return BadUnsigned;
    }
    var l := BERLengthDecode(input);
    if !l.Definite? || l.n > |input.contents| {
      return BadUnsigned;
    }
    var bc := l.n;
    var buf := input.contents[..bc];
    input.contents := input.contents[bc..];
    var ptr := StripZeros(buf);
    if |ptr| > 4 {
      return BadUnsigned;
    }
    var w := Accumulate(ptr);
    if w < minValue || w > maxValue {
      return BadUnsigned;
    }
    return Unsigned(w, input.contents);
  }

  method StripZeros(buf: seq<octet>) returns (ptr: seq<octet>)
    ensures ptr == Stripped(buf)
  {
    ptr := buf;
    while |ptr| > 4 && ptr[0] == 0
      invariant Stripped(ptr) == Stripped(buf)
      decreases |ptr|
    {
      ptr := ptr[1..];
    }
  }

  /** w = (w << 8) | ptr[i], which four bytes cannot overflow */
  method Accumulate(ptr: seq<octet>) returns (w: nat)
    requires |ptr| <= 4
    ensures w == FromBytes(0, ptr) && w < WORD
  {
    w := 0;
    assert ptr[0..] == ptr;
    for i := 0 to |ptr|
      invariant FromBytes(w, ptr[i..]) == FromBytes(0, ptr)
      invariant w < Top(i)
    {
      assert ptr[i..][1..] == ptr[i + 1..];
      w := w * 256 + ptr[i];
    }
  }

  function Top(i: nat): nat {
    match i
    case 0 => 1
    case 1 => 0x100
    case 2 => 0x10000
    case 3 => 0x100_0000
    case _ => 0x1_0000_0000
  }

  /** Every 32-bit value within the bounds is read back, and exactly its own bytes are consumed. */
  lemma UnsignedRoundTrip(w: nat, tag: octet, minValue: nat, maxValue: nat, rest: seq<octet>)
    requires w < WORD && minValue <= w <= maxValue
    ensures ParseUnsigned(EncodedUnsigned(w, tag) + rest, tag, minValue, maxValue) == Unsigned(w, rest)
  {
    hide Bytes, NumBytes, ParseLength, DerLength, FromBytes, Stripped, Digits, Contents;
    var c := Contents(w);
    var s := EncodedUnsigned(w, tag) + rest;
    ContentsLength(w);
    assert s[1..] == DerLength(|c|) + (c + rest);
    LengthRoundTrip(|c|, c + rest);
    assert (c + rest)[..|c|] == c && (c + rest)[|c|..] == rest;
    ContentsReadBack(w);
  }

  /** At most one zero is in front of the digits; whether or not it is stripped, the value is the same. */
  lemma ContentsReadBack(w: nat)
    requires w < WORD
    ensures |Stripped(Contents(w))| <= 4 && FromBytes(0, Stripped(Contents(w))) == w
  {
    hide Bytes, NumBytes, Digits;
    var d := Digits(w);
    ContentsLength(w);
    DigitsRoundTrip(w);
    assert ([0] + d)[1..] == d;
    ZeroInFront(d);
  }

  lemma DigitsRoundTrip(w: nat)
    ensures FromBytes(0, Digits(w)) == w
  {
    hide Bytes, FromBytes;
    BytesRoundTrip(w, if w == 0 then 1 else NumBytes(w));
  }

  lemma ZeroInFront(d: seq<octet>)
    ensures FromBytes(0, [0] + d) == FromBytes(0, d)
  {
    assert ([0] + d)[1..] == d;
  }
}
