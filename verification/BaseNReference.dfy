/** Base-N coding bit by bit: which bit of the message each bit of a character is, and back. */
module BaseNReference {

  import opened AesBlock
  import opened BaseBits
  import opened BaseNDecoding
  import opened BaseNEncoding
  import opened Gf128
  import opened Gf128Reference
  import opened GcmBits
  import opened Numerals

  // ---------- encoding ----------

  /** Bit t of a message, the most significant of each byte first; zeros follow the last. */
  predicate MessageBit(m: seq<byte>, t: nat) {
    t < 8 * |m| && m[t / 8] & BIT_MASKS[t % 8] != 0
  }

  predicate BitAt(bits: Bits, t: nat) { t < |bits| && bits[t] }

  lemma MessageBitIs(m: seq<byte>, t: nat)
    ensures MessageBit(m, t) == BitAt(BitsOf(m), t)
  {
    hide BitsOf;
    if t < 8 * |m| {
      CoefficientOfByte(m, t / 8, t % 8);
    }
  }

  lemma ValuesOfMore(n: nat, bits: Bits)
    requires 0 < n <= 8 && |bits| >= n
    ensures EncodedValues(n, bits) == [Val(bits[..n])] + EncodedValues(n, bits[n..])
  {
    hide Val;
  }

  lemma ValuesOfLast(n: nat, bits: Bits)
    requires 0 < n <= 8 && |bits| < n
    ensures EncodedValues(n, bits) == if bits == [] then [] else [Val(bits + Zeros(n - |bits|))]
  {
    hide Val;
  }

  /** As many characters as it takes for all the bits. */
  lemma {:induction false} ValueCount(n: nat, bits: Bits)
    requires 0 < n <= 8
    ensures |bits| <= n * |EncodedValues(n, bits)| < |bits| + n
    decreases |bits|
  {
    hide EncodedValues, Val;
    if |bits| < n {
      ValuesOfLast(n, bits);
    } else {
      ValuesOfMore(n, bits);
      ValueCount(n, bits[n..]);
      assert n * (1 + |EncodedValues(n, bits[n..])|) == n + n * |EncodedValues(n, bits[n..])|;
    }
  }

  /** Bit j of a byte, the most significant first. */
  predicate ByteBit(b: byte, j: nat)
    requires j < 8
  {
    b & BIT_MASKS[j] != 0
  }

  lemma BitOfVal(x: Bits, j: nat)
    requires |x| <= 8 && j < 8
    ensures ByteBit(Val(x), j) == (j >= 8 - |x| && x[j - (8 - |x|)])
  {
    hide Val, Bits8;
    BitsOfVal(x);
    BitOfByte(Val(x), j);
  }

  lemma {:induction false} BitOfValue(n: nat, bits: Bits, k: nat, j: nat)
    requires 0 < n <= 8 && k < |EncodedValues(n, bits)| && j < 8
    ensures ByteBit(EncodedValues(n, bits)[k], j) == (j >= 8 - n && BitAt(bits, n * k + (j - (8 - n))))
    decreases |bits|
  {
    hide EncodedValues, Val, BitAt, ByteBit;
    if |bits| < n {
      ValuesOfLast(n, bits);
      assert k == 0;
      BitOfVal(bits + Zeros(n - |bits|), j);
      FirstBits(n, bits, bits + Zeros(n - |bits|), j);
    } else {
      ValuesOfMore(n, bits);
      if k == 0 {
        BitOfVal(bits[..n], j);
        FirstBits(n, bits, bits[..n], j);
      } else {
        BitOfValue(n, bits[n..], k - 1, j);
        assert n * k == n * (k - 1) + n;
        if j >= 8 - n {
          LaterBit(bits, n, n * (k - 1) + (j - (8 - n)));
        }
      }
    }
  }

  lemma FirstBits(n: nat, bits: Bits, x: Bits, j: nat)
    requires 0 < n <= 8 && j < 8
    requires x == (if |bits| < n then bits + Zeros(n - |bits|) else bits[..n])
    ensures j >= 8 - n ==> x[j - (8 - n)] == BitAt(bits, j - (8 - n))
  {
  }

  lemma LaterBit(bits: Bits, n: nat, t: nat)
    requires n <= |bits|
    ensures BitAt(bits, n + t) == BitAt(bits[n..], t)
  {
  }

  /** Bit j of character k, counted in the low n bits of its value, is bit n k + j of the message; the bits above are
      zero. */
  lemma EncodedBit(n: nat, m: seq<byte>, k: nat, j: nat)
    requires 0 < n <= 7 && k < |EncodedValues(n, BitsOf(m))| && j < 8
    ensures (EncodedValues(n, BitsOf(m))[k] & BIT_MASKS[j] != 0)
            == (j >= 8 - n && MessageBit(m, n * k + (j - (8 - n))))
    ensures 8 * |m| <= n * |EncodedValues(n, BitsOf(m))| < 8 * |m| + n
  {
    hide EncodedValues, BitsOf, MessageBit;
    BitOfValue(n, BitsOf(m), k, j);
    if j >= 8 - n {
      MessageBitIs(m, n * k + (j - (8 - n)));
    }
    ValueCount(n, BitsOf(m));
  }

  /** The padding is the least that completes a block. */
  lemma {:induction false} PadCompletes(size: nat, count: nat)
    requires size > 0
    ensures (count + PadCount(size, count)) % size == 0 && PadCount(size, count) < size
    decreases count
  {
    if count == 0 {
      RemainderIs(0, size, 0, 0);
    } else if count <= size {
      RemainderIs(size, size, 1, 0);
    } else {
      PadCompletes(size, count - size);
      OneBlockMore(size, count - size + PadCount(size, count - size));
    }
  }

  lemma OneBlockMore(size: nat, n: nat)
    requires size > 0 && n % size == 0
    ensures (n + size) % size == 0
  {
    assert n + size == size * (n / size + 1);
    RemainderIs(n + size, size, n / size + 1, 0);
  }

  // ---------- decoding ----------

  /** The values of the characters that are not skipped. */
  function Kept(lookup: Lookup, s: seq<byte>): seq<int>
    requires |lookup| == 256
  {
    if s == [] then []
    else Kept(lookup, s[..|s| - 1]) + (if lookup[s[|s| - 1] as nat] < 0 then [] else [lookup[s[|s| - 1] as nat]])
  }

  ghost predicate AreSmall(n: nat, values: seq<int>) {
    n <= 7 && forall i {:trigger values[i]} :: 0 <= i < |values| ==> 0 <= values[i] < Pow(n)
  }

  lemma {:induction false} KeptAreSmall(lookup: Lookup, n: nat, s: seq<byte>)
    requires IsLookup(lookup, n)
    ensures AreSmall(n, Kept(lookup, s))
  {
    if s != [] {
      KeptAreSmall(lookup, n, s[..|s| - 1]);
    }
  }

  lemma {:induction false} DecodedBitAt(lookup: Lookup, n: nat, s: seq<byte>, q: nat, r: nat)
    requires IsLookup(lookup, n) && q < |Kept(lookup, s)| && r < n
    ensures |DecodedBits(lookup, n, s)| == n * |Kept(lookup, s)| && n * q + r < n * |Kept(lookup, s)|
    ensures 0 <= Kept(lookup, s)[q] < 128
    ensures DecodedBits(lookup, n, s)[n * q + r] == ByteBit(Kept(lookup, s)[q] as byte, 8 - n + r)
    decreases |s|
  {
    hide ValueBits, DecodedBits, ByteBit, Pow;
    DecodedLength(lookup, n, s);
    PlaceWithin(n, q, r, |Kept(lookup, s)|);
    var front, last := s[..|s| - 1], s[|s| - 1];
    assert s == front + [last];
    DecodedInTwo(lookup, n, front, [last]);
    DecodedLength(lookup, n, front);
    LastCharacter(lookup, n, last);
    if q < |Kept(lookup, front)| {
      DecodedBitAt(lookup, n, front, q, r);
    } else {
      BitOfLast(n, lookup[last as nat] as byte, r);
    }
  }

  lemma LastCharacter(lookup: Lookup, n: nat, c: byte)
    requires IsLookup(lookup, n)
    ensures lookup[c as nat] < 128
    ensures DecodedBits(lookup, n, [c])
            == if lookup[c as nat] < 0 then [] else ValueBits(n, lookup[c as nat] as byte)
  {
    hide ValueBits;
    SmallPower(n);
    assert [c][1..] == [];
  }

  lemma BitOfLast(n: nat, v: byte, r: nat)
    requires r < n <= 7
    ensures ValueBits(n, v)[r] == ByteBit(v, 8 - n + r)
  {
    hide Bits8;
    BitOfByte(v, 8 - n + r);
  }

  lemma PlaceWithin(n: nat, q: nat, r: nat, count: nat)
    requires q < count && r < n
    ensures n * q + r < n * count
  {
    AtLeast(n, count - q);
    assert n * count == n * q + n * (count - q);
  }

  lemma {:induction false} DecodedLength(lookup: Lookup, n: nat, s: seq<byte>)
    requires IsLookup(lookup, n)
    ensures n <= 7 && |DecodedBits(lookup, n, s)| == n * |Kept(lookup, s)|
    decreases |s|
  {
    hide ValueBits;
    if s != [] {
      var front, last := s[..|s| - 1], s[|s| - 1];
      assert s == front + [last];
      DecodedInTwo(lookup, n, front, [last]);
      DecodedLength(lookup, n, front);
      LastCharacter(lookup, n, last);
      assert n * (|Kept(lookup, front)| + 1) == n * |Kept(lookup, front)| + n;
    }
  }

  lemma {:induction false} WholeBytes(bits: Bits, i: nat, j: nat)
    requires 8 * i + 8 <= |bits| && j < 8
    ensures |Chars(8, bits)| == |bits| / 8 && ByteBit(Chars(8, bits)[i], j) == bits[8 * i + j]
    decreases |bits|
  {
    hide Val, ByteBit;
    ByteCount(bits);
    if i == 0 {
      BitOfVal(bits[..8], j);
    } else {
      WholeBytes(bits[8..], i - 1, j);
    }
  }

  lemma {:induction false} ByteCount(bits: Bits)
    ensures |Chars(8, bits)| == |bits| / 8
    decreases |bits|
  {
    hide Val;
    if |bits| >= 8 {
      ByteCount(bits[8..]);
    }
  }

  /** As many whole bytes as the characters that are not skipped have bits for. */
  lemma DecodedSize(lookup: Lookup, n: nat, s: seq<byte>)
    requires IsLookup(lookup, n)
    ensures |Decoded(lookup, n, s)| == n * |Kept(lookup, s)| / 8
  {
    hide DecodedBits, Chars;
    DecodedLength(lookup, n, s);
    ByteCount(DecodedBits(lookup, n, s));
  }

  /** Bit j of byte i is bit r, counted in its low n bits, of the value of character q, where n q + r = 8 i + j. */
  lemma DecodedBit(lookup: Lookup, n: nat, s: seq<byte>, i: nat, j: nat, q: nat, r: nat)
    requires IsLookup(lookup, n) && i < |Decoded(lookup, n, s)| && j < 8 && r < n && n * q + r == 8 * i + j
    ensures q < |Kept(lookup, s)| && 0 <= Kept(lookup, s)[q] < 128
    ensures (Decoded(lookup, n, s)[i] & BIT_MASKS[j] != 0)
            == (Kept(lookup, s)[q] as byte & BIT_MASKS[8 - n + r] != 0)
  {
    hide DecodedBits, Chars, Kept, Pow;
    DecodedSize(lookup, n, s);
    DecodedLength(lookup, n, s);
    CharacterExists(n, |Kept(lookup, s)|, q, r);
    DecodedBitAt(lookup, n, s, q, r);
    WholeBytes(DecodedBits(lookup, n, s), i, j);
  }

  lemma CharacterExists(n: nat, count: nat, q: nat, r: nat)
    requires n * q + r < n * count
    ensures q < count
  {
    if q >= count {
      Monotone(n, count, q);
    }
  }

  lemma Monotone(n: nat, a: nat, b: nat)
    requires a <= b
    ensures n * a <= n * b
  {
    assert n * b == n * a + n * (b - a);
  }

  // ---------- letters ----------

  /** Without regard to case a character stands for itself, and a letter also for the one that differs from it in the
      case bit of ASCII alone. */
  lemma LettersMatch(a: byte, c: byte)
    ensures Matches(a, c, true) <==> c == a || (c == a ^ 0x20 && 0x41 <= a & 0xdf <= 0x5a)
    ensures Matches(a, c, false) <==> c == a
  {
  }

  // ---------- grouping ----------

  /** s in pieces of the size, with the separator between them. */
  function Separated(size: nat, separator: seq<byte>, s: seq<byte>): seq<byte>
    requires size > 0
    decreases |s|
  {
    if |s| <= size then s else s[..size] + separator + Separated(size, separator, s[size..])
  }

  lemma {:induction false} GroupedIsSeparated(size: nat, separator: seq<byte>, s: seq<byte>)
    requires size > 0
    ensures Grouped(size, separator, 0, s) == Separated(size, separator, s)
    decreases |s|
  {
    hide Grouped, LastGroup;
    if |s| <= size {
      GroupedShort(size, separator, 0, s);
    } else {
      var first, rest := s[..size], s[size..];
      assert s == first + rest;
      GroupedInTwo(size, separator, 0, first, rest);
      GroupedShort(size, separator, 0, first);
      GroupedFull(size, separator, rest);
      GroupedIsSeparated(size, separator, rest);
      var others := Separated(size, separator, rest);
      assert first + (separator + others) == first + separator + others;
    }
  }
}
