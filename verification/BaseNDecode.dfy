/** BaseN_Decoder and Grouper of basecode.cpp, and the round trip through all three filters. */
module BaseNDecoding {

  import opened AesBlock
  import opened BaseBits
  import opened BaseNEncoding
  import opened Buffers
  import opened Gf128
  import opened GcmBits

  // ---------- the decoding as a function of the characters ----------

  /** The decoding table: a value for each character, or -1 for one to be skipped. */
  type Lookup = seq<int>

  ghost predicate IsLookup(lookup: Lookup, n: nat) {
    && 0 < n <= 7 && |lookup| == 256
    && forall c {:trigger lookup[c]} :: 0 <= c < 256 ==> lookup[c] == -1 || 0 <= lookup[c] < Pow(n)
  }

  /** The low n bits of a character's value. */
  function ValueBits(n: nat, v: byte): (b: Bits)
    requires n <= 8
    ensures |b| == n
  {
    Bits8(v)[8 - n..]
  }

  /** The bits of the characters that are not skipped. */
  function DecodedBits(lookup: Lookup, n: nat, s: seq<byte>): Bits
    requires IsLookup(lookup, n)
    decreases |s|
  {
    if s == [] then []
    else
      var v := lookup[s[0] as nat];
      (if v < 0 then [] else SmallPower(n); ValueBits(n, v as byte)) + DecodedBits(lookup, n, s[1..])
  }

  lemma SmallPower(n: nat)
    ensures Pow(n) <= 128
  {
  }

  /** Whole bytes; the bits left over at the end are dropped. */
  function Decoded(lookup: Lookup, n: nat, s: seq<byte>): seq<byte>
    requires IsLookup(lookup, n)
  {
    Chars(8, DecodedBits(lookup, n, s))
  }

  lemma {:induction false} DecodedInTwo(lookup: Lookup, n: nat, s: seq<byte>, t: seq<byte>)
    requires IsLookup(lookup, n)
    ensures DecodedBits(lookup, n, s + t) == DecodedBits(lookup, n, s) + DecodedBits(lookup, n, t)
    decreases |s|
  {
    hide ValueBits, IsLookup;
    if s == [] {
      assert s + t == t;
    } else {
      assert (s + t)[1..] == s[1..] + t;
      DecodedInTwo(lookup, n, s[1..], t);
    }
  }

  /** Characters that are skipped stand for no bits. */
  lemma {:induction false} SkippedBits(lookup: Lookup, n: nat, s: seq<byte>)
    requires IsLookup(lookup, n) && forall i :: 0 <= i < |s| ==> lookup[s[i] as nat] == -1
    ensures DecodedBits(lookup, n, s) == []
    decreases |s|
  {
    hide ValueBits;
    if s != [] {
      SkippedBits(lookup, n, s[1..]);
    }
  }

  lemma DecodedOne(lookup: Lookup, n: nat, c: byte)
    requires IsLookup(lookup, n)
    ensures lookup[c as nat] == -1 ==> DecodedBits(lookup, n, [c]) == []
    ensures lookup[c as nat] >= 0 ==>
      lookup[c as nat] < 128 && DecodedBits(lookup, n, [c]) == ValueBits(n, lookup[c as nat] as byte)
  {
    hide ValueBits;
    SmallPower(n);
    assert [c][1..] == [];
  }

  // ---------- the decoder ----------

  class BaseNDecoder {
    const lookup: Lookup
    const bitsPerChar: nat
    const outputBlockSize: nat
    /** How many characters fill a block. */
    ghost const blockChars: nat
    const outBuf: array<byte>
    var bytePos: nat
    var bitPos: nat
    var output: seq<byte>

    ghost var message: seq<byte>
    ghost var flushed: Bits
    ghost var groups: seq<Bits>
    ghost var placed: Bits
    /** How many characters the block holds. */
    ghost var pending: nat
    ghost var before: seq<byte>

    ghost predicate Fixed() {
      && 0 < bitsPerChar <= 7 && IsLookup(lookup, bitsPerChar) && outputBlockSize > 0
      && bitsPerChar * blockChars == 8 * outputBlockSize
      && outBuf.Length == outputBlockSize
    }

    ghost predicate Holds(p: nat)
      requires Fixed()
      reads this
    {
      bytePos == |groups| && bitPos == |placed| < 8 && 8 * bytePos + bitPos == bitsPerChar * p
    }

    ghost predicate Sent()
      requires Fixed()
      reads this
    {
      && Rest(8, flushed) == [] && DecodedBits(lookup, bitsPerChar, message) == flushed + (Flatten(groups) + placed)
      && output == before + Chars(8, flushed)
    }

    ghost predicate Valid()
      reads this, outBuf
    {
      && Fixed() && Sent() && Holds(pending) && pending < blockChars
      && (pending == 0 ==> groups == [] && placed == [])
      && (pending > 0 ==> Slots(8, groups, placed, outBuf[..]))
    }

    /** IsolatedInitialize: the smallest number of bits that is whole characters and whole bytes */
    static method BlockBits(n: nat) returns (bytes: nat, ghost chars: nat)
      requires 0 < n <= 7
      ensures n * chars == 8 * bytes && bytes > 0 && chars > 0
    {
      var i := n;
      chars := 1;
      while i % 8 != 0
        invariant i == n * chars && 0 < chars <= 8 && i > 0
        decreases 8 - chars
      {
        EightTimes(n, chars);
        i := i + n;
        chars := chars + 1;
        assert n * chars == n * (chars - 1) + n;
      }
      bytes := i / 8;
    }

    static lemma EightTimes(n: nat, chars: nat)
      requires 0 < chars <= 8 && (n * chars) % 8 != 0
      ensures chars < 8
    {
    }

    constructor (lookup: Lookup, bitsPerChar: nat)
      requires IsLookup(lookup, bitsPerChar)
      ensures Valid() && message == [] && output == [] && before == [] && fresh(outBuf)
      ensures this.lookup == lookup && this.bitsPerChar == bitsPerChar
    {
      var bytes, chars := BlockBits(bitsPerChar);
      this.lookup, this.bitsPerChar, outputBlockSize := lookup, bitsPerChar, bytes;
      blockChars := chars;
      outBuf := new byte[bytes](_ => 0);
      bytePos, bitPos, output := 0, 0, [];
      message, flushed, groups, placed, before, pending := [], [], [], [], [], 0;
    }

    // ---------- placing the bits of one character ----------

    static lemma BitsWithin(value: byte, n: nat, bitPos: nat)
      requires 0 < n <= 7 && bitPos + n <= 8 && value as nat < Pow(n)
      ensures Bits8(ShiftLeft(value, 8 - bitPos - n)) == Zeros(bitPos) + (ValueBits(n, value) + Zeros(8 - bitPos - n))
    {
      hide Bits8, ShiftLeft, Pow, ValueBits, Zeros;
      BitsOfShiftLeft(value, 8 - bitPos - n);
      HighZeros(value, n);
      DropZeros(8 - n, 8 - bitPos - n, ValueBits(n, value));
      ConcatThree(Zeros(bitPos), ValueBits(n, value), Zeros(8 - bitPos - n));
    }

    static lemma DropZeros(a: nat, k: nat, x: Bits)
      requires k <= a
      ensures (Zeros(a) + x)[k..] == Zeros(a - k) + x
    {
    }

    /** A value below 2^n has no bits above its low n. */
    static lemma HighZeros(value: byte, n: nat)
      requires 0 < n <= 7 && value as nat < Pow(n)
      ensures Bits8(value) == Zeros(8 - n) + ValueBits(n, value)
    {
      forall i | 0 <= i < 8 - n ensures !Bits8(value)[i] {
        HighBitClear(value, n, i);
      }
      hide Has, Bits8;
    }

    static lemma HighBitClear(value: byte, n: nat, i: nat)
      requires 0 < n <= 7 && value as nat < Pow(n) && i < 8 - n
      ensures !Has(value, Mask(i))
    {
      PlaceOfBit(value, i);
      if n == 7 {} else if n == 6 {} else if n == 5 {} else if n == 4 {} else if n == 3 {} else if n == 2 {}
    }

    static lemma PlaceOfBit(value: byte, i: nat)
      requires i < 8
      ensures Has(value, Mask(i)) ==> value as nat >= Pow(7 - i)
    {
      if i == 0 { assert Mask(i) == 0x80; } else if i == 1 {} else if i == 2 {} else if i == 3 {} else if i == 4 {}
      else if i == 5 {} else if i == 6 {}
    }

    static lemma BitsAcross(value: byte, n: nat, bitPos: nat)
      requires 0 < n <= 7 && bitPos < 8 < bitPos + n && value as nat < Pow(n)
      ensures Bits8(ShiftRight(value, bitPos + n - 8)) == Zeros(bitPos) + ValueBits(n, value)[..8 - bitPos]
      ensures Bits8(ShiftLeft(value, 16 - bitPos - n)) == ValueBits(n, value)[8 - bitPos..] + Zeros(16 - bitPos - n)
    {
      hide Bits8, ShiftLeft, ShiftRight, Pow, ValueBits, Zeros;
      HighZeros(value, n);
      LeftOfBoundary(value, ValueBits(n, value), n, bitPos + n - 8);
      RightOfBoundary(value, ValueBits(n, value), n, bitPos + n - 8);
    }

    static lemma LeftOfBoundary(value: byte, x: Bits, n: nat, k: nat)
      requires |x| == n <= 7 && 0 < k <= n && Bits8(value) == Zeros(8 - n) + x
      ensures Bits8(ShiftRight(value, k)) == Zeros(8 + k - n) + x[..n - k]
    {
      hide Bits8, ShiftRight, Zeros;
      BitsOfShiftRight(value, k);
      LeftPart(x, n, k);
    }

    static lemma RightOfBoundary(value: byte, x: Bits, n: nat, k: nat)
      requires |x| == n <= 7 && 0 < k <= n && Bits8(value) == Zeros(8 - n) + x
      ensures Bits8(ShiftLeft(value, 8 - k)) == x[n - k..] + Zeros(8 - k)
    {
      hide Bits8, ShiftLeft, Zeros;
      BitsOfShiftLeft(value, 8 - k);
      RightPart(x, n, k);
    }

    static lemma LeftPart(x: Bits, n: nat, k: nat)
      requires |x| == n <= 7 && 0 < k <= n
      ensures Zeros(k) + (Zeros(8 - n) + x)[..8 - k] == Zeros(8 + k - n) + x[..n - k]
    {
    }

    static lemma RightPart(x: Bits, n: nat, k: nat)
      requires |x| == n <= 7 && 0 < k <= n
      ensures (Zeros(8 - n) + x)[8 - k..] == x[n - k..]
    {
    }

    /** The n bits of a value at the next place, in one byte or across two. */
    method PlaceValue(value: byte)
      requires Fixed() && Holds(pending) && pending < blockChars && Slots(8, groups, placed, outBuf[..])
      requires value as nat < Pow(bitsPerChar)
      modifies `bytePos, `bitPos, `groups, `placed, `pending, outBuf
      ensures Slots(8, groups, placed, outBuf[..]) && pending == old(pending) + 1 && Holds(pending)
      ensures Flatten(groups) + placed == old(Flatten(groups) + placed) + ValueBits(bitsPerChar, value)
    {
      hide Flatten, Slots, Pow, ValueBits, IsLookup, Val;
      ghost var n := bitsPerChar;
      Room();
      if bitPos + bitsPerChar <= 8 {
        PlaceWithin(value);
      } else {
        PlaceAcross(value);
      }
      pending := pending + 1;
      assert n * pending == n * (pending - 1) + n;
    }

    lemma Room()
      requires Fixed() && Holds(pending) && pending < blockChars
      ensures bytePos < outputBlockSize && (bitPos + bitsPerChar > 8 ==> bytePos + 1 < outputBlockSize)
    {
      MulMonotone(bitsPerChar, pending + 1, blockChars);
      assert bitsPerChar * (pending + 1) == bitsPerChar * pending + bitsPerChar;
    }

    method PlaceWithin(value: byte)
      requires Fixed() && bytePos == |groups| < outputBlockSize && bitPos == |placed|
      requires Slots(8, groups, placed, outBuf[..])
      requires value as nat < Pow(bitsPerChar) && bitPos + bitsPerChar <= 8
      modifies `bytePos, `bitPos, `groups, `placed, outBuf
      ensures Slots(8, groups, placed, outBuf[..]) && bytePos == |groups| && bitPos == |placed| < 8
      ensures 8 * bytePos + bitPos == 8 * old(bytePos) + old(bitPos) + bitsPerChar
      ensures Flatten(groups) + placed == old(Flatten(groups) + placed) + ValueBits(bitsPerChar, value)
    {
      hide Flatten, Pow, ValueBits, IsLookup, Or, ShiftLeft, Slots;
      ghost var bits := ValueBits(bitsPerChar, value);
      WithinSlots(value, bitPos);
      Regroup(Flatten(groups), placed, bits);
      outBuf[bytePos] := Or(outBuf[bytePos], ShiftLeft(value, 8 - bitPos - bitsPerChar));
      if bitPos + bitsPerChar == 8 {
        FlattenMore(groups, placed + bits);
        groups, placed := groups + [placed + bits], [];
        bitPos := 0;
        bytePos := bytePos + 1;
      } else {
        placed := placed + bits;
        bitPos := bitPos + bitsPerChar;
      }
    }

    /** The block after the byte has been written. */
    lemma WithinSlots(value: byte, at: nat)
      requires Fixed() && |groups| < outputBlockSize && at == |placed| && Slots(8, groups, placed, outBuf[..])
      requires value as nat < Pow(bitsPerChar) && at + bitsPerChar <= 8
      ensures var bits := ValueBits(bitsPerChar, value);
              var buf := outBuf[..][|groups| := Or(outBuf[|groups|], ShiftLeft(value, 8 - at - bitsPerChar))];
              if at + bitsPerChar == 8 then Slots(8, groups + [placed + bits], [], buf)
              else Slots(8, groups, placed + bits, buf)
    {
      hide Pow, ValueBits, IsLookup, Val, Or, ShiftLeft, Bits8, Slots;
      var bits := ValueBits(bitsPerChar, value);
      var more := bits + Zeros(8 - at - bitsPerChar);
      BitsWithin(value, bitsPerChar, at);
      SlotValue(groups, placed, outBuf[..]);
      BitsOfVal(placed + Zeros(8 - at));
      PlacedByte(outBuf[|groups|], ShiftLeft(value, 8 - at - bitsPerChar), placed, more, 0);
      if at + bitsPerChar == 8 {
        assert more == bits;
        SlotsFilled(8, groups, placed, outBuf[..], bits);
      } else {
        SlotsExtended(8, groups, placed, outBuf[..], bits);
      }
    }

    static lemma Regroup(f: Bits, placed: Bits, more: Bits)
      ensures f + (placed + more) + [] == (f + placed) + more && f + (placed + more) == (f + placed) + more
    {
    }

    method PlaceAcross(value: byte)
      requires Fixed() && bytePos == |groups| && bytePos + 1 < outputBlockSize && bitPos == |placed|
      requires Slots(8, groups, placed, outBuf[..])
      requires value as nat < Pow(bitsPerChar) && bitPos < 8 < bitPos + bitsPerChar
      modifies `bytePos, `bitPos, `groups, `placed, outBuf
      ensures Slots(8, groups, placed, outBuf[..]) && bytePos == |groups| && bitPos == |placed| < 8
      ensures 8 * bytePos + bitPos == 8 * old(bytePos) + old(bitPos) + bitsPerChar
      ensures Flatten(groups) + placed == old(Flatten(groups) + placed) + ValueBits(bitsPerChar, value)
    {
      hide Flatten, Pow, ValueBits, IsLookup, Val, Or, ShiftLeft, ShiftRight, Bits8, Slots;
      ghost var buf, bits := outBuf[..], ValueBits(bitsPerChar, value);
      ghost var first, second := bits[..8 - bitPos], bits[8 - bitPos..];
      SplitSlots(value, bitPos);
      outBuf[bytePos] := Or(outBuf[bytePos], ShiftRight(value, bitPos + bitsPerChar - 8));
      outBuf[bytePos + 1] := Or(outBuf[bytePos + 1], ShiftLeft(value, 16 - bitPos - bitsPerChar));
      FlattenMore(groups, placed + first);
      RegroupAcross(Flatten(groups), placed, bits, 8 - bitPos);
      groups, placed := groups + [placed + first], second;
      bitPos := bitPos + bitsPerChar - 8;
      bytePos := bytePos + 1;
    }

    static lemma RegroupAcross(f: Bits, placed: Bits, bits: Bits, k: nat)
      requires k <= |bits|
      ensures f + (placed + bits[..k]) + bits[k..] == (f + placed) + bits
    {
    }

    /** The block after both bytes have been written. */
    lemma SplitSlots(value: byte, at: nat)
      requires Fixed() && |groups| + 1 < outputBlockSize && at == |placed| && Slots(8, groups, placed, outBuf[..])
      requires value as nat < Pow(bitsPerChar) && at < 8 < at + bitsPerChar
      ensures var bits := ValueBits(bitsPerChar, value);
              var left := Or(outBuf[|groups|], ShiftRight(value, at + bitsPerChar - 8));
              var right := Or(outBuf[|groups| + 1], ShiftLeft(value, 16 - at - bitsPerChar));
              Slots(8, groups + [placed + bits[..8 - at]], bits[8 - at..],
                    outBuf[..][|groups| := left][|groups| + 1 := right])
    {
      hide Pow, ValueBits, IsLookup, Val, Or, ShiftLeft, ShiftRight, Bits8, Slots;
      var bits := ValueBits(bitsPerChar, value);
      var first, second := bits[..8 - at], bits[8 - at..];
      var i := |groups|;
      BitsAcross(value, bitsPerChar, at);
      var left, right := ShiftRight(value, at + bitsPerChar - 8), ShiftLeft(value, 16 - at - bitsPerChar);
      SlotValue(groups, placed, outBuf[..]);
      BitsOfVal(placed + Zeros(8 - at));
      PlacedByte(outBuf[i], left, placed, first, 0);
      SlotsFilled(8, groups, placed, outBuf[..], first);
      StartSlot(groups + [placed + first], outBuf[..][i := Val(placed + first)], right, second);
    }

    /** Bits put into the next byte, where nothing was placed. */
    static lemma StartSlot(groups: seq<Bits>, buf: seq<byte>, right: byte, second: Bits)
      requires Slots(8, groups, [], buf) && |groups| < |buf| && |second| < 8
      requires Bits8(right) == second + Zeros(8 - |second|)
      ensures Slots(8, groups, second, buf[|groups| := Or(buf[|groups|], right)])
    {
      hide Val, Or, Bits8, Slots;
      SlotValue(groups, [], buf);
      BitsOfVal([] + Zeros(8));
      NothingPlaced(second);
      PlacedByte(buf[|groups|], right, [], second + Zeros(8 - |second|), 0);
      SlotsExtended(8, groups, [], buf, second);
    }

    static lemma SlotValue(groups: seq<Bits>, placed: Bits, buf: seq<byte>)
      requires Slots(8, groups, placed, buf) && |groups| < |buf|
      ensures |placed| < 8 && buf[|groups|] == Val(placed + Zeros(8 - |placed|))
    {
      hide Val;
    }

    static lemma NothingPlaced(second: Bits)
      requires |second| <= 8
      ensures [] + (second + Zeros(8 - |second|)) == second + Zeros(8 - |second|) && [] + second == second
      ensures Zeros(0) + (second + Zeros(8 - |second|)) == second + Zeros(8 - |second|)
      ensures Zeros(0) + ([] + Zeros(8)) == [] + Zeros(8)
    {
    }

    // ---------- sending bytes on ----------

    static lemma GroupBytes(groups: seq<Bits>, placed: Bits, buf: seq<byte>)
      requires Slots(8, groups, placed, buf)
      ensures AreGroups(8, groups) && |groups| <= |buf| && buf[..|groups|] == Vals(groups)
    {
      hide Val;
    }

    static lemma CharsAfterGroups(flushed: Bits, groups: seq<Bits>, placed: Bits)
      requires Rest(8, flushed) == [] && AreGroups(8, groups) && |placed| < 8
      ensures Chars(8, flushed + Flatten(groups)) == Chars(8, flushed) + Vals(groups)
      ensures Rest(8, flushed + Flatten(groups)) == []
      ensures Chars(8, flushed + (Flatten(groups) + placed)) == Chars(8, flushed) + Vals(groups)
    {
      hide Val, Flatten, Chars, Rest;
      CharsInTwo(8, flushed, Flatten(groups));
      CharsInTwo(8, flushed, Flatten(groups) + placed);
      CharsOfGroups(8, groups);
      CharsInTwo(8, Flatten(groups), placed);
      PartOfGroup(8, placed);
      assert Vals(groups) + [] == Vals(groups);
    }

    /** A full block is sent on. */
    method Flush()
      requires Fixed() && Sent() && bytePos == |groups| == outputBlockSize && placed == [] && bitPos == 0
      requires Slots(8, groups, placed, outBuf[..])
      modifies this
      ensures Valid() && message == old(message) && before == old(before)
    {
      hide Val, Flatten, Chars, Rest, IsLookup, Slots;
      GroupBytes(groups, placed, outBuf[..]);
      CharsAfterGroups(flushed, groups, placed);
      SentStep(flushed, groups);
      output := output + outBuf[..outputBlockSize];
      bytePos, bitPos := 0, 0;
      flushed := flushed + Flatten(groups);
      groups, pending := [], 0;
      NothingHeld();
    }

    static lemma SentStep(f: Bits, groups: seq<Bits>)
      ensures f + (Flatten(groups) + []) == (f + Flatten(groups)) + (Flatten([]) + [])
    {
    }

    lemma NothingHeld()
      requires Fixed() && bytePos == bitPos == pending == 0 && groups == [] && placed == []
      ensures Holds(pending) && pending < blockChars
    {
      hide IsLookup;
      PositiveChars(bitsPerChar, blockChars, outputBlockSize);
    }

    static lemma PositiveChars(n: nat, chars: nat, size: nat)
      requires n * chars == 8 * size && size > 0
      ensures chars > 0
    {
    }

    lemma EmptyWhen()
      requires Valid()
      ensures bytePos == 0 && bitPos == 0 <==> pending == 0
    {
      hide IsLookup;
      if bytePos == 0 && bitPos == 0 {
        assert bitsPerChar * 0 == 0;
        SameFactor(bitsPerChar, pending, 0, 0);
      }
    }

    lemma FullWhen()
      requires Fixed() && Holds(pending) && pending <= blockChars
      ensures bytePos == outputBlockSize ==> pending == blockChars && placed == []
      ensures bytePos != outputBlockSize ==> pending < blockChars
    {
      hide IsLookup;
      MulMonotone(bitsPerChar, pending, blockChars);
      if bytePos == outputBlockSize {
        SameFactor(bitsPerChar, blockChars, bitPos, pending);
      }
    }

    /** One pass of the loop of Put2: a character is skipped or its bits are placed. */
    method PutChar(c: byte)
      requires Valid()
      modifies this, outBuf
      ensures Valid() && message == old(message) + [c] && before == old(before)
    {
      hide Val, Flatten, Chars, Rest, IsLookup, Slots, Pow, ValueBits, DecodedBits;
      CharIsIndex(c);
      var value := lookup[c as nat];
      DecodedInTwo(lookup, bitsPerChar, message, [c]);
      DecodedOne(lookup, bitsPerChar, c);
      if value < 0 {
        message := message + [c];
        Unchanged(DecodedBits(lookup, bitsPerChar, old(message)));
        return;
      }
      ValueFits(value);
      PlaceChar(c, value as byte);
      FullWhen();
      if bytePos == outputBlockSize {
        Flush();
      }
    }

    /** The bits of a character that stands for a value. */
    method PlaceChar(c: byte, value: byte)
      requires Valid() && value as nat < Pow(bitsPerChar)
      requires DecodedBits(lookup, bitsPerChar, message + [c])
               == DecodedBits(lookup, bitsPerChar, message) + ValueBits(bitsPerChar, value)
      modifies this, outBuf
      ensures Fixed() && Sent() && Holds(pending) && pending <= blockChars && Slots(8, groups, placed, outBuf[..])
      ensures message == old(message) + [c] && before == old(before) && pending > 0
    {
      hide Val, Flatten, Chars, Rest, IsLookup, Slots, Pow, ValueBits, DecodedBits;
      EmptyWhen();
      if bytePos == 0 && bitPos == 0 {
        Clear();
        EmptySlots(8, outBuf[..]);
      }
      ConcatMore(flushed, Flatten(groups) + placed, ValueBits(bitsPerChar, value));
      PlaceValue(value);
      message := message + [c];
    }

    lemma CharIsIndex(c: byte)
      requires Fixed()
      ensures (c as nat) < |lookup| && (lookup[c as nat] < 0 ==> lookup[c as nat] == -1)
    {
    }

    lemma ValueFits(value: int)
      requires Fixed() && value in lookup && value >= 0
      ensures value < 128 && (value as byte) as nat < Pow(bitsPerChar)
    {
      SmallPower(bitsPerChar);
      ByteAndBack(value);
    }

    static lemma Unchanged(b: Bits)
      ensures b + [] == b
    {
    }

    static lemma ConcatMore(f: Bits, held: Bits, more: Bits)
      ensures (f + held) + more == f + (held + more)
    {
    }

    /** memset(m_outBuf, 0, m_outputBlockSize) */
    method Clear()
      modifies outBuf
      ensures forall i :: 0 <= i < outBuf.Length ==> outBuf[i] == 0
    {
      for i := 0 to outBuf.Length
        invariant forall k :: 0 <= k < i ==> outBuf[k] == 0
      {
        outBuf[i] := 0;
      }
    }

    /** Put2, in blocking mode: all of the input, and at the end of a message the whole bytes in the block. */
    method Put2(input: seq<byte>, messageEnd: bool)
      requires Valid()
      modifies this, outBuf
      ensures Valid()
      ensures !messageEnd ==> message == old(message) + input && before == old(before)
      ensures messageEnd ==> message == [] && before == output
      ensures messageEnd ==> output == old(before) + Decoded(lookup, bitsPerChar, old(message) + input)
    {
      hide Sent, Holds, Slots, Decoded, IsLookup;
      for i := 0 to |input|
        invariant Valid() && message == old(message) + input[..i] && before == old(before)
      {
        assert input[..i + 1] == input[..i] + [input[i]];
        PutChar(input[i]);
      }
      assert input[..|input|] == input;
      if messageEnd {
        EndMessage();
      }
    }

    method EndMessage()
      requires Valid()
      modifies this, outBuf
      ensures Valid() && message == [] && before == output
      ensures output == old(before) + Decoded(lookup, bitsPerChar, old(message))
    {
      hide Val, Flatten, Chars, Rest, IsLookup, Slots, DecodedBits;
      EmptyWhen();
      LastBytes();
      output := output + outBuf[..bytePos];
      bytePos, bitPos := 0, 0;
      message, flushed, groups, placed, pending, before := [], [], [], [], 0, output;
      NothingHeld();
      EmptyMessage();
    }

    lemma LastBytes()
      requires Valid() && (pending == 0 ==> bytePos == 0)
      ensures bytePos <= outBuf.Length && output + outBuf[..bytePos] == before + Decoded(lookup, bitsPerChar, message)
    {
      hide Val, Flatten, Chars, Rest, IsLookup, Slots, DecodedBits;
      if pending > 0 {
        GroupBytes(groups, placed, outBuf[..]);
      } else {
        NoGroups();
        assert outBuf[..0] == [];
      }
      CharsAfterGroups(flushed, groups, placed);
      Associate(before, Chars(8, flushed), Vals(groups));
    }

    static lemma NoGroups()
      ensures AreGroups(8, []) && Vals([]) == []
    {
    }

    lemma EmptyMessage()
      requires Fixed() && message == [] && flushed == [] && groups == [] && placed == [] && before == output
      ensures Sent()
    {
      hide IsLookup;
      assert before + [] == before;
    }
  }

  // ---------- the decoding table ----------

  predicate IsUpper(c: byte) { 0x41 <= c <= 0x5a }
  predicate IsLower(c: byte) { 0x61 <= c <= 0x7a }
  predicate IsAlpha(c: byte) { IsUpper(c) || IsLower(c) }
  function ToUpper(c: byte): byte { if IsLower(c) then c - 0x20 else c }
  function ToLower(c: byte): byte { if IsUpper(c) then c + 0x20 else c }

  /** Whether c stands for the alphabet's character a. */
  predicate Matches(a: byte, c: byte, caseInsensitive: bool) {
    c == a || (caseInsensitive && IsAlpha(a) && (c == ToUpper(a) || c == ToLower(a)))
  }

  /** No character stands for two members of the alphabet. */
  ghost predicate IsInjective(alphabet: seq<byte>, caseInsensitive: bool) {
    forall i, j, c: byte {:trigger Matches(alphabet[i], c, caseInsensitive),
                          Matches(alphabet[j], c, caseInsensitive)} ::
      0 <= i < j < |alphabet| && Matches(alphabet[i], c, caseInsensitive) ==> !Matches(alphabet[j], c, caseInsensitive)
  }

  function Entry(lookup: Lookup, c: byte): int
    requires |lookup| == 256
  {
    lookup[c as nat]
  }

  lemma EntryAfterSet(lookup: Lookup, d: byte, i: int, c: byte)
    requires |lookup| == 256
    ensures Entry(lookup[d as nat := i], c) == if c == d then i else Entry(lookup, c)
  {
    if c as nat == d as nat {
      SameIndex(c, d);
    }
  }

  lemma SameIndex(c: byte, d: byte)
    requires c as nat == d as nat
    ensures c == d
  {
    assert (c as nat) as byte == (d as nat) as byte;
  }

  /** The characters of the first k members are in the table, and nothing else is. */
  ghost predicate IsFilled(lookup: Lookup, alphabet: seq<byte>, k: nat, caseInsensitive: bool) {
    && |lookup| == 256 && k <= |alphabet|
    && (forall c: byte {:trigger Entry(lookup, c)} :: Entry(lookup, c) == -1 || 0 <= Entry(lookup, c) < k)
    && (forall c: byte {:trigger Entry(lookup, c)} ::
          Entry(lookup, c) >= 0 ==> Matches(alphabet[Entry(lookup, c)], c, caseInsensitive))
    && (forall i, c: byte {:trigger Matches(alphabet[i], c, caseInsensitive)} ::
          0 <= i < k && Matches(alphabet[i], c, caseInsensitive) ==> Entry(lookup, c) == i)
  }

  lemma CaseMatches(a: byte, c: byte)
    requires IsAlpha(a)
    ensures Matches(a, c, true) <==> c == ToUpper(a) || c == ToLower(a)
    ensures ToUpper(a) != ToLower(a)
  {
  }

  lemma PlainMatches(a: byte, c: byte, caseInsensitive: bool)
    requires !(caseInsensitive && IsAlpha(a))
    ensures Matches(a, c, caseInsensitive) <==> c == a
  {
  }

  /** An entry about to be set for member i has not been set for an earlier one. */
  lemma EntryIsFree(lookup: Lookup, alphabet: seq<byte>, i: nat, caseInsensitive: bool, c: byte)
    requires i < |alphabet| && IsInjective(alphabet, caseInsensitive) && IsFilled(lookup, alphabet, i, caseInsensitive)
    requires Matches(alphabet[i], c, caseInsensitive)
    ensures lookup[c as nat] == -1
  {
    hide Matches;
    var j := Entry(lookup, c);
    if j >= 0 {
      assert Matches(alphabet[j], c, caseInsensitive);
    }
  }

  /** Setting the one or two entries u and l of member i. */
  lemma FilledMore(before: Lookup, after: Lookup, alphabet: seq<byte>, i: nat, caseInsensitive: bool, u: byte, l: byte)
    requires i < |alphabet| && IsInjective(alphabet, caseInsensitive) && IsFilled(before, alphabet, i, caseInsensitive)
    requires forall c: byte {:trigger Matches(alphabet[i], c, caseInsensitive)} ::
      Matches(alphabet[i], c, caseInsensitive) <==> c == u || c == l
    requires after == before[u as nat := i][l as nat := i]
    ensures IsFilled(after, alphabet, i + 1, caseInsensitive)
  {
    forall c: byte
      ensures Entry(after, c) == if c == u || c == l then i else Entry(before, c)
    {
      hide Entry;
      EntryAfterSet(before, u, i, c);
      EntryAfterSet(before[u as nat := i], l, i, c);
    }
    FilledByEntries(before, after, alphabet, i, caseInsensitive, u, l);
  }

  lemma FilledByEntries(before: Lookup, after: Lookup, alphabet: seq<byte>, i: nat, caseInsensitive: bool, u: byte,
                        l: byte)
    requires i < |alphabet| && IsInjective(alphabet, caseInsensitive) && IsFilled(before, alphabet, i, caseInsensitive)
    requires forall c: byte {:trigger Matches(alphabet[i], c, caseInsensitive)} ::
      Matches(alphabet[i], c, caseInsensitive) <==> c == u || c == l
    requires |after| == 256
    requires forall c: byte {:trigger Entry(after, c)} ::
      Entry(after, c) == if c == u || c == l then i else Entry(before, c)
    ensures IsFilled(after, alphabet, i + 1, caseInsensitive)
  {
    hide Matches, Entry;
    forall c: byte | Entry(after, c) >= 0 ensures Matches(alphabet[Entry(after, c)], c, caseInsensitive) {
      assert Entry(before, c) >= 0 ==> Matches(alphabet[Entry(before, c)], c, caseInsensitive);
      assert Matches(alphabet[i], c, caseInsensitive) <==> c == u || c == l;
    }
    forall j, c: byte | 0 <= j < i + 1 && Matches(alphabet[j], c, caseInsensitive) ensures Entry(after, c) == j {
      assert Matches(alphabet[i], c, caseInsensitive) <==> c == u || c == l;
    }
  }

  /** InitializeDecodingLookupArray, whose assertions are that no entry is set twice. */
  method InitializeDecodingLookupArray(table: array<int>, alphabet: seq<byte>, caseInsensitive: bool)
    requires table.Length == 256 && IsInjective(alphabet, caseInsensitive)
    modifies table
    ensures IsFilled(table[..], alphabet, |alphabet|, caseInsensitive)
  {
    hide Matches, IsAlpha, ToUpper, ToLower, IsInjective;
    for i := 0 to 256
      invariant forall k :: 0 <= k < i ==> table[k] == -1
    {
      table[i] := -1;
    }
    EmptyTable(table[..], alphabet, caseInsensitive);
    for i := 0 to |alphabet|
      invariant IsFilled(table[..], alphabet, i, caseInsensitive)
    {
      SetEntries(table, alphabet, i, caseInsensitive);
    }
  }

  lemma EmptyTable(lookup: Lookup, alphabet: seq<byte>, caseInsensitive: bool)
    requires |lookup| == 256 && forall k :: 0 <= k < 256 ==> lookup[k] == -1
    ensures IsFilled(lookup, alphabet, 0, caseInsensitive)
  {
  }

  method SetEntries(table: array<int>, alphabet: seq<byte>, i: nat, caseInsensitive: bool)
    requires table.Length == 256 && i < |alphabet| && IsInjective(alphabet, caseInsensitive)
    requires IsFilled(table[..], alphabet, i, caseInsensitive)
    modifies table
    ensures IsFilled(table[..], alphabet, i + 1, caseInsensitive)
  {
    hide Matches, IsAlpha, ToUpper, ToLower, IsInjective, IsFilled;
    ghost var before := table[..];
    var a := alphabet[i];
    if caseInsensitive && IsAlpha(a) {
      var u, l := ToUpper(a), ToLower(a);
      forall c: byte ensures Matches(a, c, true) <==> c == u || c == l {
        CaseMatches(a, c);
      }
      CaseMatches(a, u);
      EntryIsFree(before, alphabet, i, caseInsensitive, u);
      EntryIsFree(before, alphabet, i, caseInsensitive, l);
      assert table[u as nat] == -1;
      table[u as nat] := i;
      OtherIndex(u, l);
      assert table[l as nat] == -1;
      table[l as nat] := i;
      FilledMore(before, table[..], alphabet, i, caseInsensitive, u, l);
    } else {
      forall c: byte ensures Matches(a, c, caseInsensitive) <==> c == a || c == a {
        PlainMatches(a, c, caseInsensitive);
      }
      EntryIsFree(before, alphabet, i, caseInsensitive, a);
      assert table[a as nat] == -1;
      table[a as nat] := i;
      FilledMore(before, table[..], alphabet, i, caseInsensitive, a, a);
    }
  }

  lemma OtherIndex(u: byte, l: byte)
    requires u != l
    ensures u as nat != l as nat
  {
    if u as nat == l as nat {
      SameIndex(u, l);
    }
  }

  // ---------- the grouper ----------

  /** s with a separator before every character that would make a group too long; count is the group so far. */
  function Grouped(size: nat, separator: seq<byte>, count: nat, s: seq<byte>): seq<byte>
    requires size > 0 && count <= size
    decreases |s|
  {
    if s == [] then []
    else if count == size then separator + [s[0]] + Grouped(size, separator, 1, s[1..])
    else [s[0]] + Grouped(size, separator, count + 1, s[1..])
  }

  /** The length of the last group. */
  function LastGroup(size: nat, count: nat, s: seq<byte>): (c: nat)
    requires size > 0 && count <= size
    ensures c <= size
    decreases |s|
  {
    if s == [] then count else if count == size then LastGroup(size, 1, s[1..]) else LastGroup(size, count + 1, s[1..])
  }

  lemma {:induction false} GroupedInTwo(size: nat, separator: seq<byte>, count: nat, s: seq<byte>, t: seq<byte>)
    requires size > 0 && count <= size
    ensures Grouped(size, separator, count, s + t)
            == Grouped(size, separator, count, s) + Grouped(size, separator, LastGroup(size, count, s), t)
    ensures LastGroup(size, count, s + t) == LastGroup(size, LastGroup(size, count, s), t)
    decreases |s|
  {
    if s == [] {
      assert s + t == t;
    } else {
      assert (s + t)[1..] == s[1..] + t;
      if count == size {
        GroupedInTwo(size, separator, 1, s[1..], t);
      } else {
        GroupedInTwo(size, separator, count + 1, s[1..], t);
      }
    }
  }

  /** Characters that fit in the group need no separator. */
  lemma {:induction false} GroupedShort(size: nat, separator: seq<byte>, count: nat, s: seq<byte>)
    requires size > 0 && count + |s| <= size
    ensures Grouped(size, separator, count, s) == s && LastGroup(size, count, s) == count + |s|
    decreases |s|
  {
    if s != [] {
      GroupedShort(size, separator, count + 1, s[1..]);
    }
  }

  /** A full group: the separator, and then as with an empty one. */
  lemma GroupedFull(size: nat, separator: seq<byte>, s: seq<byte>)
    requires size > 0 && s != []
    ensures Grouped(size, separator, size, s) == separator + Grouped(size, separator, 0, s)
    ensures LastGroup(size, size, s) == LastGroup(size, 0, s)
  {
    assert separator + [s[0]] + Grouped(size, separator, 1, s[1..])
        == separator + ([s[0]] + Grouped(size, separator, 1, s[1..]));
  }

  /** What a whole message becomes. */
  function GroupedMessage(size: nat, separator: seq<byte>, terminator: seq<byte>, s: seq<byte>): seq<byte> {
    (if size == 0 then s else Grouped(size, separator, 0, s)) + terminator
  }

  class Grouper {
    const groupSize: nat
    const separator: seq<byte>
    const terminator: seq<byte>
    var counter: nat
    var output: seq<byte>
    ghost var message: seq<byte>
    ghost var before: seq<byte>

    ghost predicate Valid()
      reads this
    {
      if groupSize == 0 then counter == 0 && output == before + message
      else counter == LastGroup(groupSize, 0, message) && output == before + Grouped(groupSize, separator, 0, message)
    }

    constructor (groupSize: nat, separator: seq<byte>, terminator: seq<byte>)
      ensures Valid() && message == [] && output == [] && before == []
      ensures this.groupSize == groupSize && this.separator == separator && this.terminator == terminator
    {
      this.groupSize, this.separator, this.terminator := groupSize, separator, terminator;
      counter, output, message, before := 0, [], [], [];
    }

    method Put2(input: seq<byte>, messageEnd: bool)
      requires Valid()
      modifies this
      ensures Valid()
      ensures !messageEnd ==> message == old(message) + input && before == old(before)
      ensures messageEnd ==> message == [] && before == output
      ensures messageEnd ==>
        output == old(before) + GroupedMessage(groupSize, separator, terminator, old(message) + input)
    {
      hide Grouped, LastGroup;
      if groupSize > 0 {
        GroupInput(input);
      } else {
        JoinOutput(before, message, input);
        output := output + input;
        message := message + input;
      }
      if messageEnd {
        Finished(before, if groupSize == 0 then message else Grouped(groupSize, separator, 0, message), terminator);
        output := output + terminator;
        counter := 0;
        message, before := [], output;
        FreshMessage();
      }
    }

    static lemma JoinOutput(a: seq<byte>, b: seq<byte>, c: seq<byte>)
      ensures (a + b) + c == a + (b + c)
    {
    }

    static lemma Finished(a: seq<byte>, b: seq<byte>, c: seq<byte>)
      ensures (a + b) + c == a + (b + c)
    {
    }

    lemma FreshMessage()
      requires message == [] && before == output && counter == 0
      ensures Valid()
    {
      assert before + [] == before;
    }

    method GroupInput(input: seq<byte>)
      requires Valid() && groupSize > 0
      modifies this
      ensures Valid() && message == old(message) + input && before == old(before)
    {
      hide Grouped, LastGroup;
      var position := 0;
      assert input[..0] == [];
      while position < |input|
        invariant position <= |input| && Valid() && message == old(message) + input[..position] && before == old(before)
        decreases |input| - position
      {
        var len := OneGroup(input[position..]);
        assert input[..position] + input[position..][..len] == input[..position + len];
        position := position + len;
      }
      assert input[..position] == input;
    }

    /** A separator when the group is full, and then as much of the input as fits. */
    method OneGroup(rest: seq<byte>) returns (len: nat)
      requires Valid() && groupSize > 0 && |rest| > 0
      modifies this
      ensures Valid() && 0 < len <= |rest| && message == old(message) + rest[..len] && before == old(before)
    {
      hide Grouped, LastGroup;
      ghost var so := Grouped(groupSize, separator, 0, message);
      ghost var count := counter;
      ghost var between: seq<byte> := [];
      if counter == groupSize {
        output := output + separator;
        counter := 0;
        between := separator;
      }
      len := if |rest| < groupSize - counter then |rest| else groupSize - counter;
      GroupedInTwo(groupSize, separator, 0, message, rest[..len]);
      if count == groupSize {
        GroupedFull(groupSize, separator, rest[..len]);
      }
      GroupedShort(groupSize, separator, counter, rest[..len]);
      JoinFour(before, so, between, rest[..len]);
      output := output + rest[..len];
      counter := counter + len;
      message := message + rest[..len];
    }

    static lemma JoinFour(a: seq<byte>, b: seq<byte>, c: seq<byte>, d: seq<byte>)
      ensures ((a + b) + c) + d == a + (b + (c + d)) && (a + b) + d == a + (b + d)
    {
    }
  }

  // ---------- the round trip ----------

  /** The table takes each member of the alphabet to its place. */
  ghost predicate Inverts(lookup: Lookup, alphabet: seq<byte>) {
    |lookup| == 256 && forall v {:trigger alphabet[v]} :: 0 <= v < |alphabet| ==> lookup[alphabet[v] as nat] == v
  }

  ghost predicate AreSkipped(lookup: Lookup, s: seq<byte>) {
    |lookup| == 256 && forall i {:trigger s[i]} :: 0 <= i < |s| ==> lookup[s[i] as nat] == -1
  }

  /** A table filled from an alphabet inverts it, and skips what matches no member. */
  lemma FilledInverts(lookup: Lookup, alphabet: seq<byte>, n: nat, caseInsensitive: bool)
    requires 0 < n <= 7 && |alphabet| == Pow(n) && IsFilled(lookup, alphabet, |alphabet|, caseInsensitive)
    ensures IsLookup(lookup, n) && Inverts(lookup, alphabet)
    ensures forall c: byte {:trigger Entry(lookup, c)} ::
      (forall i {:trigger alphabet[i]} :: 0 <= i < |alphabet| ==> !Matches(alphabet[i], c, caseInsensitive)) ==>
      Entry(lookup, c) == -1
  {
    forall v | 0 <= v < |alphabet| ensures lookup[alphabet[v] as nat] == v {
      assert Matches(alphabet[v], alphabet[v], caseInsensitive);
      assert Entry(lookup, alphabet[v]) == v;
    }
    hide Matches;
    forall c | 0 <= c < 256 ensures lookup[c] == -1 || 0 <= lookup[c] < Pow(n) {
      ByteAndBack(c);
      assert lookup[c] == Entry(lookup, c as byte);
    }
  }

  /** The bits that the values of a message stand for. */
  function BitsOfValues(n: nat, values: seq<byte>): Bits
    requires n <= 8
    decreases |values|
  {
    if values == [] then [] else ValueBits(n, values[0]) + BitsOfValues(n, values[1..])
  }

  lemma {:induction false} DecodedOfLooked(lookup: Lookup, alphabet: seq<byte>, n: nat, values: seq<byte>)
    requires IsLookup(lookup, n) && Inverts(lookup, alphabet) && |alphabet| == Pow(n) && AreValues(alphabet, values)
    ensures DecodedBits(lookup, n, Looked(alphabet, values)) == BitsOfValues(n, values)
    decreases |values|
  {
    hide ValueBits;
    if values != [] {
      var c := Looked(alphabet, values);
      assert c[1..] == Looked(alphabet, values[1..]);
      DecodedOfLooked(lookup, alphabet, n, values[1..]);
      assert (values[0] as nat) as byte == values[0];
    }
  }

  lemma ValueBitsOfVal(n: nat, g: Bits)
    requires |g| == n <= 8
    ensures ValueBits(n, Val(g)) == g
  {
    hide Val, Bits8;
    BitsOfVal(g);
  }

  lemma {:induction false} BitsOfChars(n: nat, bits: Bits)
    requires 0 < n <= 7
    ensures BitsOfValues(n, Chars(n, bits)) + Rest(n, bits) == bits
    decreases |bits|
  {
    hide Val, ValueBits;
    if |bits| >= n {
      ValueBitsOfVal(n, bits[..n]);
      BitsOfChars(n, bits[n..]);
      var c := Chars(n, bits);
      assert c[1..] == Chars(n, bits[n..]);
      assert bits == bits[..n] + bits[n..];
    }
  }

  lemma {:induction false} BitsOfValuesInTwo(n: nat, a: seq<byte>, b: seq<byte>)
    requires n <= 8
    ensures BitsOfValues(n, a + b) == BitsOfValues(n, a) + BitsOfValues(n, b)
    decreases |a|
  {
    hide ValueBits;
    if a == [] {
      assert a + b == b;
    } else {
      assert (a + b)[1..] == a[1..] + b;
      BitsOfValuesInTwo(n, a[1..], b);
    }
  }

  /** The values of a message give its bits back, followed by fewer than eight zeros. */
  lemma BitsOfEncoded(n: nat, bits: Bits)
    requires 0 < n <= 7
    ensures var r := Rest(n, bits);
            BitsOfValues(n, EncodedValues(n, bits)) == bits + Zeros(if r == [] then 0 else n - |r|)
  {
    hide Val, ValueBits, Chars, Rest;
    var r := Rest(n, bits);
    BitsOfChars(n, bits);
    if r == [] {
      assert Chars(n, bits) + [] == Chars(n, bits);
    } else {
      var g := r + Zeros(n - |r|);
      BitsOfValuesInTwo(n, Chars(n, bits), [Val(g)]);
      ValueBitsOfVal(n, g);
      assert [Val(g)][1..] == [];
      assert BitsOfValues(n, [Val(g)]) == g;
    }
  }

  lemma {:induction false} BytesOfBits(m: seq<byte>)
    ensures Chars(8, BitsOf(m)) == m && Rest(8, BitsOf(m)) == []
  {
    hide Val, Bits8;
    if m != [] {
      ValOfBits8(m[0]);
      BytesOfBits(m[1..]);
      var b := BitsOf(m);
      assert b[..8] == Bits8(m[0]) && b[8..] == BitsOf(m[1..]);
    }
  }

  lemma WholeBytesOnly(m: seq<byte>, k: nat)
    requires k < 8
    ensures Chars(8, BitsOf(m) + Zeros(k)) == m
  {
    hide Val, BitsOf, Rest;
    BytesOfBits(m);
    CharsInTwo(8, BitsOf(m), Zeros(k));
    PartOfGroup(8, Zeros(k));
    assert m + [] == m;
  }

  /** Skipped characters anywhere in a text do not change what it stands for. */
  lemma {:induction false} DecodedOfGrouped(lookup: Lookup, n: nat, size: nat, separator: seq<byte>, count: nat,
                                            s: seq<byte>)
    requires IsLookup(lookup, n) && size > 0 && count <= size && AreSkipped(lookup, separator)
    ensures DecodedBits(lookup, n, Grouped(size, separator, count, s)) == DecodedBits(lookup, n, s)
    decreases |s|
  {
    hide DecodedBits, IsLookup;
    if s != [] {
      var c := if count == size then 1 else count + 1;
      DecodedOfGrouped(lookup, n, size, separator, c, s[1..]);
      var rest := Grouped(size, separator, c, s[1..]);
      DecodedInTwo(lookup, n, [s[0]], rest);
      DecodedInTwo(lookup, n, [s[0]], s[1..]);
      assert [s[0]] + s[1..] == s;
      if count == size {
        SkippedBits(lookup, n, separator);
        DecodedInTwo(lookup, n, separator, [s[0]] + rest);
        assert separator + [s[0]] + rest == separator + ([s[0]] + rest);
        assert [] + DecodedBits(lookup, n, [s[0]] + rest) == DecodedBits(lookup, n, [s[0]] + rest);
      }
    }
  }

  /** Every message comes back from its encoding, grouped or not, padded or not, for every number of bits per
      character, as long as the padding, separators and terminator are not in the table. */
  lemma BaseNRoundTrip(alphabet: seq<byte>, lookup: Lookup, n: nat, size: nat, padding: Padding,
                       groupSize: nat, separator: seq<byte>, terminator: seq<byte>, m: seq<byte>)
    requires IsLookup(lookup, n) && size > 0 && |alphabet| == Pow(n) && Inverts(lookup, alphabet)
    requires AreSkipped(lookup, separator) && AreSkipped(lookup, terminator)
    requires padding.Padding? ==> AreSkipped(lookup, [padding.c])
    ensures Decoded(lookup, n, GroupedMessage(groupSize, separator, terminator,
                                              Encoded(alphabet, n, size, padding, m))) == m
  {
    hide ValueBits, BitsOf, EncodedValues, Looked, Pow, Chars, Rest, IsLookup, DecodedBits, Grouped;
    LookupRange(lookup, n);
    var bits := BitsOf(m);
    var text := Encoded(alphabet, n, size, padding, m);
    EncodedDecodes(alphabet, lookup, n, size, padding, m);
    var grouped := if groupSize == 0 then text else Grouped(groupSize, separator, 0, text);
    if groupSize > 0 {
      DecodedOfGrouped(lookup, n, groupSize, separator, 0, text);
    }
    SkippedBits(lookup, n, terminator);
    DecodedInTwo(lookup, n, grouped, terminator);
    var k := if Rest(n, bits) == [] then 0 else n - |Rest(n, bits)|;
    assert (bits + Zeros(k)) + [] == bits + Zeros(k);
    WholeBytesOnly(m, k);
  }

  lemma LookupRange(lookup: Lookup, n: nat)
    requires IsLookup(lookup, n)
    ensures 0 < n <= 7
  {
  }

  lemma EncodedDecodes(alphabet: seq<byte>, lookup: Lookup, n: nat, size: nat, padding: Padding, m: seq<byte>)
    requires IsLookup(lookup, n) && size > 0 && |alphabet| == Pow(n) && Inverts(lookup, alphabet)
    requires padding.Padding? ==> AreSkipped(lookup, [padding.c])
    ensures 0 < n <= 7
    ensures var r := Rest(n, BitsOf(m));
            DecodedBits(lookup, n, Encoded(alphabet, n, size, padding, m))
            == BitsOf(m) + Zeros(if r == [] then 0 else n - |r|)
  {
    hide ValueBits, BitsOf, EncodedValues, Looked, Pow, Chars, Rest, IsLookup, DecodedBits, PadCount;
    LookupRange(lookup, n);
    var bits := BitsOf(m);
    var values := EncodedValues(n, bits);
    ValuesAreSmall(n, bits);
    DecodedOfLooked(lookup, alphabet, n, values);
    BitsOfEncoded(n, bits);
    var pad := match padding case NoPadding => [] case Padding(c) => Repeated(c, PadCount(size, |values|));
    PaddingSkipped(lookup, n, padding, PadCount(size, |values|));
    DecodedInTwo(lookup, n, Looked(alphabet, values), pad);
    var b := DecodedBits(lookup, n, Looked(alphabet, values));
    assert b + [] == b;
  }

  lemma PaddingSkipped(lookup: Lookup, n: nat, padding: Padding, k: nat)
    requires IsLookup(lookup, n) && (padding.Padding? ==> AreSkipped(lookup, [padding.c]))
    ensures padding.Padding? ==> DecodedBits(lookup, n, Repeated(padding.c, k)) == []
    ensures DecodedBits(lookup, n, []) == []
  {
    if padding.Padding? {
      assert lookup[[padding.c][0] as nat] == -1;
      SkippedBits(lookup, n, Repeated(padding.c, k));
    }
  }
}
