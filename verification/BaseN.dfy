/** BaseN_Encoder of basecode.cpp: bytes repacked into characters of n bits. */
module BaseNEncoding {

  import opened AesBlock
  import opened BaseBits
  import opened Buffers
  import opened Gf128
  import opened GcmBits

  // ---------- the encoding as a function of the bits ----------

  /** The values of the whole groups of n bits at the front. */
  function Chars(n: nat, bits: Bits): (c: seq<byte>)
    requires 0 < n <= 8
    decreases |bits|
  {
    if |bits| < n then [] else [Val(bits[..n])] + Chars(n, bits[n..])
  }

  /** The bits after the last whole group. */
  function Rest(n: nat, bits: Bits): (r: Bits)
    requires 0 < n <= 8
    ensures |r| < n && |r| <= |bits|
    decreases |bits|
  {
    if |bits| < n then bits else Rest(n, bits[n..])
  }

  /** All the characters, the last one filled up with zeros. */
  function EncodedValues(n: nat, bits: Bits): seq<byte>
    requires 0 < n <= 8
  {
    var r := Rest(n, bits);
    Chars(n, bits) + if r == [] then [] else [Val(r + Zeros(n - |r|))]
  }

  /** How many padding characters complete a block of size characters. */
  function PadCount(size: nat, count: nat): (k: nat)
    requires size > 0
    ensures k < size
    decreases count
  {
    if count == 0 then 0 else if count <= size then size - count else PadCount(size, count - size)
  }

  /** A count of characters in whole blocks. */
  ghost predicate IsBlocks(size: nat, count: nat)
    requires size > 0
    decreases count
  {
    count == 0 || (count >= size && IsBlocks(size, count - size))
  }

  lemma {:induction false} PadAfterBlocks(size: nat, blocks: nat, count: nat)
    requires size > 0 && IsBlocks(size, blocks) && count <= size
    ensures PadCount(size, blocks + count) == PadCount(size, count)
    ensures IsBlocks(size, blocks + size)
    decreases blocks
  {
    if blocks > 0 {
      PadAfterBlocks(size, blocks - size, count);
    }
  }

  datatype Padding = NoPadding | Padding(c: byte)

  function Repeated(c: byte, k: nat): seq<byte> { seq(k, _ => c) }

  ghost predicate AreValues(alphabet: seq<byte>, values: seq<byte>) {
    forall i :: 0 <= i < |values| ==> values[i] as nat < |alphabet|
  }

  function Looked(alphabet: seq<byte>, values: seq<byte>): (c: seq<byte>)
    requires AreValues(alphabet, values)
    ensures |c| == |values|
  {
    seq(|values|, i requires 0 <= i < |values| => alphabet[values[i] as nat])
  }

  /** What a whole message encodes to, without grouping. */
  function Encoded(alphabet: seq<byte>, n: nat, size: nat, padding: Padding, message: seq<byte>): seq<byte>
    requires 0 < n <= 7 && size > 0 && |alphabet| == Pow(n)
  {
    var values := EncodedValues(n, BitsOf(message));
    ValuesAreSmall(n, BitsOf(message));
    Looked(alphabet, values)
    + match padding
      case NoPadding => []
      case Padding(c) => Repeated(c, PadCount(size, |values|))
  }

  lemma {:induction false} CharsAreSmall(n: nat, bits: Bits)
    requires 0 < n <= 7
    ensures forall i :: 0 <= i < |Chars(n, bits)| ==> Chars(n, bits)[i] as nat < Pow(n)
    decreases |bits|
  {
    hide Val, Pow;
    if |bits| >= n {
      CharsAreSmall(n, bits[n..]);
      ValIsSmall(bits[..n]);
    }
  }

  lemma ValuesAreSmall(n: nat, bits: Bits)
    requires 0 < n <= 7
    ensures forall i :: 0 <= i < |EncodedValues(n, bits)| ==> EncodedValues(n, bits)[i] as nat < Pow(n)
  {
    hide Val, Pow, Chars;
    CharsAreSmall(n, bits);
    var r := Rest(n, bits);
    ValIsSmall(r + Zeros(n - |r|));
  }

  // ---------- groups ----------

  function Flatten(groups: seq<Bits>): Bits {
    if groups == [] then [] else Flatten(groups[..|groups| - 1]) + groups[|groups| - 1]
  }

  ghost predicate AreGroups(n: nat, groups: seq<Bits>) {
    forall i {:trigger groups[i]} :: 0 <= i < |groups| ==> |groups[i]| == n
  }

  function Vals(groups: seq<Bits>): (v: seq<byte>)
    ensures |v| == |groups|
  {
    seq(|groups|, i requires 0 <= i < |groups| => Val(groups[i]))
  }

  /** A prefix of whole groups: its characters come first, and nothing of it is left over. */
  lemma {:induction false} CharsInTwo(n: nat, whole: Bits, more: Bits)
    requires 0 < n <= 8 && Rest(n, whole) == []
    ensures Chars(n, whole + more) == Chars(n, whole) + Chars(n, more) && Rest(n, whole + more) == Rest(n, more)
    decreases |whole|
  {
    hide Val;
    if whole == [] {
      assert whole + more == more;
    } else {
      hide Chars, Rest;
      var first, others := whole[..n], whole[n..];
      CharsOfFirst(n, first, others);
      CharsInTwo(n, others, more);
      assert first + others == whole && first + (others + more) == whole + more;
      CharsOfFirst(n, first, others + more);
      Regroup(Val(first), Chars(n, others), Chars(n, more));
    }
  }

  lemma CharsOfFirst(n: nat, first: Bits, others: Bits)
    requires |first| == n && 0 < n <= 8
    ensures Chars(n, first + others) == [Val(first)] + Chars(n, others) && Rest(n, first + others) == Rest(n, others)
  {
    hide Val;
    assert (first + others)[..n] == first && (first + others)[n..] == others;
  }

  lemma Regroup(c: byte, a: seq<byte>, b: seq<byte>)
    ensures [c] + (a + b) == ([c] + a) + b
  {
  }

  lemma {:induction false} CharsOfGroups(n: nat, groups: seq<Bits>)
    requires 0 < n <= 8 && AreGroups(n, groups)
    ensures Chars(n, Flatten(groups)) == Vals(groups) && Rest(n, Flatten(groups)) == []
    decreases |groups|
  {
    hide Val;
    if groups != [] {
      var front, last := groups[..|groups| - 1], groups[|groups| - 1];
      CharsOfGroups(n, front);
      CharsInTwo(n, Flatten(front), last);
      assert last[..n] == last && last[n..] == [];
      assert Vals(groups) == Vals(front) + [Val(last)];
    }
  }

  lemma FlattenMore(groups: seq<Bits>, g: Bits)
    ensures Flatten(groups + [g]) == Flatten(groups) + g
  {
    assert (groups + [g])[..|groups|] == groups;
  }

  /** All the characters of bits of which the whole groups at the front are known. */
  lemma ValuesOfParts(n: nat, flushed: Bits, groups: seq<Bits>, placed: Bits)
    requires 0 < n <= 8 && Rest(n, flushed) == [] && AreGroups(n, groups) && |placed| < n
    ensures EncodedValues(n, flushed + (Flatten(groups) + placed))
            == Chars(n, flushed) + (Vals(groups) + if placed == [] then [] else [Val(placed + Zeros(n - |placed|))])
  {
    hide Val, Vals, Flatten, Chars, Rest, Zeros, AreGroups;
    CharsInTwo(n, flushed, Flatten(groups) + placed);
    CharsOfGroups(n, groups);
    CharsInTwo(n, Flatten(groups), placed);
    PartOfGroup(n, placed);
    var last := if placed == [] then [] else [Val(placed + Zeros(n - |placed|))];
    Associate(Chars(n, flushed), Vals(groups), last);
    assert Vals(groups) + [] == Vals(groups);
  }

  /** The characters that a block which is not full stands for. */
  function LastPart(n: nat, groups: seq<Bits>, placed: Bits): (v: seq<byte>)
    requires |placed| < n
    ensures |v| == |groups| + if placed == [] then 0 else 1
  {
    Vals(groups) + if placed == [] then [] else [Val(placed + Zeros(n - |placed|))]
  }

  lemma PartOfGroup(n: nat, placed: Bits)
    requires 0 < n <= 8 && |placed| < n
    ensures Chars(n, placed) == [] && Rest(n, placed) == placed
  {
  }

  lemma Associate(a: seq<byte>, b: seq<byte>, c: seq<byte>)
    ensures (a + b) + c == a + (b + c)
  {
  }

  /** A block that has been sent becomes part of what is known. */
  lemma FlushedBlock(n: nat, size: nat, flushed: Bits, groups: seq<Bits>)
    requires 0 < n <= 8 && Rest(n, flushed) == [] && AreGroups(n, groups) && |groups| == size > 0
    requires IsBlocks(size, |Chars(n, flushed)|)
    ensures Chars(n, flushed + Flatten(groups)) == Chars(n, flushed) + Vals(groups)
    ensures Rest(n, flushed + Flatten(groups)) == [] && IsBlocks(size, |Chars(n, flushed + Flatten(groups))|)
  {
    hide Val, Flatten;
    CharsInTwo(n, flushed, Flatten(groups));
    CharsOfGroups(n, groups);
    PadAfterBlocks(size, |Chars(n, flushed)|, 0);
  }

  // ---------- the output block ----------

  /** The block holds the finished groups, then the one being filled, then zeros. */
  ghost predicate Slots(n: nat, groups: seq<Bits>, placed: Bits, buf: seq<byte>) {
    && 0 < n <= 8 && AreGroups(n, groups) && |placed| < n && |groups| <= |buf|
    && (forall i {:trigger buf[i]} :: 0 <= i < |groups| ==> buf[i] == Val(groups[i]))
    && (|groups| < |buf| ==> buf[|groups|] == Val(placed + Zeros(n - |placed|)))
    && (forall i {:trigger buf[i]} :: |groups| < i < |buf| ==> buf[i] == 0)
  }

  lemma EmptySlots(n: nat, buf: seq<byte>)
    requires 0 < n <= 8 && forall i :: 0 <= i < |buf| ==> buf[i] == 0
    ensures Slots(n, [], [], buf)
  {
    ZeroGroup(n);
    assert [] + Zeros(n) == Zeros(n);
  }

  lemma ZeroGroup(n: nat)
    requires n <= 8
    ensures Val(Zeros(n)) == 0
  {
    hide Val;
    ZeroByteBits();
    assert Zeros(8 - n) + Zeros(n) == Zeros(8);
    ValIsUnique(0, Zeros(n));
  }

  /** The first t bits of b, put after those placed. */
  lemma PlacedBits(n: nat, placed: Bits, was: byte, b: byte, t: nat)
    requires 0 < n <= 8 && |placed| < n && t == n - |placed| && was == Val(placed + Zeros(t))
    ensures Or(was, ShiftRight(b, 8 - t)) == Val(placed + Bits8(b)[..t])
  {
    hide Val, Bits8, Or, ShiftRight;
    var more := Bits8(b)[..t];
    var shifted := ShiftRight(b, 8 - t);
    BitsOfVal(placed + Zeros(t));
    BitsOfShiftRight(b, 8 - t);
    PlacedByte(was, shifted, placed, more, 8 - n);
  }

  lemma PlacedByte(was: byte, shifted: byte, placed: Bits, more: Bits, above: nat)
    requires above + |placed| + |more| == 8
    requires Bits8(was) == Zeros(above) + (placed + Zeros(|more|)) && Bits8(shifted) == Zeros(above + |placed|) + more
    ensures Or(was, shifted) == Val(placed + more)
  {
    hide Val, Bits8, Or;
    ConcatThree(Zeros(above), placed, Zeros(|more|));
    ConcatThree(Zeros(above), placed, more);
    PlaceBits(was, shifted, placed, more, above);
    ValIsUnique(Or(was, shifted), placed + more);
  }

  lemma ConcatThree(a: Bits, b: Bits, c: Bits)
    ensures a + (b + c) == a + b + c
  {
  }

  /** Filling the current group. */
  lemma SlotsFilled(n: nat, groups: seq<Bits>, placed: Bits, buf: seq<byte>, more: Bits)
    requires Slots(n, groups, placed, buf) && |groups| < |buf| && |placed| + |more| == n
    ensures Slots(n, groups + [placed + more], [], buf[|groups| := Val(placed + more)])
  {
    hide Val;
    ZeroGroup(n);
    assert [] + Zeros(n) == Zeros(n);
    var g := groups + [placed + more];
    forall i | 0 <= i < |g| ensures |g[i]| == n {
      if i < |groups| {
        assert g[i] == groups[i];
      }
    }
  }

  /** Adding to the current group without filling it. */
  lemma SlotsExtended(n: nat, groups: seq<Bits>, placed: Bits, buf: seq<byte>, more: Bits)
    requires Slots(n, groups, placed, buf) && |groups| < |buf| && |placed| + |more| < n
    ensures Slots(n, groups, placed + more, buf[|groups| := Val(placed + (more + Zeros(n - |placed| - |more|)))])
  {
    hide Val;
    assert placed + (more + Zeros(n - |placed| - |more|)) == (placed + more) + Zeros(n - |placed| - |more|);
  }

  lemma MulMonotone(n: nat, a: nat, b: nat)
    requires a <= b
    ensures n * a <= n * b
  {
    assert n * b == n * a + n * (b - a);
  }

  lemma LessFactor(n: nat, a: nat, b: nat)
    requires n * a < n * b
    ensures a < b
  {
    if a >= b {
      MulMonotone(n, b, a);
    }
  }

  lemma SameFactor(n: nat, a: nat, r: nat, b: nat)
    requires n * a + r == n * b && r < n
    ensures a == b && r == 0
  {
    assert n * (a + 1) == n * a + n && n * (b + 1) == n * b + n;
    LessFactor(n, b, a + 1);
    LessFactor(n, a, b + 1);
  }

  /** Whether a number of bytes is a whole number of characters. */
  predicate IsWhole(n: nat, bytes: nat)
    requires n > 0
  {
    (8 * bytes) % n == 0
  }

  // ---------- the encoder ----------

  class BaseNEncoder {
    const alphabet: seq<byte>
    const padding: Padding
    const bitsPerChar: nat
    const outputBlockSize: nat
    /** How many bytes fill a block. */
    ghost const blockBytes: nat
    const outBuf: array<byte>
    var bytePos: nat
    var bitPos: nat
    /** What the attached transformation has been given. */
    var output: seq<byte>

    /** The message so far: bits already sent on, finished groups, and the bits of the group being filled. */
    ghost var message: seq<byte>
    ghost var flushed: Bits
    ghost var groups: seq<Bits>
    ghost var placed: Bits
    /** How many bytes the block holds. */
    ghost var pending: nat
    /** What had been given before this message. */
    ghost var before: seq<byte>

    ghost predicate Fixed() {
      && 0 < bitsPerChar <= 7 && outputBlockSize > 0 && 8 * blockBytes == bitsPerChar * outputBlockSize
      && outBuf.Length == outputBlockSize && |alphabet| == Pow(bitsPerChar)
    }

    /** The block holds a whole number of bytes, p. */
    ghost predicate Holds(p: nat)
      requires Fixed()
      reads this
    {
      bytePos == |groups| && bitPos == |placed| < bitsPerChar && bitsPerChar * bytePos + bitPos == 8 * p
    }

    ghost predicate Sent()
      requires Fixed()
      reads this
    {
      && Rest(bitsPerChar, flushed) == [] && BitsOf(message) == flushed + (Flatten(groups) + placed)
      && AreValues(alphabet, Chars(bitsPerChar, flushed)) && IsBlocks(outputBlockSize, |Chars(bitsPerChar, flushed)|)
      && output == before + Looked(alphabet, Chars(bitsPerChar, flushed))
    }

    ghost predicate Valid()
      reads this, outBuf
    {
      && Fixed() && Sent() && Holds(pending) && pending < blockBytes
      && (pending == 0 ==> groups == [] && placed == [])
      && (pending > 0 ==> Slots(bitsPerChar, groups, placed, outBuf[..]))
    }

    /** The smallest number of bits that is whole bytes and whole characters. */
    static method BlockBits(bitsPerChar: nat) returns (i: nat, ghost bytes: nat, chars: nat)
      requires 0 < bitsPerChar <= 7
      ensures i == 8 * bytes == bitsPerChar * chars && bytes > 0 && chars > 0
      ensures forall b {:trigger IsWhole(bitsPerChar, b)} :: 0 < b < bytes ==> !IsWhole(bitsPerChar, b)
    {
      i, bytes := 8, 1;
      while i % bitsPerChar != 0
        invariant i == 8 * bytes && 0 < bytes <= bitsPerChar
        invariant forall b {:trigger IsWhole(bitsPerChar, b)} :: 0 < b < bytes ==> !IsWhole(bitsPerChar, b)
        decreases bitsPerChar - bytes
      {
        NotYetWhole(bytes, bitsPerChar);
        i := i + 8;
        bytes := bytes + 1;
      }
      WholeChars(i, bitsPerChar);
      chars := i / bitsPerChar;
    }

    static lemma NotYetWhole(bytes: nat, n: nat)
      requires 0 < n <= 7 && 0 < bytes <= n && (8 * bytes) % n != 0
      ensures bytes < n
    {
      WholeMultiple(n);
    }

    static lemma WholeMultiple(n: nat)
      requires 0 < n <= 7
      ensures (8 * n) % n == 0
    {
      if n == 1 {} else if n == 2 {} else if n == 3 {} else if n == 4 {} else if n == 5 {} else if n == 6 {}
    }

    static lemma WholeChars(i: nat, n: nat)
      requires n > 0 && i > 0 && i % n == 0
      ensures i == n * (i / n) && i / n > 0
    {
    }

    constructor (alphabet: seq<byte>, bitsPerChar: nat, padding: Padding)
      requires 0 < bitsPerChar <= 7 && |alphabet| == Pow(bitsPerChar)
      ensures Valid() && message == [] && output == [] && before == [] && fresh(outBuf)
      ensures this.alphabet == alphabet && this.bitsPerChar == bitsPerChar && this.padding == padding
      ensures blockBytes > 0 && 8 * blockBytes == bitsPerChar * outputBlockSize
      ensures forall b {:trigger IsWhole(bitsPerChar, b)} :: 0 < b < blockBytes ==> !IsWhole(bitsPerChar, b)
    {
      var i, bytes, chars := BlockBits(bitsPerChar);
      this.alphabet, this.bitsPerChar, this.padding, outputBlockSize := alphabet, bitsPerChar, padding, chars;
      blockBytes := bytes;
      outBuf := new byte[chars](_ => 0);
      bytePos, bitPos, output := 0, 0, [];
      message, flushed, groups, placed, before, pending := [], [], [], [], [], 0;
    }

    // ---------- one byte ----------

    /** One pass of the inner loop: the top of b into what is left of the current character. */
    method PlaceSome(b: byte, bitsLeftInSource: nat, ghost src: Bits)
      returns (next: byte, left: nat, ghost rest: Bits)
      requires Fixed() && Slots(bitsPerChar, groups, placed, outBuf[..])
      requires bytePos == |groups| < outputBlockSize && bitPos == |placed| < bitsPerChar
      requires 0 < bitsLeftInSource == |src| <= 8 && Bits8(b) == src + Zeros(8 - |src|)
      modifies `bytePos, `bitPos, `groups, `placed, outBuf
      ensures Slots(bitsPerChar, groups, placed, outBuf[..]) && bytePos == |groups| && bitPos == |placed| < bitsPerChar
      ensures left == |rest| < bitsLeftInSource && Bits8(next) == rest + Zeros(8 - |rest|)
      ensures Flatten(groups) + placed + rest == old(Flatten(groups) + placed) + src
      ensures bitsPerChar * bytePos + bitPos + left == bitsPerChar * old(bytePos) + old(bitPos) + bitsLeftInSource
    {
      hide Or, ShiftRight, ShiftLeft, Flatten, Bits8, Slots, Pow;
      var t := bitsPerChar - bitPos;
      BlockAfter(b, src, t);
      outBuf[bytePos] := Or(outBuf[bytePos], ShiftRight(b, 8 - t));
      if bitsLeftInSource >= t {
        ghost var more := src[..t];
        FlattenMore(groups, placed + more);
        RegroupFull(Flatten(groups), placed, src, t);
        groups, placed := groups + [placed + more], [];
        bitPos := 0;
        bytePos := bytePos + 1;
        left := bitsLeftInSource - t;
        rest := src[t..];
        next := ShiftLeft(b, t);
        BitsOfShiftLeft(b, t);
        BackBits(src, t);
      } else {
        RegroupPart(Flatten(groups), placed, src);
        placed := placed + src;
        bitPos := bitPos + bitsLeftInSource;
        left, rest, next := 0, [], 0;
        ZeroByteBits();
        assert [] + Zeros(8) == Zeros(8);
      }
    }

    /** The block after the top t bits of b have gone into the current character. */
    lemma BlockAfter(b: byte, src: Bits, t: nat)
      requires Fixed() && Slots(bitsPerChar, groups, placed, outBuf[..]) && |groups| < outputBlockSize
      requires |placed| < bitsPerChar && t == bitsPerChar - |placed| && |src| <= 8 && Bits8(b) == src + Zeros(8 - |src|)
      ensures var buf := outBuf[..][|groups| := Or(outBuf[|groups|], ShiftRight(b, 8 - t))];
              if |src| >= t then Slots(bitsPerChar, groups + [placed + src[..t]], [], buf)
              else Slots(bitsPerChar, groups, placed + src, buf)
    {
      hide Val, Or, ShiftRight, Bits8, Slots, Pow;
      BlockGroups();
      PlacedBits(bitsPerChar, placed, outBuf[|groups|], b, t);
      FrontBits(b, src, t);
      if |src| >= t {
        SlotsFilled(bitsPerChar, groups, placed, outBuf[..], src[..t]);
      } else {
        SlotsExtended(bitsPerChar, groups, placed, outBuf[..], src);
      }
    }

    static lemma FrontBits(b: byte, src: Bits, t: nat)
      requires t <= 8 && |src| <= 8 && Bits8(b) == src + Zeros(8 - |src|)
      ensures t <= |src| ==> Bits8(b)[..t] == src[..t]
      ensures t > |src| ==> Bits8(b)[..t] == src + Zeros(t - |src|)
    {
      hide Bits8;
    }

    static lemma BackBits(src: Bits, t: nat)
      requires t <= |src| <= 8
      ensures (src + Zeros(8 - |src|))[t..] + Zeros(t) == src[t..] + Zeros(8 - (|src| - t))
    {
    }

    static lemma RegroupFull(f: Bits, placed: Bits, src: Bits, t: nat)
      requires t <= |src|
      ensures (f + (placed + src[..t])) + [] + src[t..] == (f + placed) + src
    {
    }

    static lemma RegroupPart(f: Bits, placed: Bits, src: Bits)
      ensures f + (placed + src) + [] == (f + placed) + src
    {
    }

    /** The inner loop: all eight bits. */
    method PlaceByte(b0: byte)
      requires Fixed() && Holds(pending) && pending < blockBytes && Slots(bitsPerChar, groups, placed, outBuf[..])
      modifies `bytePos, `bitPos, `groups, `placed, `pending, outBuf
      ensures Slots(bitsPerChar, groups, placed, outBuf[..]) && pending == old(pending) + 1 && Holds(pending)
      ensures Flatten(groups) + placed == old(Flatten(groups) + placed) + Bits8(b0)
    {
      hide Flatten, Bits8, Slots;
      var b, left := b0, 8;
      ghost var src := Bits8(b0);
      ghost var target := (Flatten(groups) + placed) + src;
      ghost var p := pending + 1;
      assert src + Zeros(0) == src;
      while true
        invariant Slots(bitsPerChar, groups, placed, outBuf[..]) && bytePos == |groups|
        invariant bitPos == |placed| < bitsPerChar
        invariant 0 < left == |src| <= 8 && Bits8(b) == src + Zeros(8 - left)
        invariant Flatten(groups) + placed + src == target
        invariant bitsPerChar * bytePos + bitPos + left == 8 * p
        decreases left
      {
        RoomLeft(left, p);
        b, left, src := PlaceSome(b, left, src);
        if left == 0 { break; }
      }
      assert Flatten(groups) + placed + [] == Flatten(groups) + placed;
      pending := p;
      SlotsBound();
    }

    lemma SlotsBound()
      requires Slots(bitsPerChar, groups, placed, outBuf[..])
      ensures |placed| < bitsPerChar
    {
    }

    lemma RoomLeft(left: nat, p: nat)
      requires Fixed() && p <= blockBytes && left > 0 && bitsPerChar * bytePos + bitPos + left == 8 * p
      ensures bytePos < outputBlockSize
    {
      LessFactor(bitsPerChar, bytePos, outputBlockSize);
    }

    // ---------- sending blocks on ----------

    /** m_outBuf[i] = m_alphabet[m_outBuf[i]] for the first count characters */
    method Translate(count: nat)
      requires Fixed() && count <= outBuf.Length && AreValues(alphabet, outBuf[..count])
      modifies outBuf
      ensures outBuf[..count] == Looked(alphabet, old(outBuf[..count]))
    {
      for i := 0 to count
        invariant forall k :: 0 <= k < i ==> outBuf[k] == Looked(alphabet, old(outBuf[..count]))[k]
        invariant forall k :: i <= k < outBuf.Length ==> outBuf[k] == old(outBuf[k])
      {
        assert outBuf[i] == old(outBuf[..count])[i];
        outBuf[i] := alphabet[outBuf[i] as nat];
      }
    }

    lemma GroupValues()
      requires Fixed() && Slots(bitsPerChar, groups, placed, outBuf[..])
      ensures outBuf[..|groups|] == Vals(groups) && AreValues(alphabet, Vals(groups))
    {
      hide Val, Pow;
      forall i | 0 <= i < |groups| ensures Val(groups[i]) as nat < |alphabet| {
        ValIsSmall(groups[i]);
      }
    }

    lemma LookedInTwo(a: seq<byte>, b: seq<byte>)
      requires AreValues(alphabet, a) && AreValues(alphabet, b)
      ensures AreValues(alphabet, a + b) && Looked(alphabet, a + b) == Looked(alphabet, a) + Looked(alphabet, b)
    {
    }

    /** A full block is translated and sent on. */
    method Flush()
      requires Fixed() && Sent() && bytePos == |groups| == outputBlockSize && bitPos == 0 && placed == []
      requires Slots(bitsPerChar, groups, placed, outBuf[..])
      modifies this, outBuf
      ensures Fixed() && Sent() && Valid() && pending == 0 && message == old(message) && before == old(before)
    {
      hide Val, Flatten, Chars, Rest, BitsOf, IsBlocks, Pow, Slots;
      GroupValues();
      ghost var chars, vals := Chars(bitsPerChar, flushed), Vals(groups);
      SlotGroups();
      FlushedBlock(bitsPerChar, outputBlockSize, flushed, groups);
      LookedInTwo(chars, vals);
      BeginAgain(flushed, groups);
      Translate(outputBlockSize);
      output := output + outBuf[..outputBlockSize];
      bytePos, bitPos := 0, 0;
      flushed := flushed + Flatten(groups);
      groups, pending := [], 0;
      NothingHeld();
    }

    lemma SlotGroups()
      requires Slots(bitsPerChar, groups, placed, outBuf[..])
      ensures AreGroups(bitsPerChar, groups)
    {
    }

    static lemma BeginAgain(f: Bits, groups: seq<Bits>)
      ensures f + (Flatten(groups) + []) == (f + Flatten(groups)) + (Flatten([]) + [])
    {
    }

    lemma NothingHeld()
      requires Fixed() && bytePos == bitPos == pending == 0 && groups == [] && placed == []
      ensures Holds(pending) && pending < blockBytes
    {
      PositiveBlock(bitsPerChar, outputBlockSize, blockBytes);
    }

    static lemma PositiveBlock(n: nat, size: nat, bytes: nat)
      requires 8 * bytes == n * size && n > 0 && size > 0
      ensures bytes > 0
    {
      assert n * size > 0;
    }

    /** One pass of the loop of Put2. */
    method PutByte(b: byte)
      requires Valid()
      modifies this, outBuf
      ensures Valid() && message == old(message) + [b] && before == old(before)
    {
      hide Val, Flatten, Chars, Rest, BitsOf, IsBlocks, Pow, Slots, Looked;
      SameFactorWhenEmpty();
      if bytePos == 0 {
        Clear();
        EmptySlots(bitsPerChar, outBuf[..]);
      }
      ghost var held := Flatten(groups) + placed;
      BitsOfConcat(message, [b]);
      BitsOfOne(b);
      ConcatMore(flushed, held, Bits8(b));
      PlaceByte(b);
      message := message + [b];
      BlockFullWhen();
      if bytePos == outputBlockSize {
        Flush();
      }
    }

    static lemma ConcatMore(f: Bits, held: Bits, more: Bits)
      ensures (f + held) + more == f + (held + more)
    {
    }

    /** memset(m_outBuf, 0, m_outputBlockSize) */
    method Clear()
      modifies outBuf
      ensures forall i :: 0 <= i < outBuf.Length ==> outBuf[i] == 0
    {
      for i := 0 to outBuf.Length
        invariant forall k :: 0 <= k < i ==> outBuf[k] == 0
      {
        outBuf[i] := 0;
      }
    }

    lemma SameFactorWhenEmpty()
      requires Valid()
      ensures bytePos == 0 <==> pending == 0
      ensures pending == 0 ==> bitPos == 0
      ensures bytePos < outputBlockSize
    {
      if pending == 0 {
        assert bitsPerChar * 0 == 0;
        SameFactor(bitsPerChar, bytePos, bitPos, 0);
      }
      LessFactor(bitsPerChar, bytePos, outputBlockSize);
    }

    /** The block is full exactly when it holds as many bytes as it can. */
    lemma BlockFullWhen()
      requires Fixed() && Holds(pending) && pending <= blockBytes
      ensures bytePos == outputBlockSize ==> pending == blockBytes && placed == []
      ensures bytePos != outputBlockSize ==> pending < blockBytes
      ensures pending == blockBytes ==> bytePos == outputBlockSize
    {
      if pending == blockBytes {
        SameFactor(bitsPerChar, bytePos, bitPos, outputBlockSize);
      }
    }

    /** Put2, in blocking mode: all of the input, and at the end of a message what is left in the block. */
    method Put2(input: seq<byte>, messageEnd: bool)
      requires Valid()
      modifies this, outBuf
      ensures Valid()
      ensures !messageEnd ==> message == old(message) + input && before == old(before)
      ensures messageEnd ==> message == [] && before == output
      ensures messageEnd ==>
        output == old(before) + Encoded(alphabet, bitsPerChar, outputBlockSize, padding, old(message) + input)
    {
      hide Sent, Holds, Slots, Encoded, Pow;
      for i := 0 to |input|
        invariant Valid() && message == old(message) + input[..i] && before == old(before)
      {
        assert input[..i + 1] == input[..i] + [input[i]];
        PutByte(input[i]);
      }
      assert input[..|input|] == input;
      if messageEnd {
        EndMessage();
      }
    }

    /** The block at the end of a message. */
    lemma LastBlock(last: seq<byte>)
      requires Valid() && bytePos < outputBlockSize && (bytePos == 0 ==> pending == 0 && bitPos == 0)
      requires last == LastPart(bitsPerChar, groups, placed)
      ensures |last| == bytePos + (if bitPos > 0 then 1 else 0) <= outputBlockSize
      ensures outBuf[..|last|] == last && AreValues(alphabet, last)
      ensures EncodedValues(bitsPerChar, BitsOf(message)) == Chars(bitsPerChar, flushed) + last
    {
      hide Val, Flatten, Chars, Rest, BitsOf, IsBlocks, Pow, Looked, EncodedValues;
      if pending > 0 {
        GroupValues();
        BlockGroups();
        ValuesOfParts(bitsPerChar, flushed, groups, placed);
        if placed != [] {
          PartValue();
        }
      } else {
        ValuesOfParts(bitsPerChar, flushed, groups, placed);
      }
    }

    lemma BlockGroups()
      requires Slots(bitsPerChar, groups, placed, outBuf[..])
      ensures AreGroups(bitsPerChar, groups) && |groups| <= outBuf.Length
      ensures |groups| < outBuf.Length ==> outBuf[|groups|] == Val(placed + Zeros(bitsPerChar - |placed|))
    {
      hide Val;
    }

    lemma PartValue()
      requires Fixed() && |placed| < bitsPerChar
      ensures Val(placed + Zeros(bitsPerChar - |placed|)) as nat < |alphabet|
    {
      hide Val, Pow;
      ValIsSmall(placed + Zeros(bitsPerChar - |placed|));
    }

    /** What Encoded says, from the characters of the flushed part and of the last block. */
    lemma EncodedInParts(last: seq<byte>)
      requires Fixed() && Sent() && AreValues(alphabet, last) && |last| <= outputBlockSize
      requires EncodedValues(bitsPerChar, BitsOf(message)) == Chars(bitsPerChar, flushed) + last
      ensures before + Encoded(alphabet, bitsPerChar, outputBlockSize, padding, message)
              == output + Looked(alphabet, last)
                 + (if padding.Padding? && |last| > 0 then Repeated(padding.c, outputBlockSize - |last|) else [])
    {
      hide Val, Flatten, Chars, Rest, BitsOf, IsBlocks, Pow, Looked, EncodedValues, AreValues;
      var chars := Chars(bitsPerChar, flushed);
      LookedInTwo(chars, last);
      PadAfterBlocks(outputBlockSize, |chars|, |last|);
      PadOfPart(outputBlockSize, |last|);
      var pad := match padding case NoPadding => [] case Padding(c) => Repeated(c, PadCount(outputBlockSize, |last|));
      Associate(before, Looked(alphabet, chars), Looked(alphabet, last));
      Associate(before, Looked(alphabet, chars) + Looked(alphabet, last), pad);
    }

    static lemma PadOfPart(size: nat, count: nat)
      requires size > 0 && count <= size
      ensures PadCount(size, count) == if count == 0 then 0 else size - count
    {
    }

    method EndMessage()
      requires Valid()
      modifies this, outBuf
      ensures Valid() && message == [] && before == output
      ensures output == old(before) + Encoded(alphabet, bitsPerChar, outputBlockSize, padding, old(message))
    {
      hide Val, Flatten, Chars, Rest, BitsOf, IsBlocks, Pow, Slots, Looked, Encoded, EncodedValues, PadCount, LastPart;
      SameFactorWhenEmpty();
      ghost var last := LastPart(bitsPerChar, groups, placed);
      LastBlock(last);
      EncodedInParts(last);
      if bitPos > 0 {
        bytePos := bytePos + 1;
      }
      Translate(bytePos);
      ghost var text := outBuf[..bytePos];
      if padding.Padding? && bytePos > 0 {
        PadBlock(padding.c);
      }
      output := output + outBuf[..bytePos];
      StartMessage();
    }

    /** memset(m_outBuf + m_bytePos, m_padding, m_outputBlockSize - m_bytePos) */
    method PadBlock(c: byte)
      requires Fixed() && bytePos <= outputBlockSize
      modifies outBuf, `bytePos
      ensures bytePos == outputBlockSize
      ensures outBuf[..bytePos] == old(outBuf[..bytePos]) + Repeated(c, outputBlockSize - old(bytePos))
    {
      var first := bytePos;
      for i := first to outputBlockSize
        invariant bytePos == first
        invariant forall k :: 0 <= k < first ==> outBuf[k] == old(outBuf[k])
        invariant forall k :: first <= k < i ==> outBuf[k] == c
      {
        outBuf[i] := c;
      }
      bytePos := outputBlockSize;
    }

    /** m_bytePos = m_bitPos = 0, for the next message */
    method StartMessage()
      requires Fixed()
      modifies this
      ensures Valid() && message == [] && before == output == old(output)
    {
      hide Pow, Slots;
      bytePos, bitPos := 0, 0;
      message, flushed, groups, placed, pending, before := [], [], [], [], 0, output;
      NothingHeld();
      EmptyMessage();
    }

    lemma EmptyMessage()
      requires Fixed() && message == [] && flushed == [] && groups == [] && placed == [] && before == output
      ensures Sent()
    {
      assert Looked(alphabet, []) == [];
      assert before + [] == before;
    }
  }
}
