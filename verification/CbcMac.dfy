/** CBC_MAC_Base of cbcmac.cpp: the MAC depends only on the concatenation of what was fed in. */
module CbcMacs {

  import opened AesBlock
  import opened BlockCiphers
  import opened Buffers
  import opened XorBuffers

  /** The MAC of m from the register x: chained, with a last partial block filled up with zeros. */
  function CbcMac(c: BlockCipher, x: seq<byte>, m: seq<byte>): (mac: seq<byte>)
    requires IsBlockCipher(c) && |x| == c.size
    ensures |mac| == c.size
    decreases |m|
  {
    if m == [] then x
    else if |m| < c.size then
      StepLength(c, x, m + Zeroes(c.size - |m|)); Step(c, x, m + Zeroes(c.size - |m|))
    else
      StepLength(c, x, m[..c.size]); CbcMac(c, Step(c, x, m[..c.size]), m[c.size..])
  }

  // ---------- how the state follows the message ----------

  /** Absorbing m and then more is absorbing more after what m left over. */
  lemma {:induction false} ChainedInTwo(c: BlockCipher, x: seq<byte>, m: seq<byte>, more: seq<byte>)
    requires IsBlockCipher(c) && |x| == c.size
    ensures Chained(c, x, m + more) == Chained(c, Chained(c, x, m), Leftover(c.size, m) + more)
    ensures Leftover(c.size, m + more) == Leftover(c.size, Leftover(c.size, m) + more)
    decreases |m|
  {
    hide IsBlockCipher, Step;
    BlockSizePositive(c);
    if |m| >= c.size {
      assert (m + more)[..c.size] == m[..c.size] && (m + more)[c.size..] == m[c.size..] + more;
      StepLength(c, x, m[..c.size]);
      ChainedInTwo(c, Step(c, x, m[..c.size]), m[c.size..], more);
    }
  }

  lemma {:induction false} MacOfState(c: BlockCipher, x: seq<byte>, m: seq<byte>)
    requires IsBlockCipher(c) && |x| == c.size
    ensures CbcMac(c, x, m) == CbcMac(c, Chained(c, x, m), Leftover(c.size, m))
    decreases |m|
  {
    hide IsBlockCipher, Step;
    BlockSizePositive(c);
    if |m| >= c.size {
      StepLength(c, x, m[..c.size]);
      MacOfState(c, Step(c, x, m[..c.size]), m[c.size..]);
    }
  }

  /** One more byte in a register that holds part of a block. */
  lemma OneMoreByte(c: BlockCipher, x: seq<byte>, held: seq<byte>, b: byte)
    requires IsBlockCipher(c) && |x| == c.size && |held| < c.size
    ensures XorredAt(HeldIn(x, held), |held|, [b]) == HeldIn(x, held + [b])
    ensures |held| + 1 < c.size ==> Chained(c, x, held + [b]) == x && Leftover(c.size, held + [b]) == held + [b]
    ensures |held| + 1 == c.size ==>
      Chained(c, x, held + [b]) == c.process(HeldIn(x, held + [b])) && Leftover(c.size, held + [b]) == []
  {
    hide HeldIn, XorredAt, XorBytes;
    HoldingMore(x, held, [b]);
    if |held| + 1 == c.size {
      HoldingBlock(x, held + [b]);
      assert (held + [b])[..c.size] == held + [b];
    }
  }

  /** reg and counter are what m leaves. */
  ghost predicate Holds(c: BlockCipher, m: seq<byte>, reg: seq<byte>, counter: nat) {
    && IsBlockCipher(c) && counter == |Leftover(c.size, m)|
    && reg == HeldIn(Chained(c, Zeroes(c.size), m), Leftover(c.size, m))
  }

  lemma HoldsNothing(c: BlockCipher)
    requires IsBlockCipher(c)
    ensures Holds(c, [], Zeroes(c.size), 0)
  {
    hide IsBlockCipher, HeldIn;
    BlockSizePositive(c);
    HoldingNothing(Zeroes(c.size));
  }

  lemma HoldsBounds(c: BlockCipher, m: seq<byte>, reg: seq<byte>, counter: nat)
    requires Holds(c, m, reg, counter)
    ensures IsBlockCipher(c) && c.size > 0 && counter < c.size && |reg| == c.size
  {
  }

  lemma HoldsOneMore(c: BlockCipher, m: seq<byte>, reg: seq<byte>, counter: nat, b: byte)
    requires Holds(c, m, reg, counter)
    ensures |reg| == c.size && counter < c.size
    ensures var next := XorredAt(reg, counter, [b]);
            if counter + 1 == c.size then Holds(c, m + [b], c.process(next), 0)
            else Holds(c, m + [b], next, counter + 1)
  {
    hide IsBlockCipher, HeldIn, XorredAt, Chained, Leftover;
    var zero := Zeroes(c.size);
    BlockSizePositive(c);
    var x, held := Chained(c, zero, m), Leftover(c.size, m);
    OneMoreByte(c, x, held, b);
    ChainedInTwo(c, zero, m, [b]);
    HoldingNothing(c.process(HeldIn(x, held + [b])));
  }

  lemma HoldsWholeBlocks(c: BlockCipher, m: seq<byte>, reg: seq<byte>, data: seq<byte>, done: seq<byte>)
    requires Holds(c, m, reg, 0) && |reg| == c.size
    requires |done| + |Leftover(c.size, data)| == |data| && done == data[..|done|]
    ensures Holds(c, m + done, Chained(c, reg, data), 0)
  {
    hide IsBlockCipher, HeldIn, Chained, Leftover;
    var zero := Zeroes(c.size);
    BlockSizePositive(c);
    HoldingNothing(Chained(c, zero, m));
    WholePart(c, reg, data, done);
    ChainedInTwo(c, zero, m, done);
    assert Leftover(c.size, m) + done == done;
    HoldingNothing(Chained(c, reg, data));
  }

  lemma HoldsFinal(c: BlockCipher, m: seq<byte>, reg: seq<byte>, counter: nat)
    requires Holds(c, m, reg, counter)
    ensures CbcMac(c, Zeroes(c.size), m) == if counter > 0 then c.process(reg) else reg
  {
    hide IsBlockCipher, HeldIn, Chained, CbcMac;
    var zero := Zeroes(c.size);
    MacOfState(c, zero, m);
    FinalStep(c, Chained(c, zero, m), Leftover(c.size, m));
  }

  lemma JoinPieces(m: seq<byte>, input: seq<byte>, n: nat)
    requires n <= |input|
    ensures (m + input[..n]) + input[n..] == m + input
  {
  }

  class CbcMacState {
    const cipher: BlockCipher
    const reg: array<byte>
    var counter: nat
    /** What has been fed in since the last MAC. */
    ghost var message: seq<byte>

    ghost predicate Valid()
      reads this, reg
    {
      Holds(cipher, message, reg[..], counter)
    }

    /** UncheckedSetKey */
    constructor (c: BlockCipher)
      requires IsBlockCipher(c)
      ensures Valid() && cipher == c && message == [] && fresh(reg)
    {
      cipher := c;
      reg := new byte[c.size](_ => 0);
      counter := 0;
      message := [];
      new;
      assert reg[..] == Zeroes(c.size);
      HoldsNothing(c);
    }

    /** m_reg[m_counter++] ^= *input++, and ProcessBuf when that fills the block */
    method AddByte(b: byte)
      requires Valid()
      modifies this, reg
      ensures Valid() && message == old(message) + [b]
    {
      HoldsBounds(cipher, message, reg[..], counter);
      HoldsOneMore(cipher, message, reg[..], counter, b);
      hide IsBlockCipher, Holds, XorredAt;
      XorAt(reg, counter, [b]);
      counter := counter + 1;
      message := message + [b];
      if counter == cipher.size {
        ProcessBlock(cipher, reg);
        counter := 0;
      }
    }

    method AddBytes(input: seq<byte>)
      requires Valid()
      modifies this, reg
      ensures Valid() && message == old(message) + input
    {
      hide Holds;
      for i := 0 to |input|
        invariant Valid() && message == old(message) + input[..i]
      {
        assert input[..i + 1] == input[..i] + [input[i]];
        AddByte(input[i]);
      }
    }

    method Update(input: seq<byte>)
      requires Valid()
      modifies this, reg
      ensures Valid() && message == old(message) + input
    {
      hide Holds;
      var used := 0;
      while counter > 0 && used < |input|
        invariant Valid() && used <= |input| && message == old(message) + input[..used]
        decreases |input| - used
      {
        assert input[..used + 1] == input[..used] + [input[used]];
        AddByte(input[used]);
        used := used + 1;
      }
      var rest := input[used..];
      JoinPieces(old(message), input, used);
      HoldsBounds(cipher, message, reg[..], counter);
      if |rest| >= cipher.size {
        rest := WholeBlocks(rest);
      }
      AddBytes(rest);
    }

    /** The middle of Update: as many whole blocks as there are. */
    method WholeBlocks(input: seq<byte>) returns (rest: seq<byte>)
      requires Valid() && counter == 0
      modifies this, reg
      ensures Valid() && message + rest == old(message) + input
    {
      HoldsBounds(cipher, message, reg[..], counter);
      hide IsBlockCipher, Holds, Chained, Leftover;
      ghost var before := reg[..];
      var leftOver := AdvancedProcessBlocks(cipher, reg, input);
      var done := input[..|input| - leftOver];
      rest := input[|input| - leftOver..];
      HoldsWholeBlocks(cipher, message, before, input, done);
      JoinPieces(message, input, |input| - leftOver);
      message := message + done;
    }

    method TruncatedFinal(size: nat) returns (mac: seq<byte>)
      requires Valid() && size <= cipher.size
      modifies this, reg
      ensures Valid() && message == []
      ensures mac == CbcMac(cipher, Zeroes(cipher.size), old(message))[..size]
    {
      HoldsBounds(cipher, message, reg[..], counter);
      HoldsFinal(cipher, message, reg[..], counter);
      hide IsBlockCipher, Holds, CbcMac;
      if counter > 0 {
        ProcessBlock(cipher, reg);
        counter := 0;
      }
      mac := reg[..size];
      ClearRegister();
    }

    /** memset(m_reg, 0, blockSize) */
    method ClearRegister()
      requires IsBlockCipher(cipher) && reg.Length == cipher.size && counter == 0
      modifies this, reg
      ensures Valid() && message == []
    {
      hide IsBlockCipher, Holds;
      SpliceAll(reg[..], Zeroes(cipher.size));
      CopyInto(reg, 0, Zeroes(cipher.size));
      message := [];
      HoldsNothing(cipher);
    }
  }

  /** The whole blocks of data leave the register as all of data does, and nothing over. */
  lemma {:induction false} WholePart(c: BlockCipher, x: seq<byte>, data: seq<byte>, done: seq<byte>)
    requires IsBlockCipher(c) && |x| == c.size
    requires |done| + |Leftover(c.size, data)| == |data| && done == data[..|done|]
    ensures Chained(c, x, done) == Chained(c, x, data) && Leftover(c.size, done) == []
    decreases |data|
  {
    hide IsBlockCipher, Step;
    BlockSizePositive(c);
    if |data| >= c.size {
      StepLength(c, x, data[..c.size]);
      LeftoverIsShort(c.size, data[c.size..]);
      assert done[..c.size] == data[..c.size];
      WholePart(c, Step(c, x, data[..c.size]), data[c.size..], done[c.size..]);
    }
  }

  lemma LeftoverIsShort(size: nat, data: seq<byte>)
    requires size > 0
    ensures |Leftover(size, data)| <= |data|
  {
  }

  lemma FinalStep(c: BlockCipher, x: seq<byte>, held: seq<byte>)
    requires IsBlockCipher(c) && |x| == c.size && |held| < c.size
    ensures CbcMac(c, x, held) == if held == [] then HeldIn(x, held) else c.process(HeldIn(x, held))
  {
    HoldingNothing(x);
  }
}
