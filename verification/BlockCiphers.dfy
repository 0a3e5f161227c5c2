/** An arbitrary block cipher, and cipher block chaining without output: the loop of
    BlockTransformation::AdvancedProcessBlocks in cryptlib.cpp with BT_DontIncrementInOutPointers and BT_XorInput. */
module BlockCiphers {

  import opened AesBlock
  import opened Buffers
  import opened XorBuffers

  /** Any function on blocks of any positive size. */
  datatype BlockCipher = BlockCipher(size: nat, process: seq<byte> -> seq<byte>)

  ghost predicate IsBlockCipher(c: BlockCipher) {
    c.size > 0 && forall b: seq<byte> {:trigger c.process(b)} :: |b| == c.size ==> |c.process(b)| == c.size
  }

  function Zeroes(n: nat): (z: seq<byte>)
    ensures |z| == n
  {
    seq(n, _ => 0)
  }

  /** One step of chaining: exclusive-or a block in and encrypt. */
  function Step(c: BlockCipher, x: seq<byte>, block: seq<byte>): seq<byte>
    requires |x| == |block|
  {
    c.process(XorBytes(x, block))
  }

  lemma StepLength(c: BlockCipher, x: seq<byte>, block: seq<byte>)
    requires IsBlockCipher(c) && |x| == |block| == c.size
    ensures |Step(c, x, block)| == c.size
  {
  }

  // ---------- a register with part of a block in it ----------

  /** The register x with the bytes held, fewer than a block or exactly one, exclusive-ored into its front. */
  function HeldIn(x: seq<byte>, held: seq<byte>): (r: seq<byte>)
    requires |held| <= |x|
    ensures |r| == |x|
  {
    XorBytes(x, held + Zeroes(|x| - |held|))
  }

  lemma HoldingNothing(x: seq<byte>)
    ensures HeldIn(x, []) == x
  {
    AddNothing();
    assert [] + Zeroes(|x|) == Zeroes(|x|);
    hide Add;
  }

  lemma AddNothing()
    ensures forall b: byte {:trigger Add(b, 0)} :: Add(b, 0) == b
    ensures forall b: byte {:trigger Add(0, b)} :: Add(0, b) == b
  {
  }

  lemma HoldingBlock(x: seq<byte>, held: seq<byte>)
    requires |held| == |x|
    ensures HeldIn(x, held) == XorBytes(x, held)
  {
    assert held + Zeroes(0) == held;
  }

  /** xorbuf at an offset */
  function XorredAt(buf: seq<byte>, at: nat, mask: seq<byte>): (r: seq<byte>)
    requires at + |mask| <= |buf|
    ensures |r| == |buf|
  {
    seq(|buf|, i requires 0 <= i < |buf| => if at <= i < at + |mask| then Add(buf[i], mask[i - at]) else buf[i])
  }

  lemma HoldingMore(x: seq<byte>, held: seq<byte>, more: seq<byte>)
    requires |held| + |more| <= |x|
    ensures XorredAt(HeldIn(x, held), |held|, more) == HeldIn(x, held + more)
  {
    AddNothing();
    hide Add;
    var whole := (held + more) + Zeroes(|x| - |held| - |more|);
    assert |whole| == |x|;
    forall i | 0 <= i < |x| ensures XorredAt(HeldIn(x, held), |held|, more)[i] == Add(x[i], whole[i]) {
    }
  }

  method XorAt(buf: array<byte>, at: nat, mask: seq<byte>)
    requires at + |mask| <= buf.Length
    modifies buf
    ensures buf[..] == XorredAt(old(buf[..]), at, mask)
  {
    hide Add;
    for i := 0 to |mask|
      invariant forall j :: 0 <= j < buf.Length ==>
        buf[j] == if at <= j < at + i then Add(old(buf[j]), mask[j - at]) else old(buf[j])
    {
      buf[at + i] := Add(buf[at + i], mask[i]);
    }
  }

  // ---------- whole blocks ----------

  /** The register after all the whole blocks at the front of data. */
  function Chained(c: BlockCipher, x: seq<byte>, data: seq<byte>): (r: seq<byte>)
    requires IsBlockCipher(c) && |x| == c.size
    ensures |r| == c.size
    decreases |data|
  {
    if |data| < c.size then x
    else
      StepLength(c, x, data[..c.size]);
      Chained(c, Step(c, x, data[..c.size]), data[c.size..])
  }

  function Leftover(size: nat, data: seq<byte>): (rest: seq<byte>)
    requires size > 0
    ensures |rest| < size && |rest| <= |data|
    decreases |data|
  {
    if |data| < size then data else Leftover(size, data[size..])
  }

  lemma {:induction false} LeftoverIsSuffix(size: nat, data: seq<byte>)
    requires size > 0
    ensures Leftover(size, data) == data[|data| - |Leftover(size, data)|..]
    decreases |data|
  {
    if |data| >= size {
      LeftoverIsSuffix(size, data[size..]);
    }
  }

  /** cipher.ProcessBlock(reg) */
  method ProcessBlock(c: BlockCipher, reg: array<byte>)
    requires IsBlockCipher(c) && reg.Length == c.size
    modifies reg
    ensures reg[..] == c.process(old(reg[..]))
  {
    hide Spliced;
    var next := c.process(reg[..]);
    SpliceAll(reg[..], next);
    CopyInto(reg, 0, next);
  }

  method AdvancedProcessBlocks(c: BlockCipher, reg: array<byte>, data: seq<byte>) returns (leftOver: nat)
    requires IsBlockCipher(c) && reg.Length == c.size
    modifies reg
    ensures reg[..] == Chained(c, old(reg[..]), data) && leftOver == |Leftover(c.size, data)|
  {
    hide IsBlockCipher, XorBytes;
    var done := 0;
    assert data[0..] == data;
    BlockSizePositive(c);
    while |data| - done >= c.size
      invariant done <= |data|
      invariant Chained(c, reg[..], data[done..]) == Chained(c, old(reg[..]), data)
      invariant Leftover(c.size, data[done..]) == Leftover(c.size, data)
      decreases |data| - done
    {
      assert data[done..][..c.size] == data[done..done + c.size] && data[done..][c.size..] == data[done + c.size..];
      XorInto(reg, data[done..done + c.size]);
      ProcessBlock(c, reg);
      done := done + c.size;
    }
    leftOver := |data| - done;
  }

  lemma BlockSizePositive(c: BlockCipher)
    requires IsBlockCipher(c)
    ensures c.size > 0
  {
  }
}
