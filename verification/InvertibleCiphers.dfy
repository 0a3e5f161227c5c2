/** Block ciphers that no two blocks share an image of, as keyed ciphers are, and how to choose one for which a
    chain does not come back to zero. */
module InvertibleCiphers {

  import opened AesBlock
  import B = BaseBits
  import opened BlockCiphers
  import opened BlockCounting
  import opened CbcMacs
  import C = Cmacs
  import G = Gf128
  import opened GcmBits
  import opened Numerals
  import opened Pieces
  import opened XorBuffers

  /** A permutation of the blocks: one-to-one, and so onto, as there are finitely many of them. */
  ghost predicate IsInvertible(c: BlockCipher) {
    && IsBlockCipher(c)
    && forall a, b {:trigger c.process(a), c.process(b)} ::
         |a| == |b| == c.size && c.process(a) == c.process(b) ==> a == b
  }

  function Identity(n: nat): BlockCipher {
    BlockCipher(n, b => b)
  }

  function Exchange(p: seq<byte>, q: seq<byte>, b: seq<byte>): seq<byte> {
    if b == p then q else if b == q then p else b
  }

  /** c with two of its values exchanged. */
  function Swapped(c: BlockCipher, p: seq<byte>, q: seq<byte>): BlockCipher {
    BlockCipher(c.size, b => Exchange(p, q, c.process(b)))
  }

  lemma SwappedIsInvertible(c: BlockCipher, p: seq<byte>, q: seq<byte>)
    requires IsInvertible(c) && |p| == |q| == c.size
    ensures IsInvertible(Swapped(c, p, q)) && IsBlockCipher(Swapped(c, p, q))
  {
    var s := Swapped(c, p, q);
    hide Exchange;
    forall b: seq<byte> | |b| == c.size ensures |s.process(b)| == c.size {
      ExchangeIsOneToOne(p, q, c.process(b), c.process(b));
    }
    forall a, b: seq<byte> | |a| == |b| == c.size && s.process(a) == s.process(b) ensures a == b {
      ExchangeIsOneToOne(p, q, c.process(a), c.process(b));
    }
  }

  lemma ExchangeIsOneToOne(p: seq<byte>, q: seq<byte>, a: seq<byte>, b: seq<byte>)
    ensures Exchange(p, q, a) == Exchange(p, q, b) ==> a == b
    ensures |p| == |q| == |a| ==> |Exchange(p, q, a)| == |a|
  {
  }

  lemma IdentityIsInvertible(n: nat)
    requires n > 0
    ensures IsInvertible(Identity(n))
  {
  }

  lemma XorCancels(a: seq<byte>, b: seq<byte>, mask: seq<byte>)
    requires |a| == |b| == |mask| && XorBytes(a, mask) == XorBytes(b, mask)
    ensures a == b
  {
    hide XorBytes;
    XorBytesTwice(a, mask);
    XorBytesTwice(b, mask);
  }

  lemma StepIsInjective(c: BlockCipher, x: seq<byte>, y: seq<byte>, block: seq<byte>)
    requires IsInvertible(c) && |x| == |y| == |block| == c.size
    ensures Step(c, x, block) == Step(c, y, block) <==> x == y
  {
    if Step(c, x, block) == Step(c, y, block) {
      XorCancels(x, y, block);
    }
  }

  // ---------- subkeys ----------

  function BytesOf(b: G.Bits): (s: seq<byte>)
    ensures |s| == |b| / 8
    decreases |b|
  {
    if |b| < 8 then [] else [B.Val(b[..8])] + BytesOf(b[8..])
  }

  lemma {:induction false} BitsOfBytesOf(b: G.Bits)
    requires |b| % 8 == 0
    ensures BitsOf(BytesOf(b)) == b
    decreases |b|
  {
    hide Bits8, B.Val;
    if |b| >= 8 {
      B.BitsOfVal(b[..8]);
      assert G.Zeros(0) + b[..8] == b[..8];
      BitsOfBytesOf(b[8..]);
      assert BytesOf(b)[1..] == BytesOf(b[8..]);
    }
  }

  /** The cipher with its subkeys. */
  function KeysOf(c: BlockCipher): C.Keys
    requires IsBlockCipher(c) && C.IsSupported(c.size)
  {
    var k1 := BytesOf(C.TimesU(BitsOf(c.process(Zeroes(c.size))), c.size));
    C.Keys(c, k1, BytesOf(C.TimesU(BitsOf(k1), c.size)))
  }

  lemma KeysOfAreSubkeys(c: BlockCipher)
    requires IsBlockCipher(c) && C.IsSupported(c.size)
    ensures C.AreSubkeys(KeysOf(c)) && KeysOf(c).cipher == c
  {
    hide C.TimesU, BytesOf, BitsOf;
    var first := C.TimesU(BitsOf(c.process(Zeroes(c.size))), c.size);
    BitsOfBytesOf(first);
    BitsOfBytesOf(C.TimesU(BitsOf(BytesOf(first)), c.size));
  }

  // ---------- the register block by block ----------

  ghost predicate AreBlocks(n: nat, bs: seq<seq<byte>>) {
    forall i {:trigger bs[i]} :: 0 <= i < |bs| ==> |bs[i]| == n
  }

  function BlocksOf(n: nat, data: seq<byte>): (bs: seq<seq<byte>>)
    requires n > 0
    decreases |data|
  {
    if |data| < n then [] else BlocksOf(n, data[..|data| - n]) + [data[|data| - n..]]
  }

  lemma {:induction false} BlocksAreData(n: nat, data: seq<byte>)
    requires n > 0 && |data| % n == 0
    ensures AreBlocks(n, BlocksOf(n, data)) && Flat(BlocksOf(n, data)) == data && |BlocksOf(n, data)| == |data| / n
    decreases |data|
  {
    if |data| >= n {
      OneBlockLess(|data|, n);
      var front, last := data[..|data| - n], data[|data| - n..];
      BlocksAreData(n, front);
      OneMoreBlock(n, BlocksOf(n, front), last);
      assert front + last == data;
    } else {
      NoBlocks(|data|, n);
    }
  }

  lemma OneMoreBlock(n: nat, bs: seq<seq<byte>>, b: seq<byte>)
    requires AreBlocks(n, bs) && |b| == n
    ensures AreBlocks(n, bs + [b]) && Flat(bs + [b]) == Flat(bs) + b
  {
    assert (bs + [b])[..|bs|] == bs;
  }

  lemma OneBlockLess(m: nat, n: nat)
    requires 0 < n <= m
    ensures (m - n) % n == m % n && m / n == (m - n) / n + 1
  {
    DivisionIsUnique(m, n, (m - n) / n + 1, (m - n) % n);
  }

  lemma DivisionIsUnique(m: nat, n: nat, q: nat, r: nat)
    requires m == q * n + r && r < n
    ensures m / n == q && m % n == r
  {
    var d := m / n - q;
    assert m == (m / n) * n + m % n;
    assert d * n == r - m % n;
    assert d >= 1 ==> d * n >= n;
    assert d <= -1 ==> (0 - d) * n >= n;
  }

  lemma NoBlocks(m: nat, n: nat)
    requires m < n && m % n == 0
    ensures m == 0 && m / n == 0
  {
  }

  /** The register after i blocks, and what is encrypted next. */
  function Register(c: BlockCipher, bs: seq<seq<byte>>, i: nat): (r: seq<byte>)
    requires IsBlockCipher(c) && AreBlocks(c.size, bs) && i <= |bs|
    ensures |r| == c.size
    decreases i, 0
  {
    if i == 0 then Zeroes(c.size) else c.process(Input(c, bs, i - 1))
  }

  function Input(c: BlockCipher, bs: seq<seq<byte>>, i: nat): (r: seq<byte>)
    requires IsBlockCipher(c) && AreBlocks(c.size, bs) && i < |bs|
    ensures |r| == c.size
    decreases i, 1
  {
    XorBytes(Register(c, bs, i), bs[i])
  }

  lemma {:induction false} ChainedIsRegister(c: BlockCipher, bs: seq<seq<byte>>, i: nat)
    requires IsBlockCipher(c) && AreBlocks(c.size, bs) && i <= |bs|
    ensures Chained(c, Zeroes(c.size), Flat(bs[..i])) == Register(c, bs, i) && Leftover(c.size, Flat(bs[..i])) == []
  {
    BlockSizePositive(c);
    hide IsBlockCipher, XorBytes;
    if i > 0 {
      ChainedIsRegister(c, bs, i - 1);
      FlatStep(bs, i - 1);
      ChainedInTwo(c, Zeroes(c.size), Flat(bs[..i - 1]), bs[i - 1]);
      OneBlock(c, Register(c, bs, i - 1), bs[i - 1]);
      assert [] + bs[i - 1] == bs[i - 1];
    }
  }

  lemma OneBlock(c: BlockCipher, x: seq<byte>, block: seq<byte>)
    requires IsBlockCipher(c) && |x| == |block| == c.size
    ensures Chained(c, x, block) == Step(c, x, block) && Leftover(c.size, block) == []
  {
    StepLength(c, x, block);
    assert block[..c.size] == block && block[c.size..] == [];
  }

  // ---------- choosing a cipher ----------

  function Inputs(c: BlockCipher, bs: seq<seq<byte>>, count: nat): (s: seq<seq<byte>>)
    requires IsBlockCipher(c) && AreBlocks(c.size, bs) && count <= |bs|
    ensures |s| == count
  {
    seq(count, i requires 0 <= i < count => Input(c, bs, i))
  }

  function Outputs(c: BlockCipher, bs: seq<seq<byte>>, count: nat): (s: seq<seq<byte>>)
    requires IsBlockCipher(c) && AreBlocks(c.size, bs) && count <= |bs|
    ensures |s| == count
  {
    seq(count, i requires 0 <= i < count => c.process(Input(c, bs, i)))
  }

  /** Exchanging values that have not come up changes nothing up to here. */
  lemma {:induction false} NotYetSwapped(c: BlockCipher, bs: seq<seq<byte>>, i: nat, p: seq<byte>, q: seq<byte>)
    requires IsInvertible(c) && IsBlockCipher(c) && AreBlocks(c.size, bs) && i < |bs| && |p| == |q| == c.size
    requires p !in Outputs(c, bs, i) && q !in Outputs(c, bs, i)
    ensures IsInvertible(Swapped(c, p, q)) && IsBlockCipher(Swapped(c, p, q))
    ensures Input(Swapped(c, p, q), bs, i) == Input(c, bs, i)
    decreases i
  {
    hide IsInvertible, IsBlockCipher, AreBlocks, XorBytes, Input, Outputs, Exchange;
    SwappedIsInvertible(c, p, q);
    if i > 0 {
      var o := c.process(Input(c, bs, i - 1));
      FewerOutputs(c, bs, i - 1);
      assert p !in Outputs(c, bs, i - 1) + [o] && q !in Outputs(c, bs, i - 1) + [o];
      NotYetSwapped(c, bs, i - 1, p, q);
      ExchangeOther(p, q, o);
    }
    NextInput(c, bs, i);
    NextInput(Swapped(c, p, q), bs, i);
  }

  lemma ExchangeOther(p: seq<byte>, q: seq<byte>, b: seq<byte>)
    requires b != p && b != q
    ensures Exchange(p, q, b) == b
  {
  }

  lemma NextInput(c: BlockCipher, bs: seq<seq<byte>>, i: nat)
    requires IsBlockCipher(c) && AreBlocks(c.size, bs) && i < |bs|
    ensures |bs[i]| == c.size && (i > 0 ==> |c.process(Input(c, bs, i - 1))| == c.size)
    ensures Input(c, bs, i) == XorBytes(if i == 0 then Zeroes(c.size) else c.process(Input(c, bs, i - 1)), bs[i])
  {
    hide XorBytes;
  }

  lemma FewerOutputs(c: BlockCipher, bs: seq<seq<byte>>, i: nat)
    requires IsBlockCipher(c) && AreBlocks(c.size, bs) && i < |bs|
    ensures Outputs(c, bs, i + 1) == Outputs(c, bs, i) + [c.process(Input(c, bs, i))]
    ensures Inputs(c, bs, i + 1) == Inputs(c, bs, i) + [Input(c, bs, i)]
  {
    hide IsBlockCipher, Input;
  }

  /** c with its value on input i turned into y, which has not come up: nothing changes up to there. */
  lemma Redirected(c: BlockCipher, bs: seq<seq<byte>>, i: nat, y: seq<byte>) returns (s: BlockCipher)
    requires IsInvertible(c) && IsBlockCipher(c) && AreBlocks(c.size, bs) && i < |bs| && |y| == c.size
    requires AreDistinct(Inputs(c, bs, i + 1)) && y !in Outputs(c, bs, i)
    ensures IsInvertible(s) && IsBlockCipher(s) && s.size == c.size
    ensures Inputs(s, bs, i + 1) == Inputs(c, bs, i + 1) && s.process(Input(c, bs, i)) == y
  {
    hide IsInvertible, IsBlockCipher, AreBlocks, XorBytes, Input;
    var o := c.process(Input(c, bs, i));
    OutputIsNew(c, bs, i);
    s := Swapped(c, o, y);
    SwappedIsInvertible(c, o, y);
    forall a | 0 <= a < i + 1 ensures Input(s, bs, a) == Input(c, bs, a) {
      assert forall j :: 0 <= j < a ==> Outputs(c, bs, a)[j] == Outputs(c, bs, i)[j];
      NotYetSwapped(c, bs, a, o, y);
    }
  }

  lemma OutputIsNew(c: BlockCipher, bs: seq<seq<byte>>, i: nat)
    requires IsInvertible(c) && IsBlockCipher(c) && AreBlocks(c.size, bs) && i < |bs|
    requires AreDistinct(Inputs(c, bs, i + 1))
    ensures |c.process(Input(c, bs, i))| == c.size && c.process(Input(c, bs, i)) !in Outputs(c, bs, i)
  {
    hide AreBlocks, XorBytes, Input;
    forall a | 0 <= a < i ensures c.process(Input(c, bs, a)) != c.process(Input(c, bs, i)) {
      assert Inputs(c, bs, i + 1)[a] != Inputs(c, bs, i + 1)[i];
    }
  }

  /** The blocks that, exclusive-ored with b, give one of s. */
  function Masked(s: seq<seq<byte>>, b: seq<byte>): (r: seq<seq<byte>>)
    requires forall i :: 0 <= i < |s| ==> |s[i]| == |b|
    ensures |r| == |s|
  {
    seq(|s|, i requires 0 <= i < |s| => XorBytes(s[i], b))
  }

  lemma NotMasked(s: seq<seq<byte>>, b: seq<byte>, y: seq<byte>)
    requires |y| == |b| && forall i :: 0 <= i < |s| ==> |s[i]| == |b|
    requires y !in Masked(s, b)
    ensures XorBytes(y, b) !in s
  {
    hide XorBytes;
    forall i | 0 <= i < |s| ensures s[i] != XorBytes(y, b) {
      XorBytesTwice(y, b);
      assert Masked(s, b)[i] != y;
    }
  }

  /** Some cipher encrypts a different block at every step, as long as there are twice as many. */
  lemma {:induction false} Spread(n: nat, bs: seq<seq<byte>>, i: nat) returns (c: BlockCipher)
    requires n > 0 && AreBlocks(n, bs) && i <= |bs| && 2 * |bs| <= Power256(n)
    ensures IsInvertible(c) && IsBlockCipher(c) && c.size == n && AreDistinct(Inputs(c, bs, i))
  {
    hide XorBytes, IsInvertible, IsBlockCipher, Input, Power256;
    if i == 0 {
      c := Identity(n);
      IdentityIsInvertible(n);
    } else {
      c := Spread(n, bs, i - 1);
      FewerOutputs(c, bs, i - 1);
      if i > 1 && Input(c, bs, i - 1) in Inputs(c, bs, i - 1) {
        c := SpreadOn(n, c, bs, i - 1);
      } else {
        DistinctWithOneMore(Inputs(c, bs, i - 1), Input(c, bs, i - 1));
      }
    }
  }

  lemma SpreadOn(n: nat, c: BlockCipher, bs: seq<seq<byte>>, i: nat) returns (s: BlockCipher)
    requires IsInvertible(c) && IsBlockCipher(c) && c.size == n && AreBlocks(n, bs)
    requires 0 < i < |bs| && 2 * |bs| <= Power256(n) && AreDistinct(Inputs(c, bs, i))
    ensures IsInvertible(s) && IsBlockCipher(s) && s.size == n && AreDistinct(Inputs(s, bs, i + 1))
  {
    hide XorBytes, IsInvertible, IsBlockCipher, Input, Power256;
    var ins := Inputs(c, bs, i);
    var y := FreshBlock(n, Outputs(c, bs, i - 1) + Masked(ins, bs[i]));
    s := Redirected(c, bs, i - 1, y);
    NotMasked(ins, bs[i], y);
    FewerOutputs(s, bs, i);
    assert Inputs(s, bs, i)[i - 1] == Inputs(c, bs, i)[i - 1];
    NextInput(s, bs, i);
    DistinctWithOneMore(Inputs(s, bs, i), Input(s, bs, i));
  }

  lemma DistinctWithOneMore<T(!new)>(s: seq<T>, t: T)
    requires AreDistinct(s) && t !in s
    ensures AreDistinct(s + [t])
  {
  }

  /** Some cipher does not come back to zero. */
  lemma Escape(n: nat, bs: seq<seq<byte>>) returns (c: BlockCipher)
    requires n > 0 && AreBlocks(n, bs) && bs != [] && 2 * |bs| <= Power256(n)
    ensures IsInvertible(c) && IsBlockCipher(c) && c.size == n && Register(c, bs, |bs|) != Zeroes(n)
  {
    hide XorBytes, IsInvertible, IsBlockCipher, Input, Power256;
    var last := |bs| - 1;
    c := Spread(n, bs, |bs|);
    if Register(c, bs, |bs|) == Zeroes(n) {
      var y := FreshBlock(n, Outputs(c, bs, last) + [Zeroes(n)]);
      var s := Redirected(c, bs, last, y);
      assert Inputs(s, bs, |bs|)[last] == Inputs(c, bs, |bs|)[last];
      c := s;
    }
  }

  // ---------- every cipher comes back to zero some time ----------

  function Iterated(c: BlockCipher, b: seq<byte>, i: nat): (r: seq<byte>)
    requires IsBlockCipher(c) && |b| == c.size
    ensures |r| == c.size
  {
    if i == 0 then b else c.process(Iterated(c, b, i - 1))
  }

  lemma {:induction false} IteratedInTwo(c: BlockCipher, b: seq<byte>, i: nat, j: nat)
    requires IsBlockCipher(c) && |b| == c.size
    ensures Iterated(c, b, i + j) == Iterated(c, Iterated(c, b, i), j)
  {
    if j > 0 {
      IteratedInTwo(c, b, i, j - 1);
    }
  }

  lemma {:induction false} Uniterated(c: BlockCipher, a: seq<byte>, b: seq<byte>, i: nat)
    requires IsInvertible(c) && |a| == |b| == c.size && Iterated(c, a, i) == Iterated(c, b, i)
    ensures a == b
  {
    if i > 0 {
      Uniterated(c, a, b, i - 1);
    }
  }

  lemma ComesBack(c: BlockCipher, b: seq<byte>) returns (p: nat)
    requires IsInvertible(c) && |b| == c.size
    ensures 1 <= p <= Power256(c.size) && Iterated(c, b, p) == b
  {
    hide Power256;
    var m := Power256(c.size);
    var run := seq(m + 1, (i: nat) => Iterated(c, b, i));
    var i, j := TwoAreEqual(run, c.size);
    p := j - i;
    IteratedInTwo(c, b, p, i);
    Uniterated(c, Iterated(c, b, p), b, i);
  }

  lemma {:induction false} ComesBackAgain(c: BlockCipher, b: seq<byte>, p: nat, q: nat)
    requires IsBlockCipher(c) && |b| == c.size && Iterated(c, b, p) == b
    ensures Iterated(c, b, p * q) == b
  {
    if q > 0 {
      ComesBackAgain(c, b, p, q - 1);
      assert p * q == p * (q - 1) + p;
      IteratedInTwo(c, b, p * (q - 1), p);
    }
  }
}
