/** CBC-MAC, CMAC and the EAX tag byte by byte, as the standards write them, without the register and its leftovers. */
module MacReference {

  import opened AesBlock
  import opened BlockCiphers
  import opened CbcMacs
  import C = Cmacs
  import E = EaxMode
  import G = Gf128
  import opened GcmBits
  import opened Numerals
  import R = Gf128Reference
  import opened XorBuffers

  // ---------- chaining over whole blocks ----------

  /** The last block of cipher block chaining from zero: the encryption of the last block of data with what the blocks
      before it lead to added byte by byte. */
  function LastOfChain(c: BlockCipher, data: seq<byte>): (r: seq<byte>)
    requires IsBlockCipher(c) && |data| % c.size == 0
    ensures |r| == c.size
    decreases |data|
  {
    if data == [] then seq(c.size, _ => 0)
    else
      OneBlockLess(|data|, c.size);
      var front, last := data[..|data| - c.size], data[|data| - c.size..];
      var before := LastOfChain(c, front);
      c.process(seq(c.size, i requires 0 <= i < c.size => before[i] ^ last[i]))
  }

  lemma OneBlockLess(n: nat, size: nat)
    requires size > 0 && n > 0 && n % size == 0
    ensures n >= size && (n - size) % size == 0
  {
    WholeMultiple(n, size);
    RemainderIs(n - size, size, n / size - 1, 0);
  }

  lemma WholeMultiple(n: nat, size: nat)
    requires size > 0 && n > 0 && n % size == 0
    ensures n / size >= 1 && n == size * (n / size) && n >= size && n - size == size * (n / size - 1)
  {
    var q := n / size;
    assert n == size * q;
    assert q > 0;
    AtLeast(size, q);
    assert size * (q - 1) == size * q - size;
  }

  lemma {:induction false} NothingLeft(size: nat, data: seq<byte>)
    requires size > 0 && |data| % size == 0
    ensures Leftover(size, data) == []
    decreases |data|
  {
    if data != [] {
      OneBlockLess(|data|, size);
      NothingLeft(size, data[size..]);
    }
  }

  /** What the project calls chained. */
  lemma {:induction false} ChainedIsLast(c: BlockCipher, data: seq<byte>)
    requires IsBlockCipher(c) && |data| % c.size == 0
    ensures Chained(c, Zeroes(c.size), data) == LastOfChain(c, data)
    decreases |data|
  {
    hide IsBlockCipher, Leftover, Chained, LastOfChain;
    BlockSizePositive(c);
    if data == [] {
      EmptyChain(c);
    } else {
      OneBlockLess(|data|, c.size);
      var front, last := data[..|data| - c.size], data[|data| - c.size..];
      ChainedIsLast(c, front);
      NothingLeft(c.size, front);
      ChainedInTwo(c, Zeroes(c.size), front, last);
      assert front + last == data && [] + last == last;
      ChainedOnce(c, LastOfChain(c, front), last);
      LastUnfolds(c, data);
    }
  }

  lemma EmptyChain(c: BlockCipher)
    requires IsBlockCipher(c)
    ensures Chained(c, Zeroes(c.size), []) == LastOfChain(c, [])
  {
  }

  lemma LastUnfolds(c: BlockCipher, data: seq<byte>)
    requires IsBlockCipher(c) && |data| % c.size == 0 && data != []
    ensures |data| >= c.size && (|data| - c.size) % c.size == 0
    ensures var before, last := LastOfChain(c, data[..|data| - c.size]), data[|data| - c.size..];
            LastOfChain(c, data) == c.process(seq(c.size, i requires 0 <= i < c.size => before[i] ^ last[i]))
  {
    OneBlockLess(|data|, c.size);
  }

  lemma ChainedOnce(c: BlockCipher, x: seq<byte>, b: seq<byte>)
    requires IsBlockCipher(c) && |x| == |b| == c.size
    ensures Chained(c, x, b) == c.process(seq(c.size, i requires 0 <= i < c.size => x[i] ^ b[i]))
  {
    assert b[..c.size] == b && b[c.size..] == [];
    assert XorBytes(x, b) == seq(c.size, i requires 0 <= i < c.size => x[i] ^ b[i]);
  }

  // ---------- CBC-MAC ----------

  /** How many bytes are missing from the last block. */
  function Missing(size: nat, n: nat): (k: nat)
    requires size > 0
    ensures k < size && (n + k) % size == 0
  {
    MissingIsRight(size, n);
    (size - n % size) % size
  }

  lemma MissingIsRight(size: nat, n: nat)
    requires size > 0
    ensures (n + (size - n % size) % size) % size == 0
  {
    var q, r := n / size, n % size;
    assert n == size * q + r;
    if r == 0 {
      RemainderIs(size, size, 1, 0);
    } else {
      RemainderIs(size - r, size, 0, size - r);
      assert n + (size - r) == size * (q + 1);
      RemainderIs(n + (size - r), size, q + 1, 0);
    }
  }

  /** m with zeros up to the next whole block. */
  function ZeroFilled(size: nat, m: seq<byte>): (p: seq<byte>)
    requires size > 0
    ensures |p| % size == 0
  {
    m + seq(Missing(size, |m|), _ => 0)
  }

  lemma MissingAfterBlock(size: nat, n: nat)
    requires size > 0 && n >= size
    ensures Missing(size, n) == Missing(size, n - size)
  {
    assert n == size * (n / size) + n % size;
    AtLeast(size, 1);
    assert n / size > 0;
    assert n - size == size * (n / size - 1) + n % size;
    RemainderIs(n - size, size, n / size - 1, n % size);
  }

  lemma MissingWithin(size: nat, n: nat)
    requires 0 < n <= size
    ensures Missing(size, n) == size - n
  {
    if n < size {
      RemainderIs(n, size, 0, n);
      RemainderIs(size - n, size, 0, size - n);
    } else {
      RemainderIs(n, size, 1, 0);
      RemainderIs(size, size, 1, 0);
    }
  }

  lemma {:induction false} CbcMacIsChained(c: BlockCipher, x: seq<byte>, m: seq<byte>)
    requires IsBlockCipher(c) && |x| == c.size
    ensures CbcMac(c, x, m) == Chained(c, x, ZeroFilled(c.size, m))
    decreases |m|
  {
    hide IsBlockCipher, Step, Missing;
    BlockSizePositive(c);
    var p := ZeroFilled(c.size, m);
    if m == [] {
      NothingMissing(c.size);
    } else if |m| < c.size {
      MissingWithin(c.size, |m|);
      assert p == m + Zeroes(c.size - |m|);
      StepLength(c, x, p);
      ChainedBlock(c, x, p);
    } else {
      MissingAfterBlock(c.size, |m|);
      StepLength(c, x, m[..c.size]);
      assert p[..c.size] == m[..c.size] && p[c.size..] == ZeroFilled(c.size, m[c.size..]);
      CbcMacIsChained(c, Step(c, x, m[..c.size]), m[c.size..]);
    }
  }

  lemma NothingMissing(size: nat)
    requires size > 0
    ensures Missing(size, 0) == 0
  {
    RemainderIs(0, size, 0, 0);
    RemainderIs(size, size, 1, 0);
  }

  lemma ChainedBlock(c: BlockCipher, x: seq<byte>, b: seq<byte>)
    requires IsBlockCipher(c) && |x| == |b| == c.size
    ensures Chained(c, x, b) == Step(c, x, b)
  {
    hide Step;
    assert b[..c.size] == b && b[c.size..] == [];
    StepLength(c, x, b);
  }

  /** The CBC-MAC of the project is the last block of the chain over the zero-filled message. */
  lemma CbcMacIsStandard(c: BlockCipher, m: seq<byte>)
    requires IsBlockCipher(c)
    ensures CbcMac(c, Zeroes(c.size), m) == LastOfChain(c, ZeroFilled(c.size, m))
  {
    hide IsBlockCipher, Chained, LastOfChain, ZeroFilled;
    BlockSizePositive(c);
    CbcMacIsChained(c, Zeroes(c.size), m);
    ChainedIsLast(c, ZeroFilled(c.size, m));
  }

  // ---------- CMAC ----------

  /** The number of bytes of the blocks that are encrypted, section 6.2 of NIST SP 800-38B: at least one block. */
  function CmacLength(size: nat, n: nat): (k: nat)
    requires size > 0
    ensures k >= size && k % size == 0 && n <= k <= n + size
  {
    RemainderIs(size, size, 1, 0);
    if n == 0 then size else AtLeastOneBlock(size, n); n + Missing(size, n)
  }

  lemma AtLeastOneBlock(size: nat, n: nat)
    requires size > 0 && n > 0
    ensures n + Missing(size, n) >= size
  {
    WholeMultiple(n + Missing(size, n), size);
  }

  /** Byte i of the padded message: the message, one bit, zeros. */
  function Padded(m: seq<byte>, i: nat): byte {
    if i < |m| then m[i] else if i == |m| then 0x80 else 0
  }

  /** The padded message with the first subkey added to a last block that was whole, or else the second. */
  function CmacInput(k: C.Keys, m: seq<byte>): (p: seq<byte>)
    requires C.AreKeys(k)
    ensures |p| % k.cipher.size == 0 && |p| == CmacLength(k.cipher.size, |m|)
  {
    var size := k.cipher.size;
    var total := CmacLength(size, |m|);
    seq(total, i requires 0 <= i < total =>
      if i < total - size then m[i]
      else if |m| == total then m[i] ^ k.k1[i - (total - size)]
      else Padded(m, i) ^ k.k2[i - (total - size)])
  }

  lemma CmacLengthOfMore(size: nat, n: nat)
    requires 0 < size < n
    ensures CmacLength(size, n) == size + CmacLength(size, n - size)
  {
    MissingAfterBlock(size, n);
  }

  lemma CmacLengthOfOne(size: nat, n: nat)
    requires n <= size && size > 0
    ensures CmacLength(size, n) == size
  {
    if n > 0 { MissingWithin(size, n); }
  }

  lemma InputOfLast(k: C.Keys, m: seq<byte>)
    requires C.AreKeys(k) && |m| <= k.cipher.size
    ensures CmacInput(k, m) == C.LastBlock(k, m)
  {
    hide CmacLength;
    CmacLengthOfOne(k.cipher.size, |m|);
  }

  lemma InputOfMore(k: C.Keys, m: seq<byte>)
    requires C.AreKeys(k) && |m| > k.cipher.size
    ensures CmacInput(k, m) == m[..k.cipher.size] + CmacInput(k, m[k.cipher.size..])
  {
    hide CmacLength, Padded, CmacInput;
    var n := k.cipher.size;
    var p, rest := CmacInput(k, m), m[n..];
    var q := CmacInput(k, rest);
    CmacLengthOfMore(n, |m|);
    assert |p| == n + |q|;
    forall i | 0 <= i < |p| ensures p[i] == (m[..n] + q)[i] {
      if i >= n {
        PaddedOfMore(m, n, i);
        InputByte(k, m, i);
        InputByte(k, rest, i - n);
      } else {
        InputByte(k, m, i);
      }
    }
  }

  lemma InputByte(k: C.Keys, m: seq<byte>, i: nat)
    requires C.AreKeys(k) && i < |CmacInput(k, m)|
    ensures var n, total := k.cipher.size, CmacLength(k.cipher.size, |m|);
            CmacInput(k, m)[i] == if i < total - n then m[i]
                                  else if |m| == total then m[i] ^ k.k1[i - (total - n)]
                                  else Padded(m, i) ^ k.k2[i - (total - n)]
  {
    hide CmacLength, Padded;
  }

  lemma PaddedOfMore(m: seq<byte>, n: nat, i: nat)
    requires n <= |m| && n <= i
    ensures Padded(m, i) == Padded(m[n..], i - n)
  {
  }

  lemma {:induction false} MacFromIsChained(k: C.Keys, x: seq<byte>, m: seq<byte>)
    requires C.AreKeys(k) && |x| == k.cipher.size
    ensures C.MacFrom(k, x, m) == Chained(k.cipher, x, CmacInput(k, m))
    decreases |m|
  {
    hide IsBlockCipher, Step, CmacInput, C.LastBlock;
    var n := k.cipher.size;
    BlockSizePositive(k.cipher);
    if |m| <= n {
      InputOfLast(k, m);
      ChainedBlock(k.cipher, x, C.LastBlock(k, m));
    } else {
      InputOfMore(k, m);
      StepLength(k.cipher, x, m[..n]);
      var p := CmacInput(k, m);
      assert p[..n] == m[..n] && p[n..] == CmacInput(k, m[n..]);
      MacFromIsChained(k, Step(k.cipher, x, m[..n]), m[n..]);
    }
  }

  /** The MAC of the project is the last block of the chain over the padded message. */
  lemma MacIsCmac(k: C.Keys, m: seq<byte>)
    requires C.AreKeys(k)
    ensures C.Mac(k, m) == LastOfChain(k.cipher, CmacInput(k, m))
  {
    hide IsBlockCipher, Chained, LastOfChain, CmacInput, C.MacFrom;
    BlockSizePositive(k.cipher);
    MacFromIsChained(k, Zeroes(k.cipher.size), m);
    ChainedIsLast(k.cipher, CmacInput(k, m));
  }

  /** The powers of u that u to the power of 8n reduces to. */
  function Exponents(n: nat): set<nat> {
    if n == 8 then {0, 1, 3, 4} else if n == 16 then {0, 1, 2, 7} else {0, 1, 5, 10}
  }

  /** Multiplication by u bit by bit: bit i of a block of b bits is the coefficient of the power b - 1 - i, all move up
      by one, and the one that falls off comes back as the polynomial. */
  lemma TimesUBit(v: G.Bits, n: nat, i: nat)
    requires C.IsSupported(n) && |v| == 8 * n && i < 8 * n
    ensures C.TimesU(v, n)[i] == ((i + 1 < 8 * n && v[i + 1]) != (v[0] && 8 * n - 1 - i in Exponents(n)))
  {
    PolynomialBit(n, i);
    hide BitsOf, C.Polynomial;
  }

  lemma PolynomialBit(n: nat, i: nat)
    requires C.IsSupported(n) && i < 8 * n
    ensures BitsOf(C.Polynomial(n))[i] == (8 * n - 1 - i in Exponents(n))
  {
    hide BitsOf, Bits8;
    if n == 32 {
      TailOfZeroes(30, [4, 0x23], i);
    } else {
      TailOfZeroes(n - 1, if n == 8 then [0x1b] else [0x87], i);
    }
    TailBits();
  }

  lemma TailOfZeroes(n: nat, tail: seq<byte>, i: nat)
    requires i < 8 * (n + |tail|)
    ensures BitsOf(Zeroes(n) + tail)[i] == (i >= 8 * n && BitsOf(tail)[i - 8 * n])
  {
    hide BitsOf;
    BitsOfConcat(Zeroes(n), tail);
    assert Zeroes(n) == ZeroBytes(n);
    BitsOfZeroBytes(n);
  }

  lemma TailBits()
    ensures BitsOf([0x1b]) == [false, false, false, true, true, false, true, true]
    ensures BitsOf([0x87]) == [true, false, false, false, false, true, true, true]
    ensures BitsOf([4, 0x23]) == [false, false, false, false, false, true, false, false,
                                  false, false, true, false, false, false, true, true]
  {
    BitsOfOne(0x1b);
    BitsOfOne(0x87);
    BitsOfOne(0x23);
    assert [4 as byte, 0x23][1..] == [0x23];
  }

  /** The polynomial for blocks of 32 bytes has the factor u^2 + u + 1, so unlike a field, its residues have divisors of
      zero. */
  lemma FactorFor32()
    ensures R.Product(Cofactor(), [true, true, true]) == seq(258, i => i == 256 || i in Exponents(32))
  {
    var q, y := Cofactor(), [true, true, true];
    hide Cofactor;
    R.ProductOfMore(q, true, []);
    R.ProductOfMore(q, true, [true]);
    R.ProductOfMore(q, true, [true, true]);
    assert [true] + [] == [true] && [true] + [true] == [true, true] && [true] + [true, true] == y;
    forall i | 0 <= i < 258 ensures R.Product(q, y)[i] == (i == 256 || i in Exponents(32)) {
      CofactorAt(i);
    }
  }

  function CofactorBit(k: int): bool { k in {0, 2, 3} || (10 <= k < 255 && k % 3 != 0) }

  function Cofactor(): (q: G.Bits)
    ensures |q| == 255
  {
    seq(255, k => CofactorBit(k))
  }

  lemma CofactorAt(i: nat)
    requires i < 258
    ensures i < 255 ==> Cofactor()[i] == CofactorBit(i)
    ensures 0 < i < 256 ==> Cofactor()[i - 1] == CofactorBit(i - 1)
    ensures 1 < i < 257 ==> Cofactor()[i - 2] == CofactorBit(i - 2)
    ensures ((CofactorBit(i) != CofactorBit(i - 1)) != CofactorBit(i - 2)) == (i == 256 || i in Exponents(32))
    ensures i >= 255 ==> !CofactorBit(i)
  {
  }

  // ---------- EAX ----------

  /** The MAC of a message behind the number t in a block, OMAC_t. */
  function OmacInput(k: C.Keys, t: nat, m: seq<byte>): (p: seq<byte>)
    requires C.AreKeys(k)
    ensures |p| % k.cipher.size == 0
  {
    CmacInput(k, BigEndian(t, k.cipher.size) + m)
  }

  lemma {:induction false} TweakIsNumber(n: nat, t: byte)
    requires n > 0
    ensures E.Tweak(n, t) == BigEndian(t as nat, n)
  {
    ByteIsSmall(t);
    ZeroInBytes(n - 1);
  }

  lemma {:induction false} ZeroInBytes(n: nat)
    ensures BigEndian(0, n) == Zeroes(n)
  {
    if n > 0 { ZeroInBytes(n - 1); }
  }

  lemma OmacIsStandard(k: C.Keys, t: byte, m: seq<byte>)
    requires C.AreKeys(k)
    ensures E.Omac(k, t, m) == LastOfChain(k.cipher, OmacInput(k, t as nat, m))
  {
    hide LastOfChain, CmacInput, C.Mac, BigEndian, E.Tweak;
    BlockSizePositive(k.cipher);
    TweakIsNumber(k.cipher.size, t);
    MacIsCmac(k, E.Tweak(k.cipher.size, t) + m);
  }

  /** Byte i of the tag is the sum of the bytes i of the three MACs: of the nonce behind 0, of the header behind 1 and
      of the ciphertext behind 2. */
  lemma EaxTagByte(k: C.Keys, nonce: seq<byte>, header: seq<byte>, ciphertext: seq<byte>, i: nat)
    requires C.AreKeys(k) && i < k.cipher.size
    ensures E.EaxTag(k, nonce, header, ciphertext)[i]
            == LastOfChain(k.cipher, OmacInput(k, 0, nonce))[i] ^ LastOfChain(k.cipher, OmacInput(k, 1, header))[i]
               ^ LastOfChain(k.cipher, OmacInput(k, 2, ciphertext))[i]
  {
    hide LastOfChain, OmacInput, E.Omac;
    OmacIsStandard(k, 0, nonce);
    OmacIsStandard(k, 1, header);
    OmacIsStandard(k, 2, ciphertext);
    SmallNumbers();
  }

  lemma SmallNumbers()
    ensures (0 as byte) as nat == 0 && (1 as byte) as nat == 1 && (2 as byte) as nat == 2
  {
  }
}
