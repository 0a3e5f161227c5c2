/** What bytes left in the MAC object of EAX do to the tag of the next message. */
module EaxLeftovers {

  import opened AesBlock
  import opened BlockCiphers
  import opened BlockCounting
  import CbcMacs
  import opened Numerals
  import opened Cmacs
  import opened EaxMode
  import opened InvertibleCiphers
  import opened Pieces
  import opened XorBuffers

  /** Under these keys the leftover never shows. */
  ghost predicate IsHidden(k: Keys, dirt: seq<byte>)
    requires AreKeys(k)
  {
    forall nonce: seq<byte>, header: seq<byte>, c: seq<byte> {:trigger DirtyTag(k, dirt, nonce, header, c)} ::
      DirtyTag(k, dirt, nonce, header, c) == EaxTag(k, nonce, header, c)
  }

  // ---------- only the MAC of the nonce matters ----------

  lemma TagsAgreeIff(k: Keys, dirt: seq<byte>, nonce: seq<byte>, header: seq<byte>, c: seq<byte>)
    requires AreKeys(k)
    ensures DirtyTag(k, dirt, nonce, header, c) == EaxTag(k, nonce, header, c)
            <==> Mac(k, dirt + Tweak(k.cipher.size, 0) + nonce) == Mac(k, Tweak(k.cipher.size, 0) + nonce)
  {
    hide Mac, Tweak, XorBytes;
    var a, b := Mac(k, dirt + Tweak(k.cipher.size, 0) + nonce), Mac(k, Tweak(k.cipher.size, 0) + nonce);
    var h, t := Omac(k, 1, header), Omac(k, 2, c);
    if XorBytes(XorBytes(a, h), t) == XorBytes(XorBytes(b, h), t) {
      XorCancels(XorBytes(a, h), XorBytes(b, h), t);
      XorCancels(a, b, h);
    }
  }

  /** With one-to-one ciphers, different registers give different MACs. */
  lemma {:induction false} MacsAgreeIff(k: Keys, x: seq<byte>, y: seq<byte>, m: seq<byte>)
    requires AreKeys(k) && IsInvertible(k.cipher) && |x| == |y| == k.cipher.size
    ensures MacFrom(k, x, m) == MacFrom(k, y, m) <==> x == y
    decreases |m|
  {
    hide IsInvertible, Step, LastBlock;
    var n := k.cipher.size;
    if |m| > n {
      StepLength(k.cipher, x, m[..n]);
      StepLength(k.cipher, y, m[..n]);
      StepIsInjective(k.cipher, x, y, m[..n]);
      MacsAgreeIff(k, Step(k.cipher, x, m[..n]), Step(k.cipher, y, m[..n]), m[n..]);
    } else {
      StepIsInjective(k.cipher, x, y, LastBlock(k, m));
    }
  }

  /** Whole blocks in front of a message only change the register it starts from. */
  lemma {:induction false} MacAfterBlocks(k: Keys, x: seq<byte>, front: seq<byte>, m: seq<byte>)
    requires AreKeys(k) && |x| == k.cipher.size && Leftover(k.cipher.size, front) == [] && m != []
    ensures MacFrom(k, x, front + m) == MacFrom(k, Chained(k.cipher, x, front), m)
    decreases |front|
  {
    hide IsBlockCipher, Step, LastBlock;
    var n := k.cipher.size;
    BlockSizePositive(k.cipher);
    if |front| < n {
      assert front + m == m;
    } else {
      assert (front + m)[..n] == front[..n] && (front + m)[n..] == front[n..] + m;
      StepLength(k.cipher, x, front[..n]);
      MacAfterBlocks(k, Step(k.cipher, x, front[..n]), front[n..], m);
    }
  }

  // ---------- whole blocks ----------

  lemma {:induction false} LeftoverIsRemainder(n: nat, data: seq<byte>)
    requires n > 0
    ensures |Leftover(n, data)| == |data| % n
    decreases |data|
  {
    if |data| >= n {
      LeftoverIsRemainder(n, data[n..]);
      OneBlockLess(|data|, n);
    }
  }

  /** A leftover of whole blocks shows, for every nonce, unless it takes the register back to zero. */
  lemma WholeBlocksShow(k: Keys, dirt: seq<byte>, nonce: seq<byte>, header: seq<byte>, c: seq<byte>)
    requires AreKeys(k) && IsInvertible(k.cipher) && |dirt| % k.cipher.size == 0
    ensures DirtyTag(k, dirt, nonce, header, c) == EaxTag(k, nonce, header, c)
            <==> Chained(k.cipher, Zeroes(k.cipher.size), dirt) == Zeroes(k.cipher.size)
  {
    hide IsInvertible, IsBlockCipher, MacFrom, Chained, DirtyTag, EaxTag, Leftover;
    BlockSizePositive(k.cipher);
    var n := k.cipher.size;
    var m := Tweak(n, 0) + nonce;
    TagsAgreeIff(k, dirt, nonce, header, c);
    assert dirt + Tweak(n, 0) + nonce == dirt + m;
    LeftoverIsRemainder(n, dirt);
    MacAfterBlocks(k, Zeroes(n), dirt, m);
    MacsAgreeIff(k, Chained(k.cipher, Zeroes(n), dirt), Zeroes(n), m);
  }

  // ---------- part of a block ----------

  /** The register once part of a block is filled up with the front of the tweak block. */
  function ShiftedRegister(k: Keys, dirt: seq<byte>): (g: seq<byte>)
    requires AreKeys(k)
    ensures |g| == k.cipher.size
  {
    var n := k.cipher.size;
    var part := Leftover(n, dirt);
    var g := Step(k.cipher, Chained(k.cipher, Zeroes(n), dirt), part + Zeroes(n - |part|));
    StepLength(k.cipher, Chained(k.cipher, Zeroes(n), dirt), part + Zeroes(n - |part|));
    g
  }

  lemma MacOfShifted(k: Keys, dirt: seq<byte>, v: byte)
    requires AreKeys(k)
    ensures k.cipher.size > 0 && |Leftover(k.cipher.size, dirt)| < k.cipher.size
    ensures Leftover(k.cipher.size, dirt) != [] ==>
      Mac(k, dirt + Tweak(k.cipher.size, 0) + [v])
      == Step(k.cipher, ShiftedRegister(k, dirt), LastBlock(k, Zeroes(|Leftover(k.cipher.size, dirt)|) + [v]))
  {
    hide IsBlockCipher, Step, LastBlock, Chained, Leftover;
    BlockSizePositive(k.cipher);
    var n := k.cipher.size;
    var part := Leftover(n, dirt);
    LeftoverIsSuffix(n, dirt);
    var whole := dirt[..|dirt| - |part|];
    CbcMacs.WholePart(k.cipher, Zeroes(n), dirt, whole);
    var tail := part + Tweak(n, 0) + [v];
    assert dirt + Tweak(n, 0) + [v] == whole + tail;
    MacAfterBlocks(k, Zeroes(n), whole, tail);
    assert tail[..n] == part + Zeroes(n - |part|) && tail[n..] == Zeroes(|part|) + [v];
    StepLength(k.cipher, Chained(k.cipher, Zeroes(n), dirt), tail[..n]);
  }

  lemma MacOfNonce(k: Keys, v: byte)
    requires AreKeys(k) && k.cipher.size > 0
    ensures |Step(k.cipher, Zeroes(k.cipher.size), Zeroes(k.cipher.size))| == k.cipher.size
    ensures Mac(k, Tweak(k.cipher.size, 0) + [v])
            == Step(k.cipher, Step(k.cipher, Zeroes(k.cipher.size), Zeroes(k.cipher.size)), LastBlock(k, [v]))
  {
    hide IsBlockCipher, Step, LastBlock;
    var n := k.cipher.size;
    var m := Tweak(n, 0) + [v];
    assert m[..n] == Zeroes(n) && m[n..] == [v];
    StepLength(k.cipher, Zeroes(n), Zeroes(n));
    assert MacFrom(k, Zeroes(n), m) == MacFrom(k, Step(k.cipher, Zeroes(n), Zeroes(n)), [v]);
  }

  /** Moved by r bytes, the nonce byte is not in front. */
  lemma FrontOfLastBlock(k: Keys, r: nat, v: byte)
    requires AreKeys(k) && 0 < r < k.cipher.size
    ensures LastBlock(k, Zeroes(r) + [v])[0] == Add(0, if r + 1 == k.cipher.size then k.k1[0] else k.k2[0])
    ensures LastBlock(k, [v])[0] == Add(v, k.k2[0])
  {
    hide Add, IsBlockCipher;
  }

  lemma FrontsDiffer(a: byte, b: byte, m: byte)
    requires a == Add(b, Add(0, m))
    ensures a != Add(b, Add(1, m))
  {
  }

  lemma FrontsAgree(k: Keys, dirt: seq<byte>, header: seq<byte>, c: seq<byte>, v: byte)
    requires AreKeys(k) && IsInvertible(k.cipher) && k.cipher.size > 0 && Leftover(k.cipher.size, dirt) != []
    requires DirtyTag(k, dirt, [v], header, c) == EaxTag(k, [v], header, c)
    ensures |Step(k.cipher, Zeroes(k.cipher.size), Zeroes(k.cipher.size))| == k.cipher.size
    ensures Add(ShiftedRegister(k, dirt)[0],
                Add(0, if |Leftover(k.cipher.size, dirt)| + 1 == k.cipher.size then k.k1[0] else k.k2[0]))
            == Add(Step(k.cipher, Zeroes(k.cipher.size), Zeroes(k.cipher.size))[0], Add(v, k.k2[0]))
  {
    hide IsBlockCipher, Mac, DirtyTag, EaxTag, Leftover, ShiftedRegister, LastBlock, Add;
    var n, r := k.cipher.size, |Leftover(k.cipher.size, dirt)|;
    var g, h := ShiftedRegister(k, dirt), Step(k.cipher, Zeroes(n), Zeroes(n));
    TagsAgreeIff(k, dirt, [v], header, c);
    MacOfShifted(k, dirt, v);
    MacOfNonce(k, v);
    FrontOfLastBlock(k, r, v);
    var a, b := LastBlock(k, Zeroes(r) + [v]), LastBlock(k, [v]);
    assert XorBytes(g, a) == XorBytes(h, b);
    assert XorBytes(g, a)[0] == Add(g[0], a[0]) && XorBytes(h, b)[0] == Add(h[0], b[0]);
  }

  /** Part of a block left over moves the nonce out of place, and one of two nonces shows it. */
  lemma PartOfBlockShows(k: Keys, dirt: seq<byte>, header: seq<byte>, c: seq<byte>)
    requires AreKeys(k) && IsInvertible(k.cipher) && k.cipher.size > 0 && Leftover(k.cipher.size, dirt) != []
    ensures DirtyTag(k, dirt, [0], header, c) != EaxTag(k, [0], header, c)
            || DirtyTag(k, dirt, [1], header, c) != EaxTag(k, [1], header, c)
  {
    hide IsBlockCipher, Mac, DirtyTag, EaxTag, Leftover, ShiftedRegister, LastBlock, Add;
    var n, r := k.cipher.size, |Leftover(k.cipher.size, dirt)|;
    var g, h := ShiftedRegister(k, dirt), Step(k.cipher, Zeroes(n), Zeroes(n));
    MacOfShifted(k, dirt, 0);
    var front := Add(g[0], Add(0, if r + 1 == n then k.k1[0] else k.k2[0]));
    if DirtyTag(k, dirt, [0], header, c) == EaxTag(k, [0], header, c) {
      FrontsAgree(k, dirt, header, c, 0);
      if DirtyTag(k, dirt, [1], header, c) == EaxTag(k, [1], header, c) {
        FrontsAgree(k, dirt, header, c, 1);
        FrontsDiffer(front, h[0], k.k2[0]);
        assert false;
      }
    }
  }

  // ---------- exactly when a leftover shows ----------

  /** For every cipher and any keys: a leftover never shows exactly when it is whole blocks and they take the register
      back to zero. */
  lemma HiddenIff(k: Keys, dirt: seq<byte>)
    requires AreKeys(k) && IsInvertible(k.cipher)
    ensures k.cipher.size > 0
    ensures IsHidden(k, dirt) <==>
            |dirt| % k.cipher.size == 0 && Chained(k.cipher, Zeroes(k.cipher.size), dirt) == Zeroes(k.cipher.size)
  {
    hide IsInvertible, IsBlockCipher, DirtyTag, EaxTag, Chained, Leftover;
    BlockSizePositive(k.cipher);
    var n := k.cipher.size;
    LeftoverIsRemainder(n, dirt);
    if |dirt| % n == 0 {
      forall nonce: seq<byte>, header: seq<byte>, c: seq<byte>
        ensures DirtyTag(k, dirt, nonce, header, c) == EaxTag(k, nonce, header, c)
                <==> Chained(k.cipher, Zeroes(n), dirt) == Zeroes(n)
      {
        WholeBlocksShow(k, dirt, nonce, header, c);
      }
      assert IsHidden(k, dirt) ==> DirtyTag(k, dirt, [], [], []) == EaxTag(k, [], [], []);
    } else {
      PartOfBlockShows(k, dirt, [], []);
    }
  }

  /** The tag is the EAX tag whatever the key of a cipher with blocks of n bytes, the nonce, the header and the
      ciphertext. */
  ghost predicate AlwaysEax(n: nat, dirt: seq<byte>) {
    forall k: Keys {:trigger IsHidden(k, dirt)} ::
      AreSubkeys(k) && k.cipher.size == n && IsInvertible(k.cipher) ==> IsHidden(k, dirt)
  }

  lemma NothingIsHidden(k: Keys)
    requires AreKeys(k)
    ensures IsHidden(k, [])
  {
    hide DirtyTag, EaxTag;
    forall nonce: seq<byte>, header: seq<byte>, c: seq<byte>
      ensures DirtyTag(k, [], nonce, header, c) == EaxTag(k, nonce, header, c)
    {
      CleanTag(k, nonce, header, c);
    }
  }

  /** Anything left over shows under some cipher, up to half as many blocks as there are of that size: 2^63 at
      the least. */
  lemma LeftoverShows(n: nat, dirt: seq<byte>) returns (k: Keys)
    requires IsSupported(n) && dirt != [] && 2 * (|dirt| / n) <= Power256(n)
    ensures AreSubkeys(k) && k.cipher.size == n && IsInvertible(k.cipher) && !IsHidden(k, dirt)
  {
    hide IsHidden, AreSubkeys, IsInvertible, IsBlockCipher, Chained, Power256, BlocksOf, Register;
    var c := Identity(n);
    IdentityIsInvertible(n);
    if |dirt| % n == 0 {
      var bs := BlocksOf(n, dirt);
      BlocksAreData(n, dirt);
      assert bs != [];
      c := Escape(n, bs);
      ChainedIsRegister(c, bs, |bs|);
      assert bs[..|bs|] == bs;
    }
    InvertibleIsCipher(c);
    k := KeysOf(c);
    KeysOfAreSubkeys(c);
    SubkeysAreKeys(k);
    HiddenIff(k, dirt);
  }

  lemma InvertibleIsCipher(c: BlockCipher)
    requires IsInvertible(c)
    ensures IsBlockCipher(c)
  {
  }

  lemma SubkeysAreKeys(k: Keys)
    requires AreSubkeys(k)
    ensures AreKeys(k)
  {
  }

  /** So for every leftover of that length the tag is always the EAX tag exactly when there is none. */
  lemma AlwaysEaxIffClean(n: nat, dirt: seq<byte>)
    requires IsSupported(n) && 2 * (|dirt| / n) <= Power256(n)
    ensures AlwaysEax(n, dirt) <==> dirt == []
  {
    hide IsHidden, AreSubkeys, IsInvertible, Power256;
    if dirt == [] {
      forall k: Keys | AreSubkeys(k) && k.cipher.size == n && IsInvertible(k.cipher)
        ensures AreKeys(k) && IsHidden(k, dirt)
      {
        SubkeysAreKeys(k);
        NothingIsHidden(k);
      }
    } else {
      var k := LeftoverShows(n, dirt);
    }
  }

  // ---------- leftovers too long to show ----------

  lemma {:induction false} ChainedZeroes(c: BlockCipher, x: seq<byte>, m: nat)
    requires IsBlockCipher(c) && |x| == c.size
    ensures Chained(c, x, Zeroes(c.size * m)) == Iterated(c, x, m)
  {
    BlockSizePositive(c);
    hide IsBlockCipher;
    if m > 0 {
      var n := c.size;
      var front := Zeroes(n * (m - 1));
      assert n * m == n * (m - 1) + n;
      assert Zeroes(n * m) == front + Zeroes(n);
      ChainedZeroes(c, x, m - 1);
      CbcMacs.ChainedInTwo(c, x, front, Zeroes(n));
      LeftoverOfZeroes(n, m - 1);
      assert [] + Zeroes(n) == Zeroes(n);
      OneBlock(c, Iterated(c, x, m - 1), Zeroes(n));
      AddZeroes(Iterated(c, x, m - 1));
    }
  }

  lemma AddZeroes(x: seq<byte>)
    ensures XorBytes(x, Zeroes(|x|)) == x
  {
    AddNothing();
    hide Add;
  }

  lemma LeftoverOfZeroes(n: nat, m: nat)
    requires n > 0
    ensures Leftover(n, Zeroes(n * m)) == []
  {
    hide Leftover;
    LeftoverIsRemainder(n, Zeroes(n * m));
    Multiple(n, m);
  }

  lemma Multiple(n: nat, m: nat)
    requires n > 0
    ensures (n * m) % n == 0
  {
    DivisionIsUnique(n * m, n, m, 0);
  }

  /** The bound cannot be left out: as many zero blocks as a multiple of the length of every cycle do not show, under
      any cipher. */
  lemma ZeroesNeverShow(n: nat)
    requires n > 0
    ensures n * Factorial(Power256(n)) > 0 && AlwaysEax(n, Zeroes(n * Factorial(Power256(n))))
  {
    hide IsHidden, AreSubkeys, IsInvertible, Power256, Factorial, Chained;
    var m := Factorial(Power256(n));
    forall k: Keys | AreSubkeys(k) && k.cipher.size == n && IsInvertible(k.cipher)
      ensures AreKeys(k) && IsHidden(k, Zeroes(n * m))
    {
      SubkeysAreKeys(k);
      InvertibleIsCipher(k.cipher);
      var p := ComesBack(k.cipher, Zeroes(n));
      var q := DividesFactorial(p, Power256(n));
      ComesBackAgain(k.cipher, Zeroes(n), p, q);
      ChainedZeroes(k.cipher, Zeroes(n), m);
      Multiple(n, m);
      HiddenIff(k, Zeroes(n * m));
    }
  }
}
