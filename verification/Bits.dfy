/** Powers of two, and the shifts and bit queries of `Integer`. */
module Bits {

  function Pow2(n: nat): (p: nat)
    ensures p > 0
  {
    if n == 0 then 1 else 2 * Pow2(n - 1)
  }

  /** e >> n */
  function Shr(e: nat, n: nat): nat {
    if n == 0 then e else Shr(e / 2, n - 1)
  }

  /** The low n bits of e. */
  function Low(e: nat, n: nat): nat {
    if n == 0 then 0 else e % 2 + 2 * Low(e / 2, n - 1)
  }

  predicate GetBit(e: nat, n: nat) {
    Shr(e, n) % 2 == 1
  }

  function BitCount(e: nat): nat {
    if e == 0 then 0 else 1 + BitCount(e / 2)
  }

  /** Number of significant words of `bits` bits each. */
  function WordCount(e: nat, bits: nat): nat
    requires bits > 0
    decreases e
  {
    if e == 0 then 0 else ShrDecreases(e, bits); 1 + WordCount(Shr(e, bits), bits)
  }

  lemma {:induction false} ShrDecreases(e: nat, n: nat)
    ensures Shr(e, n) <= e
    ensures n > 0 && e > 0 ==> Shr(e, n) < e
  {
    if n > 0 {
      ShrDecreases(e / 2, n - 1);
    }
  }

  lemma {:induction false} Pow2Add(a: nat, b: nat)
    ensures Pow2(a + b) == Pow2(a) * Pow2(b)
  {
    if a > 0 {
      Pow2Add(a - 1, b);
      assert Pow2(a) * Pow2(b) == 2 * (Pow2(a - 1) * Pow2(b));
    }
  }

  lemma {:induction false} Pow2Monotone(a: nat, b: nat)
    requires a <= b
    ensures Pow2(a) <= Pow2(b)
    decreases b
  {
    if a < b {
      Pow2Monotone(a, b - 1);
    }
  }

  /** Shr and Low are quotient and remainder. */
  lemma {:induction false} SplitAt(e: nat, n: nat)
    ensures e == Shr(e, n) * Pow2(n) + Low(e, n)
    ensures Low(e, n) < Pow2(n)
  {
    if n > 0 {
      SplitAt(e / 2, n - 1);
      TwiceShifted(Shr(e, n), n);
    }
  }

  lemma LowBelow(e: nat, n: nat)
    ensures Low(e, n) < Pow2(n)
  {
    SplitAt(e, n);
  }

  /** ... and the only ones. */
  lemma {:induction false} SplitUnique(n: nat, q: nat, r: nat)
    requires r < Pow2(n)
    ensures Shr(q * Pow2(n) + r, n) == q && Low(q * Pow2(n) + r, n) == r
  {
    if n > 0 {
      TwiceShifted(q, n);
      SplitUnique(n - 1, q, r / 2);
      HalfOfSum(q * Pow2(n), q * Pow2(n - 1), r);
    }
  }

  lemma TwiceShifted(q: nat, n: nat)
    requires n > 0
    ensures q * Pow2(n) == 2 * (q * Pow2(n - 1))
  {
  }

  lemma HalfOfSum(whole: nat, half: nat, r: nat)
    requires whole == 2 * half
    ensures (whole + r) / 2 == half + r / 2 && (whole + r) % 2 == r % 2
  {
  }

  lemma {:induction false} ShrCarry(e: nat, n: nat)
    ensures Shr(e + Pow2(n), n) == Shr(e, n) + 1
  {
    if n > 0 {
      ShrCarry(e / 2, n - 1);
    }
  }

  lemma {:induction false} ShrShr(e: nat, a: nat, b: nat)
    ensures Shr(Shr(e, a), b) == Shr(e, a + b)
  {
    if a > 0 {
      ShrShr(e / 2, a - 1, b);
    }
  }

  lemma ShrOne(e: nat, a: nat)
    ensures Shr(e, a) / 2 == Shr(e, a + 1)
  {
    ShrShr(e, a, 1);
    assert Shr(Shr(e, a), 1) == Shr(Shr(e, a) / 2, 0);
  }

  lemma {:induction false} ShrBeyond(e: nat, n: nat, k: nat)
    requires e < Pow2(n) && n <= k
    ensures Shr(e, k) == 0
    decreases k
  {
    if k > 0 {
      if n == 0 {
        ShrBeyond(e, 0, k - 1);
      } else {
        ShrBeyond(e / 2, n - 1, k - 1);
      }
    }
  }

  lemma ShrBeyondWords(e: nat, bits: nat, k: nat)
    requires bits > 0 && WordCount(e, bits) * bits <= k
    ensures Shr(e, k) == 0
  {
    BelowWordCount(e, bits);
    ShrBeyond(e, WordCount(e, bits) * bits, k);
  }

  lemma {:induction false} BelowBitCount(e: nat)
    ensures e < Pow2(BitCount(e))
    ensures e > 0 ==> Pow2(BitCount(e) - 1) <= e
  {
    if e > 0 {
      BelowBitCount(e / 2);
    }
  }

  lemma {:induction false} BelowWordCount(e: nat, bits: nat)
    requires bits > 0
    ensures e < Pow2(WordCount(e, bits) * bits)
    decreases e
  {
    if e > 0 {
      ShrDecreases(e, bits);
      var q, n := Shr(e, bits), WordCount(Shr(e, bits), bits);
      BelowWordCount(q, bits);
      SplitAt(e, bits);
      Pow2Add(n * bits, bits);
      OneMore(n, bits);
      BelowProduct(q, Pow2(n * bits), Low(e, bits), Pow2(bits));
    }
  }

  lemma OneMore(n: nat, bits: nat)
    ensures (n + 1) * bits == n * bits + bits
  {
  }

  lemma BelowProduct(q: int, m: int, r: int, d: int)
    requires q < m && r < d && d > 0
    ensures q * d + r < m * d
  {
    assert (m - q - 1) * d >= 0;
    assert (m - q - 1) * d == m * d - q * d - d;
  }
}
