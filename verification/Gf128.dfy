/** Multiplication in GF(2^128) as section 6.3 of NIST SP 800-38D defines it: a block is the sequence of its
    bits, bit k being the coefficient of x^k. */
module Gf128 {

  type Bits = seq<bool>

  function Zeros(n: nat): (z: Bits)
    ensures |z| == n
  {
    seq(n, _ => false)
  }

  function Plus(a: Bits, b: Bits): (c: Bits)
    requires |a| == |b|
    ensures |c| == |a|
  {
    seq(|a|, i requires 0 <= i < |a| => a[i] != b[i])
  }

  /** 1 + x + x^2 + x^7, which is x^128. */
  function Reducer(): (r: Bits)
    ensures |r| == 128
  {
    [true, true, true, false, false, false, false, true] + Zeros(120)
  }

  function TimesX(v: Bits): (w: Bits)
    requires |v| == 128
    ensures |w| == 128
  {
    var shifted := [false] + v[..127];
    if v[127] then Plus(shifted, Reducer()) else shifted
  }

  function TimesXPower(v: Bits, n: nat): (w: Bits)
    requires |v| == 128
    ensures |w| == 128
    decreases n
  {
    if n == 0 then v else TimesXPower(TimesX(v), n - 1)
  }

  function Select(b: bool, v: Bits): (w: Bits)
    ensures |w| == |v|
  {
    if b then v else Zeros(|v|)
  }

  /** The product of v and the polynomial whose coefficients are y: the sum of x^i v over the bits set in y. */
  function Mul(v: Bits, y: Bits): (p: Bits)
    requires |v| == 128
    ensures |p| == 128
    decreases |y|
  {
    if y == [] then Zeros(128) else Plus(Select(y[0], v), Mul(TimesX(v), y[1..]))
  }

  // ---------- addition ----------

  lemma PlusLaws(a: Bits, b: Bits, c: Bits)
    requires |a| == |b| == |c|
    ensures Plus(a, b) == Plus(b, a) && Plus(Plus(a, b), c) == Plus(a, Plus(b, c))
    ensures Plus(a, Zeros(|a|)) == a && Plus(Zeros(|a|), a) == a && Plus(a, a) == Zeros(|a|)
  {
  }

  lemma PlusSwap(a: Bits, b: Bits, c: Bits, d: Bits)
    requires |a| == |b| == |c| == |d|
    ensures Plus(Plus(a, b), Plus(c, d)) == Plus(Plus(a, c), Plus(b, d))
  {
  }

  lemma SelectIsLinear(b: bool, v: Bits, w: Bits)
    requires |v| == |w|
    ensures Select(b, Plus(v, w)) == Plus(Select(b, v), Select(b, w))
  {
    PlusLaws(Zeros(|v|), Zeros(|v|), Zeros(|v|));
  }

  lemma SelectOfSum(b: bool, c: bool, v: Bits)
    ensures Select(b != c, v) == Plus(Select(b, v), Select(c, v))
  {
    PlusLaws(v, v, v);
    PlusLaws(Zeros(|v|), Zeros(|v|), Zeros(|v|));
  }

  // ---------- multiplication by x ----------

  lemma ShiftIsLinear(v: Bits, w: Bits)
    requires |v| == |w| == 128
    ensures [false] + Plus(v, w)[..127] == Plus([false] + v[..127], [false] + w[..127])
  {
  }

  lemma TimesXIsLinear(v: Bits, w: Bits)
    requires |v| == |w| == 128
    ensures TimesX(Plus(v, w)) == Plus(TimesX(v), TimesX(w))
  {
    ShiftIsLinear(v, w);
    var s, t := [false] + v[..127], [false] + w[..127];
    SelectOfSum(v[127], w[127], Reducer());
    TimesXBySelect(v);
    TimesXBySelect(w);
    TimesXBySelect(Plus(v, w));
    PlusSwap(s, t, Select(v[127], Reducer()), Select(w[127], Reducer()));
    assert Plus(v, w)[127] == (v[127] != w[127]);
    hide Plus, TimesX, Reducer;
  }

  lemma TimesXBySelect(v: Bits)
    requires |v| == 128
    ensures TimesX(v) == Plus([false] + v[..127], Select(v[127], Reducer()))
  {
    PlusLaws([false] + v[..127], [false] + v[..127], [false] + v[..127]);
    hide Plus, Reducer;
  }

  lemma TimesXOfZeros()
    ensures TimesX(Zeros(128)) == Zeros(128)
  {
    assert [false] + Zeros(128)[..127] == Zeros(128);
  }

  // ---------- the product ----------

  lemma {:induction false} MulOfZeros(y: Bits)
    ensures Mul(Zeros(128), y) == Zeros(128)
    decreases |y|
  {
    if y != [] {
      hide TimesX, Plus;
      TimesXOfZeros();
      MulOfZeros(y[1..]);
      PlusLaws(Zeros(128), Zeros(128), Zeros(128));
    }
  }

  lemma {:induction false} MulIsLinear(v: Bits, w: Bits, y: Bits)
    requires |v| == |w| == 128
    ensures Mul(Plus(v, w), y) == Plus(Mul(v, y), Mul(w, y))
    decreases |y|
  {
    hide TimesX, Plus, Select;
    if y == [] {
      PlusLaws(Zeros(128), Zeros(128), Zeros(128));
    } else {
      TimesXIsLinear(v, w);
      MulIsLinear(TimesX(v), TimesX(w), y[1..]);
      SelectIsLinear(y[0], v, w);
      PlusSwap(Select(y[0], v), Select(y[0], w), Mul(TimesX(v), y[1..]), Mul(TimesX(w), y[1..]));
    }
  }

  lemma {:induction false} MulOfSum(v: Bits, y: Bits, z: Bits)
    requires |v| == 128 && |y| == |z|
    ensures Mul(v, Plus(y, z)) == Plus(Mul(v, y), Mul(v, z))
    decreases |y|
  {
    hide TimesX, Plus, Select;
    if y == [] {
      PlusLaws(Zeros(128), Zeros(128), Zeros(128));
    } else {
      MulOfSum(TimesX(v), y[1..], z[1..]);
      MulOfSumStep(v, y, z);
    }
  }

  lemma SumTail(y: Bits, z: Bits)
    requires |y| == |z| > 0
    ensures Plus(y, z)[0] == (y[0] != z[0]) && Plus(y, z)[1..] == Plus(y[1..], z[1..])
  {
  }

  lemma MulOfSumStep(v: Bits, y: Bits, z: Bits)
    requires |v| == 128 && |y| == |z| > 0
    requires Mul(TimesX(v), Plus(y[1..], z[1..])) == Plus(Mul(TimesX(v), y[1..]), Mul(TimesX(v), z[1..]))
    ensures Mul(v, Plus(y, z)) == Plus(Mul(v, y), Mul(v, z))
  {
    hide TimesX, Plus, Select;
    SumTail(y, z);
    SelectOfSum(y[0], z[0], v);
    PlusSwap(Select(y[0], v), Select(z[0], v), Mul(TimesX(v), y[1..]), Mul(TimesX(v), z[1..]));
  }

  lemma {:induction false} MulOfTimesX(v: Bits, y: Bits)
    requires |v| == 128
    ensures Mul(TimesX(v), y) == TimesX(Mul(v, y))
    decreases |y|
  {
    hide TimesX, Plus, Select;
    if y == [] {
      TimesXOfZeros();
    } else {
      MulOfTimesX(TimesX(v), y[1..]);
      TimesXIsLinear(Select(y[0], v), Mul(TimesX(v), y[1..]));
      TimesXOfSelect(y[0], v);
    }
  }

  lemma TimesXOfSelect(b: bool, v: Bits)
    requires |v| == 128
    ensures TimesX(Select(b, v)) == Select(b, TimesX(v))
  {
    hide TimesX;
    TimesXOfZeros();
  }

  /** Multiplying by y and then by z is multiplying by z and then by y. */
  lemma {:induction false} MulMulSwap(v: Bits, y: Bits, z: Bits)
    requires |v| == 128
    ensures Mul(Mul(v, y), z) == Mul(Mul(v, z), y)
    decreases |y|
  {
    hide TimesX, Plus, Select;
    if y == [] {
      MulOfZeros(z);
    } else {
      MulIsLinear(Select(y[0], v), Mul(TimesX(v), y[1..]), z);
      MulMulSwap(TimesX(v), y[1..], z);
      MulOfTimesX(v, z);
      MulOfSelect(y[0], v, z);
    }
  }

  lemma MulOfSelect(b: bool, v: Bits, z: Bits)
    requires |v| == 128
    ensures Mul(Select(b, v), z) == Select(b, Mul(v, z))
  {
    hide Mul;
    MulOfZeros(z);
  }

  // ---------- one ----------

  /** x^k, for k below 128. */
  function Monomial(k: nat): (m: Bits)
    requires k < 128
    ensures |m| == 128
  {
    Zeros(k) + [true] + Zeros(127 - k)
  }

  lemma TimesXOfMonomial(k: nat)
    requires k < 127
    ensures TimesX(Monomial(k)) == Monomial(k + 1)
  {
  }

  /** Multiplying x^k by y moves y up k places, as long as nothing runs over the end. */
  lemma {:induction false} MulOfMonomial(k: nat, y: Bits)
    requires k + |y| <= 128
    requires k < 128
    ensures Mul(Monomial(k), y) == Zeros(k) + y + Zeros(128 - k - |y|)
    decreases |y|
  {
    hide TimesX, Mul;
    if y == [] {
      MulOfNothing(Monomial(k));
    } else if k == 127 {
      MulOfOneBit(Monomial(k), y);
      PlusLaws(Select(y[0], Monomial(k)), Zeros(128), Zeros(128));
    } else {
      TimesXOfMonomial(k);
      MulOfMonomial(k + 1, y[1..]);
      MulUnfold(Monomial(k), y);
      assert Plus(Select(y[0], Monomial(k)), Zeros(k + 1) + y[1..] + Zeros(128 - k - |y|))
          == Zeros(k) + y + Zeros(128 - k - |y|);
    }
  }

  lemma MulOfNothing(v: Bits)
    requires |v| == 128
    ensures Mul(v, []) == Zeros(128)
  {
  }

  lemma MulOfOneBit(v: Bits, y: Bits)
    requires |v| == 128 && |y| == 1
    ensures Mul(v, y) == Plus(Select(y[0], v), Zeros(128))
  {
    hide TimesX, Plus, Select;
    assert y[1..] == [];
  }

  lemma MulUnfold(v: Bits, y: Bits)
    requires |v| == 128 && y != []
    ensures Mul(v, y) == Plus(Select(y[0], v), Mul(TimesX(v), y[1..]))
  {
  }

  lemma MulOfOne(y: Bits)
    requires |y| == 128
    ensures Mul(Monomial(0), y) == y
  {
    hide Mul, Monomial;
    MulOfMonomial(0, y);
    assert Zeros(0) + y + Zeros(0) == y;
  }

  /** The product of two blocks does not depend on their order. */
  lemma MulIsCommutative(y: Bits, z: Bits)
    requires |y| == |z| == 128
    ensures Mul(y, z) == Mul(z, y)
  {
    hide Mul, Monomial;
    MulMulSwap(Monomial(0), y, z);
    MulOfOne(y);
    MulOfOne(z);
  }

  // ---------- several bits at a time ----------

  lemma {:induction false} MulOfTimesXPower(v: Bits, n: nat, y: Bits)
    requires |v| == 128
    ensures Mul(TimesXPower(v, n), y) == TimesXPower(Mul(v, y), n)
    decreases n
  {
    hide TimesX, Mul;
    if n > 0 {
      MulOfTimesX(v, y);
      MulOfTimesXPower(TimesX(v), n - 1, y);
    }
  }

  lemma {:induction false} MulOfConcat(v: Bits, y: Bits, z: Bits)
    requires |v| == 128
    ensures Mul(v, y + z) == Plus(Mul(v, y), TimesXPower(Mul(v, z), |y|))
    decreases |y|
  {
    hide TimesX, Plus, Select;
    if y == [] {
      assert y + z == z;
      PlusLaws(Mul(v, z), Mul(v, z), Mul(v, z));
    } else {
      assert (y + z)[1..] == y[1..] + z;
      MulOfConcat(TimesX(v), y[1..], z);
      MulOfTimesX(v, z);
      PlusLaws(Select(y[0], v), Mul(TimesX(v), y[1..]), TimesXPower(Mul(TimesX(v), z), |y| - 1));
    }
  }

  lemma {:induction false} TimesXPowerIsLinear(v: Bits, w: Bits, n: nat)
    requires |v| == |w| == 128
    ensures TimesXPower(Plus(v, w), n) == Plus(TimesXPower(v, n), TimesXPower(w, n))
    decreases n
  {
    hide TimesX, Plus;
    if n > 0 {
      TimesXIsLinear(v, w);
      TimesXPowerIsLinear(TimesX(v), TimesX(w), n - 1);
    }
  }
}
