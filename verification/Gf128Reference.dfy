/** The product of two blocks as the remainder of a product of polynomials: GF(2^128) as section 6.3 of NIST
    SP 800-38D describes it, without shifting and reducing by turns. */
module Gf128Reference {

  import opened AesBlock
  import opened Gf128
  import opened GcmBits

  // ---------- polynomials ----------

  /** The coefficients of a product: those of y one after the other with all of v. */
  function Product(v: Bits, y: Bits): (p: Bits)
    ensures |p| == |v| + |y|
    decreases |y|
  {
    if y == [] then Zeros(|v|)
    else Plus(Select(y[0], v) + Zeros(|y|), [false] + Product(v, y[1..]))
  }

  /** x^128 + x^7 + x^2 + x + 1 */
  function Modulus(): (m: Bits)
    ensures |m| == 129
  {
    seq(129, i => i in {0, 1, 2, 7, 128})
  }

  /** v times y is q times the modulus plus r, which has no power of x beyond the 127th. */
  ghost predicate IsRemainder(v: Bits, y: Bits, q: Bits, r: Bits) {
    && |v| == |r| == 128 && |q| == |y|
    && Product(v, y) + [false] == Plus(Product(Modulus(), q), r + Zeros(|y| + 1))
  }

  // ---------- the product of the project is the remainder ----------

  /** One bit for every time that TimesX reduces. */
  function Quotient(v: Bits, y: Bits): (q: Bits)
    requires |v| == 128
    ensures |q| == |y|
  {
    if y == [] then [] else [Mul(v, y[1..])[127]] + Quotient(v, y[1..])
  }

  lemma TimesXReduces(w: Bits)
    requires |w| == 128
    ensures [false] + w == Plus(TimesX(w) + [false], Select(w[127], Modulus()))
  {
    var m := Modulus();
    ReducerAndModulus();
    TimesXBySelect(w);
    hide TimesX, Reducer, Modulus;
    var s, t := Select(w[127], Reducer()), Select(w[127], m);
    forall i | 0 <= i < 129 ensures ([false] + w)[i] == Plus(TimesX(w) + [false], t)[i] {
      if i < 128 {
        assert TimesX(w)[i] == (([false] + w[..127])[i] != s[i]);
      }
    }
  }

  lemma ReducerAndModulus()
    ensures Modulus()[128] && forall i :: 0 <= i < 128 ==> Modulus()[i] == Reducer()[i]
  {
  }

  lemma ReductionStep(a: Bits, p: Bits, pm: Bits, w: Bits, t: Bits, s: Bits, n: nat)
    requires n > 0 && |a| == |w| == |t| == 128 && |p| == 127 + n && |pm| == 128 + n && |s| == 129
    requires p + [false] == Plus(pm, w + Zeros(n)) && [false] + w == Plus(t + [false], s)
    ensures Plus(a + Zeros(n), [false] + p) + [false]
            == Plus(Plus(s + Zeros(n), [false] + pm), Plus(a, t) + Zeros(n + 1))
  {
    var left := Plus(a + Zeros(n), [false] + p) + [false];
    var right := Plus(Plus(s + Zeros(n), [false] + pm), Plus(a, t) + Zeros(n + 1));
    forall i | 0 <= i < 129 + n ensures left[i] == right[i] {
      StepAt(a, p, pm, w, t, s, n, i);
    }
  }

  lemma StepAt(a: Bits, p: Bits, pm: Bits, w: Bits, t: Bits, s: Bits, n: nat, i: nat)
    requires n > 0 && |a| == |w| == |t| == 128 && |p| == 127 + n && |pm| == 128 + n && |s| == 129 && i < 129 + n
    requires p + [false] == Plus(pm, w + Zeros(n)) && [false] + w == Plus(t + [false], s)
    ensures (Plus(a + Zeros(n), [false] + p) + [false])[i]
            == Plus(Plus(s + Zeros(n), [false] + pm), Plus(a, t) + Zeros(n + 1))[i]
  {
    if i > 0 {
      assert (p + [false])[i - 1] == Plus(pm, w + Zeros(n))[i - 1];
    }
    if i < 129 {
      assert ([false] + w)[i] == Plus(t + [false], s)[i];
    }
  }

  lemma ProductOfMore(v: Bits, b: bool, y: Bits)
    ensures Product(v, [b] + y) == Plus(Select(b, v) + Zeros(|y| + 1), [false] + Product(v, y))
  {
    assert ([b] + y)[1..] == y;
  }

  /** The product of the project is the remainder of the product of polynomials. */
  lemma {:induction false} MulIsRemainder(v: Bits, y: Bits)
    requires |v| == 128
    ensures IsRemainder(v, y, Quotient(v, y), Mul(v, y))
    decreases |y|
  {
    hide Mul, Plus, TimesX, Select, Modulus;
    if y == [] {
      EmptyProducts(v, y);
    } else {
      var rest := y[1..];
      var w, q := Mul(v, rest), Quotient(v, rest);
      MulIsRemainder(v, rest);
      TimesXReduces(w);
      MulUnfold(v, y);
      MulOfTimesX(v, rest);
      ProductOfMore(Modulus(), w[127], q);
      ReductionStep(Select(y[0], v), Product(v, rest), Product(Modulus(), q), w, TimesX(w),
                    Select(w[127], Modulus()), |y|);
    }
  }

  lemma EmptyProducts(v: Bits, y: Bits)
    requires |v| == 128 && y == []
    ensures IsRemainder(v, y, Quotient(v, y), Mul(v, y))
  {
  }

  // ---------- there is one remainder ----------

  lemma {:induction false} TopIsZero(v: Bits, y: Bits)
    requires |v| > 0
    ensures !Product(v, y)[|v| + |y| - 1]
    decreases |y|
  {
    hide Plus, Select;
    if y != [] {
      TopIsZero(v, y[1..]);
      TopOfSum(Select(y[0], v), Product(v, y[1..]), |y|);
    }
  }

  lemma TopOfSum(a: Bits, p: Bits, n: nat)
    requires n > 0 && |a| > 0 && |p| == |a| + n - 1 && !p[|p| - 1]
    ensures !Plus(a + Zeros(n), [false] + p)[|a| + n - 1]
  {
  }

  lemma {:induction false} ProductOfAppended(v: Bits, y: Bits, b: bool)
    ensures Product(v, y + [b]) == Plus(Product(v, y) + [false], Zeros(|y|) + Select(b, v) + [false])
    decreases |y|
  {
    hide Select;
    if y == [] {
      ProductOfOne(v, y, b);
    } else {
      assert (y + [b])[1..] == y[1..] + [b];
      ProductOfAppended(v, y[1..], b);
      AppendedStep(Select(y[0], v), Product(v, y[1..]), Select(b, v), |y|);
    }
  }

  lemma ProductOfOne(v: Bits, y: Bits, b: bool)
    requires y == []
    ensures Product(v, y + [b]) == Plus(Product(v, y) + [false], Zeros(|y|) + Select(b, v) + [false])
  {
    assert y + [b] == [b] && [b][1..] == [];
  }

  lemma AppendedStep(a: Bits, p: Bits, s: Bits, n: nat)
    requires n > 0 && |a| == |s| && |p| == |a| + n - 1
    ensures Plus(a + Zeros(n + 1), [false] + Plus(p + [false], Zeros(n - 1) + s + [false]))
            == Plus(Plus(a + Zeros(n), [false] + p) + [false], Zeros(n) + s + [false])
  {
  }

  /** Two remainders of one product are the same. */
  lemma {:induction false} Divided(q: Bits, u: Bits, r: Bits, s: Bits)
    requires |q| == |u| && |r| == |s| == 128
    requires Plus(Product(Modulus(), q), r + Zeros(|q| + 1)) == Plus(Product(Modulus(), u), s + Zeros(|q| + 1))
    ensures r == s
    decreases |q|
  {
    hide Modulus, Select, Plus, Product;
    var n := |q|;
    if n == 0 {
      NoQuotient(q, u, r, s);
    } else {
      var p, t := q[..n - 1], u[..n - 1];
      assert q == p + [q[n - 1]] && u == t + [u[n - 1]];
      ProductOfAppended(Modulus(), p, q[n - 1]);
      ProductOfAppended(Modulus(), t, u[n - 1]);
      TopIsZero(Modulus(), p);
      TopIsZero(Modulus(), t);
      LastBitsAgree(Product(Modulus(), p), Product(Modulus(), t), q[n - 1], u[n - 1], r, s, n);
      Divided(p, t, r, s);
    }
  }

  lemma NoQuotient(q: Bits, u: Bits, r: Bits, s: Bits)
    requires q == u == [] && |r| == |s| == 128
    requires Plus(Product(Modulus(), q), r + Zeros(|q| + 1)) == Plus(Product(Modulus(), u), s + Zeros(|q| + 1))
    ensures r == s
  {
    hide Modulus;
    var z := Product(Modulus(), []);
    forall i | 0 <= i < 128 ensures r[i] == s[i] {
      assert Plus(z, r + Zeros(1))[i] == Plus(z, s + Zeros(1))[i];
    }
  }

  lemma LastBitsAgree(p: Bits, t: Bits, b: bool, c: bool, r: Bits, s: Bits, n: nat)
    requires n > 0 && |p| == |t| == 128 + n && |r| == |s| == 128 && !p[127 + n] && !t[127 + n]
    requires Plus(Plus(p + [false], Zeros(n - 1) + Select(b, Modulus()) + [false]), r + Zeros(n + 1))
             == Plus(Plus(t + [false], Zeros(n - 1) + Select(c, Modulus()) + [false]), s + Zeros(n + 1))
    ensures Plus(p, r + Zeros(n)) == Plus(t, s + Zeros(n))
  {
    assert Modulus()[128];
    hide Modulus;
    var left := Plus(Plus(p + [false], Zeros(n - 1) + Select(b, Modulus()) + [false]), r + Zeros(n + 1));
    var right := Plus(Plus(t + [false], Zeros(n - 1) + Select(c, Modulus()) + [false]), s + Zeros(n + 1));
    assert left[127 + n] == b && right[127 + n] == c;
    forall i | 0 <= i < 128 + n ensures Plus(p, r + Zeros(n))[i] == Plus(t, s + Zeros(n))[i] {
      assert left[i] == right[i];
    }
  }

  /** The product of the project is the one and only remainder. */
  lemma ProductModulo(v: Bits, y: Bits, r: Bits)
    requires |v| == 128
    ensures r == Mul(v, y) <==> exists q: Bits :: IsRemainder(v, y, q, r)
  {
    hide Mul, Product, Modulus;
    MulIsRemainder(v, y);
    if q: Bits :| IsRemainder(v, y, q, r) {
      Divided(q, Quotient(v, y), r, Mul(v, y));
    }
  }

  // ---------- bits of bytes ----------

  const BIT_MASKS: seq<byte> := [0x80, 0x40, 0x20, 0x10, 0x08, 0x04, 0x02, 0x01]

  /** Coefficient 8 i + j of a block is the bit of weight 2^(7 - j) of byte i. */
  lemma {:induction false} CoefficientOfByte(s: seq<byte>, i: nat, j: nat)
    requires i < |s| && j < 8
    ensures BitsOf(s)[8 * i + j] == (s[i] & BIT_MASKS[j] != 0)
  {
    hide Bits8;
    if i > 0 {
      CoefficientOfByte(s[1..], i - 1, j);
    } else {
      BitOfByte(s[0], j);
    }
  }

  lemma BitOfByte(b: byte, j: nat)
    requires j < 8
    ensures Bits8(b)[j] == (b & BIT_MASKS[j] != 0)
  {
  }
}
