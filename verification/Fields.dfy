/** Fields, and the batched inversion of ecp.cpp. */
module Fields {
  import opened Groups
  import opened Rings

  /** `inv` is MultiplicativeInverse, which sends zero to zero. */
  datatype Field<!F> = Field(ring: Ring<F>, inv: F -> F) {
    function Zero(): F { ring.zero }
    function One(): F { ring.one }
    function Add(a: F, b: F): F { ring.add(a, b) }
    function Sub(a: F, b: F): F { ring.Sub(a, b) }
    function Mul(a: F, b: F): F { ring.mul(a, b) }
    function Neg(a: F): F { ring.neg(a) }
    function Double(a: F): F { ring.add(a, a) }
    function Square(a: F): F { ring.mul(a, a) }
    function Divide(a: F, b: F): F { ring.mul(a, inv(b)) }
    /** The element h with h + h = a. */
    function Half(a: F): F { Divide(a, Double(One())) }
  }

  ghost predicate IsField<F(!new)>(f: Field<F>) {
    && IsRing(f.ring)
    && f.One() != f.Zero()
    && f.inv(f.Zero()) == f.Zero()
    && (forall a {:trigger f.inv(a)} :: a != f.Zero() ==> f.Mul(a, f.inv(a)) == f.One())
  }

  ghost predicate OddCharacteristic<F(!new)>(f: Field<F>) {
    f.Double(f.One()) != f.Zero()
  }

  ghost predicate CharacteristicTwo<F(!new)>(f: Field<F>) {
    f.Double(f.One()) == f.Zero()
  }

  lemma NoZeroDivisors<F(!new)>(f: Field<F>, a: F, b: F)
    requires IsField(f) && f.Mul(a, b) == f.Zero()
    ensures a == f.Zero() || b == f.Zero()
  {
    if a != f.Zero() {
      Laws(f.ring, f.inv(a), a, b);
      Laws(f.ring, a, f.inv(a), b);
      MulZero(f.ring, f.inv(a));
      Laws(f.ring, b, f.One(), b);
      Laws(f.ring, f.One(), b, b);
    }
  }

  lemma DivideMultiply<F(!new)>(f: Field<F>, a: F, b: F)
    requires IsField(f) && b != f.Zero()
    ensures f.Mul(f.Divide(a, b), b) == a
  {
    Laws(f.ring, a, f.inv(b), b);
    Laws(f.ring, f.inv(b), b, b);
    Laws(f.ring, a, a, a);
  }

  lemma CancelFactor<F(!new)>(f: Field<F>, a: F, b: F, d: F)
    requires IsField(f) && d != f.Zero() && f.Mul(a, d) == f.Mul(b, d)
    ensures a == b
  {
    Laws(f.ring, a, d, f.inv(d));
    Laws(f.ring, b, d, f.inv(d));
    Laws(f.ring, a, a, a);
    Laws(f.ring, b, b, b);
  }

  lemma InverseIsUnique<F(!new)>(f: Field<F>, a: F, b: F)
    requires IsField(f) && f.Mul(a, b) == f.One()
    ensures a != f.Zero() && f.inv(a) == b
  {
    MulZero(f.ring, b);
    Laws(f.ring, b, a, a);
    CancelInverse(f, a, b);
  }

  lemma CancelInverse<F(!new)>(f: Field<F>, a: F, b: F)
    requires IsField(f) && a != f.Zero() && f.Mul(a, b) == f.One()
    ensures f.inv(a) == b
  {
    Laws(f.ring, a, b, a);
    Laws(f.ring, a, f.inv(a), a);
    CancelFactor(f, f.inv(a), b, a);
  }

  // ---------- ParallelInvert ----------

  lemma ProductInverse<F(!new)>(f: Field<F>, a: F, b: F)
    requires IsField(f)
    ensures f.inv(f.Mul(a, b)) == f.Zero() <==> a == f.Zero() || b == f.Zero()
    ensures a != f.Zero() && b != f.Zero() ==>
              f.Mul(b, f.inv(f.Mul(a, b))) == f.inv(a) && f.Mul(a, f.inv(f.Mul(a, b))) == f.inv(b)
  {
    var v := f.Mul(a, b);
    MulZero(f.ring, a);
    MulZero(f.ring, b);
    if a != f.Zero() && b != f.Zero() {
      if v == f.Zero() {
        NoZeroDivisors(f, a, b);
      }
      var w := f.inv(v);
      Laws(f.ring, a, b, w);
      InverseIsUnique(f, a, f.Mul(b, w));
      Laws(f.ring, b, a, w);
      Laws(f.ring, a, b, b);
      InverseIsUnique(f, b, f.Mul(a, w));
      MulZero(f.ring, b);
    }
  }

  /** Every element is replaced by its inverse, zero by zero, with one inversion of a product instead of
      many where there are no zeros. */
  method ParallelInvert<F(==, !new)>(f: Field<F>, a: array<F>)
    requires IsField(f)
    modifies a
    ensures forall i :: 0 <= i < a.Length ==> a[i] == f.inv(old(a[i]))
    decreases a.Length
  {
    hide IsField;
    var n := a.Length;
    if n == 1 {
      a[0] := f.inv(a[0]);
    } else if n > 1 {
      var vec := MultiplyPairs(f, a);
      ParallelInvert(f, vec);
      InvertPairs(f, a, vec);
    }
  }

  /** The first loop: the products of neighbours, and an odd element at the end by itself. */
  method MultiplyPairs<F(==, !new)>(f: Field<F>, a: array<F>) returns (vec: array<F>)
    ensures fresh(vec) && vec.Length == (a.Length + 1) / 2
    ensures forall k :: 0 <= k < a.Length / 2 ==> vec[k] == f.Mul(a[2 * k], a[2 * k + 1])
    ensures a.Length % 2 == 1 ==> vec[a.Length / 2] == a[a.Length - 1]
  {
    var n := a.Length;
    vec := new F[(n + 1) / 2](_ => f.Zero());
    var i := 0;
    while i < n / 2
      invariant 0 <= i <= n / 2
      invariant forall k :: 0 <= k < i ==> vec[k] == f.Mul(a[2 * k], a[2 * k + 1])
    {
      vec[i] := f.Mul(a[2 * i], a[2 * i + 1]);
      i := i + 1;
    }
    if n % 2 == 1 {
      vec[n / 2] := a[2 * i];
    }
  }

  /** The second loop: from the inverses of the products to the inverses of the factors. */
  method InvertPairs<F(==, !new)>(f: Field<F>, a: array<F>, vec: array<F>)
    requires IsField(f) && a != vec && vec.Length == (a.Length + 1) / 2
    requires forall k :: 0 <= k < a.Length / 2 ==> vec[k] == f.inv(f.Mul(a[2 * k], a[2 * k + 1]))
    requires a.Length % 2 == 1 ==> vec[a.Length / 2] == f.inv(a[a.Length - 1])
    modifies a
    ensures forall i :: 0 <= i < a.Length ==> a[i] == f.inv(old(a[i]))
  {
    hide IsField;
    var n := a.Length;
    var i := 0;
    while i < n / 2
      invariant 0 <= i <= n / 2
      invariant forall k :: 0 <= k < 2 * i ==> a[k] == f.inv(old(a[k]))
      invariant forall k :: 2 * i <= k < n ==> a[k] == old(a[k])
    {
      InvertPair(f, a, 2 * i, vec[i]);
      i := i + 1;
    }
    if n % 2 == 1 {
      a[2 * i] := vec[n / 2];
    }
  }

  /** The body of the second loop: v is the inverse of the product of the two elements. */
  method InvertPair<F(==, !new)>(f: Field<F>, a: array<F>, k: nat, v: F)
    requires IsField(f) && k + 1 < a.Length && v == f.inv(f.Mul(a[k], a[k + 1]))
    modifies a
    ensures a[k] == f.inv(old(a[k])) && a[k + 1] == f.inv(old(a[k + 1]))
    ensures forall j :: 0 <= j < a.Length && j != k && j != k + 1 ==> a[j] == old(a[j])
  {
    hide IsField;
    ProductInverse(f, a[k], a[k + 1]);
    if v == f.Zero() {
      a[k] := f.inv(a[k]);
      a[k + 1] := f.inv(a[k + 1]);
    } else {
      a[k], a[k + 1] := a[k + 1], a[k];
      a[k] := f.Mul(a[k], v);
      a[k + 1] := f.Mul(a[k + 1], v);
    }
  }
}
