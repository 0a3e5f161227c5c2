/** `AbstractEuclideanDomain::Gcd` and `QuotientRing::MultiplicativeInverse`. */
module Quotients {
  import opened Groups
  import opened Rings

  /** `divide(a, d)` is DivisionAlgorithm's remainder and quotient. */
  datatype EuclideanDomain<!E> = EuclideanDomain(ring: Ring<E>, divide: (E, E) -> (E, E), isUnit: E -> bool,
                                                 size: E -> nat)

  ghost predicate IsEuclidean<E(!new)>(d: EuclideanDomain<E>) {
    && IsRing(d.ring)
    && (forall a, b {:trigger d.divide(a, b)} :: b != d.ring.zero ==>
          && d.ring.add(d.ring.mul(b, d.divide(a, b).1), d.divide(a, b).0) == a
          && (d.divide(a, b).0 == d.ring.zero || d.size(d.divide(a, b).0) < d.size(b))
          && (d.isUnit(b) ==> d.divide(a, b).0 == d.ring.zero))
    && (forall a {:trigger d.isUnit(a)} :: d.isUnit(a) <==> Divides(d, a, d.ring.one))
  }

  ghost predicate Divides<E(!new)>(d: EuclideanDomain<E>, a: E, b: E) {
    exists q :: d.ring.mul(q, a) == b
  }

  /** a·b = 1 modulo m. */
  ghost predicate InverseModulo<E(!new)>(d: EuclideanDomain<E>, m: E, a: E, b: E) {
    exists k :: d.ring.mul(a, b) == d.ring.add(d.ring.one, d.ring.mul(k, m))
  }

  ghost predicate Congruent<E(!new)>(d: EuclideanDomain<E>, m: E, a: E, v: E, g: E) {
    exists k :: d.ring.mul(v, a) == d.ring.add(g, d.ring.mul(k, m))
  }

  /** x is a combination of g0 and g1. */
  ghost predicate Spanned<E(!new)>(d: EuclideanDomain<E>, x: E, g0: E, g1: E) {
    exists s, t :: d.ring.add(d.ring.mul(s, g0), d.ring.mul(t, g1)) == x
  }

  /** v0·a = g0, v1·a = g1 modulo m, and a, m are combinations of g0 and g1. */
  ghost predicate EuclidInvariant<E(!new)>(d: EuclideanDomain<E>, m: E, a: E, g0: E, g1: E, v0: E, v1: E) {
    Congruent(d, m, a, v0, g0) && Congruent(d, m, a, v1, g1) && Spanned(d, a, g0, g1) && Spanned(d, m, g0, g1)
  }

  lemma SpanStep<E(!new)>(d: EuclideanDomain<E>, x: E, g0: E, g1: E, y: E, g2: E)
    requires IsRing(d.ring) && Spanned(d, x, g0, g1) && d.ring.add(d.ring.mul(g1, y), g2) == g0
    ensures Spanned(d, x, g1, g2)
  {
    hide IsRing;
    var r := d.ring;
    var s, t :| r.add(r.mul(s, g0), r.mul(t, g1)) == x;
    RingIdentity(r, 5,
                 Add(Mul(Var(0), Add(Mul(Var(2), Var(3)), Var(4))), Mul(Var(1), Var(2))),
                 Add(Mul(Add(Mul(Var(0), Var(3)), Var(1)), Var(2)), Mul(Var(0), Var(4))),
                 [s, t, g1, y, g2]);
    assert r.add(r.mul(r.add(r.mul(s, y), t), g1), r.mul(s, g2)) == x;
  }

  lemma CongruenceStep<E(!new)>(d: EuclideanDomain<E>, m: E, a: E, g0: E, g1: E, v0: E, v1: E, y: E, g2: E)
    requires IsRing(d.ring) && Congruent(d, m, a, v0, g0) && Congruent(d, m, a, v1, g1)
    requires d.ring.add(d.ring.mul(g1, y), g2) == g0
    ensures Congruent(d, m, a, d.ring.Sub(v0, d.ring.mul(v1, y)), g2)
  {
    hide IsRing;
    var r := d.ring;
    var k0 :| r.mul(v0, a) == r.add(g0, r.mul(k0, m));
    var k1 :| r.mul(v1, a) == r.add(g1, r.mul(k1, m));
    DistributeQuotient(r, v0, v1, a, y);
    CollectRemainder(r, g1, y, g2, k0, k1, m);
    assert r.mul(r.Sub(v0, r.mul(v1, y)), a) == r.add(g2, r.mul(r.Sub(k0, r.mul(k1, y)), m));
  }

  lemma DistributeQuotient<E(!new)>(r: Ring<E>, v0: E, v1: E, a: E, y: E)
    requires IsRing(r)
    ensures r.mul(r.Sub(v0, r.mul(v1, y)), a) == r.Sub(r.mul(v0, a), r.mul(r.mul(v1, a), y))
  {
    hide IsRing;
    RingIdentity(r, 4,
                 Mul(Add(Var(0), Neg(Mul(Var(1), Var(3)))), Var(2)),
                 Add(Mul(Var(0), Var(2)), Neg(Mul(Mul(Var(1), Var(2)), Var(3)))),
                 [v0, v1, a, y]);
  }

  lemma CollectRemainder<E(!new)>(r: Ring<E>, g1: E, y: E, g2: E, k0: E, k1: E, m: E)
    requires IsRing(r)
    ensures r.Sub(r.add(r.add(r.mul(g1, y), g2), r.mul(k0, m)), r.mul(r.add(g1, r.mul(k1, m)), y))
            == r.add(g2, r.mul(r.Sub(k0, r.mul(k1, y)), m))
  {
    hide IsRing;
    RingIdentity(r, 6,
                 Add(Add(Add(Mul(Var(0), Var(1)), Var(2)), Mul(Var(3), Var(5))),
                     Neg(Mul(Add(Var(0), Mul(Var(4), Var(5))), Var(1)))),
                 Add(Var(2), Mul(Add(Var(3), Neg(Mul(Var(4), Var(1)))), Var(5))),
                 [g1, y, g2, k0, k1, m]);
  }

  lemma EuclidStep<E(!new)>(d: EuclideanDomain<E>, m: E, a: E, g0: E, g1: E, v0: E, v1: E)
    requires IsEuclidean(d) && EuclidInvariant(d, m, a, g0, g1, v0, v1) && g1 != d.ring.zero
    ensures var (g2, y) := d.divide(g0, g1);
            EuclidInvariant(d, m, a, g1, g2, v1, d.ring.Sub(v0, d.ring.mul(v1, y)))
            && (g2 == d.ring.zero || d.size(g2) < d.size(g1))
  {
    var (g2, y) := d.divide(g0, g1);
    SpanStep(d, a, g0, g1, y, g2);
    SpanStep(d, m, g0, g1, y, g2);
    CongruenceStep(d, m, a, g0, g1, v0, v1, y, g2);
  }

  lemma EuclidStart<E(!new)>(d: EuclideanDomain<E>, m: E, a: E)
    requires IsRing(d.ring)
    ensures EuclidInvariant(d, m, a, m, a, d.ring.zero, d.ring.one)
  {
    hide IsRing;
    var r := d.ring;
    RingIdentity(r, 2, Mul(Zero, Var(0)), Add(Var(1), Mul(Neg(One), Var(1))), [a, m]);
    assert r.mul(r.zero, a) == r.add(m, r.mul(r.neg(r.one), m));
    RingIdentity(r, 2, Mul(One, Var(0)), Add(Var(0), Mul(Zero, Var(1))), [a, m]);
    assert r.mul(r.one, a) == r.add(a, r.mul(r.zero, m));
    RingIdentity(r, 2, Add(Mul(Zero, Var(1)), Mul(One, Var(0))), Var(0), [a, m]);
    assert r.add(r.mul(r.zero, m), r.mul(r.one, a)) == a;
    RingIdentity(r, 2, Add(Mul(One, Var(1)), Mul(Zero, Var(0))), Var(1), [a, m]);
    assert r.add(r.mul(r.one, m), r.mul(r.zero, a)) == m;
  }

  /** When the remainder is zero, what is left is a common divisor ... */
  lemma LastDivides<E(!new)>(d: EuclideanDomain<E>, x: E, g: E)
    requires IsRing(d.ring) && Spanned(d, x, g, d.ring.zero)
    ensures Divides(d, g, x)
  {
    var r := d.ring;
    var s, t :| r.add(r.mul(s, g), r.mul(t, r.zero)) == x;
    MulZero(r, t);
    Laws(r, r.mul(s, g), s, s);
    assert r.mul(s, g) == x;
  }

  /** ... which is a unit when a has an inverse ... */
  lemma UnitWhenInvertible<E(!new)>(d: EuclideanDomain<E>, m: E, a: E, g: E, b: E)
    requires IsEuclidean(d) && Divides(d, g, a) && Divides(d, g, m) && InverseModulo(d, m, a, b)
    ensures d.isUnit(g)
  {
    var r := d.ring;
    var k :| r.mul(a, b) == r.add(r.one, r.mul(k, m));
    var p :| r.mul(p, g) == a;
    var q :| r.mul(q, g) == m;
    OneFromMultiples(r, p, q, g, b, k);
    assert r.mul(r.Sub(r.mul(p, b), r.mul(k, q)), g) == r.one;
    assert Divides(d, g, r.one);
  }

  lemma OneFromMultiples<E(!new)>(r: Ring<E>, p: E, q: E, g: E, b: E, k: E)
    requires IsRing(r) && r.mul(r.mul(p, g), b) == r.add(r.one, r.mul(k, r.mul(q, g)))
    ensures r.mul(r.Sub(r.mul(p, b), r.mul(k, q)), g) == r.one
  {
    Laws(r, p, g, b);
    Laws(r, g, b, p);
    Laws(r, p, b, g);
    CombineMultiples(r, b, p, k, q, g);
    Laws(r, b, p, p);
    Laws(r, b, r.mul(p, g), p);
    CancelTail(r, r.one, r.mul(k, r.mul(q, g)));
  }

  /** ... and then v/g is an inverse. */
  lemma QuotientIsInverse<E(!new)>(d: EuclideanDomain<E>, m: E, a: E, v: E, g: E)
    requires IsEuclidean(d) && d.isUnit(g) && g != d.ring.zero && Congruent(d, m, a, v, g)
    ensures InverseModulo(d, m, a, d.divide(v, g).1)
  {
    var r := d.ring;
    var k :| r.mul(v, a) == r.add(g, r.mul(k, m));
    var u :| r.mul(u, g) == r.one;
    var w := d.divide(v, g).1;
    Laws(r, r.mul(g, w), w, w);
    Scale(r, g, w, u, a, k, m);
    assert r.mul(a, w) == r.add(r.one, r.mul(r.mul(u, k), m));
  }

  lemma Scale<E(!new)>(r: Ring<E>, g: E, w: E, u: E, a: E, k: E, m: E)
    requires IsRing(r) && r.mul(u, g) == r.one && r.mul(r.mul(g, w), a) == r.add(g, r.mul(k, m))
    ensures r.mul(a, w) == r.add(r.one, r.mul(r.mul(u, k), m))
  {
    ScaleLeft(r, u, g, a, w);
    ScaleRight(r, u, g, k, m);
    Laws(r, r.mul(a, w), r.one, r.one);
    Laws(r, r.one, r.mul(a, w), r.one);
  }

  lemma ScaleLeft<E(!new)>(r: Ring<E>, u: E, g: E, a: E, w: E)
    requires IsRing(r)
    ensures r.mul(r.mul(u, g), r.mul(a, w)) == r.mul(u, r.mul(r.mul(g, w), a))
  {
    hide IsRing;
    RingIdentity(r, 4, Mul(Mul(Var(0), Var(1)), Mul(Var(2), Var(3))), Mul(Var(0), Mul(Mul(Var(1), Var(3)), Var(2))),
                 [u, g, a, w]);
  }

  lemma ScaleRight<E(!new)>(r: Ring<E>, u: E, g: E, k: E, m: E)
    requires IsRing(r)
    ensures r.mul(u, r.add(g, r.mul(k, m))) == r.add(r.mul(u, g), r.mul(r.mul(u, k), m))
  {
    hide IsRing;
    RingIdentity(r, 4, Mul(Var(0), Add(Var(1), Mul(Var(2), Var(3)))),
                 Add(Mul(Var(0), Var(1)), Mul(Mul(Var(0), Var(2)), Var(3))), [u, g, k, m]);
  }

  lemma UnitIsNotZero<E(!new)>(d: EuclideanDomain<E>)
    requires IsEuclidean(d) && d.ring.one != d.ring.zero
    ensures !d.isUnit(d.ring.zero)
  {
    if d.isUnit(d.ring.zero) {
      var q :| d.ring.mul(q, d.ring.zero) == d.ring.one;
      MulZero(d.ring, q);
    }
  }

  /** Returns an inverse of a modulo m exactly when there is one, and zero otherwise. */
  method MultiplicativeInverse<E(==, !new)>(d: EuclideanDomain<E>, m: E, a: E) returns (b: E)
    requires IsEuclidean(d) && d.ring.one != d.ring.zero
    ensures (exists c :: InverseModulo(d, m, a, c)) ==> InverseModulo(d, m, a, b)
    ensures !(exists c :: InverseModulo(d, m, a, c)) ==> b == d.ring.zero
  {
    var g := [m, a, m];
    var v := [d.ring.zero, d.ring.one, d.ring.zero];
    var i0, i1, i2 := 0, 1, 2;
    EuclidStart(d, m, a);
    UnitIsNotZero(d);
    while g[i1] != d.ring.zero
      invariant |g| == |v| == 3 && {i0, i1, i2} == {0, 1, 2}
      invariant EuclidInvariant(d, m, a, g[i0], g[i1], v[i0], v[i1])
      decreases g[i1] != d.ring.zero, d.size(g[i1])
    {
      EuclidStep(d, m, a, g[i0], g[i1], v[i0], v[i1]);
      var (r, y) := d.divide(g[i0], g[i1]);
      g := g[i2 := r];
      v := v[i2 := d.ring.Sub(v[i0], d.ring.mul(v[i1], y))];
      i0, i1, i2 := i1, i2, i0;
    }
    LastDivides(d, a, g[i0]);
    LastDivides(d, m, g[i0]);
    forall c | InverseModulo(d, m, a, c)
      ensures d.isUnit(g[i0])
    {
      UnitWhenInvertible(d, m, a, g[i0], c);
    }
    if d.isUnit(g[i0]) {
      QuotientIsInverse(d, m, a, v[i0], g[i0]);
      b := d.divide(v[i0], g[i0]).1;
    } else {
      b := d.ring.zero;
    }
  }

  /** A greatest common divisor: it divides both and every common divisor divides it. */
  method Gcd<E(==, !new)>(d: EuclideanDomain<E>, a: E, b: E) returns (result: E)
    requires IsEuclidean(d)
    ensures Divides(d, result, a) && Divides(d, result, b)
    ensures forall c :: Divides(d, c, a) && Divides(d, c, b) ==> Divides(d, c, result)
  {
    var g := [b, a, b];
    var i0, i1, i2 := 0, 1, 2;
    ghost var v0, v1 := d.ring.zero, d.ring.one;
    EuclidStart(d, b, a);
    while g[i1] != d.ring.zero
      invariant |g| == 3 && {i0, i1, i2} == {0, 1, 2}
      invariant EuclidInvariant(d, b, a, g[i0], g[i1], v0, v1)
      decreases g[i1] != d.ring.zero, d.size(g[i1])
    {
      EuclidStep(d, b, a, g[i0], g[i1], v0, v1);
      v0, v1 := v1, d.ring.Sub(v0, d.ring.mul(v1, d.divide(g[i0], g[i1]).1));
      g := g[i2 := d.divide(g[i0], g[i1]).0];
      i0, i1, i2 := i1, i2, i0;
    }
    LastDivides(d, a, g[i0]);
    LastDivides(d, b, g[i0]);
    result := g[i0];
    forall c | Divides(d, c, a) && Divides(d, c, b)
      ensures Divides(d, c, result)
    {
      CommonDivisor(d, b, a, v0, result, c);
    }
  }

  lemma CommonDivisor<E(!new)>(d: EuclideanDomain<E>, m: E, a: E, v: E, g: E, c: E)
    requires IsRing(d.ring) && Congruent(d, m, a, v, g) && Divides(d, c, a) && Divides(d, c, m)
    ensures Divides(d, c, g)
  {
    hide IsRing;
    var r := d.ring;
    var k :| r.mul(v, a) == r.add(g, r.mul(k, m));
    var p :| r.mul(p, c) == a;
    var q :| r.mul(q, c) == m;
    CancelTail(r, g, r.mul(k, m));
    CombineMultiples(r, v, p, k, q, c);
    assert r.mul(r.Sub(r.mul(v, p), r.mul(k, q)), c) == g;
  }

  lemma CancelTail<E(!new)>(r: Ring<E>, a: E, b: E)
    requires IsRing(r)
    ensures r.Sub(r.add(a, b), b) == a
  {
    hide IsRing;
    RingIdentity(r, 2, Add(Add(Var(0), Var(1)), Neg(Var(1))), Var(0), [a, b]);
  }

  lemma CombineMultiples<E(!new)>(r: Ring<E>, v: E, p: E, k: E, q: E, c: E)
    requires IsRing(r)
    ensures r.mul(r.Sub(r.mul(v, p), r.mul(k, q)), c) == r.Sub(r.mul(v, r.mul(p, c)), r.mul(k, r.mul(q, c)))
  {
    hide IsRing;
    RingIdentity(r, 5,
                 Mul(Add(Mul(Var(0), Var(1)), Neg(Mul(Var(2), Var(3)))), Var(4)),
                 Add(Mul(Var(0), Mul(Var(1), Var(4))), Neg(Mul(Var(2), Mul(Var(3), Var(4))))),
                 [v, p, k, q, c]);
  }
}
