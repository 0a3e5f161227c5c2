/** Abelian groups as the scalar multiplication code sees them, and the integer multiples of an
    element that every multiplication algorithm is proved to compute. */
module Groups {
  import opened Bits

  /** The virtual operations of `AbstractGroup`. `member` delimits the elements on which the group
      laws are assumed to hold (for a curve: the points that lie on it). */
  datatype Group<!T> = Group(
    identity: T,
    add: (T, T) -> T,
    inverse: T -> T,
    inversionIsFast: bool,
    member: T -> bool)

  /** Always true. It is the trigger of commutativity and associativity, so that the verifier uses
      those two laws only where a proof names the elements. */
  ghost predicate Use<T>(a: T, b: T, c: T) { true }

  ghost predicate IsClosed<T(!new)>(g: Group<T>) {
    g.member(g.identity) &&
    (forall a, b {:trigger g.add(a, b)} :: g.member(a) && g.member(b) ==> g.member(g.add(a, b)))
  }

  ghost predicate HasIdentityAndInverses<T(!new)>(g: Group<T>) {
    && (forall a {:trigger g.inverse(a)} ::
          g.member(a) ==> g.member(g.inverse(a)) && g.add(a, g.inverse(a)) == g.identity)
    && (forall a {:trigger g.add(a, g.identity)} :: g.member(a) ==> g.add(a, g.identity) == a)
  }

  ghost predicate IsCommutative<T(!new)>(g: Group<T>) {
    forall a, b, c {:trigger Use(a, b, c)} :: g.member(a) && g.member(b) ==> g.add(a, b) == g.add(b, a)
  }

  ghost predicate IsAssociative<T(!new)>(g: Group<T>) {
    forall a, b, c {:trigger Use(a, b, c)} :: g.member(a) && g.member(b) && g.member(c) ==>
      g.add(g.add(a, b), c) == g.add(a, g.add(b, c))
  }

  ghost predicate IsAbelian<T(!new)>(g: Group<T>) {
    IsClosed(g) && HasIdentityAndInverses(g) && IsCommutative(g) && IsAssociative(g)
  }

  lemma Commute<T(!new)>(g: Group<T>, a: T, b: T)
    requires IsAbelian(g) && g.member(a) && g.member(b)
    ensures g.add(a, b) == g.add(b, a)
  {
    assert Use(a, b, a);
  }

  lemma Associate<T(!new)>(g: Group<T>, a: T, b: T, c: T)
    requires IsAbelian(g) && g.member(a) && g.member(b) && g.member(c)
    ensures g.add(g.add(a, b), c) == g.add(a, g.add(b, c))
  {
    assert Use(a, b, c);
  }

  /** (a + b) + (c + d) == (a + c) + (b + d) */
  lemma Interchange<T(!new)>(g: Group<T>, a: T, b: T, c: T, d: T)
    requires IsAbelian(g) && g.member(a) && g.member(b) && g.member(c) && g.member(d)
    ensures g.add(g.add(a, b), g.add(c, d)) == g.add(g.add(a, c), g.add(b, d))
  {
    Associate(g, a, b, g.add(c, d));
    Associate(g, b, c, d);
    Commute(g, b, c);
    Associate(g, c, b, d);
    Associate(g, a, c, g.add(b, d));
  }

  /** k·p by repeated addition of p, or of its inverse when k is negative. */
  function Times<T>(g: Group<T>, k: int, p: T): T
    decreases if k < 0 then -k else k
  {
    if k == 0 then g.identity
    else if k > 0 then g.add(Times(g, k - 1, p), p)
    else g.add(Times(g, k + 1, p), g.inverse(p))
  }

  lemma {:induction false} TimesMember<T(!new)>(g: Group<T>, k: int, p: T)
    requires IsAbelian(g) && g.member(p)
    ensures g.member(Times(g, k, p))
    decreases if k < 0 then -k else k
  {
    if k > 0 {
      TimesMember(g, k - 1, p);
    } else if k < 0 {
      TimesMember(g, k + 1, p);
    }
  }

  lemma TimesSucc<T(!new)>(g: Group<T>, k: int, p: T)
    requires IsAbelian(g) && g.member(p)
    ensures Times(g, k + 1, p) == g.add(Times(g, k, p), p)
  {
    if k < 0 {
      var t := Times(g, k + 1, p);
      TimesMember(g, k + 1, p);
      Associate(g, t, g.inverse(p), p);
      Commute(g, g.inverse(p), p);
    }
  }

  lemma TimesPred<T(!new)>(g: Group<T>, k: int, p: T)
    requires IsAbelian(g) && g.member(p)
    ensures Times(g, k - 1, p) == g.add(Times(g, k, p), g.inverse(p))
  {
    if k > 0 {
      var t := Times(g, k - 1, p);
      TimesMember(g, k - 1, p);
      Associate(g, t, p, g.inverse(p));
    }
  }

  lemma {:induction false} TimesAdd<T(!new)>(g: Group<T>, a: int, b: int, p: T)
    requires IsAbelian(g) && g.member(p)
    ensures Times(g, a + b, p) == g.add(Times(g, a, p), Times(g, b, p))
    decreases if b < 0 then -b else b
  {
    TimesMember(g, a, p);
    if b > 0 {
      TimesAdd(g, a, b - 1, p);
      TimesSucc(g, a + b - 1, p);
      TimesMember(g, b - 1, p);
      Associate(g, Times(g, a, p), Times(g, b - 1, p), p);
    } else if b < 0 {
      TimesAdd(g, a, b + 1, p);
      TimesPred(g, a + b + 1, p);
      TimesMember(g, b + 1, p);
      Associate(g, Times(g, a, p), Times(g, b + 1, p), g.inverse(p));
    }
  }

  lemma InverseUnique<T(!new)>(g: Group<T>, a: T, b: T)
    requires IsAbelian(g) && g.member(a) && g.member(b) && g.add(a, b) == g.identity
    ensures g.inverse(a) == b
  {
    var n := g.inverse(a);
    Associate(g, b, a, n);
    Commute(g, b, a);
    Commute(g, g.identity, n);
  }

  lemma TimesNegate<T(!new)>(g: Group<T>, k: int, p: T)
    requires IsAbelian(g) && g.member(p)
    ensures g.inverse(Times(g, k, p)) == Times(g, -k, p)
  {
    TimesAdd(g, k, -k, p);
    TimesMember(g, k, p);
    TimesMember(g, -k, p);
    InverseUnique(g, Times(g, k, p), Times(g, -k, p));
  }

  lemma TimesOne<T(!new)>(g: Group<T>, p: T)
    requires IsAbelian(g) && g.member(p)
    ensures Times(g, 1, p) == p
  {
    assert Times(g, 0, p) == g.identity;
    Commute(g, g.identity, p);
  }

  lemma OneFactorLess(a: int, b: int)
    ensures (a - 1) * b + b == a * b && (a + 1) * b + -b == a * b
  {
  }

  lemma {:induction false} TimesTimes<T(!new)>(g: Group<T>, a: int, b: int, p: T)
    requires IsAbelian(g) && g.member(p)
    ensures Times(g, a, Times(g, b, p)) == Times(g, a * b, p)
    decreases if a < 0 then -a else a
  {
    var q := Times(g, b, p);
    TimesMember(g, b, p);
    if a > 0 {
      TimesTimes(g, a - 1, b, p);
      TimesAdd(g, (a - 1) * b, b, p);
      OneFactorLess(a, b);
    } else if a < 0 {
      TimesTimes(g, a + 1, b, p);
      TimesNegate(g, b, p);
      TimesAdd(g, (a + 1) * b, -b, p);
      OneFactorLess(a, b);
    }
  }

  lemma {:induction false} TimesDistribute<T(!new)>(g: Group<T>, k: nat, p: T, q: T)
    requires IsAbelian(g) && g.member(p) && g.member(q)
    ensures Times(g, k, g.add(p, q)) == g.add(Times(g, k, p), Times(g, k, q))
  {
    if k > 0 {
      TimesDistribute(g, k - 1, p, q);
      TimesMember(g, k - 1, p);
      TimesMember(g, k - 1, q);
      Interchange(g, Times(g, k - 1, p), Times(g, k - 1, q), p, q);
    }
  }

  /** a·x + b·y, what the two-base cascade computes. */
  function Combination<T>(g: Group<T>, a: int, x: T, b: int, y: T): T {
    g.add(Times(g, a, x), Times(g, b, y))
  }

  lemma CombinationAdd<T(!new)>(g: Group<T>, a: int, b: int, c: int, d: int, x: T, y: T)
    requires IsAbelian(g) && g.member(x) && g.member(y)
    ensures g.add(Combination(g, a, x, b, y), Combination(g, c, x, d, y)) == Combination(g, a + c, x, b + d, y)
  {
    TimesMember(g, a, x);
    TimesMember(g, b, y);
    TimesMember(g, c, x);
    TimesMember(g, d, y);
    Interchange(g, Times(g, a, x), Times(g, b, y), Times(g, c, x), Times(g, d, y));
    TimesAdd(g, a, c, x);
    TimesAdd(g, b, d, y);
  }

  /** The doubling steps of every algorithm. */
  lemma TimesPow2<T(!new)>(g: Group<T>, n: nat, p: T)
    requires IsAbelian(g) && g.member(p)
    ensures Times(g, Pow2(0), p) == p
    ensures g.add(Times(g, Pow2(n), p), Times(g, Pow2(n), p)) == Times(g, Pow2(n + 1), p)
  {
    TimesOne(g, p);
    TimesAdd(g, Pow2(n), Pow2(n), p);
  }
}
