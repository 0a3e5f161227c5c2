/** Commutative rings and fields, and one way to reason in all of them at once: a polynomial identity
    that holds for all integers holds in every commutative ring (`RingIdentity`). */
module Rings {
  import opened Groups

  datatype Ring<!R> = Ring(zero: R, one: R, add: (R, R) -> R, mul: (R, R) -> R, neg: R -> R) {
    function Sub(a: R, b: R): R { add(a, neg(b)) }
    function Double(a: R): R { add(a, a) }
    function Square(a: R): R { mul(a, a) }
  }

  /** The laws are triggered by `Use`, so that they apply only to elements that a proof names. */
  ghost predicate IsRing<R(!new)>(r: Ring<R>) {
    && (forall a, b, c {:trigger Use(a, b, c)} :: Use(a, b, c) ==>
          && r.add(a, b) == r.add(b, a)
          && r.add(r.add(a, b), c) == r.add(a, r.add(b, c))
          && r.mul(a, b) == r.mul(b, a)
          && r.mul(r.mul(a, b), c) == r.mul(a, r.mul(b, c))
          && r.mul(a, r.add(b, c)) == r.add(r.mul(a, b), r.mul(a, c))
          && r.add(a, r.zero) == a
          && r.mul(a, r.one) == a
          && r.add(a, r.neg(a)) == r.zero)
  }

  function Additive<R>(r: Ring<R>): Group<R> {
    Group(r.zero, r.add, r.neg, false, _ => true)
  }

  lemma AdditiveIsAbelian<R(!new)>(r: Ring<R>)
    requires IsRing(r)
    ensures IsAbelian(Additive(r))
  {
    var g := Additive(r);
    forall a, b
      ensures g.add(a, b) == g.add(b, a)
    {
      assert Use(a, b, a);
    }
    forall a, b, c
      ensures g.add(g.add(a, b), c) == g.add(a, g.add(b, c))
    {
      assert Use(a, b, c);
    }
    forall a
      ensures g.add(a, g.inverse(a)) == g.identity && g.add(a, g.identity) == a
    {
      assert Use(a, a, a);
    }
  }

  lemma Laws<R(!new)>(r: Ring<R>, a: R, b: R, c: R)
    requires IsRing(r)
    ensures r.add(a, b) == r.add(b, a) && r.add(r.add(a, b), c) == r.add(a, r.add(b, c))
    ensures r.mul(a, b) == r.mul(b, a) && r.mul(r.mul(a, b), c) == r.mul(a, r.mul(b, c))
    ensures r.mul(a, r.add(b, c)) == r.add(r.mul(a, b), r.mul(a, c))
    ensures r.add(a, r.zero) == a && r.mul(a, r.one) == a && r.add(a, r.neg(a)) == r.zero
  {
    assert Use(a, b, c);
  }

  lemma AddInterchange<R(!new)>(r: Ring<R>, a: R, b: R, c: R, d: R)
    requires IsRing(r)
    ensures r.add(r.add(a, b), r.add(c, d)) == r.add(r.add(a, c), r.add(b, d))
  {
    AdditiveIsAbelian(r);
    Interchange(Additive(r), a, b, c, d);
  }

  lemma NegUnique<R(!new)>(r: Ring<R>, a: R, b: R)
    requires IsRing(r) && r.add(a, b) == r.zero
    ensures r.neg(a) == b
  {
    AdditiveIsAbelian(r);
    InverseUnique(Additive(r), a, b);
  }

  lemma MulZero<R(!new)>(r: Ring<R>, a: R)
    requires IsRing(r)
    ensures r.mul(a, r.zero) == r.zero && r.mul(r.zero, a) == r.zero
  {
    var z := r.mul(a, r.zero);
    Laws(r, a, r.zero, r.zero);
    Laws(r, r.zero, r.zero, z);
    Laws(r, z, z, r.neg(z));
    Laws(r, z, r.zero, z);
  }

  lemma SubZero<R(!new)>(r: Ring<R>, a: R, b: R)
    requires IsRing(r)
    ensures r.Sub(a, b) == r.zero <==> a == b
  {
    Laws(r, a, r.neg(b), b);
    Laws(r, b, r.neg(b), b);
    Laws(r, r.neg(b), b, b);
    Laws(r, r.zero, b, b);
  }

  // ---------- integers in a ring ----------

  function IntIn<R>(r: Ring<R>, k: int): R {
    Times(Additive(r), k, r.one)
  }

  lemma IntInAdd<R(!new)>(r: Ring<R>, a: int, b: int)
    requires IsRing(r)
    ensures IntIn(r, a + b) == r.add(IntIn(r, a), IntIn(r, b)) && IntIn(r, -a) == r.neg(IntIn(r, a))
    ensures IntIn(r, 0) == r.zero && IntIn(r, 1) == r.one
  {
    AdditiveIsAbelian(r);
    TimesAdd(Additive(r), a, b, r.one);
    TimesNegate(Additive(r), a, r.one);
    TimesOne(Additive(r), r.one);
  }

  lemma {:induction false} IntInMul<R(!new)>(r: Ring<R>, a: int, b: int)
    requires IsRing(r)
    ensures IntIn(r, a * b) == r.mul(IntIn(r, a), IntIn(r, b))
    decreases if b < 0 then 1 - b else b
  {
    hide IsRing, IntIn;
    var x := IntIn(r, a);
    if b == 0 {
      IntInAdd(r, 0, 0);
      MulZero(r, x);
    } else if b < 0 {
      IntInMul(r, a, -b);
      IntInAdd(r, a * -b, 0);
      IntInAdd(r, -b, 0);
      assert a * -b == -(a * b);
      MulNeg(r, x, IntIn(r, -b));
    } else {
      IntInMul(r, a, b - 1);
      IntInAdd(r, a * (b - 1), a);
      IntInAdd(r, b - 1, 1);
      assert a * b == a * (b - 1) + a;
      Laws(r, x, IntIn(r, b - 1), r.one);
    }
  }

  lemma MulNeg<R(!new)>(r: Ring<R>, a: R, b: R)
    requires IsRing(r)
    ensures r.mul(a, r.neg(b)) == r.neg(r.mul(a, b))
  {
    Laws(r, a, b, r.neg(b));
    Laws(r, b, b, b);
    MulZero(r, a);
    NegUnique(r, r.mul(a, b), r.mul(a, r.neg(b)));
  }

  // ---------- expressions and their polynomials ----------

  datatype Expr = Var(i: nat) | Zero | One | Add(l: Expr, r: Expr) | Mul(l: Expr, r: Expr) | Neg(e: Expr)

  function Eval<R>(r: Ring<R>, e: Expr, env: seq<R>): R
    decreases e
  {
    match e
    case Var(i) => if i < |env| then env[i] else r.zero
    case Zero => r.zero
    case One => r.one
    case Add(a, b) => r.add(Eval(r, a, env), Eval(r, b, env))
    case Mul(a, b) => r.mul(Eval(r, a, env), Eval(r, b, env))
    case Neg(a) => r.neg(Eval(r, a, env))
  }

  function EvalInt(e: Expr, env: seq<int>): int
    decreases e
  {
    match e
    case Var(i) => if i < |env| then env[i] else 0
    case Zero => 0
    case One => 1
    case Add(a, b) => EvalInt(a, env) + EvalInt(b, env)
    case Mul(a, b) => EvalInt(a, env) * EvalInt(b, env)
    case Neg(a) => 0 - EvalInt(a, env)
  }

  function Product(a: int, b: int): int { a * b }

  const INTEGERS: Ring<int> := Ring(0, 1, (a, b) => a + b, (a, b) => Product(a, b), a => 0 - a)

  lemma IntegersAreARing()
    ensures IsRing(INTEGERS)
  {
    hide Product;
    var r := INTEGERS;
    forall a: int, b: int, c: int {:trigger Use(a, b, c)}
      ensures r.add(a, b) == r.add(b, a)
              && r.add(r.add(a, b), c) == r.add(a, r.add(b, c))
              && r.mul(a, b) == r.mul(b, a)
              && r.mul(r.mul(a, b), c) == r.mul(a, r.mul(b, c))
              && r.mul(a, r.add(b, c)) == r.add(r.mul(a, b), r.mul(a, c))
              && r.add(a, r.zero) == a
              && r.mul(a, r.one) == a
              && r.add(a, r.neg(a)) == r.zero
    {
      ProductLaws(a, b, c);
    }
  }

  lemma ProductLaws(a: int, b: int, c: int)
    ensures Product(a, b + c) == Product(a, b) + Product(a, c) && Product(Product(a, b), c) == Product(a, Product(b, c))
    ensures Product(a, b) == Product(b, a) && Product(a, 1) == a
  {
  }

  lemma {:induction false} EvalIntIsEval(e: Expr, env: seq<int>)
    ensures EvalInt(e, env) == Eval(INTEGERS, e, env)
  {
    match e
    case Add(a, b) => EvalIntIsEval(a, env); EvalIntIsEval(b, env);
    case Mul(a, b) => EvalIntIsEval(a, env); EvalIntIsEval(b, env);
    case Neg(a) => EvalIntIsEval(a, env);
    case _ =>
  }

  /** A polynomial in n variables: an integer when n = 0, otherwise a list of coefficients in n - 1
      variables, c + X·q with X the last variable. */
  datatype Poly = Cst(k: int) | Nil | Horner(c: Poly, q: Poly)

  predicate IsPoly(n: nat, p: Poly)
    decreases p
  {
    if n == 0 then p.Cst? else p.Nil? || (p.Horner? && IsPoly(n - 1, p.c) && IsPoly(n, p.q))
  }

  function Value<R>(r: Ring<R>, n: nat, p: Poly, env: seq<R>): R
    requires IsPoly(n, p) && |env| == n
    decreases p
  {
    match p
    case Cst(k) => IntIn(r, k)
    case Nil => r.zero
    case Horner(c, q) => r.add(Value(r, n - 1, c, env[..n - 1]), r.mul(env[n - 1], Value(r, n, q, env)))
  }

  predicate Vanishes(n: nat, p: Poly)
    requires IsPoly(n, p)
    decreases p
  {
    match p
    case Cst(k) => k == 0
    case Nil => true
    case Horner(c, q) => Vanishes(n - 1, c) && Vanishes(n, q)
  }

  function PConst(n: nat, k: int): (p: Poly)
    ensures IsPoly(n, p)
  {
    if n == 0 then Cst(k) else Horner(PConst(n - 1, k), Nil)
  }

  function PVar(n: nat, i: nat): (p: Poly)
    requires i < n
    ensures IsPoly(n, p)
  {
    if i == n - 1 then Horner(PConst(n - 1, 0), PConst(n, 1)) else Horner(PVar(n - 1, i), Nil)
  }

  function PAdd(n: nat, p: Poly, s: Poly): (t: Poly)
    requires IsPoly(n, p) && IsPoly(n, s)
    ensures IsPoly(n, t)
    decreases p
  {
    if n == 0 then Cst(p.k + s.k)
    else if p.Nil? then s
    else if s.Nil? then p
    else Horner(PAdd(n - 1, p.c, s.c), PAdd(n, p.q, s.q))
  }

  function PNeg(n: nat, p: Poly): (t: Poly)
    requires IsPoly(n, p)
    ensures IsPoly(n, t)
    decreases p
  {
    match p
    case Cst(k) => Cst(-k)
    case Nil => Nil
    case Horner(c, q) => Horner(PNeg(n - 1, c), PNeg(n, q))
  }

  function PScale(n: nat, c: Poly, s: Poly): (t: Poly)
    requires n > 0 && IsPoly(n - 1, c) && IsPoly(n, s)
    ensures IsPoly(n, t)
    decreases n, 0, s
  {
    match s
    case Nil => Nil
    case Horner(d, u) => Horner(PMul(n - 1, c, d), PScale(n, c, u))
  }

  function PMul(n: nat, p: Poly, s: Poly): (t: Poly)
    requires IsPoly(n, p) && IsPoly(n, s)
    ensures IsPoly(n, t)
    decreases n, 1, p
  {
    match p
    case Cst(k) => Cst(k * s.k)
    case Nil => Nil
    case Horner(c, q) => PAdd(n, PScale(n, c, s), Horner(PConst(n - 1, 0), PMul(n, q, s)))
  }

  function Normal(n: nat, e: Expr): (p: Poly)
    ensures IsPoly(n, p)
    decreases e
  {
    match e
    case Var(i) => if i < n then PVar(n, i) else PConst(n, 0)
    case Zero => PConst(n, 0)
    case One => PConst(n, 1)
    case Add(a, b) => PAdd(n, Normal(n, a), Normal(n, b))
    case Mul(a, b) => PMul(n, Normal(n, a), Normal(n, b))
    case Neg(a) => PNeg(n, Normal(n, a))
  }

  // ---------- normalising preserves the value in every ring ----------

  lemma {:induction false} ValueConst<R(!new)>(r: Ring<R>, n: nat, k: int, env: seq<R>)
    requires IsRing(r) && |env| == n
    ensures Value(r, n, PConst(n, k), env) == IntIn(r, k)
  {
    hide IsRing, IntIn;
    if n > 0 {
      ValueConst(r, n - 1, k, env[..n - 1]);
      MulZero(r, env[n - 1]);
      Laws(r, IntIn(r, k), r.zero, r.zero);
    }
  }

  lemma {:induction false} ValueVar<R(!new)>(r: Ring<R>, n: nat, i: nat, env: seq<R>)
    requires IsRing(r) && |env| == n && i < n
    ensures Value(r, n, PVar(n, i), env) == env[i]
  {
    hide IsRing, IntIn;
    var x := env[n - 1];
    if i == n - 1 {
      ValueConst(r, n - 1, 0, env[..n - 1]);
      ValueConst(r, n, 1, env);
      IntInAdd(r, 0, 0);
      Laws(r, x, r.zero, r.zero);
      Laws(r, r.zero, x, x);
    } else {
      ValueVar(r, n - 1, i, env[..n - 1]);
      MulZero(r, x);
      Laws(r, env[i], r.zero, r.zero);
    }
  }

  lemma {:induction false} ValueAdd<R(!new)>(r: Ring<R>, n: nat, p: Poly, s: Poly, env: seq<R>)
    requires IsRing(r) && |env| == n && IsPoly(n, p) && IsPoly(n, s)
    ensures Value(r, n, PAdd(n, p, s), env) == r.add(Value(r, n, p, env), Value(r, n, s, env))
    decreases p
  {
    hide IsRing, IntIn;
    if n == 0 {
      IntInAdd(r, p.k, s.k);
    } else if p.Nil? {
      Laws(r, r.zero, Value(r, n, s, env), r.zero);
      Laws(r, Value(r, n, s, env), r.zero, r.zero);
    } else if s.Nil? {
      Laws(r, Value(r, n, p, env), r.zero, r.zero);
    } else {
      ValueAdd(r, n - 1, p.c, s.c, env[..n - 1]);
      ValueAdd(r, n, p.q, s.q, env);
      var x, t, u := env[n - 1], Value(r, n, p.q, env), Value(r, n, s.q, env);
      Laws(r, x, t, u);
      AddInterchange(r, Value(r, n - 1, p.c, env[..n - 1]), r.mul(x, t), Value(r, n - 1, s.c, env[..n - 1]),
                     r.mul(x, u));
    }
  }

  lemma {:induction false} ValueNeg<R(!new)>(r: Ring<R>, n: nat, p: Poly, env: seq<R>)
    requires IsRing(r) && |env| == n && IsPoly(n, p)
    ensures Value(r, n, PNeg(n, p), env) == r.neg(Value(r, n, p, env))
    decreases p
  {
    hide IsRing, IntIn;
    match p
    case Cst(k) => IntInAdd(r, k, 0);
    case Nil =>
      Laws(r, r.zero, r.zero, r.zero);
      NegUnique(r, r.zero, r.zero);
    case Horner(c, q) =>
      ValueNeg(r, n - 1, c, env[..n - 1]);
      ValueNeg(r, n, q, env);
      var x, u, t := env[n - 1], Value(r, n - 1, c, env[..n - 1]), Value(r, n, q, env);
      MulNeg(r, x, t);
      AddInterchange(r, u, r.mul(x, t), r.neg(u), r.neg(r.mul(x, t)));
      Laws(r, u, u, u);
      Laws(r, r.mul(x, t), u, u);
      Laws(r, r.zero, r.zero, r.zero);
      NegUnique(r, r.add(u, r.mul(x, t)), r.add(r.neg(u), r.neg(r.mul(x, t))));
  }

  lemma {:induction false} ValueScale<R(!new)>(r: Ring<R>, n: nat, c: Poly, s: Poly, env: seq<R>)
    requires IsRing(r) && |env| == n > 0 && IsPoly(n - 1, c) && IsPoly(n, s)
    ensures Value(r, n, PScale(n, c, s), env) == r.mul(Value(r, n - 1, c, env[..n - 1]), Value(r, n, s, env))
    decreases n, 0, s
  {
    hide IsRing, IntIn;
    var v := Value(r, n - 1, c, env[..n - 1]);
    match s
    case Nil => MulZero(r, v);
    case Horner(d, u) =>
      ValueMul(r, n - 1, c, d, env[..n - 1]);
      ValueScale(r, n, c, u, env);
      var x, y, z := env[n - 1], Value(r, n - 1, d, env[..n - 1]), Value(r, n, u, env);
      Laws(r, v, y, r.mul(x, z));
      Laws(r, v, x, z);
      Laws(r, x, v, z);
  }

  lemma {:induction false} ValueMul<R(!new)>(r: Ring<R>, n: nat, p: Poly, s: Poly, env: seq<R>)
    requires IsRing(r) && |env| == n && IsPoly(n, p) && IsPoly(n, s)
    ensures Value(r, n, PMul(n, p, s), env) == r.mul(Value(r, n, p, env), Value(r, n, s, env))
    decreases n, 1, p
  {
    hide IsRing, IntIn;
    var w := Value(r, n, s, env);
    match p
    case Cst(k) => IntInMul(r, k, s.k);
    case Nil => MulZero(r, w);
    case Horner(c, q) =>
      ValueScale(r, n, c, s, env);
      ValueMul(r, n, q, s, env);
      ValueConst(r, n - 1, 0, env[..n - 1]);
      IntInAdd(r, 0, 0);
      var carried := Horner(PConst(n - 1, 0), PMul(n, q, s));
      ValueAdd(r, n, PScale(n, c, s), carried, env);
      var x, v, t := env[n - 1], Value(r, n - 1, c, env[..n - 1]), Value(r, n, q, env);
      Laws(r, r.mul(x, r.mul(t, w)), r.zero, x);
      Laws(r, x, t, w);
      Laws(r, w, v, r.mul(x, t));
      Laws(r, w, v, v);
      Laws(r, w, r.mul(x, t), v);
      Laws(r, w, r.add(v, r.mul(x, t)), v);
  }

  lemma {:induction false} ValueNormal<R(!new)>(r: Ring<R>, n: nat, e: Expr, env: seq<R>)
    requires IsRing(r) && |env| == n
    ensures Value(r, n, Normal(n, e), env) == Eval(r, e, env)
    decreases e
  {
    hide IsRing, IntIn;
    match e
    case Var(i) =>
      if i < n {
        ValueVar(r, n, i, env);
      } else {
        ValueConst(r, n, 0, env);
        IntInAdd(r, 0, 0);
      }
    case Zero => ValueConst(r, n, 0, env); IntInAdd(r, 0, 0);
    case One => ValueConst(r, n, 1, env); IntInAdd(r, 0, 0);
    case Add(a, b) =>
      ValueNormal(r, n, a, env);
      ValueNormal(r, n, b, env);
      ValueAdd(r, n, Normal(n, a), Normal(n, b), env);
    case Mul(a, b) =>
      ValueNormal(r, n, a, env);
      ValueNormal(r, n, b, env);
      ValueMul(r, n, Normal(n, a), Normal(n, b), env);
    case Neg(a) => ValueNormal(r, n, a, env); ValueNeg(r, n, Normal(n, a), env);
  }

  lemma {:induction false} VanishingValue<R(!new)>(r: Ring<R>, n: nat, p: Poly, env: seq<R>)
    requires IsRing(r) && |env| == n && IsPoly(n, p) && Vanishes(n, p)
    ensures Value(r, n, p, env) == r.zero
    decreases p
  {
    hide IsRing, IntIn;
    match p
    case Cst(k) => IntInAdd(r, 0, 0);
    case Nil =>
    case Horner(c, q) =>
      VanishingValue(r, n - 1, c, env[..n - 1]);
      VanishingValue(r, n, q, env);
      MulZero(r, env[n - 1]);
      Laws(r, r.zero, r.zero, r.zero);
  }

  // ---------- a polynomial that does not vanish is nonzero at some integer point ----------

  lemma {:induction false} IntInInteger(k: int)
    ensures IntIn(INTEGERS, k) == k
    decreases if k < 0 then -k else k
  {
    if k > 0 {
      IntInInteger(k - 1);
    } else if k < 0 {
      IntInInteger(k + 1);
    }
  }

  /** At env (without the last variable) some coefficient of p is nonzero. */
  predicate SomeCoefficient(n: nat, p: Poly, env: seq<int>)
    requires n > 0 && IsPoly(n, p) && |env| == n - 1
    decreases p
  {
    p.Horner? && (Value(INTEGERS, n - 1, p.c, env) != 0 || SomeCoefficient(n, p.q, env))
  }

  /** Then p has no root beyond some bound. */
  lemma {:induction false} RootBound(n: nat, p: Poly, env: seq<int>) returns (bound: nat)
    requires n > 0 && IsPoly(n, p) && |env| == n - 1 && SomeCoefficient(n, p, env)
    ensures forall x :: x >= bound ==> Value(INTEGERS, n, p, env + [x]) != 0
    decreases p
  {
    var c := Value(INTEGERS, n - 1, p.c, env);
    forall x: int
      ensures Value(INTEGERS, n, p, env + [x]) == c + x * Value(INTEGERS, n, p.q, env + [x])
    {
      assert (env + [x])[..n - 1] == env;
    }
    if SomeCoefficient(n, p.q, env) {
      var b := RootBound(n, p.q, env);
      bound := b + (if c < 0 then -c else c) + 1;
      forall x | x >= bound
        ensures Value(INTEGERS, n, p, env + [x]) != 0
      {
        ProductDominates(x, Value(INTEGERS, n, p.q, env + [x]), c);
      }
    } else {
      bound := 0;
      forall x: int
        ensures Value(INTEGERS, n, p.q, env + [x]) == 0
      {
        NoCoefficient(n, p.q, env, x);
      }
    }
  }

  lemma ProductDominates(x: int, v: int, c: int)
    requires v != 0 && x > 0 && -x < c < x
    ensures c + x * v != 0
  {
    if v > 0 {
      assert x * (v - 1) >= 0 && x * (v - 1) == x * v - x;
    } else {
      assert x * (-1 - v) >= 0 && x * (-1 - v) == -(x * v) - x;
    }
  }

  lemma {:induction false} NoCoefficient(n: nat, p: Poly, env: seq<int>, x: int)
    requires n > 0 && IsPoly(n, p) && |env| == n - 1 && !SomeCoefficient(n, p, env)
    ensures Value(INTEGERS, n, p, env + [x]) == 0
    decreases p
  {
    if p.Horner? {
      assert (env + [x])[..n - 1] == env;
      NoCoefficient(n, p.q, env, x);
    }
  }

  lemma {:induction false} NonzeroPoint(n: nat, p: Poly) returns (env: seq<int>)
    requires IsPoly(n, p) && !Vanishes(n, p)
    ensures |env| == n && Value(INTEGERS, n, p, env) != 0
    decreases n, 1, p
  {
    if n == 0 {
      IntInInteger(p.k);
      env := [];
    } else {
      var init := NonzeroCoefficient(n, p);
      var x := RootBound(n, p, init);
      env := init + [x];
    }
  }

  lemma {:induction false} NonzeroCoefficient(n: nat, p: Poly) returns (env: seq<int>)
    requires n > 0 && IsPoly(n, p) && !Vanishes(n, p)
    ensures |env| == n - 1 && SomeCoefficient(n, p, env)
    decreases n, 0, p
  {
    if Vanishes(n - 1, p.c) {
      env := NonzeroCoefficient(n, p.q);
    } else {
      env := NonzeroPoint(n - 1, p.c);
    }
  }

  /** An identity of integer polynomials is an identity in every commutative ring. */
  lemma RingIdentity<R(!new)>(r: Ring<R>, n: nat, e: Expr, f: Expr, env: seq<R>)
    requires IsRing(r) && |env| == n
    requires forall v: seq<int> :: |v| == n ==> EvalInt(e, v) == EvalInt(f, v)
    ensures Eval(r, e, env) == Eval(r, f, env)
  {
    hide IsRing;
    var d := Add(e, Neg(f));
    var p := Normal(n, d);
    if !Vanishes(n, p) {
      var v := NonzeroPoint(n, p);
      IntegersAreARing();
      ValueNormal(INTEGERS, n, d, v);
      EvalIntIsEval(d, v);
      assert false;
    }
    VanishingValue(r, n, p, env);
    ValueNormal(r, n, d, env);
    SubZero(r, Eval(r, e, env), Eval(r, f, env));
  }
}
