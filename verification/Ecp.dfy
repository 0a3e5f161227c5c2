/** Elliptic curves y^2 = x^3 + a·x + b over a field of odd characteristic (`ECP`): the point operations
    stay on the curve, and every group law but associativity is proved. */
module Ecp {
  import opened Groups
  import opened Rings
  import opened Fields

  datatype Point<F> = Infinity | Affine(x: F, y: F)

  datatype Curve<!F> = Curve(f: Field<F>, a: F, b: F)

  /** (x·x + a)·x + b - y·y, which VerifyPoint compares with zero. */
  function Defect<F>(c: Curve<F>, x: F, y: F): F {
    c.f.Sub(c.f.Add(c.f.Mul(c.f.Add(c.f.Mul(x, x), c.a), x), c.b), c.f.Mul(y, y))
  }

  predicate VerifyPoint<F(==)>(c: Curve<F>, p: Point<F>) {
    p.Infinity? || Defect(c, p.x, p.y) == c.f.Zero()
  }

  function Inverse<F>(c: Curve<F>, p: Point<F>): Point<F> {
    if p.Infinity? then p else Affine(p.x, c.f.Neg(p.y))
  }

  /** The third point of the line through (x1, y1) with slope t, reflected; x2 is the second abscissa. */
  function ThirdPoint<F>(f: Field<F>, t: F, x1: F, y1: F, x2: F): Point<F> {
    var x := f.Sub(f.Sub(f.Square(t), x1), x2);
    Affine(x, f.Sub(f.Mul(t, f.Sub(x1, x)), y1))
  }

  function TangentSlope<F>(c: Curve<F>, p: Point<F>): F
    requires p.Affine?
  {
    var s := c.f.Square(p.x);
    c.f.Divide(c.f.Add(c.f.Add(c.f.Double(s), s), c.a), c.f.Double(p.y))
  }

  function Double<F(==)>(c: Curve<F>, p: Point<F>): Point<F> {
    if p.Infinity? || p.y == c.f.Zero() then Infinity
    else ThirdPoint(c.f, TangentSlope(c, p), p.x, p.y, p.x)
  }

  function Add<F(==)>(c: Curve<F>, p: Point<F>, q: Point<F>): Point<F> {
    if p.Infinity? then q
    else if q.Infinity? then p
    else if p.x == q.x then
      if p.y == q.y then Double(c, p) else Infinity
    else
      ThirdPoint(c.f, c.f.Divide(c.f.Sub(q.y, p.y), c.f.Sub(q.x, p.x)), p.x, p.y, q.x)
  }

  ghost predicate IsCurve<F(!new)>(c: Curve<F>) {
    IsField(c.f) && OddCharacteristic(c.f)
  }

  // ---------- the identities behind the chord and the tangent ----------

  function ESub(l: Expr, r: Expr): Expr { Expr.Add(l, Neg(r)) }
  function EDefect(a: Expr, b: Expr, x: Expr, y: Expr): Expr {
    ESub(Expr.Add(Mul(Expr.Add(Mul(x, x), a), x), b), Mul(y, y))
  }
  function EThirdX(t: Expr, x1: Expr, x2: Expr): Expr { ESub(ESub(Mul(t, t), x1), x2) }
  function EThirdY(t: Expr, x1: Expr, y1: Expr, x3: Expr): Expr { ESub(Mul(t, ESub(x1, x3)), y1) }

  /** Evaluation of a node from its parts. */
  lemma IntegerNodes(e: Expr, e': Expr, v: seq<int>)
    ensures EvalInt(Expr.Add(e, e'), v) == EvalInt(e, v) + EvalInt(e', v)
    ensures EvalInt(Mul(e, e'), v) == EvalInt(e, v) * EvalInt(e', v)
    ensures EvalInt(ESub(e, e'), v) == EvalInt(e, v) - EvalInt(e', v)
    ensures EvalInt(Neg(e), v) == 0 - EvalInt(e, v)
  {
    assert EvalInt(Neg(e'), v) == 0 - EvalInt(e', v);
  }

  lemma RingNodes<R(!new)>(r: Ring<R>, e: Expr, e': Expr, env: seq<R>)
    ensures Eval(r, Expr.Add(e, e'), env) == r.add(Eval(r, e, env), Eval(r, e', env))
    ensures Eval(r, Mul(e, e'), env) == r.mul(Eval(r, e, env), Eval(r, e', env))
    ensures Eval(r, ESub(e, e'), env) == r.Sub(Eval(r, e, env), Eval(r, e', env))
  {
    assert Eval(r, Neg(e'), env) == r.neg(Eval(r, e', env));
  }

  /** A monic cubic with coefficients s, p, q at the third abscissa s - x1 - x2. */
  function Cubic(s: int, p: int, q: int, x: int): int { x * x * x - s * (x * x) + p * x + q }

  lemma CubicThirdRoot(s: int, p: int, q: int, x1: int, x2: int)
    ensures var x3 := s - x1 - x2;
            Cubic(s, p, q, x3) * (x2 - x1) == Cubic(s, p, q, x1) * (x2 - x3) + Cubic(s, p, q, x2) * (x3 - x1)
  {
    hide Cubic, Secant;
    var x3 := s - x1 - x2;
    CubicDifference(s, p, q, x1, x2);
    CubicDifference(s, p, q, x1, x3);
    EqualSecants(s, p, x1, x2);
    var m, c, u, v := Secant(s, p, x1, x2), Cubic(s, p, q, x1), x2 - x1, x3 - x1;
    assert (c + m * v) * u == c * (u - v) + (c + m * u) * v;
  }

  /** The slope of the cubic between x and y. */
  function Secant(s: int, p: int, x: int, y: int): int { y * y + x * y + x * x - s * (x + y) + p }

  lemma CubicDifference(s: int, p: int, q: int, x: int, y: int)
    ensures Cubic(s, p, q, y) == Cubic(s, p, q, x) + Secant(s, p, x, y) * (y - x)
  {
  }

  lemma EqualSecants(s: int, p: int, x1: int, x2: int)
    ensures Secant(s, p, x1, s - x1 - x2) == Secant(s, p, x1, x2)
  {
  }

  lemma CubicOnLine(t: int, k: int, a: int, b: int, x: int)
    ensures var y := t * x + k;
            (x * x + a) * x + b - y * y == Cubic(t * t, a - 2 * t * k, b - k * k, x)
  {
  }

  lemma ChordInteger(x1: int, x2: int, y1: int, t: int, a: int, b: int)
    ensures var x3 := t * t - x1 - x2;
            var y3 := t * (x1 - x3) - y1;
            var y2 := y1 + t * (x2 - x1);
            ((x3 * x3 + a) * x3 + b - y3 * y3) * (x2 - x1)
            == ((x1 * x1 + a) * x1 + b - y1 * y1) * (x2 - x3) + ((x2 * x2 + a) * x2 + b - y2 * y2) * (x3 - x1)
  {
    hide Cubic;
    var k := y1 - t * x1;
    var x3 := t * t - x1 - x2;
    var y3 := t * (x1 - x3) - y1;
    CubicThirdRoot(t * t, a - 2 * t * k, b - k * k, x1, x2);
    CubicOnLine(t, k, a, b, x1);
    CubicOnLine(t, k, a, b, x2);
    CubicOnLine(t, k, a, b, x3);
    assert -y3 == t * x3 + k && y3 * y3 == (-y3) * (-y3);
  }

  lemma TangentInteger(x1: int, y1: int, t: int, a: int, b: int)
    ensures var x3 := t * t - x1 - x1;
            var y3 := t * (x1 - x3) - y1;
            (x3 * x3 + a) * x3 + b - y3 * y3
            == (x1 * x1 + a) * x1 + b - y1 * y1 + (x1 * x1 + x1 * x1 + x1 * x1 + a - t * (y1 + y1)) * (x3 - x1)
  {
  }

  function ChordLeft(x1: Expr, x2: Expr, y1: Expr, t: Expr, a: Expr, b: Expr): Expr {
    var x3 := EThirdX(t, x1, x2);
    Mul(EDefect(a, b, x3, EThirdY(t, x1, y1, x3)), ESub(x2, x1))
  }

  function ChordRight(x1: Expr, x2: Expr, y1: Expr, t: Expr, a: Expr, b: Expr): Expr {
    var x3 := EThirdX(t, x1, x2);
    Expr.Add(Mul(EDefect(a, b, x1, y1), ESub(x2, x3)),
             Mul(EDefect(a, b, x2, Expr.Add(y1, Mul(t, ESub(x2, x1)))), ESub(x3, x1)))
  }

  lemma ChordEvaluates(v: seq<int>)
    requires |v| == 6
    ensures EvalInt(ChordLeft(Var(0), Var(1), Var(2), Var(3), Var(4), Var(5)), v)
            == EvalInt(ChordRight(Var(0), Var(1), Var(2), Var(3), Var(4), Var(5)), v)
  {
    ChordInteger(v[0], v[1], v[2], v[3], v[4], v[5]);
  }

  lemma ChordIdentity<F(!new)>(c: Curve<F>, x1: F, x2: F, y1: F, t: F)
    requires IsRing(c.f.ring)
    ensures var p := ThirdPoint(c.f, t, x1, y1, x2);
            c.f.Mul(Defect(c, p.x, p.y), c.f.Sub(x2, x1))
            == c.f.Add(c.f.Mul(Defect(c, x1, y1), c.f.Sub(x2, p.x)),
                       c.f.Mul(Defect(c, x2, c.f.Add(y1, c.f.Mul(t, c.f.Sub(x2, x1)))), c.f.Sub(p.x, x1)))
  {
    hide IsRing, EvalInt;
    forall v: seq<int> | |v| == 6 {
      ChordEvaluates(v);
    }
    RingIdentity(c.f.ring, 6, ChordLeft(Var(0), Var(1), Var(2), Var(3), Var(4), Var(5)),
                 ChordRight(Var(0), Var(1), Var(2), Var(3), Var(4), Var(5)), [x1, x2, y1, t, c.a, c.b]);
  }

  function TangentLeft(x1: Expr, y1: Expr, t: Expr, a: Expr, b: Expr): Expr {
    var x3 := EThirdX(t, x1, x1);
    EDefect(a, b, x3, EThirdY(t, x1, y1, x3))
  }

  function TangentRight(x1: Expr, y1: Expr, t: Expr, a: Expr, b: Expr): Expr {
    var x3, s := EThirdX(t, x1, x1), Mul(x1, x1);
    Expr.Add(EDefect(a, b, x1, y1),
             Mul(ESub(Expr.Add(Expr.Add(Expr.Add(s, s), s), a), Mul(t, Expr.Add(y1, y1))), ESub(x3, x1)))
  }

  lemma TangentEvaluates(v: seq<int>)
    requires |v| == 5
    ensures EvalInt(TangentLeft(Var(0), Var(1), Var(2), Var(3), Var(4)), v)
            == EvalInt(TangentRight(Var(0), Var(1), Var(2), Var(3), Var(4)), v)
  {
    TangentInteger(v[0], v[1], v[2], v[3], v[4]);
  }

  lemma TangentIdentity<F(!new)>(c: Curve<F>, x1: F, y1: F, t: F)
    requires IsRing(c.f.ring)
    ensures var p := ThirdPoint(c.f, t, x1, y1, x1);
            var s := c.f.Square(x1);
            Defect(c, p.x, p.y)
            == c.f.Add(Defect(c, x1, y1),
                       c.f.Mul(c.f.Sub(c.f.Add(c.f.Add(c.f.Double(s), s), c.a), c.f.Mul(t, c.f.Double(y1))),
                               c.f.Sub(p.x, x1)))
  {
    hide IsRing, EvalInt;
    forall v: seq<int> | |v| == 5 {
      TangentEvaluates(v);
    }
    RingIdentity(c.f.ring, 5, TangentLeft(Var(0), Var(1), Var(2), Var(3), Var(4)),
                 TangentRight(Var(0), Var(1), Var(2), Var(3), Var(4)), [x1, y1, t, c.a, c.b]);
  }

  // ---------- closure ----------

  lemma AddSub<F(!new)>(f: Field<F>, a: F, b: F)
    requires IsField(f)
    ensures f.Add(a, f.Sub(b, a)) == b
  {
    hide IsRing;
    RingIdentity(f.ring, 2, Expr.Add(Var(0), Expr.Add(Var(1), Neg(Var(0)))), Var(1), [a, b]);
  }

  lemma TwiceNonzero<F(!new)>(f: Field<F>, y: F)
    requires IsField(f) && OddCharacteristic(f)
    ensures f.Double(y) == f.Zero() <==> y == f.Zero()
  {
    var two := f.Double(f.One());
    Laws(f.ring, y, f.One(), f.One());
    Laws(f.ring, y, two, y);
    if f.Double(y) == f.Zero() {
      NoZeroDivisors(f, y, two);
    }
    MulZero(f.ring, two);
  }

  lemma ChordOnCurve<F(!new)>(c: Curve<F>, p: Point<F>, q: Point<F>)
    requires IsCurve(c) && VerifyPoint(c, p) && VerifyPoint(c, q) && p.Affine? && q.Affine? && p.x != q.x
    ensures VerifyPoint(c, Add(c, p, q))
  {
    var f := c.f;
    var dx, dy := f.Sub(q.x, p.x), f.Sub(q.y, p.y);
    var t := f.Divide(dy, dx);
    SubZero(f.ring, q.x, p.x);
    DivideMultiply(f, dy, dx);
    AddSub(f, p.y, q.y);
    ChordIdentity(c, p.x, q.x, p.y, t);
    var s := ThirdPoint(f, t, p.x, p.y, q.x);
    MulZero(f.ring, f.Sub(q.x, s.x));
    MulZero(f.ring, f.Sub(s.x, p.x));
    Laws(f.ring, f.Zero(), f.Zero(), f.Zero());
    NoZeroDivisors(f, Defect(c, s.x, s.y), dx);
  }

  lemma TangentOnCurve<F(!new)>(c: Curve<F>, p: Point<F>)
    requires IsCurve(c) && VerifyPoint(c, p)
    ensures VerifyPoint(c, Double(c, p))
  {
    var f := c.f;
    if p.Affine? && p.y != f.Zero() {
      var t := TangentSlope(c, p);
      var s := f.Square(p.x);
      var n := f.Add(f.Add(f.Double(s), s), c.a);
      TwiceNonzero(f, p.y);
      DivideMultiply(f, n, f.Double(p.y));
      TangentIdentity(c, p.x, p.y, t);
      SubZero(f.ring, n, n);
      MulZero(f.ring, f.Sub(ThirdPoint(f, t, p.x, p.y, p.x).x, p.x));
      Laws(f.ring, f.Zero(), f.Zero(), f.Zero());
    }
  }

  lemma NegativeSquare<F(!new)>(f: Field<F>, y: F)
    requires IsRing(f.ring)
    ensures f.Mul(f.Neg(y), f.Neg(y)) == f.Mul(y, y)
  {
    hide IsRing;
    RingIdentity(f.ring, 1, Mul(Neg(Var(0)), Neg(Var(0))), Mul(Var(0), Var(0)), [y]);
  }

  /** Add, Double and Inverse keep points on the curve, in every case. */
  lemma Closed<F(!new)>(c: Curve<F>, p: Point<F>, q: Point<F>)
    requires IsCurve(c) && VerifyPoint(c, p) && VerifyPoint(c, q)
    ensures VerifyPoint(c, Add(c, p, q)) && VerifyPoint(c, Double(c, p)) && VerifyPoint(c, Inverse(c, p))
  {
    TangentOnCurve(c, p);
    if p.Affine? {
      NegativeSquare(c.f, p.y);
      if q.Affine? && p.x != q.x {
        ChordOnCurve(c, p, q);
      }
    }
  }

  // ---------- the group ----------

  function EcGroup<F(==)>(c: Curve<F>): Group<Point<F>> {
    Group(Infinity, (p, q) => Add(c, p, q), p => Inverse(c, p), true, p => VerifyPoint(c, p))
  }

  /** The one group law that is taken as a hypothesis. */
  ghost predicate AddIsAssociative<F(!new)>(c: Curve<F>) {
    forall p, q, s {:trigger Use(p, q, s)} :: VerifyPoint(c, p) && VerifyPoint(c, q) && VerifyPoint(c, s) ==>
      Add(c, Add(c, p, q), s) == Add(c, p, Add(c, q, s))
  }

  lemma SlopeSymmetric<F(!new)>(f: Field<F>, x1: F, y1: F, x2: F, y2: F)
    requires IsField(f) && x1 != x2
    ensures f.Divide(f.Sub(y1, y2), f.Sub(x1, x2)) == f.Divide(f.Sub(y2, y1), f.Sub(x2, x1))
  {
    var t1, t2 := f.Divide(f.Sub(y2, y1), f.Sub(x2, x1)), f.Divide(f.Sub(y1, y2), f.Sub(x1, x2));
    SubZero(f.ring, x1, x2);
    SubZero(f.ring, x2, x1);
    DivideMultiply(f, f.Sub(y2, y1), f.Sub(x2, x1));
    DivideMultiply(f, f.Sub(y1, y2), f.Sub(x1, x2));
    Reversed(f, t2, x1, x2);
    Reversed(f, f.One(), y1, y2);
    Laws(f.ring, f.Sub(y1, y2), f.One(), f.One());
    Laws(f.ring, f.One(), f.Sub(y1, y2), f.One());
    Laws(f.ring, f.Sub(y2, y1), f.One(), f.One());
    Laws(f.ring, f.One(), f.Sub(y2, y1), f.One());
    CancelFactor(f, t2, t1, f.Sub(x2, x1));
  }

  lemma Reversed<F(!new)>(f: Field<F>, t: F, a: F, b: F)
    requires IsRing(f.ring)
    ensures f.Mul(t, f.Sub(b, a)) == f.Neg(f.Mul(t, f.Sub(a, b)))
  {
    hide IsRing;
    RingIdentity(f.ring, 3, Mul(Var(0), ESub(Var(2), Var(1))), Neg(Mul(Var(0), ESub(Var(1), Var(2)))), [t, a, b]);
  }

  lemma ThirdPointSymmetric<F(!new)>(f: Field<F>, t: F, x1: F, y1: F, x2: F)
    requires IsRing(f.ring)
    ensures ThirdPoint(f, t, x2, f.Add(y1, f.Mul(t, f.Sub(x2, x1))), x1) == ThirdPoint(f, t, x1, y1, x2)
  {
    hide IsRing;
    var x3 := f.Sub(f.Sub(f.Square(t), x1), x2);
    RingIdentity(f.ring, 3, EThirdX(Var(0), Var(1), Var(2)), EThirdX(Var(0), Var(2), Var(1)), [t, x1, x2]);
    RingIdentity(f.ring, 5,
                 ESub(Mul(Var(0), ESub(Var(3), Var(4))), Expr.Add(Var(2), Mul(Var(0), ESub(Var(3), Var(1))))),
                 ESub(Mul(Var(0), ESub(Var(1), Var(4))), Var(2)), [t, x1, y1, x2, x3]);
  }

  lemma AddCommutes<F(!new)>(c: Curve<F>, p: Point<F>, q: Point<F>)
    requires IsCurve(c)
    ensures Add(c, p, q) == Add(c, q, p)
  {
    if p.Affine? && q.Affine? && p.x != q.x {
      var f := c.f;
      var t := f.Divide(f.Sub(q.y, p.y), f.Sub(q.x, p.x));
      SlopeSymmetric(f, p.x, p.y, q.x, q.y);
      SubZero(f.ring, q.x, p.x);
      DivideMultiply(f, f.Sub(q.y, p.y), f.Sub(q.x, p.x));
      AddSub(f, p.y, q.y);
      ThirdPointSymmetric(f, t, p.x, p.y, q.x);
    }
  }

  lemma InverseCancels<F(!new)>(c: Curve<F>, p: Point<F>)
    requires IsCurve(c)
    ensures Add(c, p, Inverse(c, p)) == Infinity
  {
    if p.Affine? && p.y == c.f.Neg(p.y) {
      Laws(c.f.ring, p.y, p.y, p.y);
      TwiceNonzero(c.f, p.y);
    }
  }

  lemma InfinityIsNeutral<F(!new)>(c: Curve<F>, p: Point<F>)
    ensures VerifyPoint(c, Infinity) && Add(c, p, Infinity) == p
  {
  }

  lemma CurveClosed<F(!new)>(c: Curve<F>)
    requires IsCurve(c)
    ensures IsClosed(EcGroup(c))
  {
    hide Add, VerifyPoint, IsCurve;
    var g := EcGroup(c);
    InfinityIsNeutral(c, Infinity);
    forall p, q | g.member(p) && g.member(q)
      ensures g.member(g.add(p, q))
    {
      Closed(c, p, q);
    }
  }

  lemma CurveIdentity<F(!new)>(c: Curve<F>)
    requires IsCurve(c)
    ensures HasIdentityAndInverses(EcGroup(c))
  {
    hide Add, VerifyPoint, IsCurve, Inverse;
    var g := EcGroup(c);
    forall p | g.member(p)
      ensures g.member(g.inverse(p)) && g.add(p, g.inverse(p)) == g.identity
    {
      Closed(c, p, p);
      InverseCancels(c, p);
    }
    forall p | g.member(p)
      ensures g.add(p, g.identity) == p
    {
      InfinityIsNeutral(c, p);
    }
  }

  lemma CurveCommutes<F(!new)>(c: Curve<F>)
    requires IsCurve(c)
    ensures IsCommutative(EcGroup(c))
  {
    var g := EcGroup(c);
    forall p, q
      ensures g.add(p, q) == g.add(q, p)
    {
      AddCommutes(c, p, q);
    }
  }

  lemma CurveAssociates<F(!new)>(c: Curve<F>)
    requires AddIsAssociative(c)
    ensures IsAssociative(EcGroup(c))
  {
    hide Add, VerifyPoint;
    var g := EcGroup(c);
    forall p, q, s | g.member(p) && g.member(q) && g.member(s)
      ensures g.add(g.add(p, q), s) == g.add(p, g.add(q, s))
    {
      assert Use(p, q, s);
    }
  }

  /** The points of the curve form an abelian group, given associativity. */
  lemma CurveIsAbelian<F(!new)>(c: Curve<F>)
    requires IsCurve(c) && AddIsAssociative(c)
    ensures IsAbelian(EcGroup(c))
  {
    hide IsClosed, HasIdentityAndInverses, IsCommutative, IsAssociative;
    CurveClosed(c);
    CurveIdentity(c);
    CurveCommutes(c);
    CurveAssociates(c);
  }
}
