/** Elliptic curves y^2 + x·y = x^3 + a·x^2 + b over a field of characteristic 2 (`EC2N`): the point
    operations stay on the curve and never divide by zero. */
module Ec2n {
  import opened Rings
  import opened Fields
  import Ecp

  type Point<F> = Ecp.Point<F>
  type Curve<!F> = Ecp.Curve<F>

  /** (x + a)·x·x + b - (x + y)·y, which VerifyPoint compares with zero. */
  function Defect<F>(c: Curve<F>, x: F, y: F): F {
    c.f.Sub(c.f.Add(c.f.Mul(c.f.Mul(c.f.Add(x, c.a), x), x), c.b), c.f.Mul(c.f.Add(x, y), y))
  }

  predicate VerifyPoint<F(==)>(c: Curve<F>, p: Point<F>) {
    p.Infinity? || Defect(c, p.x, p.y) == c.f.Zero()
  }

  function Inverse<F>(c: Curve<F>, p: Point<F>): Point<F> {
    if p.Infinity? then p else Ecp.Affine(p.x, c.f.Add(p.x, p.y))
  }

  function Double<F(==)>(c: Curve<F>, p: Point<F>): Point<F> {
    if p.Infinity? then p
    else if p.x == c.f.Zero() then Ecp.Infinity
    else
      var t := c.f.Add(c.f.Divide(p.y, p.x), p.x);
      var x := c.f.Add(c.f.Add(c.f.Square(t), t), c.a);
      Ecp.Affine(x, c.f.Add(c.f.Add(c.f.Square(p.x), c.f.Mul(t, x)), x))
  }

  function Add<F(==)>(c: Curve<F>, p: Point<F>, q: Point<F>): Point<F> {
    if p.Infinity? then q
    else if q.Infinity? then p
    else if p == q then Double(c, p)
    else if p.x == q.x && p.y == c.f.Add(q.x, q.y) then Ecp.Infinity
    else
      var t := c.f.Divide(c.f.Add(p.y, q.y), c.f.Add(p.x, q.x));
      var x := c.f.Add(c.f.Add(c.f.Add(c.f.Square(t), t), q.x), c.a);
      var y := c.f.Add(p.y, c.f.Mul(t, x));
      Ecp.Affine(c.f.Add(x, p.x), c.f.Add(y, c.f.Add(x, p.x)))
  }

  ghost predicate IsCurve<F(!new)>(c: Curve<F>) {
    IsField(c.f) && CharacteristicTwo(c.f)
  }

  // ---------- signs do not matter in characteristic 2 ----------

  lemma SumWithItself<F(!new)>(f: Field<F>, a: F)
    requires IsField(f) && CharacteristicTwo(f)
    ensures f.Add(a, a) == f.Zero() && f.Neg(a) == a
  {
    Laws(f.ring, a, f.One(), f.One());
    MulZero(f.ring, a);
    NegUnique(f.ring, a, a);
  }

  function StripNeg(e: Expr): Expr {
    match e
    case Add(a, b) => Expr.Add(StripNeg(a), StripNeg(b))
    case Mul(a, b) => Mul(StripNeg(a), StripNeg(b))
    case Neg(a) => StripNeg(a)
    case _ => e
  }

  lemma {:induction false} SignsAreIrrelevant<F(!new)>(f: Field<F>, e: Expr, env: seq<F>)
    requires IsField(f) && CharacteristicTwo(f)
    ensures Eval(f.ring, StripNeg(e), env) == Eval(f.ring, e, env)
  {
    hide IsField, CharacteristicTwo;
    match e
    case Add(a, b) => SignsAreIrrelevant(f, a, env); SignsAreIrrelevant(f, b, env);
    case Mul(a, b) => SignsAreIrrelevant(f, a, env); SignsAreIrrelevant(f, b, env);
    case Neg(a) => SignsAreIrrelevant(f, a, env); SumWithItself(f, Eval(f.ring, a, env));
    case _ =>
  }

  // ---------- the identities, over the integers with signs ----------

  function EDefect(a: Expr, b: Expr, x: Expr, y: Expr): Expr {
    Ecp.ESub(Expr.Add(Mul(Mul(Expr.Add(x, a), x), x), b), Mul(Expr.Add(x, y), y))
  }

  function EThirdX(t: Expr, a: Expr, x1: Expr, x2: Expr): Expr {
    Ecp.ESub(Ecp.ESub(Ecp.ESub(Expr.Add(Mul(t, t), t), a), x1), x2)
  }

  function EThirdY(t: Expr, x1: Expr, y1: Expr, x3: Expr): Expr {
    Neg(Expr.Add(EOnLine(t, x1, y1, x3), x3))
  }

  function EOnLine(t: Expr, x1: Expr, y1: Expr, x: Expr): Expr {
    Expr.Add(y1, Mul(t, Ecp.ESub(x, x1)))
  }

  function IntDefect(a: int, b: int, x: int, y: int): int {
    (x + a) * x * x + b - (x + y) * y
  }

  function IntThirdX(t: int, a: int, x1: int, x2: int): int {
    t * t + t - a - x1 - x2
  }

  function IntThirdY(t: int, x1: int, y1: int, x3: int): int {
    0 - (OnLine(t, x1, y1, x3) + x3)
  }

  /** The line of slope t through x1 and y1, at x. */
  function OnLine(t: int, x1: int, y1: int, x: int): int {
    y1 + t * (x - x1)
  }

  /** On the line the defect is a monic cubic in x. */
  function LineCubic(t: int, k: int, a: int, b: int, x: int): int {
    Ecp.Cubic(t * t + t - a, 0 - (2 * t * k + k), b - k * k, x)
  }

  lemma DefectOnLine(t: int, x1: int, y1: int, a: int, b: int, x: int)
    ensures IntDefect(a, b, x, OnLine(t, x1, y1, x)) == LineCubic(t, y1 - t * x1, a, b, x)
  {
    var k := y1 - t * x1;
    assert OnLine(t, x1, y1, x) == t * x + k;
    CubicOnLine(t, k, a, b, x);
  }

  lemma CubicOnLine(t: int, k: int, a: int, b: int, x: int)
    ensures IntDefect(a, b, x, t * x + k) == LineCubic(t, k, a, b, x)
  {
  }

  lemma ReflectedDefect(a: int, b: int, x: int, y: int)
    ensures IntDefect(a, b, x, 0 - (y + x)) == IntDefect(a, b, x, y)
  {
    var l, m, n := (x + a) * x * x, x + y, y + x;
    assert (x + (0 - n)) * (0 - n) == m * y;
  }

  lemma StartOfLine(t: int, x1: int, y1: int)
    ensures OnLine(t, x1, y1, x1) == y1
  {
  }

  lemma ChordInteger(x1: int, x2: int, y1: int, t: int, a: int, b: int)
    ensures var x3 := IntThirdX(t, a, x1, x2);
            IntDefect(a, b, x3, IntThirdY(t, x1, y1, x3)) * (x2 - x1)
            == IntDefect(a, b, x1, y1) * (x2 - x3) + IntDefect(a, b, x2, OnLine(t, x1, y1, x2)) * (x3 - x1)
  {
    hide IntDefect, OnLine, Ecp.Cubic;
    var k, x3 := y1 - t * x1, IntThirdX(t, a, x1, x2);
    Ecp.CubicThirdRoot(t * t + t - a, 0 - (2 * t * k + k), b - k * k, x1, x2);
    DefectOnLine(t, x1, y1, a, b, x1);
    DefectOnLine(t, x1, y1, a, b, x2);
    DefectOnLine(t, x1, y1, a, b, x3);
    StartOfLine(t, x1, y1);
    ReflectedDefect(a, b, x3, OnLine(t, x1, y1, x3));
  }

  /** The slope of the tangent: three x1^2 and two a·x1 less y1, against t times two y1 and x1. */
  function Tilt(t: int, x1: int, y1: int, a: int): int {
    x1 * x1 + (x1 * x1 + x1 * x1) + (a * x1 + a * x1) - y1 - t * (y1 + y1 + x1)
  }

  lemma TangentInteger(x1: int, y1: int, t: int, a: int, b: int)
    ensures var x3 := IntThirdX(t, a, x1, x1);
            IntDefect(a, b, x3, IntThirdY(t, x1, y1, x3)) == IntDefect(a, b, x1, y1) + Tilt(t, x1, y1, a) * (x3 - x1)
  {
    hide IntDefect, OnLine, Ecp.Cubic, Tilt, CubicSlope;
    var k, x3 := y1 - t * x1, IntThirdX(t, a, x1, x1);
    CubicDoubleRoot(t * t + t - a, 0 - (2 * t * k + k), b - k * k, x1);
    DefectOnLine(t, x1, y1, a, b, x1);
    DefectOnLine(t, x1, y1, a, b, x3);
    StartOfLine(t, x1, y1);
    ReflectedDefect(a, b, x3, OnLine(t, x1, y1, x3));
    TangentDerivative(x1, y1, t, a);
  }

  function CubicSlope(s: int, p: int, x: int): int {
    3 * x * x - 2 * s * x + p
  }

  lemma CubicDoubleRoot(s: int, p: int, q: int, x1: int)
    ensures var x3 := s - x1 - x1;
            Ecp.Cubic(s, p, q, x3) == Ecp.Cubic(s, p, q, x1) + CubicSlope(s, p, x1) * (x3 - x1)
  {
  }

  lemma TangentDerivative(x1: int, y1: int, t: int, a: int)
    ensures var k := y1 - t * x1;
            CubicSlope(t * t + t - a, 0 - (2 * t * k + k), x1) == Tilt(t, x1, y1, a)
  {
  }

  function ChordLeft(x1: Expr, x2: Expr, y1: Expr, t: Expr, a: Expr, b: Expr): Expr {
    var x3 := EThirdX(t, a, x1, x2);
    Mul(EDefect(a, b, x3, EThirdY(t, x1, y1, x3)), Ecp.ESub(x2, x1))
  }

  function ChordRight(x1: Expr, x2: Expr, y1: Expr, t: Expr, a: Expr, b: Expr): Expr {
    var x3 := EThirdX(t, a, x1, x2);
    Expr.Add(Mul(EDefect(a, b, x1, y1), Ecp.ESub(x2, x3)),
             Mul(EDefect(a, b, x2, EOnLine(t, x1, y1, x2)), Ecp.ESub(x3, x1)))
  }

  function TangentLeft(x1: Expr, y1: Expr, t: Expr, a: Expr, b: Expr): Expr {
    var x3 := EThirdX(t, a, x1, x1);
    EDefect(a, b, x3, EThirdY(t, x1, y1, x3))
  }

  function TangentRight(x1: Expr, y1: Expr, t: Expr, a: Expr, b: Expr): Expr {
    Expr.Add(EDefect(a, b, x1, y1), Mul(ETilt(t, x1, y1, a), Ecp.ESub(EThirdX(t, a, x1, x1), x1)))
  }

  function ETilt(t: Expr, x1: Expr, y1: Expr, a: Expr): Expr {
    var s := Mul(x1, x1);
    Ecp.ESub(Ecp.ESub(Expr.Add(Expr.Add(s, Expr.Add(s, s)), Expr.Add(Mul(a, x1), Mul(a, x1))), y1),
             Mul(t, Expr.Add(Expr.Add(y1, y1), x1)))
  }

  lemma IntegerDefect(a: Expr, b: Expr, x: Expr, y: Expr, v: seq<int>)
    ensures EvalInt(EDefect(a, b, x, y), v) == IntDefect(EvalInt(a, v), EvalInt(b, v), EvalInt(x, v), EvalInt(y, v))
  {
    hide EvalInt, Ecp.ESub;
    var sum := Expr.Add(x, a);
    Ecp.IntegerNodes(x, a, v);
    Ecp.IntegerNodes(sum, x, v);
    Ecp.IntegerNodes(Mul(sum, x), x, v);
    Ecp.IntegerNodes(Mul(Mul(sum, x), x), b, v);
    Ecp.IntegerNodes(x, y, v);
    Ecp.IntegerNodes(Expr.Add(x, y), y, v);
    Ecp.IntegerNodes(Expr.Add(Mul(Mul(sum, x), x), b), Mul(Expr.Add(x, y), y), v);
  }

  lemma IntegerThirdX(t: Expr, a: Expr, x1: Expr, x2: Expr, v: seq<int>)
    ensures EvalInt(EThirdX(t, a, x1, x2), v) == IntThirdX(EvalInt(t, v), EvalInt(a, v), EvalInt(x1, v), EvalInt(x2, v))
  {
    hide EvalInt, Ecp.ESub;
    var s := Expr.Add(Mul(t, t), t);
    Ecp.IntegerNodes(t, t, v);
    Ecp.IntegerNodes(Mul(t, t), t, v);
    Ecp.IntegerNodes(s, a, v);
    Ecp.IntegerNodes(Ecp.ESub(s, a), x1, v);
    Ecp.IntegerNodes(Ecp.ESub(Ecp.ESub(s, a), x1), x2, v);
  }

  lemma IntegerOnLine(t: Expr, x1: Expr, y1: Expr, x: Expr, v: seq<int>)
    ensures EvalInt(EOnLine(t, x1, y1, x), v) == OnLine(EvalInt(t, v), EvalInt(x1, v), EvalInt(y1, v), EvalInt(x, v))
    ensures EvalInt(EThirdY(t, x1, y1, x), v) == IntThirdY(EvalInt(t, v), EvalInt(x1, v), EvalInt(y1, v), EvalInt(x, v))
  {
    hide EvalInt, Ecp.ESub;
    var d := Ecp.ESub(x, x1);
    Ecp.IntegerNodes(x, x1, v);
    Ecp.IntegerNodes(t, d, v);
    Ecp.IntegerNodes(y1, Mul(t, d), v);
    Ecp.IntegerNodes(EOnLine(t, x1, y1, x), x, v);
    Ecp.IntegerNodes(Expr.Add(EOnLine(t, x1, y1, x), x), x, v);
  }

  lemma ChordEvaluates(v: seq<int>)
    requires |v| == 6
    ensures EvalInt(ChordLeft(Var(0), Var(1), Var(2), Var(3), Var(4), Var(5)), v)
            == EvalInt(ChordRight(Var(0), Var(1), Var(2), Var(3), Var(4), Var(5)), v)
  {
    hide EDefect, EThirdX, EThirdY, EOnLine, IntDefect, IntThirdX, IntThirdY, OnLine;
    var x1, x2, y1, t, a, b := Expr.Var(0), Expr.Var(1), Expr.Var(2), Expr.Var(3), Expr.Var(4), Expr.Var(5);
    var x3 := EThirdX(t, a, x1, x2);
    IntegerThirdX(t, a, x1, x2, v);
    IntegerOnLine(t, x1, y1, x2, v);
    IntegerOnLine(t, x1, y1, x3, v);
    IntegerDefect(a, b, x1, y1, v);
    IntegerDefect(a, b, x2, EOnLine(t, x1, y1, x2), v);
    IntegerDefect(a, b, x3, EThirdY(t, x1, y1, x3), v);
    ChordInteger(v[0], v[1], v[2], v[3], v[4], v[5]);
  }

  lemma TangentEvaluates(v: seq<int>)
    requires |v| == 5
    ensures EvalInt(TangentLeft(Var(0), Var(1), Var(2), Var(3), Var(4)), v)
            == EvalInt(TangentRight(Var(0), Var(1), Var(2), Var(3), Var(4)), v)
  {
    hide EDefect, EThirdX, EThirdY, IntDefect, IntThirdX, IntThirdY;
    var x1, y1, t, a, b := Expr.Var(0), Expr.Var(1), Expr.Var(2), Expr.Var(3), Expr.Var(4);
    var x3 := EThirdX(t, a, x1, x1);
    IntegerThirdX(t, a, x1, x1, v);
    IntegerOnLine(t, x1, y1, x3, v);
    IntegerDefect(a, b, x1, y1, v);
    IntegerDefect(a, b, x3, EThirdY(t, x1, y1, x3), v);
    TangentInteger(v[0], v[1], v[2], v[3], v[4]);
  }

  /** The same without signs: two expressions that agree over the integers agree after StripNeg. */
  lemma UnsignedIdentity<F(!new)>(f: Field<F>, n: nat, e: Expr, e': Expr, env: seq<F>)
    requires IsField(f) && CharacteristicTwo(f) && |env| == n
    requires forall v: seq<int> :: |v| == n ==> EvalInt(e, v) == EvalInt(e', v)
    ensures Unsigned(f, e, env) == Unsigned(f, e', env)
  {
    hide IsRing, Eval, EvalInt, StripNeg;
    RingIdentity(f.ring, n, e, e', env);
    SignsAreIrrelevant(f, e, env);
    SignsAreIrrelevant(f, e', env);
  }

  /** x3 and y3 of the chord or tangent with slope t. */
  function ThirdX<F>(c: Curve<F>, t: F, x1: F, x2: F): F {
    c.f.Add(c.f.Add(c.f.Add(c.f.Add(c.f.Mul(t, t), t), c.a), x1), x2)
  }

  function ThirdY<F>(c: Curve<F>, t: F, x1: F, y1: F, x3: F): F {
    c.f.Add(c.f.Add(y1, c.f.Mul(t, c.f.Add(x3, x1))), x3)
  }

  /** Defect without its minus sign. */
  function Excess<F>(c: Curve<F>, x: F, y: F): F {
    c.f.Add(c.f.Add(c.f.Mul(c.f.Mul(c.f.Add(x, c.a), x), x), c.b), c.f.Mul(c.f.Add(x, y), y))
  }

  lemma ExcessIsDefect<F(!new)>(c: Curve<F>, x: F, y: F)
    requires IsCurve(c)
    ensures Excess(c, x, y) == Defect(c, x, y)
  {
    SumWithItself(c.f, c.f.Mul(c.f.Add(x, y), y));
  }

  /** The value of e without its signs. */
  function Unsigned<F>(f: Field<F>, e: Expr, env: seq<F>): F {
    Eval(f.ring, StripNeg(e), env)
  }

  lemma UnsignedNodes<F(!new)>(f: Field<F>, e: Expr, e': Expr, env: seq<F>)
    ensures Unsigned(f, Expr.Add(e, e'), env) == f.Add(Unsigned(f, e, env), Unsigned(f, e', env))
    ensures Unsigned(f, Mul(e, e'), env) == f.Mul(Unsigned(f, e, env), Unsigned(f, e', env))
    ensures Unsigned(f, Ecp.ESub(e, e'), env) == f.Add(Unsigned(f, e, env), Unsigned(f, e', env))
    ensures Unsigned(f, Neg(e), env) == Unsigned(f, e, env)
  {
    assert StripNeg(Neg(e')) == StripNeg(e');
  }

  lemma UnsignedDefect<F(!new)>(c: Curve<F>, a: Expr, b: Expr, x: Expr, y: Expr, env: seq<F>)
    requires Unsigned(c.f, a, env) == c.a && Unsigned(c.f, b, env) == c.b
    ensures Unsigned(c.f, EDefect(a, b, x, y), env) == Excess(c, Unsigned(c.f, x, env), Unsigned(c.f, y, env))
  {
    hide Unsigned, Ecp.ESub;
    var sum := Expr.Add(x, a);
    UnsignedNodes(c.f, x, a, env);
    UnsignedNodes(c.f, sum, x, env);
    UnsignedNodes(c.f, Mul(sum, x), x, env);
    UnsignedNodes(c.f, Mul(Mul(sum, x), x), b, env);
    UnsignedNodes(c.f, x, y, env);
    UnsignedNodes(c.f, Expr.Add(x, y), y, env);
    UnsignedNodes(c.f, Expr.Add(Mul(Mul(sum, x), x), b), Mul(Expr.Add(x, y), y), env);
  }

  lemma UnsignedThirdX<F(!new)>(c: Curve<F>, t: Expr, a: Expr, x1: Expr, x2: Expr, env: seq<F>)
    requires Unsigned(c.f, a, env) == c.a
    ensures Unsigned(c.f, EThirdX(t, a, x1, x2), env)
            == ThirdX(c, Unsigned(c.f, t, env), Unsigned(c.f, x1, env), Unsigned(c.f, x2, env))
  {
    hide Unsigned, Ecp.ESub;
    var s := Expr.Add(Mul(t, t), t);
    UnsignedNodes(c.f, t, t, env);
    UnsignedNodes(c.f, Mul(t, t), t, env);
    UnsignedNodes(c.f, s, a, env);
    UnsignedNodes(c.f, Ecp.ESub(s, a), x1, env);
    UnsignedNodes(c.f, Ecp.ESub(Ecp.ESub(s, a), x1), x2, env);
  }

  lemma UnsignedOnLine<F(!new)>(c: Curve<F>, t: Expr, x1: Expr, y1: Expr, x: Expr, env: seq<F>)
    ensures var t', x1' := Unsigned(c.f, t, env), Unsigned(c.f, x1, env);
            var y1', x' := Unsigned(c.f, y1, env), Unsigned(c.f, x, env);
            Unsigned(c.f, EOnLine(t, x1, y1, x), env) == c.f.Add(y1', c.f.Mul(t', c.f.Add(x', x1')))
            && Unsigned(c.f, EThirdY(t, x1, y1, x), env) == ThirdY(c, t', x1', y1', x')
  {
    hide Unsigned, Ecp.ESub;
    var d := Ecp.ESub(x, x1);
    UnsignedNodes(c.f, x, x1, env);
    UnsignedNodes(c.f, t, d, env);
    UnsignedNodes(c.f, y1, Mul(t, d), env);
    UnsignedNodes(c.f, EOnLine(t, x1, y1, x), x, env);
    UnsignedNodes(c.f, Expr.Add(EOnLine(t, x1, y1, x), x), x, env);
  }

  lemma ChordIdentity<F(!new)>(c: Curve<F>, x1: F, x2: F, y1: F, t: F)
    requires IsCurve(c)
    ensures var x3 := ThirdX(c, t, x1, x2);
            c.f.Mul(Excess(c, x3, ThirdY(c, t, x1, y1, x3)), c.f.Add(x2, x1))
            == c.f.Add(c.f.Mul(Excess(c, x1, y1), c.f.Add(x2, x3)),
                       c.f.Mul(Excess(c, x2, c.f.Add(y1, c.f.Mul(t, c.f.Add(x2, x1)))), c.f.Add(x3, x1)))
  {
    hide IsField, CharacteristicTwo, Eval, EvalInt, StripNeg, EDefect, EThirdX, EThirdY, EOnLine, Ecp.ESub, ThirdX;
    hide ThirdY, Excess;
    var e1, e2, e3, e4, e5, e6 := Expr.Var(0), Expr.Var(1), Expr.Var(2), Expr.Var(3), Expr.Var(4), Expr.Var(5);
    var env := [x1, x2, y1, t, c.a, c.b];
    forall v: seq<int> | |v| == 6
      ensures EvalInt(ChordLeft(e1, e2, e3, e4, e5, e6), v) == EvalInt(ChordRight(e1, e2, e3, e4, e5, e6), v)
    {
      ChordEvaluates(v);
    }
    UnsignedIdentity(c.f, 6, ChordLeft(e1, e2, e3, e4, e5, e6), ChordRight(e1, e2, e3, e4, e5, e6), env);
    UnsignedVars(c.f, env);
    UnsignedChord(c, e1, e2, e3, e4, e5, e6, env);
  }

  lemma UnsignedVars<F(!new)>(f: Field<F>, env: seq<F>)
    ensures forall i: nat :: i < |env| ==> Unsigned(f, Expr.Var(i), env) == env[i]
  {
  }

  lemma UnsignedChord<F(!new)>(c: Curve<F>, x1: Expr, x2: Expr, y1: Expr, t: Expr, a: Expr, b: Expr, env: seq<F>)
    requires Unsigned(c.f, a, env) == c.a && Unsigned(c.f, b, env) == c.b
    ensures var x1', x2' := Unsigned(c.f, x1, env), Unsigned(c.f, x2, env);
            var y1', t' := Unsigned(c.f, y1, env), Unsigned(c.f, t, env);
            var x3 := ThirdX(c, t', x1', x2');
            Unsigned(c.f, ChordLeft(x1, x2, y1, t, a, b), env)
            == c.f.Mul(Excess(c, x3, ThirdY(c, t', x1', y1', x3)), c.f.Add(x2', x1'))
            && Unsigned(c.f, ChordRight(x1, x2, y1, t, a, b), env)
            == c.f.Add(c.f.Mul(Excess(c, x1', y1'), c.f.Add(x2', x3)),
                       c.f.Mul(Excess(c, x2', c.f.Add(y1', c.f.Mul(t', c.f.Add(x2', x1')))), c.f.Add(x3, x1')))
  {
    hide Unsigned, EDefect, EThirdX, EThirdY, EOnLine, Ecp.ESub, ThirdX, ThirdY, Excess;
    var x3 := EThirdX(t, a, x1, x2);
    var y2, y3 := EOnLine(t, x1, y1, x2), EThirdY(t, x1, y1, x3);
    var d1, d2, d3 := EDefect(a, b, x1, y1), EDefect(a, b, x2, y2), EDefect(a, b, x3, y3);
    UnsignedThirdX(c, t, a, x1, x2, env);
    UnsignedOnLine(c, t, x1, y1, x2, env);
    UnsignedOnLine(c, t, x1, y1, x3, env);
    UnsignedDefect(c, a, b, x1, y1, env);
    UnsignedDefect(c, a, b, x2, y2, env);
    UnsignedDefect(c, a, b, x3, y3, env);
    UnsignedNodes(c.f, x2, x1, env);
    UnsignedNodes(c.f, x2, x3, env);
    UnsignedNodes(c.f, x3, x1, env);
    UnsignedNodes(c.f, d3, Ecp.ESub(x2, x1), env);
    UnsignedNodes(c.f, d1, Ecp.ESub(x2, x3), env);
    UnsignedNodes(c.f, d2, Ecp.ESub(x3, x1), env);
    UnsignedNodes(c.f, Mul(d1, Ecp.ESub(x2, x3)), Mul(d2, Ecp.ESub(x3, x1)), env);
  }

  /** The slope of the tangent, without its signs. */
  function UnsignedTilt<F>(c: Curve<F>, t: F, x1: F, y1: F): F {
    var s := c.f.Mul(x1, x1);
    c.f.Add(c.f.Add(c.f.Add(c.f.Add(s, c.f.Add(s, s)), c.f.Add(c.f.Mul(c.a, x1), c.f.Mul(c.a, x1))), y1),
            c.f.Mul(t, c.f.Add(c.f.Add(y1, y1), x1)))
  }

  lemma UnsignedSlope<F(!new)>(c: Curve<F>, t: Expr, x1: Expr, y1: Expr, a: Expr, env: seq<F>)
    requires Unsigned(c.f, a, env) == c.a
    ensures Unsigned(c.f, ETilt(t, x1, y1, a), env)
            == UnsignedTilt(c, Unsigned(c.f, t, env), Unsigned(c.f, x1, env), Unsigned(c.f, y1, env))
  {
    hide Unsigned, Ecp.ESub;
    var s, p := Mul(x1, x1), Mul(a, x1);
    var sum := Expr.Add(Expr.Add(s, Expr.Add(s, s)), Expr.Add(p, p));
    UnsignedNodes(c.f, x1, x1, env);
    UnsignedNodes(c.f, a, x1, env);
    UnsignedNodes(c.f, s, s, env);
    UnsignedNodes(c.f, s, Expr.Add(s, s), env);
    UnsignedNodes(c.f, p, p, env);
    UnsignedNodes(c.f, Expr.Add(s, Expr.Add(s, s)), Expr.Add(p, p), env);
    UnsignedNodes(c.f, sum, y1, env);
    UnsignedNodes(c.f, y1, y1, env);
    UnsignedNodes(c.f, Expr.Add(y1, y1), x1, env);
    UnsignedNodes(c.f, t, Expr.Add(Expr.Add(y1, y1), x1), env);
    UnsignedNodes(c.f, Ecp.ESub(sum, y1), Mul(t, Expr.Add(Expr.Add(y1, y1), x1)), env);
  }

  lemma UnsignedTangent<F(!new)>(c: Curve<F>, x1: Expr, y1: Expr, t: Expr, a: Expr, b: Expr, env: seq<F>)
    requires Unsigned(c.f, a, env) == c.a && Unsigned(c.f, b, env) == c.b
    ensures var x1', y1', t' := Unsigned(c.f, x1, env), Unsigned(c.f, y1, env), Unsigned(c.f, t, env);
            var x3 := ThirdX(c, t', x1', x1');
            Unsigned(c.f, TangentLeft(x1, y1, t, a, b), env) == Excess(c, x3, ThirdY(c, t', x1', y1', x3))
            && Unsigned(c.f, TangentRight(x1, y1, t, a, b), env)
               == c.f.Add(Excess(c, x1', y1'), c.f.Mul(UnsignedTilt(c, t', x1', y1'), c.f.Add(x3, x1')))
  {
    hide Unsigned, EDefect, EThirdX, EThirdY, EOnLine, Ecp.ESub, ETilt, ThirdX, ThirdY, Excess, UnsignedTilt;
    var x3 := EThirdX(t, a, x1, x1);
    UnsignedThirdX(c, t, a, x1, x1, env);
    UnsignedOnLine(c, t, x1, y1, x3, env);
    UnsignedDefect(c, a, b, x1, y1, env);
    UnsignedDefect(c, a, b, x3, EThirdY(t, x1, y1, x3), env);
    UnsignedSlope(c, t, x1, y1, a, env);
    UnsignedNodes(c.f, x3, x1, env);
    UnsignedNodes(c.f, ETilt(t, x1, y1, a), Ecp.ESub(x3, x1), env);
    UnsignedNodes(c.f, EDefect(a, b, x1, y1), Mul(ETilt(t, x1, y1, a), Ecp.ESub(x3, x1)), env);
  }

  lemma TangentIdentity<F(!new)>(c: Curve<F>, x1: F, y1: F, t: F)
    requires IsCurve(c)
    ensures var x3 := ThirdX(c, t, x1, x1);
            Excess(c, x3, ThirdY(c, t, x1, y1, x3))
            == c.f.Add(Excess(c, x1, y1), c.f.Mul(UnsignedTilt(c, t, x1, y1), c.f.Add(x3, x1)))
  {
    hide IsField, CharacteristicTwo, Eval, EvalInt, StripNeg, EDefect, EThirdX, EThirdY, EOnLine, Ecp.ESub, ThirdX;
    hide ThirdY, Excess;
    var e1, e2, e3, e4, e5 := Expr.Var(0), Expr.Var(1), Expr.Var(2), Expr.Var(3), Expr.Var(4);
    var env := [x1, y1, t, c.a, c.b];
    forall v: seq<int> | |v| == 5
      ensures EvalInt(TangentLeft(e1, e2, e3, e4, e5), v) == EvalInt(TangentRight(e1, e2, e3, e4, e5), v)
    {
      TangentEvaluates(v);
    }
    UnsignedIdentity(c.f, 5, TangentLeft(e1, e2, e3, e4, e5), TangentRight(e1, e2, e3, e4, e5), env);
    UnsignedVars(c.f, env);
    UnsignedTangent(c, e1, e2, e3, e4, e5, env);
  }

  // ---------- closure ----------

  lemma DistinctSum<F(!new)>(f: Field<F>, a: F, b: F)
    requires IsField(f) && CharacteristicTwo(f)
    ensures f.Add(a, b) == f.Zero() <==> a == b
  {
    SumWithItself(f, b);
    SubZero(f.ring, a, b);
  }

  lemma AddTwice<F(!new)>(f: Field<F>, a: F, b: F)
    requires IsField(f) && CharacteristicTwo(f)
    ensures f.Add(a, f.Add(b, a)) == b && f.Add(f.Add(b, a), a) == b
  {
    Laws(f.ring, b, a, a);
    Laws(f.ring, a, f.Add(b, a), a);
    SumWithItself(f, a);
    Laws(f.ring, b, b, b);
  }

  /** The code adds the terms in another order. */
  lemma ChordOrder<F(!new)>(c: Curve<F>, t: F, x1: F, x2: F)
    requires IsCurve(c)
    ensures var x := c.f.Add(c.f.Add(c.f.Add(c.f.Square(t), t), x2), c.a);
            c.f.Add(x, x1) == ThirdX(c, t, x1, x2) && c.f.Add(c.f.Add(x, x1), x1) == x
  {
    RingIdentity(c.f.ring, 4,
                 Expr.Add(Expr.Add(Expr.Add(Expr.Add(Mul(Var(0), Var(0)), Var(0)), Var(3)), Var(1)), Var(2)),
                 Expr.Add(Expr.Add(Expr.Add(Expr.Add(Mul(Var(0), Var(0)), Var(0)), Var(1)), Var(2)), Var(3)),
                 [t, c.a, x1, x2]);
    AddTwice(c.f, x1, c.f.Add(c.f.Add(c.f.Add(c.f.Square(t), t), x2), c.a));
  }

  lemma ChordOnCurve<F(!new)>(c: Curve<F>, p: Point<F>, q: Point<F>)
    requires IsCurve(c) && VerifyPoint(c, p) && VerifyPoint(c, q) && p.Affine? && q.Affine? && p.x != q.x
    ensures c.f.Add(p.x, q.x) != c.f.Zero() && VerifyPoint(c, Add(c, p, q))
  {
    hide IsRing, CharacteristicTwo, Excess, Defect;
    var f := c.f;
    var d := f.Add(p.x, q.x);
    var t := f.Divide(f.Add(p.y, q.y), d);
    DistinctSum(f, p.x, q.x);
    Laws(f.ring, p.x, q.x, q.x);
    DivideMultiply(f, f.Add(p.y, q.y), d);
    Laws(f.ring, p.y, q.y, q.y);
    AddTwice(f, p.y, q.y);
    ChordOrder(c, t, p.x, q.x);
    var x3 := ThirdX(c, t, p.x, q.x);
    var y3 := ThirdY(c, t, p.x, p.y, x3);
    ChordIdentity(c, p.x, q.x, p.y, t);
    ExcessIsDefect(c, p.x, p.y);
    ExcessIsDefect(c, q.x, q.y);
    ExcessIsDefect(c, x3, y3);
    MulZero(f.ring, f.Add(q.x, x3));
    MulZero(f.ring, f.Add(x3, p.x));
    Laws(f.ring, f.Zero(), f.Zero(), f.Zero());
    NoZeroDivisors(f, Defect(c, x3, y3), d);
  }

  lemma TangentSlope<F(!new)>(f: Field<F>, x: F, y: F)
    requires IsField(f) && CharacteristicTwo(f) && x != f.Zero()
    ensures f.Mul(f.Add(f.Divide(y, x), x), x) == f.Add(y, f.Square(x))
  {
    DivideMultiply(f, y, x);
    Laws(f.ring, x, f.Divide(y, x), x);
    Laws(f.ring, x, f.Add(f.Divide(y, x), x), x);
    Laws(f.ring, f.Divide(y, x), x, x);
  }

  /** The derivative of the curve along the tangent is zero. */
  lemma TangentIsTangent<F(!new)>(c: Curve<F>, x: F, y: F, t: F)
    requires IsCurve(c) && c.f.Mul(t, x) == c.f.Add(y, c.f.Square(x))
    ensures var s := c.f.Mul(x, x);
            c.f.Add(c.f.Add(c.f.Add(c.f.Add(s, c.f.Add(s, s)), c.f.Add(c.f.Mul(c.a, x), c.f.Mul(c.a, x))), y),
                    c.f.Mul(t, c.f.Add(c.f.Add(y, y), x))) == c.f.Zero()
  {
    var f, s := c.f, c.f.Mul(x, x);
    SumWithItself(f, s);
    SumWithItself(f, f.Mul(c.a, x));
    SumWithItself(f, y);
    SumWithItself(f, f.Add(y, s));
    Laws(f.ring, s, y, y);
    Laws(f.ring, f.Zero(), x, x);
    Laws(f.ring, x, f.Zero(), x);
  }

  lemma TangentOrder<F(!new)>(c: Curve<F>, x: F, y: F, t: F)
    requires IsCurve(c) && c.f.Mul(t, x) == c.f.Add(y, c.f.Square(x))
    ensures var x3 := c.f.Add(c.f.Add(c.f.Square(t), t), c.a);
            ThirdX(c, t, x, x) == x3
            && c.f.Add(c.f.Add(c.f.Square(x), c.f.Mul(t, x3)), x3) == ThirdY(c, t, x, y, x3)
  {
    var f := c.f;
    var x3, s := f.Add(f.Add(f.Square(t), t), c.a), f.Square(x);
    AddTwice(f, x, x3);
    Laws(f.ring, t, x3, x);
    AddTwice(f, y, f.Add(s, f.Mul(t, x3)));
    Regroup(f, y, s, f.Mul(t, x3));
  }

  lemma Regroup<F(!new)>(f: Field<F>, y: F, s: F, u: F)
    requires IsRing(f.ring)
    ensures f.Add(y, f.Add(u, f.Add(y, s))) == f.Add(y, f.Add(f.Add(s, u), y))
  {
    hide IsRing;
    RingIdentity(f.ring, 3,
                 Expr.Add(Var(0), Expr.Add(Var(2), Expr.Add(Var(0), Var(1)))),
                 Expr.Add(Var(0), Expr.Add(Expr.Add(Var(1), Var(2)), Var(0))), [y, s, u]);
  }

  lemma TangentOnCurve<F(!new)>(c: Curve<F>, p: Point<F>)
    requires IsCurve(c) && VerifyPoint(c, p)
    ensures VerifyPoint(c, Double(c, p))
  {
    if p.Affine? && p.x != c.f.Zero() {
      hide IsRing, CharacteristicTwo, Excess, Defect;
      var f := c.f;
      var t := f.Add(f.Divide(p.y, p.x), p.x);
      TangentSlope(f, p.x, p.y);
      TangentOrder(c, p.x, p.y, t);
      TangentIsTangent(c, p.x, p.y, t);
      TangentIdentity(c, p.x, p.y, t);
      var x3 := ThirdX(c, t, p.x, p.x);
      ExcessIsDefect(c, p.x, p.y);
      ExcessIsDefect(c, x3, ThirdY(c, t, p.x, p.y, x3));
      MulZero(f.ring, f.Add(x3, p.x));
      Laws(f.ring, f.Zero(), f.Zero(), f.Zero());
    }
  }

  /** Two points of the curve with the same x are equal or inverse to each other. */
  lemma SameAbscissa<F(!new)>(c: Curve<F>, p: Point<F>, q: Point<F>)
    requires IsCurve(c) && VerifyPoint(c, p) && VerifyPoint(c, q) && p.Affine? && q.Affine? && p.x == q.x
    ensures p.y == q.y || p.y == c.f.Add(q.x, q.y)
  {
    var f, x := c.f, p.x;
    ExcessIsDefect(c, x, p.y);
    ExcessIsDefect(c, x, q.y);
    var w := f.Add(f.Mul(f.Mul(f.Add(x, c.a), x), x), c.b);
    var u, v := f.Mul(f.Add(x, p.y), p.y), f.Mul(f.Add(x, q.y), q.y);
    DistinctSum(f, w, u);
    DistinctSum(f, w, v);
    SumWithItself(f, f.Mul(x, q.y));
    ProductOfSums(f, x, p.y, q.y);
    SubZero(f.ring, u, v);
    NoZeroDivisors(f, f.Add(p.y, q.y), f.Add(p.y, f.Add(x, q.y)));
    DistinctSum(f, p.y, q.y);
    DistinctSum(f, p.y, f.Add(x, q.y));
  }

  /** (y1 + y2)·(y1 + x + y2) = (x + y1)·y1 + (x + y2)·y2 in characteristic 2. */
  lemma ProductOfSums<F(!new)>(f: Field<F>, x: F, y1: F, y2: F)
    requires IsField(f) && CharacteristicTwo(f)
    ensures f.Mul(f.Add(y1, y2), f.Add(y1, f.Add(x, y2))) == f.Add(f.Mul(f.Add(x, y1), y1), f.Mul(f.Add(x, y2), y2))
  {
    hide IsField, CharacteristicTwo;
    var e := Mul(Ecp.ESub(Var(1), Var(2)), Expr.Add(Var(1), Expr.Add(Var(0), Var(2))));
    var e' := Ecp.ESub(Mul(Expr.Add(Var(0), Var(1)), Var(1)), Mul(Expr.Add(Var(0), Var(2)), Var(2)));
    UnsignedIdentity(f, 3, e, e', [x, y1, y2]);
  }

  lemma InverseOnCurve<F(!new)>(c: Curve<F>, p: Point<F>)
    requires IsCurve(c) && VerifyPoint(c, p)
    ensures VerifyPoint(c, Inverse(c, p))
  {
    if p.Affine? {
      var f := c.f;
      AddTwice(f, p.x, p.y);
      Laws(f.ring, p.x, p.y, p.y);
      Laws(f.ring, f.Add(p.x, p.y), p.y, p.y);
    }
  }

  /** Add, Double and Inverse keep points on the curve, in every case, and Add only divides by a nonzero
      difference. */
  lemma Closed<F(!new)>(c: Curve<F>, p: Point<F>, q: Point<F>)
    requires IsCurve(c) && VerifyPoint(c, p) && VerifyPoint(c, q)
    ensures VerifyPoint(c, Add(c, p, q)) && VerifyPoint(c, Double(c, p)) && VerifyPoint(c, Inverse(c, p))
    ensures p.Affine? && q.Affine? && p != q && !(p.x == q.x && p.y == c.f.Add(q.x, q.y)) ==>
              c.f.Add(p.x, q.x) != c.f.Zero()
  {
    TangentOnCurve(c, p);
    InverseOnCurve(c, p);
    if p.Affine? && q.Affine? {
      if p.x == q.x {
        SameAbscissa(c, p, q);
      } else {
        ChordOnCurve(c, p, q);
      }
    }
  }
}
