/** What Add and Double of ec2n.cpp mean: a line meets the curve in its two points and in the inverse of their sum, each
    as often as it should. */
module Ec2nLines {

  import opened Ec2n
  import Ecp
  import EcpLines
  import opened Ec2nGroup
  import opened Fields
  import opened Rings

  function Line<F>(f: Field<F>, t: F, x1: F, y1: F, x: F): F {
    f.Add(y1, f.Mul(t, f.Add(x, x1)))
  }

  /** (x + x1)·(x + x2)·(x + x3) */
  function Roots<F>(f: Field<F>, x: F, x1: F, x2: F, x3: F): F {
    f.Mul(f.Mul(f.Add(x, x1), f.Add(x, x2)), f.Add(x, x3))
  }

  /** The line through p and q with slope t meets the curve in p, q and r, and nowhere else. */
  ghost predicate MeetsIn<F(!new)>(c: Curve<F>, t: F, p: Point<F>, q: Point<F>, r: Point<F>) {
    && p.Affine? && q.Affine? && r.Affine? && r.y == Line(c.f, t, p.x, p.y, r.x)
    && forall x: F {:trigger Line(c.f, t, p.x, p.y, x)} ::
         Defect(c, x, Line(c.f, t, p.x, p.y, x)) == Roots(c.f, x, p.x, q.x, r.x)
  }

  // ---------- over the integers, with signs ----------

  lemma ChordRoots(x: int, x1: int, x2: int, y1: int, t: int, a: int, b: int)
    ensures (IntDefect(a, b, x, OnLine(t, x1, y1, x)) - EcpLines.IntRoots(x, x1, x2, IntThirdX(t, a, x1, x2)))
            * (x2 - x1)
            == IntDefect(a, b, x1, y1) * (x2 - x) + IntDefect(a, b, x2, OnLine(t, x1, y1, x2)) * (x - x1)
  {
    hide IntDefect, OnLine, Ecp.Cubic, EcpLines.IntRoots;
    var k := y1 - t * x1;
    StartOfLine(t, x1, y1);
    DefectOnLine(t, x1, y1, a, b, x);
    DefectOnLine(t, x1, y1, a, b, x1);
    DefectOnLine(t, x1, y1, a, b, x2);
    EcpLines.CubicRoots(t * t + t - a, 0 - (2 * t * k + k), b - k * k, x1, x2, x);
  }

  lemma TangentRoots(x: int, x1: int, y1: int, t: int, a: int, b: int)
    ensures IntDefect(a, b, x, OnLine(t, x1, y1, x)) - EcpLines.IntRoots(x, x1, x1, IntThirdX(t, a, x1, x1))
            == IntDefect(a, b, x1, y1) + Tilt(t, x1, y1, a) * (x - x1)
  {
    hide IntDefect, OnLine, Ecp.Cubic, EcpLines.IntRoots, Tilt;
    var k := y1 - t * x1;
    StartOfLine(t, x1, y1);
    DefectOnLine(t, x1, y1, a, b, x);
    DefectOnLine(t, x1, y1, a, b, x1);
    EcpLines.CubicDoubleRoot(t * t + t - a, 0 - (2 * t * k + k), b - k * k, x1, x);
    TangentDerivative(x1, y1, t, a);
  }

  // ---------- the chord ----------

  function EChord(x: Expr, x1: Expr, x2: Expr, y1: Expr, t: Expr, a: Expr, b: Expr): (Expr, Expr) {
    var defect := Ecp.ESub(EDefect(a, b, x, EOnLine(t, x1, y1, x)), EcpLines.ERoots(x, x1, x2, EThirdX(t, a, x1, x2)));
    var first := Mul(EDefect(a, b, x1, y1), Ecp.ESub(x2, x));
    var second := Mul(EDefect(a, b, x2, EOnLine(t, x1, y1, x2)), Ecp.ESub(x, x1));
    (Mul(defect, Ecp.ESub(x2, x1)), Expr.Add(first, second))
  }

  lemma ChordValue(x: Expr, x1: Expr, x2: Expr, y1: Expr, t: Expr, a: Expr, b: Expr, v: seq<int>)
    ensures EvalInt(EChord(x, x1, x2, y1, t, a, b).0, v) == EvalInt(EChord(x, x1, x2, y1, t, a, b).1, v)
  {
    hide EvalInt, Ecp.ESub, EOnLine, EcpLines.ERoots, EDefect, EThirdX, IntDefect, EcpLines.IntRoots, OnLine, IntThirdX;
    var line, far, x3 := EOnLine(t, x1, y1, x), EOnLine(t, x1, y1, x2), EThirdX(t, a, x1, x2);
    var roots := EcpLines.ERoots(x, x1, x2, x3);
    IntegerOnLine(t, x1, y1, x, v);
    IntegerOnLine(t, x1, y1, x2, v);
    IntegerThirdX(t, a, x1, x2, v);
    EcpLines.RootsValue(x, x1, x2, x3, v);
    IntegerDefect(a, b, x, line, v);
    IntegerDefect(a, b, x1, y1, v);
    IntegerDefect(a, b, x2, far, v);
    Ecp.IntegerNodes(EDefect(a, b, x, line), roots, v);
    Ecp.IntegerNodes(x2, x1, v);
    Ecp.IntegerNodes(x2, x, v);
    Ecp.IntegerNodes(x, x1, v);
    Ecp.IntegerNodes(Ecp.ESub(EDefect(a, b, x, line), roots), Ecp.ESub(x2, x1), v);
    Ecp.IntegerNodes(EDefect(a, b, x1, y1), Ecp.ESub(x2, x), v);
    Ecp.IntegerNodes(EDefect(a, b, x2, far), Ecp.ESub(x, x1), v);
    Ecp.IntegerNodes(Mul(EDefect(a, b, x1, y1), Ecp.ESub(x2, x)), Mul(EDefect(a, b, x2, far), Ecp.ESub(x, x1)), v);
    ChordRoots(EvalInt(x, v), EvalInt(x1, v), EvalInt(x2, v), EvalInt(y1, v), EvalInt(t, v), EvalInt(a, v),
               EvalInt(b, v));
  }

  lemma UnsignedRoots<F(!new)>(f: Field<F>, x: Expr, x1: Expr, x2: Expr, x3: Expr, env: seq<F>)
    ensures Unsigned(f, EcpLines.ERoots(x, x1, x2, x3), env)
            == Roots(f, Unsigned(f, x, env), Unsigned(f, x1, env), Unsigned(f, x2, env), Unsigned(f, x3, env))
  {
    hide Unsigned, Ecp.ESub;
    UnsignedNodes(f, x, x1, env);
    UnsignedNodes(f, x, x2, env);
    UnsignedNodes(f, x, x3, env);
    UnsignedNodes(f, Ecp.ESub(x, x1), Ecp.ESub(x, x2), env);
    UnsignedNodes(f, Mul(Ecp.ESub(x, x1), Ecp.ESub(x, x2)), Ecp.ESub(x, x3), env);
  }

  lemma ChordInField<F(!new)>(c: Curve<F>, x: Expr, x1: Expr, x2: Expr, y1: Expr, t: Expr, a: Expr, b: Expr,
                              env: seq<F>)
    requires Unsigned(c.f, a, env) == c.a && Unsigned(c.f, b, env) == c.b
    ensures var f := c.f;
            var i, i1, i2 := Unsigned(f, x, env), Unsigned(f, x1, env), Unsigned(f, x2, env);
            var j, u := Unsigned(f, y1, env), Unsigned(f, t, env);
            && Unsigned(f, EChord(x, x1, x2, y1, t, a, b).0, env)
               == f.Mul(f.Add(Excess(c, i, Line(f, u, i1, j, i)), Roots(f, i, i1, i2, ThirdX(c, u, i1, i2))),
                         f.Add(i2, i1))
            && Unsigned(f, EChord(x, x1, x2, y1, t, a, b).1, env)
               == f.Add(f.Mul(Excess(c, i1, j), f.Add(i2, i)),
                         f.Mul(Excess(c, i2, Line(f, u, i1, j, i2)), f.Add(i, i1)))
  {
    hide Unsigned, Ecp.ESub, EOnLine, EcpLines.ERoots, EDefect, EThirdX, Excess, Roots, ThirdX;
    var f := c.f;
    var line, far, x3 := EOnLine(t, x1, y1, x), EOnLine(t, x1, y1, x2), EThirdX(t, a, x1, x2);
    var roots := EcpLines.ERoots(x, x1, x2, x3);
    UnsignedOnLine(c, t, x1, y1, x, env);
    UnsignedOnLine(c, t, x1, y1, x2, env);
    UnsignedThirdX(c, t, a, x1, x2, env);
    UnsignedRoots(f, x, x1, x2, x3, env);
    UnsignedDefect(c, a, b, x, line, env);
    UnsignedDefect(c, a, b, x1, y1, env);
    UnsignedDefect(c, a, b, x2, far, env);
    UnsignedNodes(f, EDefect(a, b, x, line), roots, env);
    UnsignedNodes(f, x2, x1, env);
    UnsignedNodes(f, x2, x, env);
    UnsignedNodes(f, x, x1, env);
    UnsignedNodes(f, Ecp.ESub(EDefect(a, b, x, line), roots), Ecp.ESub(x2, x1), env);
    UnsignedNodes(f, EDefect(a, b, x1, y1), Ecp.ESub(x2, x), env);
    UnsignedNodes(f, EDefect(a, b, x2, far), Ecp.ESub(x, x1), env);
    UnsignedNodes(f, Mul(EDefect(a, b, x1, y1), Ecp.ESub(x2, x)), Mul(EDefect(a, b, x2, far), Ecp.ESub(x, x1)), env);
  }

  lemma ChordFactors<F(!new)>(c: Curve<F>, t: F, x1: F, y1: F, x2: F, x: F)
    requires IsCurve(c)
    ensures var f := c.f;
            f.Mul(f.Add(Excess(c, x, Line(f, t, x1, y1, x)), Roots(f, x, x1, x2, ThirdX(c, t, x1, x2))), f.Add(x2, x1))
            == f.Add(f.Mul(Excess(c, x1, y1), f.Add(x2, x)),
                     f.Mul(Excess(c, x2, Line(f, t, x1, y1, x2)), f.Add(x, x1)))
  {
    hide IsField, CharacteristicTwo, Unsigned, EvalInt, EChord, Excess, Roots, ThirdX;
    var e0, e1, e2, e3 := Expr.Var(0), Expr.Var(1), Expr.Var(2), Expr.Var(3);
    var e4, e5, e6 := Expr.Var(4), Expr.Var(5), Expr.Var(6);
    var env := [x, x1, x2, y1, t, c.a, c.b];
    var e := EChord(e0, e1, e2, e3, e4, e5, e6);
    forall v: seq<int> | |v| == 7 ensures EvalInt(e.0, v) == EvalInt(e.1, v) {
      ChordValue(e0, e1, e2, e3, e4, e5, e6, v);
    }
    UnsignedIdentity(c.f, 7, e.0, e.1, env);
    UnsignedVars(c.f, env);
    ChordInField(c, e0, e1, e2, e3, e4, e5, e6, env);
  }

  // ---------- the tangent ----------

  function ETangent(x: Expr, x1: Expr, y1: Expr, t: Expr, a: Expr, b: Expr): (Expr, Expr) {
    (Ecp.ESub(EDefect(a, b, x, EOnLine(t, x1, y1, x)), EcpLines.ERoots(x, x1, x1, EThirdX(t, a, x1, x1))),
     Expr.Add(EDefect(a, b, x1, y1), Mul(ETilt(t, x1, y1, a), Ecp.ESub(x, x1))))
  }

  lemma TangentValue(x: Expr, x1: Expr, y1: Expr, t: Expr, a: Expr, b: Expr, v: seq<int>)
    ensures EvalInt(ETangent(x, x1, y1, t, a, b).0, v) == EvalInt(ETangent(x, x1, y1, t, a, b).1, v)
  {
    hide EvalInt, Ecp.ESub, EOnLine, EcpLines.ERoots, EDefect, EThirdX, ETilt;
    hide IntDefect, EcpLines.IntRoots, OnLine, IntThirdX, Tilt;
    var line, x3 := EOnLine(t, x1, y1, x), EThirdX(t, a, x1, x1);
    IntegerOnLine(t, x1, y1, x, v);
    IntegerThirdX(t, a, x1, x1, v);
    EcpLines.RootsValue(x, x1, x1, x3, v);
    IntegerDefect(a, b, x, line, v);
    IntegerDefect(a, b, x1, y1, v);
    TiltValue(t, x1, y1, a, v);
    Ecp.IntegerNodes(EDefect(a, b, x, line), EcpLines.ERoots(x, x1, x1, x3), v);
    Ecp.IntegerNodes(x, x1, v);
    Ecp.IntegerNodes(ETilt(t, x1, y1, a), Ecp.ESub(x, x1), v);
    Ecp.IntegerNodes(EDefect(a, b, x1, y1), Mul(ETilt(t, x1, y1, a), Ecp.ESub(x, x1)), v);
    TangentRoots(EvalInt(x, v), EvalInt(x1, v), EvalInt(y1, v), EvalInt(t, v), EvalInt(a, v), EvalInt(b, v));
  }

  lemma TiltValue(t: Expr, x1: Expr, y1: Expr, a: Expr, v: seq<int>)
    ensures EvalInt(ETilt(t, x1, y1, a), v) == Tilt(EvalInt(t, v), EvalInt(x1, v), EvalInt(y1, v), EvalInt(a, v))
  {
    hide EvalInt, Ecp.ESub;
    var s, p := Mul(x1, x1), Mul(a, x1);
    var sum := Expr.Add(Expr.Add(s, Expr.Add(s, s)), Expr.Add(p, p));
    Ecp.IntegerNodes(x1, x1, v);
    Ecp.IntegerNodes(a, x1, v);
    Ecp.IntegerNodes(s, s, v);
    Ecp.IntegerNodes(s, Expr.Add(s, s), v);
    Ecp.IntegerNodes(p, p, v);
    Ecp.IntegerNodes(Expr.Add(s, Expr.Add(s, s)), Expr.Add(p, p), v);
    Ecp.IntegerNodes(sum, y1, v);
    Ecp.IntegerNodes(y1, y1, v);
    Ecp.IntegerNodes(Expr.Add(y1, y1), x1, v);
    Ecp.IntegerNodes(t, Expr.Add(Expr.Add(y1, y1), x1), v);
    Ecp.IntegerNodes(Ecp.ESub(sum, y1), Mul(t, Expr.Add(Expr.Add(y1, y1), x1)), v);
  }

  lemma TangentInField<F(!new)>(c: Curve<F>, x: Expr, x1: Expr, y1: Expr, t: Expr, a: Expr, b: Expr, env: seq<F>)
    requires Unsigned(c.f, a, env) == c.a && Unsigned(c.f, b, env) == c.b
    ensures var f := c.f;
            var i, i1, j, u := Unsigned(f, x, env), Unsigned(f, x1, env), Unsigned(f, y1, env), Unsigned(f, t, env);
            && Unsigned(f, ETangent(x, x1, y1, t, a, b).0, env)
               == f.Add(Excess(c, i, Line(f, u, i1, j, i)), Roots(f, i, i1, i1, ThirdX(c, u, i1, i1)))
            && Unsigned(f, ETangent(x, x1, y1, t, a, b).1, env)
               == f.Add(Excess(c, i1, j), f.Mul(UnsignedTilt(c, u, i1, j), f.Add(i, i1)))
  {
    hide Unsigned, Ecp.ESub, EOnLine, EcpLines.ERoots, EDefect, EThirdX, ETilt, Excess, Roots, ThirdX, UnsignedTilt;
    var f := c.f;
    var line, x3 := EOnLine(t, x1, y1, x), EThirdX(t, a, x1, x1);
    UnsignedOnLine(c, t, x1, y1, x, env);
    UnsignedThirdX(c, t, a, x1, x1, env);
    UnsignedRoots(f, x, x1, x1, x3, env);
    UnsignedDefect(c, a, b, x, line, env);
    UnsignedDefect(c, a, b, x1, y1, env);
    UnsignedSlope(c, t, x1, y1, a, env);
    UnsignedNodes(f, EDefect(a, b, x, line), EcpLines.ERoots(x, x1, x1, x3), env);
    UnsignedNodes(f, x, x1, env);
    UnsignedNodes(f, ETilt(t, x1, y1, a), Ecp.ESub(x, x1), env);
    UnsignedNodes(f, EDefect(a, b, x1, y1), Mul(ETilt(t, x1, y1, a), Ecp.ESub(x, x1)), env);
  }

  lemma TangentFactors<F(!new)>(c: Curve<F>, t: F, x1: F, y1: F, x: F)
    requires IsCurve(c)
    ensures c.f.Add(Excess(c, x, Line(c.f, t, x1, y1, x)), Roots(c.f, x, x1, x1, ThirdX(c, t, x1, x1)))
            == c.f.Add(Excess(c, x1, y1), c.f.Mul(UnsignedTilt(c, t, x1, y1), c.f.Add(x, x1)))
  {
    hide IsField, CharacteristicTwo, Unsigned, EvalInt, ETangent, Excess, Roots, ThirdX, UnsignedTilt;
    var e0, e1, e2, e3, e4, e5 := Expr.Var(0), Expr.Var(1), Expr.Var(2), Expr.Var(3), Expr.Var(4), Expr.Var(5);
    var env := [x, x1, y1, t, c.a, c.b];
    var e := ETangent(e0, e1, e2, e3, e4, e5);
    forall v: seq<int> | |v| == 6 ensures EvalInt(e.0, v) == EvalInt(e.1, v) {
      TangentValue(e0, e1, e2, e3, e4, e5, v);
    }
    UnsignedIdentity(c.f, 6, e.0, e.1, env);
    UnsignedVars(c.f, env);
    TangentInField(c, e0, e1, e2, e3, e4, e5, env);
  }

  // ---------- the points ----------

  /** x3 + ((y1 + t·(x3 + x1)) + x3) is on the line. */
  lemma ReflectedOnLine<F(!new)>(f: Field<F>, x3: F, y: F)
    requires IsField(f) && CharacteristicTwo(f)
    ensures f.Add(x3, f.Add(y, x3)) == y
  {
    AddTwice(f, x3, y);
  }

  /** The line through two points with different x meets the curve in them and in the inverse of their sum. */
  lemma ChordMeets<F(!new)>(c: Curve<F>, p: Point<F>, q: Point<F>, t: F)
    requires IsCurve(c) && VerifyPoint(c, p) && VerifyPoint(c, q) && p.Affine? && q.Affine? && p.x != q.x
    requires c.f.Mul(t, c.f.Add(q.x, p.x)) == c.f.Add(q.y, p.y)
    ensures MeetsIn(c, t, p, q, Inverse(c, Ec2n.Add(c, p, q)))
  {
    hide IsRing, Ec2n.Add, Defect, Excess, Roots, ThirdX;
    var f := c.f;
    Laws(f.ring, p.x, q.x, q.x);
    Laws(f.ring, p.y, q.y, q.y);
    DistinctSum(f, p.x, q.x);
    EcpLines.SlopeIsUnique(f, t, f.Add(p.y, q.y), f.Add(p.x, q.x));
    ChordPoint(c, p, q);
    var x3 := ThirdX(c, t, p.x, q.x);
    ReflectedOnLine(f, x3, Line(f, t, p.x, p.y, x3));
    AddTwice(f, p.y, q.y);
    ExcessIsDefect(c, p.x, p.y);
    ExcessIsDefect(c, q.x, q.y);
    forall x: F ensures Defect(c, x, Line(f, t, p.x, p.y, x)) == Roots(f, x, p.x, q.x, x3) {
      ExcessIsDefect(c, x, Line(f, t, p.x, p.y, x));
      ChordFactors(c, t, p.x, p.y, q.x, x);
      MulZero(f.ring, f.Add(q.x, x));
      MulZero(f.ring, f.Add(x, p.x));
      Laws(f.ring, f.Zero(), f.Zero(), f.Zero());
      NoZeroDivisors(f, f.Add(Excess(c, x, Line(f, t, p.x, p.y, x)), Roots(f, x, p.x, q.x, x3)), f.Add(q.x, p.x));
      DistinctSum(f, Excess(c, x, Line(f, t, p.x, p.y, x)), Roots(f, x, p.x, q.x, x3));
    }
  }

  /** The tangent in a point that is not its own inverse meets the curve there twice and in the inverse of its
      double. */
  lemma TangentMeets<F(!new)>(c: Curve<F>, p: Point<F>, t: F)
    requires IsCurve(c) && VerifyPoint(c, p) && p.Affine? && p.x != c.f.Zero()
    requires c.f.Mul(t, p.x) == c.f.Add(p.y, c.f.Square(p.x))
    ensures MeetsIn(c, t, p, p, Inverse(c, Double(c, p)))
  {
    hide IsRing, CharacteristicTwo, Defect, Excess, Roots, ThirdX, UnsignedTilt;
    var f := c.f;
    TangentSlope(f, p.x, p.y);
    CancelFactor(f, t, f.Add(f.Divide(p.y, p.x), p.x), p.x);
    TangentOrder(c, p.x, p.y, t);
    var x3 := ThirdX(c, t, p.x, p.x);
    ReflectedOnLine(f, x3, Line(f, t, p.x, p.y, x3));
    TiltVanishes(c, p.x, p.y, t);
    ExcessIsDefect(c, p.x, p.y);
    forall x: F ensures Defect(c, x, Line(f, t, p.x, p.y, x)) == Roots(f, x, p.x, p.x, x3) {
      ExcessIsDefect(c, x, Line(f, t, p.x, p.y, x));
      TangentFactors(c, t, p.x, p.y, x);
      MulZero(f.ring, f.Add(x, p.x));
      Laws(f.ring, f.Zero(), f.Zero(), f.Zero());
      DistinctSum(f, Excess(c, x, Line(f, t, p.x, p.y, x)), Roots(f, x, p.x, p.x, x3));
    }
  }

  lemma TiltVanishes<F(!new)>(c: Curve<F>, x: F, y: F, t: F)
    requires IsCurve(c) && c.f.Mul(t, x) == c.f.Add(y, c.f.Square(x))
    ensures UnsignedTilt(c, t, x, y) == c.f.Zero()
  {
    TangentIsTangent(c, x, y, t);
  }

  /** The sum of two points is the identity exactly when they have the same x and their y differ by it. */
  lemma SumIsInfinityIff<F(!new)>(c: Curve<F>, p: Point<F>, q: Point<F>)
    requires IsCurve(c) && VerifyPoint(c, p) && VerifyPoint(c, q) && p.Affine? && q.Affine?
    ensures Ec2n.Add(c, p, q) == Ecp.Infinity <==> p.x == q.x && c.f.Add(p.y, q.y) == p.x
  {
    var f := c.f;
    AddTwice(f, q.y, p.y);
    AddTwice(f, q.y, q.x);
    SumWithItself(f, p.y);
    Laws(f.ring, p.y, q.y, q.y);
    Laws(f.ring, q.x, q.y, q.y);
  }
}
