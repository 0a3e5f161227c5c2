/** What Add and Double of ecp.cpp mean: a line meets the curve in its two points and in the inverse of their sum, each
    as often as it should. */
module EcpLines {

  import opened Ecp
  import opened Fields
  import opened Rings

  /** The line with slope t through p, at x. */
  function OnLine<F>(f: Field<F>, t: F, p: Point<F>, x: F): F
    requires p.Affine?
  {
    f.Add(p.y, f.Mul(t, f.Sub(x, p.x)))
  }

  /** (x - x1)·(x - x2)·(x - x3) */
  function Roots<F>(f: Field<F>, x: F, x1: F, x2: F, x3: F): F {
    f.Mul(f.Mul(f.Sub(x, x1), f.Sub(x, x2)), f.Sub(x, x3))
  }

  /** The line through p and q with slope t meets the curve in p, q and r, and nowhere else. */
  ghost predicate MeetsIn<F(!new)>(c: Curve<F>, t: F, p: Point<F>, q: Point<F>, r: Point<F>) {
    && p.Affine? && q.Affine? && r.Affine? && r.y == OnLine(c.f, t, p, r.x)
    && forall x: F {:trigger OnLine(c.f, t, p, x)} ::
         Defect(c, x, OnLine(c.f, t, p, x)) == Roots(c.f, x, p.x, q.x, r.x)
  }

  // ---------- over the integers ----------

  function IntRoots(x: int, x1: int, x2: int, x3: int): int { (x - x1) * (x - x2) * (x - x3) }

  /** What is left of a monic cubic when the roots are taken out is linear. */
  lemma RemainderIsLinear(s: int, p: int, q: int, x1: int, x2: int, x: int)
    ensures var x3 := s - x1 - x2;
            Cubic(s, p, q, x) - IntRoots(x, x1, x2, x3)
            == (p - x1 * x2 - (x1 + x2) * x3) * x + (q + x1 * x2 * x3)
  {
  }

  lemma RootsVanish(x1: int, x2: int, x3: int)
    ensures IntRoots(x1, x1, x2, x3) == 0 && IntRoots(x2, x1, x2, x3) == 0
  {
  }

  lemma Interpolate(m: int, n: int, x1: int, x2: int, x: int)
    ensures (m * x + n) * (x2 - x1) == (m * x1 + n) * (x2 - x) + (m * x2 + n) * (x - x1)
  {
  }

  lemma CubicRoots(s: int, p: int, q: int, x1: int, x2: int, x: int)
    ensures (Cubic(s, p, q, x) - IntRoots(x, x1, x2, s - x1 - x2)) * (x2 - x1)
            == Cubic(s, p, q, x1) * (x2 - x) + Cubic(s, p, q, x2) * (x - x1)
  {
    hide Cubic, IntRoots;
    var x3 := s - x1 - x2;
    RemainderIsLinear(s, p, q, x1, x2, x);
    RemainderIsLinear(s, p, q, x1, x2, x1);
    RemainderIsLinear(s, p, q, x1, x2, x2);
    RootsVanish(x1, x2, x3);
    Interpolate(p - x1 * x2 - (x1 + x2) * x3, q + x1 * x2 * x3, x1, x2, x);
  }

  lemma CubicDoubleRoot(s: int, p: int, q: int, x1: int, x: int)
    ensures Cubic(s, p, q, x) - IntRoots(x, x1, x1, s - x1 - x1)
            == Cubic(s, p, q, x1) + (3 * x1 * x1 - 2 * s * x1 + p) * (x - x1)
  {
    hide Cubic, IntRoots;
    var x3 := s - x1 - x1;
    RemainderIsLinear(s, p, q, x1, x1, x);
    RemainderIsLinear(s, p, q, x1, x1, x1);
    RootsVanish(x1, x1, x3);
    assert p - x1 * x1 - (x1 + x1) * x3 == 3 * x1 * x1 - 2 * s * x1 + p;
  }

  function IntDefect(a: int, b: int, x: int, y: int): int { (x * x + a) * x + b - y * y }
  function IntLine(t: int, x1: int, y1: int, x: int): int { y1 + t * (x - x1) }

  lemma DefectOnLine(t: int, x1: int, y1: int, a: int, b: int, x: int)
    ensures var k := y1 - t * x1;
            IntDefect(a, b, x, IntLine(t, x1, y1, x)) == Cubic(t * t, a - 2 * t * k, b - k * k, x)
  {
    var k := y1 - t * x1;
    assert IntLine(t, x1, y1, x) == t * x + k;
    CubicOnLine(t, k, a, b, x);
  }

  lemma ChordRoots(x: int, x1: int, x2: int, y1: int, t: int, a: int, b: int)
    ensures (IntDefect(a, b, x, IntLine(t, x1, y1, x)) - IntRoots(x, x1, x2, t * t - x1 - x2)) * (x2 - x1)
            == IntDefect(a, b, x1, y1) * (x2 - x) + IntDefect(a, b, x2, IntLine(t, x1, y1, x2)) * (x - x1)
  {
    assert IntLine(t, x1, y1, x1) == y1;
    hide Cubic, IntRoots, IntDefect, IntLine;
    var k := y1 - t * x1;
    DefectOnLine(t, x1, y1, a, b, x);
    DefectOnLine(t, x1, y1, a, b, x1);
    DefectOnLine(t, x1, y1, a, b, x2);
    CubicRoots(t * t, a - 2 * t * k, b - k * k, x1, x2, x);
  }

  lemma TangentSlopeOf(x1: int, y1: int, t: int, a: int)
    ensures 3 * x1 * x1 - 2 * (t * t) * x1 + (a - 2 * t * (y1 - t * x1))
            == x1 * x1 + x1 * x1 + x1 * x1 + a - t * (y1 + y1)
  {
  }

  lemma TangentRoots(x: int, x1: int, y1: int, t: int, a: int, b: int)
    ensures IntDefect(a, b, x, IntLine(t, x1, y1, x)) - IntRoots(x, x1, x1, t * t - x1 - x1)
            == IntDefect(a, b, x1, y1) + (x1 * x1 + x1 * x1 + x1 * x1 + a - t * (y1 + y1)) * (x - x1)
  {
    assert IntLine(t, x1, y1, x1) == y1;
    hide Cubic, IntRoots, IntDefect, IntLine;
    var k := y1 - t * x1;
    DefectOnLine(t, x1, y1, a, b, x);
    DefectOnLine(t, x1, y1, a, b, x1);
    CubicDoubleRoot(t * t, a - 2 * t * k, b - k * k, x1, x);
    TangentSlopeOf(x1, y1, t, a);
  }

  // ---------- as expressions ----------

  function ELine(t: Expr, x1: Expr, y1: Expr, x: Expr): Expr {
    Expr.Add(y1, Expr.Mul(t, ESub(x, x1)))
  }

  function ERoots(x: Expr, x1: Expr, x2: Expr, x3: Expr): Expr {
    Expr.Mul(Expr.Mul(ESub(x, x1), ESub(x, x2)), ESub(x, x3))
  }

  lemma LineValue(t: Expr, x1: Expr, y1: Expr, x: Expr, v: seq<int>)
    ensures EvalInt(ELine(t, x1, y1, x), v) == IntLine(EvalInt(t, v), EvalInt(x1, v), EvalInt(y1, v), EvalInt(x, v))
  {
    hide EvalInt, ESub;
    IntegerNodes(x, x1, v);
    IntegerNodes(t, ESub(x, x1), v);
    IntegerNodes(y1, Expr.Mul(t, ESub(x, x1)), v);
  }

  lemma RootsValue(x: Expr, x1: Expr, x2: Expr, x3: Expr, v: seq<int>)
    ensures EvalInt(ERoots(x, x1, x2, x3), v)
            == IntRoots(EvalInt(x, v), EvalInt(x1, v), EvalInt(x2, v), EvalInt(x3, v))
  {
    hide EvalInt, ESub;
    IntegerNodes(x, x1, v);
    IntegerNodes(x, x2, v);
    IntegerNodes(x, x3, v);
    IntegerNodes(ESub(x, x1), ESub(x, x2), v);
    IntegerNodes(Expr.Mul(ESub(x, x1), ESub(x, x2)), ESub(x, x3), v);
  }

  lemma DefectValue(a: Expr, b: Expr, x: Expr, y: Expr, v: seq<int>)
    ensures EvalInt(EDefect(a, b, x, y), v) == IntDefect(EvalInt(a, v), EvalInt(b, v), EvalInt(x, v), EvalInt(y, v))
  {
    hide EvalInt, ESub;
    var s := Expr.Add(Expr.Mul(x, x), a);
    IntegerNodes(x, x, v);
    IntegerNodes(Expr.Mul(x, x), a, v);
    IntegerNodes(s, x, v);
    IntegerNodes(Expr.Mul(s, x), b, v);
    IntegerNodes(y, y, v);
    IntegerNodes(Expr.Add(Expr.Mul(s, x), b), Expr.Mul(y, y), v);
  }

  lemma ThirdXValue(t: Expr, x1: Expr, x2: Expr, v: seq<int>)
    ensures EvalInt(EThirdX(t, x1, x2), v) == EvalInt(t, v) * EvalInt(t, v) - EvalInt(x1, v) - EvalInt(x2, v)
  {
    hide EvalInt, ESub;
    IntegerNodes(t, t, v);
    IntegerNodes(Expr.Mul(t, t), x1, v);
    IntegerNodes(ESub(Expr.Mul(t, t), x1), x2, v);
  }

  // ---------- in every field ----------

  lemma LineInField<F(!new)>(f: Field<F>, t: Expr, x1: Expr, y1: Expr, x: Expr, env: seq<F>)
    ensures Eval(f.ring, ELine(t, x1, y1, x), env)
            == f.Add(Eval(f.ring, y1, env),
                     f.Mul(Eval(f.ring, t, env), f.Sub(Eval(f.ring, x, env), Eval(f.ring, x1, env))))
  {
    hide Eval, ESub;
    RingNodes(f.ring, x, x1, env);
    RingNodes(f.ring, t, ESub(x, x1), env);
    RingNodes(f.ring, y1, Expr.Mul(t, ESub(x, x1)), env);
  }

  lemma RootsInField<F(!new)>(f: Field<F>, x: Expr, x1: Expr, x2: Expr, x3: Expr, env: seq<F>)
    ensures Eval(f.ring, ERoots(x, x1, x2, x3), env)
            == Roots(f, Eval(f.ring, x, env), Eval(f.ring, x1, env), Eval(f.ring, x2, env), Eval(f.ring, x3, env))
  {
    hide Eval, ESub;
    RingNodes(f.ring, x, x1, env);
    RingNodes(f.ring, x, x2, env);
    RingNodes(f.ring, x, x3, env);
    RingNodes(f.ring, ESub(x, x1), ESub(x, x2), env);
    RingNodes(f.ring, Expr.Mul(ESub(x, x1), ESub(x, x2)), ESub(x, x3), env);
  }

  lemma DefectInField<F(!new)>(c: Curve<F>, a: Expr, b: Expr, x: Expr, y: Expr, env: seq<F>)
    requires Eval(c.f.ring, a, env) == c.a && Eval(c.f.ring, b, env) == c.b
    ensures Eval(c.f.ring, EDefect(a, b, x, y), env) == Defect(c, Eval(c.f.ring, x, env), Eval(c.f.ring, y, env))
  {
    hide Eval, ESub;
    var s := Expr.Add(Expr.Mul(x, x), a);
    RingNodes(c.f.ring, x, x, env);
    RingNodes(c.f.ring, Expr.Mul(x, x), a, env);
    RingNodes(c.f.ring, s, x, env);
    RingNodes(c.f.ring, Expr.Mul(s, x), b, env);
    RingNodes(c.f.ring, y, y, env);
    RingNodes(c.f.ring, Expr.Add(Expr.Mul(s, x), b), Expr.Mul(y, y), env);
  }

  lemma ThirdXInField<F(!new)>(f: Field<F>, t: Expr, x1: Expr, x2: Expr, env: seq<F>)
    ensures Eval(f.ring, EThirdX(t, x1, x2), env)
            == f.Sub(f.Sub(f.Square(Eval(f.ring, t, env)), Eval(f.ring, x1, env)), Eval(f.ring, x2, env))
  {
    hide Eval, ESub;
    RingNodes(f.ring, t, t, env);
    RingNodes(f.ring, Expr.Mul(t, t), x1, env);
    RingNodes(f.ring, ESub(Expr.Mul(t, t), x1), x2, env);
  }

  lemma Variables<F(!new)>(f: Field<F>, env: seq<F>)
    ensures forall i: nat {:trigger Eval(f.ring, Expr.Var(i), env)} ::
      i < |env| ==> Eval(f.ring, Expr.Var(i), env) == env[i]
  {
  }

  lemma FieldIsRing<F(!new)>(f: Field<F>)
    requires IsField(f)
    ensures IsRing(f.ring)
  {
  }

  // ---------- the chord ----------

  function EChord(x: Expr, x1: Expr, x2: Expr, y1: Expr, t: Expr, a: Expr, b: Expr): (Expr, Expr) {
    var defect := ESub(EDefect(a, b, x, ELine(t, x1, y1, x)), ERoots(x, x1, x2, EThirdX(t, x1, x2)));
    var first := Expr.Mul(EDefect(a, b, x1, y1), ESub(x2, x));
    var second := Expr.Mul(EDefect(a, b, x2, ELine(t, x1, y1, x2)), ESub(x, x1));
    (Expr.Mul(defect, ESub(x2, x1)), Expr.Add(first, second))
  }

  lemma ChordValue(x: Expr, x1: Expr, x2: Expr, y1: Expr, t: Expr, a: Expr, b: Expr, v: seq<int>)
    ensures EvalInt(EChord(x, x1, x2, y1, t, a, b).0, v) == EvalInt(EChord(x, x1, x2, y1, t, a, b).1, v)
  {
    hide EvalInt, ESub, ELine, ERoots, EDefect, EThirdX, IntDefect, IntRoots, IntLine;
    var line, far, x3 := ELine(t, x1, y1, x), ELine(t, x1, y1, x2), EThirdX(t, x1, x2);
    LineValue(t, x1, y1, x, v);
    LineValue(t, x1, y1, x2, v);
    ThirdXValue(t, x1, x2, v);
    RootsValue(x, x1, x2, x3, v);
    DefectValue(a, b, x, line, v);
    DefectValue(a, b, x1, y1, v);
    DefectValue(a, b, x2, far, v);
    IntegerNodes(EDefect(a, b, x, line), ERoots(x, x1, x2, x3), v);
    IntegerNodes(x2, x1, v);
    IntegerNodes(x2, x, v);
    IntegerNodes(x, x1, v);
    IntegerNodes(ESub(EDefect(a, b, x, line), ERoots(x, x1, x2, x3)), ESub(x2, x1), v);
    IntegerNodes(EDefect(a, b, x1, y1), ESub(x2, x), v);
    IntegerNodes(EDefect(a, b, x2, far), ESub(x, x1), v);
    IntegerNodes(Expr.Mul(EDefect(a, b, x1, y1), ESub(x2, x)), Expr.Mul(EDefect(a, b, x2, far), ESub(x, x1)), v);
    ChordRoots(EvalInt(x, v), EvalInt(x1, v), EvalInt(x2, v), EvalInt(y1, v), EvalInt(t, v), EvalInt(a, v),
               EvalInt(b, v));
  }

  lemma ChordInField<F(!new)>(c: Curve<F>, x: Expr, x1: Expr, x2: Expr, y1: Expr, t: Expr, a: Expr, b: Expr,
                              env: seq<F>)
    requires Eval(c.f.ring, a, env) == c.a && Eval(c.f.ring, b, env) == c.b
    ensures var f, r := c.f, c.f.ring;
            var i, i1, i2 := Eval(r, x, env), Eval(r, x1, env), Eval(r, x2, env);
            var j, u := Eval(r, y1, env), Eval(r, t, env);
            var i3 := f.Sub(f.Sub(f.Square(u), i1), i2);
            && Eval(r, EChord(x, x1, x2, y1, t, a, b).0, env)
               == f.Mul(f.Sub(Defect(c, i, f.Add(j, f.Mul(u, f.Sub(i, i1)))), Roots(f, i, i1, i2, i3)), f.Sub(i2, i1))
            && Eval(r, EChord(x, x1, x2, y1, t, a, b).1, env)
               == f.Add(f.Mul(Defect(c, i1, j), f.Sub(i2, i)),
                        f.Mul(Defect(c, i2, f.Add(j, f.Mul(u, f.Sub(i2, i1)))), f.Sub(i, i1)))
  {
    hide Eval, ESub, ELine, ERoots, EDefect, EThirdX, Defect, Roots;
    var r := c.f.ring;
    var line, far, x3 := ELine(t, x1, y1, x), ELine(t, x1, y1, x2), EThirdX(t, x1, x2);
    LineInField(c.f, t, x1, y1, x, env);
    LineInField(c.f, t, x1, y1, x2, env);
    ThirdXInField(c.f, t, x1, x2, env);
    RootsInField(c.f, x, x1, x2, x3, env);
    DefectInField(c, a, b, x, line, env);
    DefectInField(c, a, b, x1, y1, env);
    DefectInField(c, a, b, x2, far, env);
    RingNodes(r, EDefect(a, b, x, line), ERoots(x, x1, x2, x3), env);
    RingNodes(r, x2, x1, env);
    RingNodes(r, x2, x, env);
    RingNodes(r, x, x1, env);
    RingNodes(r, ESub(EDefect(a, b, x, line), ERoots(x, x1, x2, x3)), ESub(x2, x1), env);
    RingNodes(r, EDefect(a, b, x1, y1), ESub(x2, x), env);
    RingNodes(r, EDefect(a, b, x2, far), ESub(x, x1), env);
    RingNodes(r, Expr.Mul(EDefect(a, b, x1, y1), ESub(x2, x)), Expr.Mul(EDefect(a, b, x2, far), ESub(x, x1)), env);
  }

  lemma ChordFactors<F(!new)>(c: Curve<F>, t: F, p: Point<F>, q: Point<F>, x: F)
    requires IsField(c.f) && p.Affine? && q.Affine?
    ensures var f, x3 := c.f, c.f.Sub(c.f.Sub(c.f.Square(t), p.x), q.x);
            f.Mul(f.Sub(Defect(c, x, OnLine(f, t, p, x)), Roots(f, x, p.x, q.x, x3)), f.Sub(q.x, p.x))
            == f.Add(f.Mul(Defect(c, p.x, p.y), f.Sub(q.x, x)),
                     f.Mul(Defect(c, q.x, OnLine(f, t, p, q.x)), f.Sub(x, p.x)))
  {
    hide IsField, IsRing, Eval, EvalInt, EChord, Defect, Roots;
    var e0, e1, e2, e3 := Expr.Var(0), Expr.Var(1), Expr.Var(2), Expr.Var(3);
    var e4, e5, e6 := Expr.Var(4), Expr.Var(5), Expr.Var(6);
    var env := [x, p.x, q.x, p.y, t, c.a, c.b];
    var e := EChord(e0, e1, e2, e3, e4, e5, e6);
    forall v: seq<int> | |v| == 7 ensures EvalInt(e.0, v) == EvalInt(e.1, v) {
      ChordValue(e0, e1, e2, e3, e4, e5, e6, v);
    }
    FieldIsRing(c.f);
    RingIdentity(c.f.ring, 7, e.0, e.1, env);
    Variables(c.f, env);
    ChordInField(c, e0, e1, e2, e3, e4, e5, e6, env);
  }

  // ---------- the tangent ----------

  function ETangent(x: Expr, x1: Expr, y1: Expr, t: Expr, a: Expr, b: Expr): (Expr, Expr) {
    var s := Expr.Mul(x1, x1);
    (ESub(EDefect(a, b, x, ELine(t, x1, y1, x)), ERoots(x, x1, x1, EThirdX(t, x1, x1))),
     Expr.Add(EDefect(a, b, x1, y1), Expr.Mul(ETilt(x1, y1, t, a), ESub(x, x1))))
  }

  function ETilt(x1: Expr, y1: Expr, t: Expr, a: Expr): Expr {
    var s := Expr.Mul(x1, x1);
    ESub(Expr.Add(Expr.Add(Expr.Add(s, s), s), a), Expr.Mul(t, Expr.Add(y1, y1)))
  }

  lemma TangentValue(x: Expr, x1: Expr, y1: Expr, t: Expr, a: Expr, b: Expr, v: seq<int>)
    ensures EvalInt(ETangent(x, x1, y1, t, a, b).0, v) == EvalInt(ETangent(x, x1, y1, t, a, b).1, v)
  {
    hide EvalInt, ESub, ELine, ERoots, EDefect, EThirdX, ETilt, IntDefect, IntRoots, IntLine;
    var line, x3 := ELine(t, x1, y1, x), EThirdX(t, x1, x1);
    LineValue(t, x1, y1, x, v);
    ThirdXValue(t, x1, x1, v);
    RootsValue(x, x1, x1, x3, v);
    DefectValue(a, b, x, line, v);
    DefectValue(a, b, x1, y1, v);
    TiltValue(x1, y1, t, a, v);
    IntegerNodes(EDefect(a, b, x, line), ERoots(x, x1, x1, x3), v);
    IntegerNodes(x, x1, v);
    IntegerNodes(ETilt(x1, y1, t, a), ESub(x, x1), v);
    IntegerNodes(EDefect(a, b, x1, y1), Expr.Mul(ETilt(x1, y1, t, a), ESub(x, x1)), v);
    TangentRoots(EvalInt(x, v), EvalInt(x1, v), EvalInt(y1, v), EvalInt(t, v), EvalInt(a, v), EvalInt(b, v));
  }

  lemma TiltValue(x1: Expr, y1: Expr, t: Expr, a: Expr, v: seq<int>)
    ensures var i, j := EvalInt(x1, v), EvalInt(y1, v);
            EvalInt(ETilt(x1, y1, t, a), v) == i * i + i * i + i * i + EvalInt(a, v) - EvalInt(t, v) * (j + j)
  {
    hide EvalInt, ESub;
    var s := Expr.Mul(x1, x1);
    IntegerNodes(x1, x1, v);
    IntegerNodes(s, s, v);
    IntegerNodes(Expr.Add(s, s), s, v);
    IntegerNodes(Expr.Add(Expr.Add(s, s), s), a, v);
    IntegerNodes(y1, y1, v);
    IntegerNodes(t, Expr.Add(y1, y1), v);
    IntegerNodes(Expr.Add(Expr.Add(Expr.Add(s, s), s), a), Expr.Mul(t, Expr.Add(y1, y1)), v);
  }

  /** Three times x1 squared and a, less t times twice y1: zero for the slope of the tangent. */
  function Tilt<F>(c: Curve<F>, t: F, x1: F, y1: F): F {
    var s := c.f.Square(x1);
    c.f.Sub(c.f.Add(c.f.Add(c.f.Double(s), s), c.a), c.f.Mul(t, c.f.Double(y1)))
  }

  lemma TangentInField<F(!new)>(c: Curve<F>, x: Expr, x1: Expr, y1: Expr, t: Expr, a: Expr, b: Expr, env: seq<F>)
    requires Eval(c.f.ring, a, env) == c.a && Eval(c.f.ring, b, env) == c.b
    ensures var f, r := c.f, c.f.ring;
            var i, i1, j, u := Eval(r, x, env), Eval(r, x1, env), Eval(r, y1, env), Eval(r, t, env);
            var i3 := f.Sub(f.Sub(f.Square(u), i1), i1);
            && Eval(r, ETangent(x, x1, y1, t, a, b).0, env)
               == f.Sub(Defect(c, i, f.Add(j, f.Mul(u, f.Sub(i, i1)))), Roots(f, i, i1, i1, i3))
            && Eval(r, ETangent(x, x1, y1, t, a, b).1, env)
               == f.Add(Defect(c, i1, j), f.Mul(Tilt(c, u, i1, j), f.Sub(i, i1)))
  {
    hide Eval, ESub, ELine, ERoots, EDefect, EThirdX, ETilt, Tilt, Defect, Roots;
    var r := c.f.ring;
    var line, x3 := ELine(t, x1, y1, x), EThirdX(t, x1, x1);
    LineInField(c.f, t, x1, y1, x, env);
    ThirdXInField(c.f, t, x1, x1, env);
    RootsInField(c.f, x, x1, x1, x3, env);
    DefectInField(c, a, b, x, line, env);
    DefectInField(c, a, b, x1, y1, env);
    TiltInField(c, x1, y1, t, a, env);
    RingNodes(r, EDefect(a, b, x, line), ERoots(x, x1, x1, x3), env);
    RingNodes(r, x, x1, env);
    RingNodes(r, ETilt(x1, y1, t, a), ESub(x, x1), env);
    RingNodes(r, EDefect(a, b, x1, y1), Expr.Mul(ETilt(x1, y1, t, a), ESub(x, x1)), env);
  }

  lemma TiltInField<F(!new)>(c: Curve<F>, x1: Expr, y1: Expr, t: Expr, a: Expr, env: seq<F>)
    requires Eval(c.f.ring, a, env) == c.a
    ensures Eval(c.f.ring, ETilt(x1, y1, t, a), env)
            == Tilt(c, Eval(c.f.ring, t, env), Eval(c.f.ring, x1, env), Eval(c.f.ring, y1, env))
  {
    hide Eval, ESub;
    var r, s := c.f.ring, Expr.Mul(x1, x1);
    RingNodes(r, x1, x1, env);
    RingNodes(r, s, s, env);
    RingNodes(r, Expr.Add(s, s), s, env);
    RingNodes(r, Expr.Add(Expr.Add(s, s), s), a, env);
    RingNodes(r, y1, y1, env);
    RingNodes(r, t, Expr.Add(y1, y1), env);
    RingNodes(r, Expr.Add(Expr.Add(Expr.Add(s, s), s), a), Expr.Mul(t, Expr.Add(y1, y1)), env);
  }

  lemma TangentFactors<F(!new)>(c: Curve<F>, t: F, p: Point<F>, x: F)
    requires IsField(c.f) && p.Affine?
    ensures var f, x3 := c.f, c.f.Sub(c.f.Sub(c.f.Square(t), p.x), p.x);
            f.Sub(Defect(c, x, OnLine(f, t, p, x)), Roots(f, x, p.x, p.x, x3))
            == f.Add(Defect(c, p.x, p.y), f.Mul(Tilt(c, t, p.x, p.y), f.Sub(x, p.x)))
  {
    hide IsField, IsRing, Eval, EvalInt, ETangent, Defect, Roots, Tilt;
    var e0, e1, e2, e3, e4, e5 := Expr.Var(0), Expr.Var(1), Expr.Var(2), Expr.Var(3), Expr.Var(4), Expr.Var(5);
    var env := [x, p.x, p.y, t, c.a, c.b];
    var e := ETangent(e0, e1, e2, e3, e4, e5);
    forall v: seq<int> | |v| == 6 ensures EvalInt(e.0, v) == EvalInt(e.1, v) {
      TangentValue(e0, e1, e2, e3, e4, e5, v);
    }
    FieldIsRing(c.f);
    RingIdentity(c.f.ring, 6, e.0, e.1, env);
    Variables(c.f, env);
    TangentInField(c, e0, e1, e2, e3, e4, e5, env);
  }

  // ---------- the points ----------

  /** -(t·(x1 - x) - y1) = y1 + t·(x - x1) */
  lemma ReflectedOnLine<F(!new)>(f: Field<F>, t: F, x1: F, y1: F, x: F)
    requires IsRing(f.ring)
    ensures f.Neg(f.Sub(f.Mul(t, f.Sub(x1, x)), y1)) == f.Add(y1, f.Mul(t, f.Sub(x, x1)))
  {
    hide IsRing;
    RingIdentity(f.ring, 4, Neg(ESub(Expr.Mul(Var(0), ESub(Var(1), Var(3))), Var(2))),
                 Expr.Add(Var(2), Expr.Mul(Var(0), ESub(Var(3), Var(1)))), [t, x1, y1, x]);
  }

  lemma SlopeIsUnique<F(!new)>(f: Field<F>, t: F, n: F, d: F)
    requires IsField(f) && d != f.Zero() && f.Mul(t, d) == n
    ensures t == f.Divide(n, d)
  {
    DivideMultiply(f, n, d);
    CancelFactor(f, t, f.Divide(n, d), d);
  }

  /** The line through two points with different x meets the curve in them and in the inverse of their sum. */
  lemma ChordMeets<F(!new)>(c: Curve<F>, p: Point<F>, q: Point<F>, t: F)
    requires IsCurve(c) && VerifyPoint(c, p) && VerifyPoint(c, q) && p.Affine? && q.Affine? && p.x != q.x
    requires c.f.Mul(t, c.f.Sub(q.x, p.x)) == c.f.Sub(q.y, p.y)
    ensures MeetsIn(c, t, p, q, Inverse(c, Ecp.Add(c, p, q)))
  {
    hide IsRing, OddCharacteristic, Defect, Roots;
    var f := c.f;
    var d := f.Sub(q.x, p.x);
    var r := Inverse(c, Ecp.Add(c, p, q));
    SubZero(f.ring, q.x, p.x);
    SlopeIsUnique(f, t, f.Sub(q.y, p.y), d);
    ReflectedOnLine(f, t, p.x, p.y, r.x);
    AddSub(f, p.y, q.y);
    forall x: F ensures Defect(c, x, OnLine(f, t, p, x)) == Roots(f, x, p.x, q.x, r.x) {
      var e := f.Sub(Defect(c, x, OnLine(f, t, p, x)), Roots(f, x, p.x, q.x, r.x));
      ChordFactors(c, t, p, q, x);
      MulZero(f.ring, f.Sub(q.x, x));
      MulZero(f.ring, f.Sub(x, p.x));
      Laws(f.ring, f.Zero(), f.Zero(), f.Zero());
      NoZeroDivisors(f, e, d);
      SubZero(f.ring, Defect(c, x, OnLine(f, t, p, x)), Roots(f, x, p.x, q.x, r.x));
    }
  }

  /** The tangent in a point that is not its own inverse meets the curve there twice and in the inverse of its
      double. */
  lemma TangentMeets<F(!new)>(c: Curve<F>, p: Point<F>, t: F)
    requires IsCurve(c) && VerifyPoint(c, p) && p.Affine? && p.y != c.f.Zero()
    requires var s := c.f.Square(p.x); c.f.Mul(t, c.f.Double(p.y)) == c.f.Add(c.f.Add(c.f.Double(s), s), c.a)
    ensures MeetsIn(c, t, p, p, Inverse(c, Double(c, p)))
  {
    hide IsRing, Defect, Roots;
    var f := c.f;
    var s := f.Square(p.x);
    var n := f.Add(f.Add(f.Double(s), s), c.a);
    var r := Inverse(c, Double(c, p));
    TwiceNonzero(f, p.y);
    SlopeIsUnique(f, t, n, f.Double(p.y));
    ReflectedOnLine(f, t, p.x, p.y, r.x);
    SubZero(f.ring, n, n);
    forall x: F ensures Defect(c, x, OnLine(f, t, p, x)) == Roots(f, x, p.x, p.x, r.x) {
      TangentFactors(c, t, p, x);
      MulZero(f.ring, f.Sub(x, p.x));
      Laws(f.ring, f.Zero(), f.Zero(), f.Zero());
      SubZero(f.ring, Defect(c, x, OnLine(f, t, p, x)), Roots(f, x, p.x, p.x, r.x));
    }
  }

  /** (y1 - y2)·(y1 + y2) is the difference of the defects. */
  lemma ProductOfOrdinates<F(!new)>(c: Curve<F>, x: F, y1: F, y2: F)
    requires IsField(c.f)
    ensures c.f.Mul(c.f.Sub(y1, y2), c.f.Add(y1, y2)) == c.f.Sub(Defect(c, x, y2), Defect(c, x, y1))
  {
    hide IsRing, IsField;
    FieldIsRing(c.f);
    var u := c.f.Add(c.f.Mul(c.f.Add(c.f.Mul(x, x), c.a), x), c.b);
    RingIdentity(c.f.ring, 3, Expr.Mul(ESub(Var(1), Var(2)), Expr.Add(Var(1), Var(2))),
                 ESub(ESub(Var(0), Expr.Mul(Var(2), Var(2))), ESub(Var(0), Expr.Mul(Var(1), Var(1)))), [u, y1, y2]);
  }

  /** The sum of two points is the identity exactly when they have the same x and opposite y. */
  lemma SumIsInfinityIff<F(!new)>(c: Curve<F>, p: Point<F>, q: Point<F>)
    requires IsCurve(c) && VerifyPoint(c, p) && VerifyPoint(c, q) && p.Affine? && q.Affine?
    ensures Ecp.Add(c, p, q) == Infinity <==> p.x == q.x && c.f.Add(p.y, q.y) == c.f.Zero()
  {
    hide IsRing, Defect;
    var f := c.f;
    Laws(f.ring, f.Zero(), f.Zero(), f.Zero());
    if p.x == q.x {
      ProductOfOrdinates(c, p.x, p.y, q.y);
      SubZero(f.ring, f.Zero(), f.Zero());
      NoZeroDivisors(f, f.Sub(p.y, q.y), f.Add(p.y, q.y));
      SubZero(f.ring, p.y, q.y);
      if p.y == q.y && p.y != f.Zero() {
        TwiceNonzero(f, p.y);
      }
    }
  }
}
