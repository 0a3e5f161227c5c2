/** `ProjectiveDoubling`: repeated doubling in Jacobian coordinates, where (X, Y, Z) stands for the point
    (X/Z^2, Y/Z^3), and for the identity when Z is zero. */
module Jacobian {
  import opened Groups
  import opened Rings
  import opened Fields
  import opened Ecp

  datatype ProjectivePoint<F> = ProjectivePoint(x: F, y: F, z: F)

  function Cube<F>(f: Field<F>, z: F): F {
    f.Mul(f.Square(z), z)
  }

  function Fourth<F>(f: Field<F>, z: F): F {
    f.Square(f.Square(z))
  }

  ghost predicate Represents<F>(f: Field<F>, j: ProjectivePoint<F>, p: Point<F>) {
    if j.z == f.Zero() then p.Infinity?
    else p.Affine? && j.x == f.Mul(p.x, f.Square(j.z)) && j.y == f.Mul(p.y, Cube(f, j.z))
  }

  // ---------- the algebra of one doubling; the point is (x, y), the coordinates (x·z^2, y·z^3, z) ----------

  /** The new z. */
  function NextZ<F>(f: Field<F>, y: F, z: F): F {
    f.Mul(z, f.Double(f.Mul(y, Cube(f, z))))
  }

  lemma SlopeScales<F(!new)>(f: Field<F>, x: F, y: F, z: F, a: F, t: F)
    requires IsRing(f.ring)
    requires f.Mul(t, f.Double(y)) == f.Add(f.Add(f.Double(f.Square(x)), f.Square(x)), a)
    ensures var xx := f.Square(f.Mul(x, f.Square(z)));
            f.Add(f.Add(f.Double(xx), xx), f.Mul(a, Fourth(f, z))) == f.Mul(t, NextZ(f, y, z))
  {
    hide IsRing;
    SlopeLeft(f, x, z, a);
    SlopeRight(f, t, y, z);
  }

  function ESquare(e: Expr): Expr { Mul(e, e) }
  function ECube(e: Expr): Expr { Mul(Mul(e, e), e) }
  function EDouble(e: Expr): Expr { Expr.Add(e, e) }

  lemma SlopeLeft<F(!new)>(f: Field<F>, x: F, z: F, a: F)
    requires IsRing(f.ring)
    ensures var xx := f.Square(f.Mul(x, f.Square(z)));
            f.Add(f.Add(f.Double(xx), xx), f.Mul(a, Fourth(f, z)))
            == f.Mul(f.Add(f.Add(f.Double(f.Square(x)), f.Square(x)), a), Fourth(f, z))
  {
    hide IsRing;
    var s := ESquare(Mul(Var(0), ESquare(Var(1))));
    RingIdentity(f.ring, 3,
                 Expr.Add(Expr.Add(EDouble(s), s), Mul(Var(2), ESquare(ESquare(Var(1))))),
                 Mul(Expr.Add(Expr.Add(EDouble(ESquare(Var(0))), ESquare(Var(0))), Var(2)), ESquare(ESquare(Var(1)))),
                 [x, z, a]);
  }

  lemma SlopeRight<F(!new)>(f: Field<F>, t: F, y: F, z: F)
    requires IsRing(f.ring)
    ensures f.Mul(f.Mul(t, f.Double(y)), Fourth(f, z)) == f.Mul(t, NextZ(f, y, z))
  {
    hide IsRing;
    RingIdentity(f.ring, 3,
                 Mul(Mul(Var(0), EDouble(Var(1))), ESquare(ESquare(Var(2)))),
                 Mul(Var(0), Mul(Var(2), EDouble(Mul(Var(1), ECube(Var(2)))))),
                 [t, y, z]);
  }

  /** S = 4·Y^2·X */
  lemma SScales<F(!new)>(f: Field<F>, x: F, y: F, z: F)
    requires IsRing(f.ring)
    ensures f.Mul(f.Square(f.Double(f.Mul(y, Cube(f, z)))), f.Mul(x, f.Square(z))) == f.Mul(x, f.Square(NextZ(f, y, z)))
  {
    hide IsRing;
    var d := EDouble(Mul(Var(1), ECube(Var(2))));
    RingIdentity(f.ring, 3,
                 Mul(ESquare(d), Mul(Var(0), ESquare(Var(2)))),
                 Mul(Var(0), ESquare(Mul(Var(2), d))),
                 [x, y, z]);
  }

  /** X' = M^2 - S - S, with M = t·z' and S = x·z'^2 */
  lemma XScales<F(!new)>(f: Field<F>, t: F, x: F, w: F)
    requires IsRing(f.ring)
    ensures f.Sub(f.Sub(f.Square(f.Mul(t, w)), f.Mul(x, f.Square(w))), f.Mul(x, f.Square(w)))
            == f.Mul(f.Sub(f.Sub(f.Square(t), x), x), f.Square(w))
  {
    hide IsRing;
    var s := Mul(Var(1), ESquare(Var(2)));
    RingIdentity(f.ring, 3,
                 ESub(ESub(ESquare(Mul(Var(0), Var(2))), s), s),
                 Mul(ESub(ESub(ESquare(Var(0)), Var(1)), Var(1)), ESquare(Var(2))),
                 [t, x, w]);
  }

  /** 8·Y^4 = y·z'^3, and twice that is the field sixteenY4. */
  lemma EightY4<F(!new)>(f: Field<F>, y: F, z: F)
    requires IsRing(f.ring)
    ensures var d := f.Double(f.Mul(y, Cube(f, z)));
            f.Double(f.Mul(y, Cube(f, NextZ(f, y, z)))) == f.Square(f.Square(d))
  {
    hide IsRing;
    var d := EDouble(Mul(Var(0), ECube(Var(1))));
    RingIdentity(f.ring, 2,
                 EDouble(Mul(Var(0), ECube(Mul(Var(1), d)))),
                 ESquare(ESquare(d)),
                 [y, z]);
  }

  /** Y' = M·(S - X') - 8·Y^4 */
  lemma YScales<F(!new)>(f: Field<F>, t: F, x: F, x': F, y: F, w: F)
    requires IsRing(f.ring)
    ensures f.Sub(f.Mul(f.Mul(t, w), f.Sub(f.Mul(x, f.Square(w)), f.Mul(x', f.Square(w)))), f.Mul(y, Cube(f, w)))
            == f.Mul(f.Sub(f.Mul(t, f.Sub(x, x')), y), Cube(f, w))
  {
    hide IsRing;
    RingIdentity(f.ring, 5,
                 ESub(Mul(Mul(Var(0), Var(4)), ESub(Mul(Var(1), ESquare(Var(4))), Mul(Var(2), ESquare(Var(4))))),
                      Mul(Var(3), ECube(Var(4)))),
                 Mul(ESub(Mul(Var(0), ESub(Var(1), Var(2))), Var(3)), ECube(Var(4))),
                 [t, x, x', y, w]);
  }

  lemma HalfOfDouble<F(!new)>(f: Field<F>, h: F)
    requires IsField(f) && OddCharacteristic(f)
    ensures f.Half(f.Double(h)) == h
  {
    var two := f.Double(f.One());
    Laws(f.ring, h, f.One(), f.One());
    Laws(f.ring, h, two, f.inv(two));
    Laws(f.ring, h, h, h);
  }

  /** aZ4·sixteenY4 stays a·z^4. */
  lemma AZ4Scales<F(!new)>(f: Field<F>, a: F, z: F, d: F)
    requires IsRing(f.ring)
    ensures f.Mul(f.Mul(a, Fourth(f, z)), f.Square(f.Square(d))) == f.Mul(a, Fourth(f, f.Mul(z, d)))
  {
    hide IsRing;
    RingIdentity(f.ring, 3,
                 Mul(Mul(Var(0), ESquare(ESquare(Var(1)))), ESquare(ESquare(Var(2)))),
                 Mul(Var(0), ESquare(ESquare(Mul(Var(1), Var(2))))),
                 [a, z, d]);
  }

  lemma ProductNonzero<F(!new)>(f: Field<F>, a: F, b: F)
    requires IsField(f)
    ensures f.Mul(a, b) == f.Zero() <==> a == f.Zero() || b == f.Zero()
  {
    MulZero(f.ring, a);
    MulZero(f.ring, b);
    if f.Mul(a, b) == f.Zero() {
      NoZeroDivisors(f, a, b);
    }
  }

  /** What one call of Double computes from the coordinates and aZ4 (already multiplied by sixteenY4). */
  function Doubled<F>(f: Field<F>, j: ProjectivePoint<F>, aZ4: F): ProjectivePoint<F> {
    var twoY := f.Double(j.y);
    var fourY2 := f.Square(twoY);
    var s := f.Mul(fourY2, j.x);
    var m := f.Add(f.Add(f.Double(f.Square(j.x)), f.Square(j.x)), aZ4);
    var x := f.Sub(f.Sub(f.Square(m), s), s);
    ProjectivePoint(x, f.Sub(f.Mul(m, f.Sub(s, x)), f.Half(f.Square(fourY2))), f.Mul(j.z, twoY))
  }

  /** The doubled coordinates stand for the doubled point. */
  lemma DoubledRepresents<F(!new)>(c: Curve<F>, j: ProjectivePoint<F>, p: Point<F>)
    requires IsCurve(c) && Represents(c.f, j, p)
    ensures Represents(c.f, Doubled(c.f, j, c.f.Mul(c.a, Fourth(c.f, j.z))), Ecp.Double(c, p))
  {
    var f := c.f;
    var twoY := f.Double(j.y);
    ProductNonzero(f, j.z, twoY);
    if j.z != f.Zero() {
      TwiceNonzero(f, j.y);
      ProductNonzero(f, j.z, j.z);
      ProductNonzero(f, f.Square(j.z), j.z);
      ProductNonzero(f, p.y, Cube(f, j.z));
      if p.y != f.Zero() {
        DoubledCoordinates(c, j, p);
      }
    }
  }

  lemma DoubledCoordinates<F(!new)>(c: Curve<F>, j: ProjectivePoint<F>, p: Point<F>)
    requires IsCurve(c) && p.Affine? && p.y != c.f.Zero()
    requires j.x == c.f.Mul(p.x, c.f.Square(j.z)) && j.y == c.f.Mul(p.y, Cube(c.f, j.z))
    ensures var k, q := Doubled(c.f, j, c.f.Mul(c.a, Fourth(c.f, j.z))), Ecp.Double(c, p);
            q.Affine? && k.x == c.f.Mul(q.x, c.f.Square(k.z)) && k.y == c.f.Mul(q.y, Cube(c.f, k.z))
  {
    var f, t := c.f, TangentSlope(c, p);
    var w := NextZ(f, p.y, j.z);
    TwiceNonzero(f, p.y);
    var s := f.Square(p.x);
    DivideMultiply(f, f.Add(f.Add(f.Double(s), s), c.a), f.Double(p.y));
    SlopeScales(f, p.x, p.y, j.z, c.a, t);
    SScales(f, p.x, p.y, j.z);
    XScales(f, t, p.x, w);
    EightY4(f, p.y, j.z);
    HalfOfDouble(f, f.Mul(p.y, Cube(f, w)));
    YScales(f, t, p.x, f.Sub(f.Sub(f.Square(t), p.x), p.x), p.y, w);
  }

  class ProjectiveDoubling<F(==, !new)> {
    const c: Curve<F>
    var P: ProjectivePoint<F>
    var sixteenY4: F
    var aZ4: F
    var twoY: F
    var fourY2: F
    var S: F
    var M: F

    /** The coordinates stand for q, and aZ4·sixteenY4 = a·z^4. */
    ghost predicate Valid(q: Point<F>)
      reads this
    {
      IsCurve(c) && Represents(c.f, P, q) && c.f.Mul(aZ4, sixteenY4) == c.f.Mul(c.a, Fourth(c.f, P.z))
    }

    constructor (curve: Curve<F>, q: Point<F>)
      requires IsCurve(curve)
      ensures Valid(q) && c == curve
    {
      c := curve;
      var one, zero := curve.f.One(), curve.f.Zero();
      if q.Infinity? {
        P := ProjectivePoint(one, one, zero);
        sixteenY4, aZ4 := one, zero;
      } else {
        P := ProjectivePoint(q.x, q.y, one);
        sixteenY4, aZ4 := one, curve.a;
      }
      twoY, fourY2, S, M := one, one, one, one;
      new;
      StartsValid(curve, q);
    }

    method Double(ghost q: Point<F>)
      requires Valid(q)
      modifies this
      ensures Valid(Ecp.Double(c, q))
    {
      hide Represents, IsCurve, Fourth;
      DoublingStep(c, P, q, aZ4, sixteenY4);
      var f := c.f;
      ghost var j := P;
      twoY := f.Double(P.y);
      P := P.(z := f.Mul(P.z, twoY));
      fourY2 := f.Square(twoY);
      S := f.Mul(fourY2, P.x);
      aZ4 := f.Mul(aZ4, sixteenY4);
      M := f.Square(P.x);
      M := f.Add(f.Add(f.Double(M), M), aZ4);
      P := P.(x := f.Square(M));
      P := P.(x := f.Sub(P.x, S));
      P := P.(x := f.Sub(P.x, S));
      S := f.Sub(S, P.x);
      P := P.(y := f.Mul(M, S));
      sixteenY4 := f.Square(fourY2);
      P := P.(y := f.Sub(P.y, f.Half(sixteenY4)));
      assert P == Doubled(f, j, aZ4);
    }
  }

  lemma StartsValid<F(!new)>(c: Curve<F>, q: Point<F>)
    requires IsCurve(c)
    ensures var one, zero := c.f.One(), c.f.Zero();
            var j := if q.Infinity? then ProjectivePoint(one, one, zero) else ProjectivePoint(q.x, q.y, one);
            Represents(c.f, j, q)
            && c.f.Mul(if q.Infinity? then zero else c.a, one) == c.f.Mul(c.a, Fourth(c.f, j.z))
  {
    var one, zero := c.f.One(), c.f.Zero();
    Laws(c.f.ring, one, one, one);
    Laws(c.f.ring, zero, one, one);
    Laws(c.f.ring, c.a, one, one);
    MulZero(c.f.ring, zero);
    MulZero(c.f.ring, c.a);
    if q.Affine? {
      Laws(c.f.ring, q.x, one, one);
      Laws(c.f.ring, q.y, one, one);
    }
  }

  lemma DoublingStep<F(!new)>(c: Curve<F>, j: ProjectivePoint<F>, q: Point<F>, aZ4: F, sixteenY4: F)
    requires IsCurve(c) && Represents(c.f, j, q) && c.f.Mul(aZ4, sixteenY4) == c.f.Mul(c.a, Fourth(c.f, j.z))
    ensures Represents(c.f, Doubled(c.f, j, c.f.Mul(aZ4, sixteenY4)), Ecp.Double(c, q))
    ensures c.f.Mul(c.f.Mul(aZ4, sixteenY4), c.f.Square(c.f.Square(c.f.Double(j.y))))
            == c.f.Mul(c.a, Fourth(c.f, c.f.Mul(j.z, c.f.Double(j.y))))
  {
    DoubledRepresents(c, j, q);
    AZ4Scales(c.f, c.a, j.z, c.f.Double(j.y));
  }
}
