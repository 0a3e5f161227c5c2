/** The points of a curve over a field of characteristic 2 as a group, so that the multiplications of algebra.cpp
    apply to EC2N. */
module Ec2nGroup {

  import opened Ec2n
  import Ecp
  import opened Fields
  import opened Groups
  import opened Rings

  function CurveGroup<F(==)>(c: Curve<F>): Group<Point<F>> {
    Group(Ecp.Infinity, (p, q) => Ec2n.Add(c, p, q), p => Inverse(c, p), true, p => VerifyPoint(c, p))
  }

  /** The one group law that is taken as a hypothesis. */
  ghost predicate AddIsAssociative<F(!new)>(c: Curve<F>) {
    forall p, q, s {:trigger Use(p, q, s)} :: VerifyPoint(c, p) && VerifyPoint(c, q) && VerifyPoint(c, s) ==>
      Ec2n.Add(c, Ec2n.Add(c, p, q), s) == Ec2n.Add(c, p, Ec2n.Add(c, q, s))
  }

  lemma ChordPoint<F(!new)>(c: Curve<F>, p: Point<F>, q: Point<F>)
    requires IsCurve(c) && p.Affine? && q.Affine? && p.x != q.x
    ensures var t := c.f.Divide(c.f.Add(p.y, q.y), c.f.Add(p.x, q.x));
            Ec2n.Add(c, p, q) == Ecp.Affine(ThirdX(c, t, p.x, q.x), ThirdY(c, t, p.x, p.y, ThirdX(c, t, p.x, q.x)))
  {
    hide IsCurve, ThirdX;
    ChordOrder(c, c.f.Divide(c.f.Add(p.y, q.y), c.f.Add(p.x, q.x)), p.x, q.x);
  }

  lemma ThirdXSymmetric<F(!new)>(c: Curve<F>, t: F, x1: F, x2: F)
    requires IsRing(c.f.ring)
    ensures ThirdX(c, t, x1, x2) == ThirdX(c, t, x2, x1)
  {
    hide IsRing;
    var s := Expr.Add(Expr.Add(Mul(Var(0), Var(0)), Var(0)), Var(1));
    RingIdentity(c.f.ring, 4, Expr.Add(Expr.Add(s, Var(2)), Var(3)), Expr.Add(Expr.Add(s, Var(3)), Var(2)),
                 [t, c.a, x1, x2]);
  }

  lemma LinesMeet<F(!new)>(f: Field<F>, t: F, x1: F, y1: F, x2: F, x3: F)
    requires IsField(f) && CharacteristicTwo(f)
    ensures f.Add(f.Add(y1, f.Mul(t, f.Add(x2, x1))), f.Mul(t, f.Add(x3, x2))) == f.Add(y1, f.Mul(t, f.Add(x3, x1)))
  {
    hide IsField, CharacteristicTwo;
    var e := Expr.Add(Expr.Add(Var(2), Mul(Var(0), Ecp.ESub(Var(3), Var(1)))), Mul(Var(0), Ecp.ESub(Var(4), Var(3))));
    var e' := Expr.Add(Var(2), Mul(Var(0), Ecp.ESub(Var(4), Var(1))));
    UnsignedIdentity(f, 5, e, e', [t, x1, y1, x2, x3]);
  }

  lemma ChordCommutes<F(!new)>(c: Curve<F>, p: Point<F>, q: Point<F>)
    requires IsCurve(c) && p.Affine? && q.Affine? && p.x != q.x
    ensures Ec2n.Add(c, p, q) == Ec2n.Add(c, q, p)
  {
    hide Ec2n.Add, ThirdX;
    var f := c.f;
    var d := f.Add(p.x, q.x);
    var t := f.Divide(f.Add(p.y, q.y), d);
    ChordPoint(c, p, q);
    ChordPoint(c, q, p);
    Laws(f.ring, p.x, q.x, q.x);
    Laws(f.ring, p.y, q.y, q.y);
    DistinctSum(f, p.x, q.x);
    DivideMultiply(f, f.Add(p.y, q.y), d);
    AddTwice(f, p.y, q.y);
    ThirdXSymmetric(c, t, p.x, q.x);
    LinesMeet(f, t, p.x, p.y, q.x, ThirdX(c, t, p.x, q.x));
  }

  lemma AddCommutes<F(!new)>(c: Curve<F>, p: Point<F>, q: Point<F>)
    requires IsCurve(c) && VerifyPoint(c, p) && VerifyPoint(c, q)
    ensures Ec2n.Add(c, p, q) == Ec2n.Add(c, q, p)
  {
    if p.Affine? && q.Affine? {
      if p.x != q.x {
        ChordCommutes(c, p, q);
      } else if p != q {
        SameAbscissa(c, p, q);
        AddTwice(c.f, p.x, q.y);
        Laws(c.f.ring, p.x, q.y, q.y);
      }
    }
  }

  lemma InverseCancels<F(!new)>(c: Curve<F>, p: Point<F>)
    requires IsCurve(c)
    ensures Ec2n.Add(c, p, Inverse(c, p)) == Ecp.Infinity
  {
    if p.Affine? {
      AddTwice(c.f, p.x, p.y);
      Laws(c.f.ring, p.x, p.y, p.y);
      DistinctSum(c.f, p.y, c.f.Add(p.x, p.y));
      Laws(c.f.ring, p.y, p.x, p.y);
    }
  }

  lemma InfinityIsNeutral<F(!new)>(c: Curve<F>, p: Point<F>)
    ensures VerifyPoint(c, Ecp.Infinity) && Ec2n.Add(c, p, Ecp.Infinity) == p
  {
  }

  lemma CurveClosed<F(!new)>(c: Curve<F>)
    requires IsCurve(c)
    ensures IsClosed(CurveGroup(c)) && IsCommutative(CurveGroup(c))
  {
    hide Ec2n.Add, VerifyPoint, IsCurve;
    var g := CurveGroup(c);
    InfinityIsNeutral(c, Ecp.Infinity);
    forall p, q | g.member(p) && g.member(q)
      ensures g.member(g.add(p, q)) && g.add(p, q) == g.add(q, p)
    {
      Closed(c, p, q);
      AddCommutes(c, p, q);
    }
  }

  lemma CurveIdentity<F(!new)>(c: Curve<F>)
    requires IsCurve(c)
    ensures HasIdentityAndInverses(CurveGroup(c))
  {
    hide Ec2n.Add, VerifyPoint, IsCurve, Inverse;
    var g := CurveGroup(c);
    forall p | g.member(p)
      ensures g.member(g.inverse(p)) && g.add(p, g.inverse(p)) == g.identity
    {
      Closed(c, p, p);
      InverseCancels(c, p);
    }
    forall p | g.member(p)
      ensures g.add(p, g.identity) == p
    {
      InfinityIsNeutral(c, p);
    }
  }

  lemma CurveAssociates<F(!new)>(c: Curve<F>)
    requires AddIsAssociative(c)
    ensures IsAssociative(CurveGroup(c))
  {
    hide Ec2n.Add, VerifyPoint;
    var g := CurveGroup(c);
    forall p, q, s | g.member(p) && g.member(q) && g.member(s)
      ensures g.add(g.add(p, q), s) == g.add(p, g.add(q, s))
    {
      assert Use(p, q, s);
    }
  }

  /** The points of the curve form an abelian group, given associativity. */
  lemma CurveIsAbelian<F(!new)>(c: Curve<F>)
    requires IsCurve(c) && AddIsAssociative(c)
    ensures IsAbelian(CurveGroup(c))
  {
    hide IsClosed, HasIdentityAndInverses, IsCommutative, IsAssociative;
    CurveClosed(c);
    CurveIdentity(c);
    CurveAssociates(c);
  }
}
