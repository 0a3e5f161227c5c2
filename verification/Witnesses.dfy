/** The hypotheses of the group, ring and curve results hold of something: integers, small fields, and a curve with
    four points. */
module Witnesses {

  import opened Groups
  import opened Rings
  import opened Fields
  import opened Numerals
  import opened Quotients
  import Ecp
  import Ec2n
  import Ec2nGroup

  // ---------- the integers ----------

  const SUMS: Group<int> := Group(0, (a, b) => a + b, a => 0 - a, true, _ => true)

  lemma SumsAreAbelian()
    ensures IsAbelian(SUMS)
  {
  }

  /** In the integers the multiples that the algorithms compute are products. */
  lemma {:induction false} TimesIsProduct(k: int, p: int)
    ensures Times(SUMS, k, p) == k * p
    decreases if k < 0 then -k else k
  {
    if k > 0 {
      TimesIsProduct(k - 1, p);
      assert (k - 1) * p + p == k * p;
    } else if k < 0 {
      TimesIsProduct(k + 1, p);
      assert (k + 1) * p - p == k * p;
    }
  }

  const DIVISION: EuclideanDomain<int> :=
    EuclideanDomain(INTEGERS, (a, b) => if b == 0 then (a, 0) else (a % b, a / b), a => a == 1 || a == -1,
                    a => if a < 0 then 0 - a else a)

  lemma DivisionIsEuclidean()
    ensures IsEuclidean(DIVISION)
  {
    hide IsRing;
    IntegersAreARing();
    forall a: int, b: int | b != 0
      ensures DIVISION.ring.add(DIVISION.ring.mul(b, DIVISION.divide(a, b).1), DIVISION.divide(a, b).0) == a
    {
      assert b * (a / b) + a % b == a;
    }
    forall a: int ensures DIVISION.isUnit(a) <==> Divides(DIVISION, a, 1) {
      UnitsDivideOne(a);
    }
  }

  lemma UnitsDivideOne(a: int)
    ensures DIVISION.isUnit(a) <==> Divides(DIVISION, a, 1)
  {
    if DIVISION.isUnit(a) {
      assert DIVISION.ring.mul(a, a) == 1;
    }
    forall q: int | a > 1 || a < -1 ensures q * a != 1 {
      NoFactorOfOne(q, a);
    }
  }

  lemma NoFactorOfOne(q: int, a: int)
    requires a > 1 || a < -1
    ensures q * a != 1
  {
    if q > 0 && a > 0 {
      AtLeast(a, q);
    } else if q > 0 {
      assert q * a == -(-a * q);
      AtLeast(-a, q);
    } else if q < 0 && a > 0 {
      assert q * a == -(a * -q);
      AtLeast(a, -q);
    } else if q < 0 {
      assert q * a == -a * -q;
      AtLeast(-a, -q);
    }
  }

  // ---------- two elements ----------

  const TWO: Field<bool> := Field(Ring(false, true, (a, b) => a != b, (a, b) => a && b, a => a), a => a)

  lemma TwoIsAField()
    ensures IsField(TWO) && CharacteristicTwo(TWO) && Ec2n.IsCurve(Ecp.Curve(TWO, true, true))
  {
  }

  // ---------- three elements ----------

  datatype Three = O | P | N

  function Plus(a: Three, b: Three): Three {
    match (a, b)
    case (O, _) => b
    case (_, O) => a
    case (P, P) => N
    case (N, N) => P
    case _ => O
  }

  function Negative(a: Three): Three {
    match a
    case O => O
    case P => N
    case N => P
  }

  function TimesThree(a: Three, b: Three): Three {
    if a == O || b == O then O else if a == b then P else N
  }

  const MOD_THREE: Field<Three> := Field(Ring(O, P, (a, b) => Plus(a, b), (a, b) => TimesThree(a, b),
                                              a => Negative(a)), a => a)

  lemma LawsOfThree(a: Three, b: Three, c: Three)
    ensures Plus(a, b) == Plus(b, a) && Plus(Plus(a, b), c) == Plus(a, Plus(b, c)) && Plus(a, O) == a
    ensures Plus(a, Negative(a)) == O
    ensures TimesThree(a, b) == TimesThree(b, a) && TimesThree(TimesThree(a, b), c) == TimesThree(a, TimesThree(b, c))
    ensures TimesThree(a, Plus(b, c)) == Plus(TimesThree(a, b), TimesThree(a, c)) && TimesThree(a, P) == a
    ensures a != O ==> TimesThree(a, a) == P
  {
  }

  lemma ModThreeIsAField()
    ensures IsField(MOD_THREE) && OddCharacteristic(MOD_THREE)
  {
    assert OddCharacteristic(MOD_THREE);
    hide Plus, TimesThree, Negative;
    var r := MOD_THREE.ring;
    forall a: Three, b: Three, c: Three {:trigger Use(a, b, c)}
      ensures r.add(a, b) == r.add(b, a)
              && r.add(r.add(a, b), c) == r.add(a, r.add(b, c))
              && r.mul(a, b) == r.mul(b, a)
              && r.mul(r.mul(a, b), c) == r.mul(a, r.mul(b, c))
              && r.mul(a, r.add(b, c)) == r.add(r.mul(a, b), r.mul(a, c))
              && r.add(a, r.zero) == a
              && r.mul(a, r.one) == a
              && r.add(a, r.neg(a)) == r.zero
    {
      LawsOfThree(a, b, c);
    }
    forall a: Three | a != O ensures MOD_THREE.Mul(a, MOD_THREE.inv(a)) == P {
      LawsOfThree(a, a, a);
    }
  }

  /** y^2 = x^3 - x + 1 over three elements. */
  const SMALL: Ecp.Curve<Three> := Ecp.Curve(MOD_THREE, N, P)

  /** Its points, which are the multiples of (0, 1): seven, so that no double but the identity's is its own inverse. */
  function Multiple(i: nat): Ecp.Point<Three>
    requires i < 7
  {
    match i
    case 0 => Ecp.Infinity
    case 1 => Ecp.Affine(O, P)
    case 2 => Ecp.Affine(P, P)
    case 3 => Ecp.Affine(N, N)
    case 4 => Ecp.Affine(N, P)
    case 5 => Ecp.Affine(P, N)
    case 6 => Ecp.Affine(O, N)
  }

  lemma AllMultiples(p: Ecp.Point<Three>) returns (i: nat)
    requires Ecp.VerifyPoint(SMALL, p)
    ensures i < 7 && p == Multiple(i)
  {
    i := match p
         case Infinity => 0
         case Affine(x, y) =>
           if x == O then (if y == P then 1 else 6) else if x == P then (if y == P then 2 else 5)
           else if y == P then 4 else 3;
  }

  lemma AddMultiples(i: nat, j: nat)
    requires i < 7 && j < 7
    ensures Ecp.Add(SMALL, Multiple(i), Multiple(j)) == Multiple((i + j) % 7)
  {
    match i
    case 0 =>
    case 1 => AddTo1(j);
    case 2 => AddTo2(j);
    case 3 => AddTo3(j);
    case 4 => AddTo4(j);
    case 5 => AddTo5(j);
    case 6 => AddTo6(j);
  }

  lemma AddTo1(j: nat)
    requires j < 7
    ensures Ecp.Add(SMALL, Multiple(1), Multiple(j)) == Multiple((1 + j) % 7)
  {
  }

  lemma AddTo2(j: nat)
    requires j < 7
    ensures Ecp.Add(SMALL, Multiple(2), Multiple(j)) == Multiple((2 + j) % 7)
  {
  }

  lemma AddTo3(j: nat)
    requires j < 7
    ensures Ecp.Add(SMALL, Multiple(3), Multiple(j)) == Multiple((3 + j) % 7)
  {
  }

  lemma AddTo4(j: nat)
    requires j < 7
    ensures Ecp.Add(SMALL, Multiple(4), Multiple(j)) == Multiple((4 + j) % 7)
  {
  }

  lemma AddTo5(j: nat)
    requires j < 7
    ensures Ecp.Add(SMALL, Multiple(5), Multiple(j)) == Multiple((5 + j) % 7)
  {
  }

  lemma AddTo6(j: nat)
    requires j < 7
    ensures Ecp.Add(SMALL, Multiple(6), Multiple(j)) == Multiple((6 + j) % 7)
  {
  }

  lemma SumsModulo(i: nat, j: nat, k: nat, m: nat)
    requires m == 4 || m == 7
    ensures ((i + j) % m + k) % m == (i + (j + k) % m) % m
  {
  }

  lemma Associates(p: Ecp.Point<Three>, q: Ecp.Point<Three>, s: Ecp.Point<Three>)
    requires Ecp.VerifyPoint(SMALL, p) && Ecp.VerifyPoint(SMALL, q) && Ecp.VerifyPoint(SMALL, s)
    ensures Ecp.Add(SMALL, Ecp.Add(SMALL, p, q), s) == Ecp.Add(SMALL, p, Ecp.Add(SMALL, q, s))
  {
    hide Ecp.Add, Ecp.VerifyPoint, Multiple;
    var i := AllMultiples(p);
    var j := AllMultiples(q);
    var k := AllMultiples(s);
    AddMultiples(i, j);
    AddMultiples(j, k);
    AddMultiples((i + j) % 7, k);
    AddMultiples(i, (j + k) % 7);
    SumsModulo(i, j, k, 7);
  }

  lemma SmallIsAssociative()
    ensures Ecp.IsCurve(SMALL) && Ecp.AddIsAssociative(SMALL)
  {
    hide IsField, OddCharacteristic, Ecp.Add, Ecp.VerifyPoint;
    ModThreeIsAField();
    forall p, q, s |
      Ecp.VerifyPoint(SMALL, p) && Ecp.VerifyPoint(SMALL, q) && Ecp.VerifyPoint(SMALL, s)
      ensures Ecp.Add(SMALL, Ecp.Add(SMALL, p, q), s) == Ecp.Add(SMALL, p, Ecp.Add(SMALL, q, s))
    {
      Associates(p, q, s);
    }
  }

  // ---------- a curve over two elements ----------

  /** y^2 + x·y = x^3 + 1 over two elements. */
  const SMALL_BINARY: Ec2n.Curve<bool> := Ecp.Curve(TWO, false, true)

  /** Its points, which are the multiples of (1, 0). */
  function BinaryMultiple(i: nat): Ec2n.Point<bool>
    requires i < 4
  {
    match i
    case 0 => Ecp.Infinity
    case 1 => Ecp.Affine(true, false)
    case 2 => Ecp.Affine(false, true)
    case 3 => Ecp.Affine(true, true)
  }

  lemma AllBinaryMultiples(p: Ec2n.Point<bool>) returns (i: nat)
    requires Ec2n.VerifyPoint(SMALL_BINARY, p)
    ensures i < 4 && p == BinaryMultiple(i)
  {
    i := match p
         case Infinity => 0
         case Affine(x, y) => if !x then 2 else if y then 3 else 1;
  }

  lemma AddBinaryMultiples(i: nat, j: nat)
    requires i < 4 && j < 4
    ensures Ec2n.Add(SMALL_BINARY, BinaryMultiple(i), BinaryMultiple(j)) == BinaryMultiple((i + j) % 4)
  {
  }

  lemma SmallBinaryIsAssociative()
    ensures Ec2n.IsCurve(SMALL_BINARY) && Ec2nGroup.AddIsAssociative(SMALL_BINARY)
  {
    hide Ec2n.Add, Ec2n.VerifyPoint, BinaryMultiple;
    TwoIsAField();
    forall p, q, s |
      Ec2n.VerifyPoint(SMALL_BINARY, p) && Ec2n.VerifyPoint(SMALL_BINARY, q) && Ec2n.VerifyPoint(SMALL_BINARY, s)
      ensures Ec2n.Add(SMALL_BINARY, Ec2n.Add(SMALL_BINARY, p, q), s)
              == Ec2n.Add(SMALL_BINARY, p, Ec2n.Add(SMALL_BINARY, q, s))
    {
      var i := AllBinaryMultiples(p);
      var j := AllBinaryMultiples(q);
      var k := AllBinaryMultiples(s);
      AddBinaryMultiples(i, j);
      AddBinaryMultiples(j, k);
      AddBinaryMultiples((i + j) % 4, k);
      AddBinaryMultiples(i, (j + k) % 4);
    }
  }
}
