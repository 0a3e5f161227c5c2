/** Small numbers as sequences of bits, and the shifts that BaseN_Encoder and BaseN_Decoder move them with. */
module BaseBits {

  import opened AesBlock
  import opened Gf128
  import opened GcmBits
  import opened Gmult

  /** The number with the bits x, of which there are at most eight. */
  function Val(x: Bits): byte
  {
    if x == [] then 0 else LeftShiftedByte(Val(x[..|x| - 1]), x[|x| - 1])
  }

  lemma {:induction false} BitsOfVal(x: Bits)
    requires |x| <= 8
    ensures Bits8(Val(x)) == Zeros(8 - |x|) + x
  {
    if x == [] {
      ZeroByteBits();
      assert Zeros(8) + [] == Zeros(8);
    } else {
      hide LeftShiftedByte, Bits8, HighBit;
      var front := x[..|x| - 1];
      BitsOfVal(front);
      BitsOfLeftShiftedByte(Val(front), x[|x| - 1]);
      ZerosDropOne(9 - |x|, front);
      assert x == front + [x[|x| - 1]];
    }
  }

  lemma ZeroByteBits()
    ensures Bits8(0) == Zeros(8)
  {
  }

  lemma ZerosDropOne(n: nat, x: Bits)
    requires n > 0
    ensures (Zeros(n) + x)[1..] == Zeros(n - 1) + x
  {
  }

  lemma ValIsUnique(b: byte, x: Bits)
    requires |x| <= 8 && Bits8(b) == Zeros(8 - |x|) + x
    ensures b == Val(x)
  {
    BitsOfVal(x);
    Bits8IsInjective(b, Val(x));
  }

  lemma ValOfBits8(b: byte)
    ensures Val(Bits8(b)) == b
  {
    hide Bits8, Val;
    assert Zeros(0) + Bits8(b) == Bits8(b);
    ValIsUnique(b, Bits8(b));
  }

  /** A number of n bits is below 2^n. */
  lemma ValIsSmall(x: Bits)
    requires |x| <= 7
    ensures Val(x) as nat < Pow(|x|)
  {
    BitsOfVal(x);
    hide Val;
    SmallBySize(Val(x), |x|);
  }

  function Pow(n: nat): nat {
    match n
    case 0 => 1
    case 1 => 2
    case 2 => 4
    case 3 => 8
    case 4 => 16
    case 5 => 32
    case 6 => 64
    case _ => 128
  }

  lemma SmallBySize(b: byte, n: nat)
    requires n <= 7 && forall i :: 0 <= i < 8 - n ==> !Bits8(b)[i]
    ensures b as nat < Pow(n)
  {
    hide Has;
    forall i | 0 <= i < 8 - n ensures !Has(b, Mask(i)) {
      assert !Bits8(b)[i];
    }
    HighBitsClear(b, n);
  }

  lemma HighBitsClear(b: byte, n: nat)
    requires n <= 7 && forall i :: 0 <= i < 8 - n ==> !Has(b, Mask(i))
    ensures b as nat < Pow(n)
  {
    if n == 7 {
      assert !Has(b, Mask(0));
    } else if n == 6 {
      assert !Has(b, Mask(0)) && !Has(b, Mask(1));
    } else if n == 5 {
      assert !Has(b, Mask(0)) && !Has(b, Mask(1)) && !Has(b, Mask(2));
    } else if n == 4 {
      assert !Has(b, Mask(0)) && !Has(b, Mask(1)) && !Has(b, Mask(2)) && !Has(b, Mask(3));
    } else if n == 3 {
      assert !Has(b, Mask(0)) && !Has(b, Mask(1)) && !Has(b, Mask(2)) && !Has(b, Mask(3)) && !Has(b, Mask(4));
    } else {
      assert !Has(b, Mask(0)) && !Has(b, Mask(1)) && !Has(b, Mask(2)) && !Has(b, Mask(3)) && !Has(b, Mask(4))
             && !Has(b, Mask(5));
      if n < 2 {
        assert !Has(b, Mask(6));
      }
      if n < 1 {
        assert !Has(b, Mask(7));
      }
    }
  }

  // ---------- shifts by any number of places ----------

  function ShiftRight(b: byte, k: nat): byte
    requires k <= 8
  {
    b >> k
  }

  function ShiftLeft(b: byte, k: nat): byte
    requires k <= 8
  {
    b << k
  }

  lemma {:induction false} BitsOfShiftRight(b: byte, k: nat)
    requires k <= 8
    ensures Bits8(ShiftRight(b, k)) == Zeros(k) + Bits8(b)[..8 - k]
    decreases k
  {
    if k == 0 {
      ShiftNothing(b);
      assert Zeros(0) + Bits8(b)[..8] == Bits8(b);
    } else {
      hide Bits8, ShiftRight, ShiftedByte;
      BitsOfShiftRight(b, k - 1);
      ShiftRightOne(b, k);
      BitsOfShiftedByte(ShiftRight(b, k - 1), false);
      OnePlaceRight(Bits8(b), k);
    }
  }

  lemma OnePlaceRight(x: Bits, k: nat)
    requires |x| == 8 && 0 < k <= 8
    ensures [false] + (Zeros(k - 1) + x[..9 - k])[..7] == Zeros(k) + x[..8 - k]
  {
    var y := Zeros(k - 1) + x[..9 - k];
    var r := Zeros(k) + x[..8 - k];
    forall i | 0 <= i < 8 ensures ([false] + y[..7])[i] == r[i] {
      if i >= k {
        assert r[i] == x[i - k] == y[i - 1];
      }
    }
  }

  lemma OnePlaceLeft(x: Bits, k: nat)
    requires |x| == 8 && 0 < k <= 8
    ensures (x[k - 1..] + Zeros(k - 1))[1..] + [false] == x[k..] + Zeros(k)
  {
    var y := x[k - 1..] + Zeros(k - 1);
    var r := x[k..] + Zeros(k);
    forall i | 0 <= i < 8 ensures (y[1..] + [false])[i] == r[i] {
      if i < 8 - k {
        assert r[i] == x[k + i] == y[i + 1];
      }
    }
  }

  lemma ShiftNothing(b: byte)
    ensures ShiftRight(b, 0) == b && ShiftLeft(b, 0) == b
  {
  }

  lemma ShiftRightOne(b: byte, k: nat)
    requires 0 < k <= 8
    ensures ShiftRight(b, k) == ShiftedByte(ShiftRight(b, k - 1), false)
  {
    if k == 1 {} else if k == 2 {} else if k == 3 {} else if k == 4 {} else if k == 5 {} else if k == 6 {}
    else if k == 7 {}
  }

  lemma {:induction false} BitsOfShiftLeft(b: byte, k: nat)
    requires k <= 8
    ensures Bits8(ShiftLeft(b, k)) == Bits8(b)[k..] + Zeros(k)
    decreases k
  {
    if k == 0 {
      ShiftNothing(b);
      assert Bits8(b)[0..] + Zeros(0) == Bits8(b);
    } else {
      hide Bits8, ShiftLeft, LeftShiftedByte, HighBit;
      BitsOfShiftLeft(b, k - 1);
      ShiftLeftOne(b, k);
      BitsOfLeftShiftedByte(ShiftLeft(b, k - 1), false);
      OnePlaceLeft(Bits8(b), k);
    }
  }

  lemma ShiftLeftOne(b: byte, k: nat)
    requires 0 < k <= 8
    ensures ShiftLeft(b, k) == LeftShiftedByte(ShiftLeft(b, k - 1), false)
  {
    if k == 1 {} else if k == 2 {} else if k == 3 {} else if k == 4 {} else if k == 5 {} else if k == 6 {}
    else if k == 7 {}
  }

  // ---------- placing bits ----------

  function Or(a: byte, b: byte): byte { a | b }

  lemma HasOfOr(a: byte, b: byte, i: nat)
    ensures Has(Or(a, b), Mask(i)) == (Has(a, Mask(i)) || Has(b, Mask(i)))
  {
  }

  lemma BitsOfOr(a: byte, b: byte)
    ensures forall i :: 0 <= i < 8 ==> Bits8(Or(a, b))[i] == (Bits8(a)[i] || Bits8(b)[i])
  {
    hide Has, Or, Mask;
    forall i | 0 <= i < 8 ensures Bits8(Or(a, b))[i] == (Bits8(a)[i] || Bits8(b)[i]) {
      HasOfOr(a, b, i);
    }
  }

  /** Bits that start where those already placed end. */
  lemma PlaceBits(a: byte, b: byte, placed: Bits, more: Bits, above: nat)
    requires above + |placed| + |more| == 8
    requires Bits8(a) == Zeros(above) + placed + Zeros(|more|) && Bits8(b) == Zeros(above + |placed|) + more
    ensures Bits8(Or(a, b)) == Zeros(above) + placed + more
  {
    hide Bits8, Or;
    BitsOfOr(a, b);
  }
}
