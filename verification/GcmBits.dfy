/** Bytes and words as sequences of bits, most significant bit first, and RIGHTSHIFTX of c/aes.c. */
module GcmBits {

  import opened AesBlock
  import opened Gf128
  import opened XorBuffers

  function Bits8(b: byte): (r: Bits)
    ensures |r| == 8
  {
    seq(8, i requires 0 <= i < 8 => Has(b, Mask(i)))
  }

  /** 0x80 >> i */
  function Mask(i: nat): byte {
    match i
    case 0 => 0x80
    case 1 => 0x40
    case 2 => 0x20
    case 3 => 0x10
    case 4 => 8
    case 5 => 4
    case 6 => 2
    case _ => 1
  }

  function Has(b: byte, mask: byte): bool { b & mask != 0 }

  function BitsOf(s: seq<byte>): (r: Bits)
    ensures |r| == 8 * |s|
  {
    if s == [] then [] else Bits8(s[0]) + BitsOf(s[1..])
  }

  lemma Bits8IsInjective(a: byte, b: byte)
    requires Bits8(a) == Bits8(b)
    ensures a == b
  {
    hide Has;
    var p, q := Bits8(a), Bits8(b);
    assert p[0] == q[0] && p[1] == q[1] && p[2] == q[2] && p[3] == q[3];
    assert p[4] == q[4] && p[5] == q[5] && p[6] == q[6] && p[7] == q[7];
    SameBits(a, b);
  }

  lemma SameBits(a: byte, b: byte)
    requires Has(a, 0x80) == Has(b, 0x80) && Has(a, 0x40) == Has(b, 0x40) && Has(a, 0x20) == Has(b, 0x20)
    requires Has(a, 0x10) == Has(b, 0x10) && Has(a, 8) == Has(b, 8) && Has(a, 4) == Has(b, 4)
    requires Has(a, 2) == Has(b, 2) && Has(a, 1) == Has(b, 1)
    ensures a == b
  {
  }

  lemma {:induction false} BitsOfIsInjective(s: seq<byte>, t: seq<byte>)
    requires BitsOf(s) == BitsOf(t)
    ensures s == t
  {
    hide Bits8;
    if s != [] && t != [] {
      assert Bits8(s[0]) == BitsOf(s)[..8] && Bits8(t[0]) == BitsOf(t)[..8];
      assert BitsOf(s[1..]) == BitsOf(s)[8..] && BitsOf(t[1..]) == BitsOf(t)[8..];
      Bits8IsInjective(s[0], t[0]);
      BitsOfIsInjective(s[1..], t[1..]);
    }
  }

  lemma {:induction false} BitsOfConcat(s: seq<byte>, t: seq<byte>)
    ensures BitsOf(s + t) == BitsOf(s) + BitsOf(t)
  {
    hide Bits8;
    if s == [] {
      assert s + t == t;
    } else {
      assert (s + t)[1..] == s[1..] + t;
      BitsOfConcat(s[1..], t);
    }
  }

  lemma BitsOfOne(b: byte)
    ensures BitsOf([b]) == Bits8(b)
  {
    hide Bits8;
    assert [b][1..] == [];
  }

  lemma Bits8OfSum(a: byte, b: byte)
    ensures Bits8(Add(a, b)) == Plus(Bits8(a), Bits8(b))
  {
    hide Has, Add, Mask;
    forall i | 0 <= i < 8 ensures Has(Add(a, b), Mask(i)) == (Has(a, Mask(i)) != Has(b, Mask(i))) {
      HasOfSum(a, b, i);
    }
  }

  lemma HasOfSum(a: byte, b: byte, i: nat)
    ensures Has(Add(a, b), Mask(i)) == (Has(a, Mask(i)) != Has(b, Mask(i)))
  {
  }

  lemma {:induction false} BitsOfXor(s: seq<byte>, t: seq<byte>)
    requires |s| == |t|
    ensures BitsOf(XorBytes(s, t)) == Plus(BitsOf(s), BitsOf(t))
  {
    hide Bits8, Add;
    if s != [] {
      assert XorBytes(s, t)[1..] == XorBytes(s[1..], t[1..]);
      BitsOfXor(s[1..], t[1..]);
      Bits8OfSum(s[0], t[0]);
    }
  }

  function ZeroBytes(n: nat): (z: seq<byte>)
    ensures |z| == n
  {
    seq(n, _ => 0)
  }

  lemma {:induction false} BitsOfZeroBytes(n: nat)
    ensures BitsOf(ZeroBytes(n)) == Zeros(8 * n)
  {
    if n > 0 {
      assert ZeroBytes(n)[1..] == ZeroBytes(n - 1);
      BitsOfZeroBytes(n - 1);
    }
  }

  // ---------- shifting right by one bit ----------

  function LowBit(b: byte): bool { b & 1 != 0 }

  function HighBit(b: byte): bool { b & 0x80 != 0 }

  /** (x >> 1) | (carryIn ? 0x80 : 0) */
  function ShiftedByte(b: byte, carryIn: bool): byte {
    (b >> 1) | (if carryIn then 0x80 else 0)
  }

  lemma BitsOfShiftedByte(b: byte, carryIn: bool)
    ensures Bits8(ShiftedByte(b, carryIn)) == [carryIn] + Bits8(b)[..7] && Bits8(b)[7] == LowBit(b)
  {
    hide Has, ShiftedByte, Mask, LowBit;
    var t, q := Bits8(ShiftedByte(b, carryIn)), Bits8(b);
    var r := [carryIn] + q[..7];
    forall i | 0 <= i < 8 ensures t[i] == r[i] {
      HasOfShifted(b, carryIn, i);
      if i > 0 {
        assert r[i] == q[i - 1];
      }
    }
    LowBitIsLast(b);
  }

  lemma HasOfShifted(b: byte, carryIn: bool, i: nat)
    requires i < 8
    ensures Has(ShiftedByte(b, carryIn), Mask(i)) == if i == 0 then carryIn else Has(b, Mask(i - 1))
  {
  }

  lemma LowBitIsLast(b: byte)
    ensures LowBit(b) == Has(b, Mask(7))
  {
  }

  /** Every byte shifted, with the low bit of the one before it carried in. */
  ghost predicate IsShifted(s: seq<byte>, carryIn: bool, t: seq<byte>) {
    && |s| == |t|
    && forall i {:trigger t[i]} :: 0 <= i < |s| ==>
       t[i] == ShiftedByte(s[i], if i == 0 then carryIn else LowBit(s[i - 1]))
  }

  lemma {:induction false} BitsOfShifted(s: seq<byte>, carryIn: bool, t: seq<byte>)
    requires s != [] && IsShifted(s, carryIn, t)
    ensures BitsOf(t) == [carryIn] + BitsOf(s)[..8 * |s| - 1] && BitsOf(s)[8 * |s| - 1] == LowBit(s[|s| - 1])
  {
    hide Bits8, LowBit, ShiftedByte;
    BitsOfShiftedByte(s[0], carryIn);
    if |s| == 1 {
      assert s == [s[0]] && t == [t[0]];
      BitsOfOne(s[0]);
      BitsOfOne(t[0]);
    } else {
      BitsOfShifted(s[1..], LowBit(s[0]), t[1..]);
      var rest := BitsOf(s[1..]);
      ShiftsJoin(carryIn, Bits8(s[0]), rest);
    }
  }

  lemma ShiftsJoin(carryIn: bool, p: Bits, q: Bits)
    requires |p| > 0 && |q| > 0
    ensures ([carryIn] + p[..|p| - 1]) + ([p[|p| - 1]] + q[..|q| - 1]) == [carryIn] + (p + q)[..|p| + |q| - 1]
  {
  }

  lemma ReductionBits()
    ensures Bits8(0xe1) + Zeros(120) == Reducer()
  {
  }

  lemma BitsAfterReduction(t: seq<byte>)
    requires |t| == 16
    ensures BitsOf(t[0 := Add(t[0], 0xe1)]) == Plus(BitsOf(t), Reducer())
  {
    hide Bits8, Add;
    var u := t[0 := Add(t[0], 0xe1)];
    assert u[1..] == t[1..];
    Bits8OfSum(t[0], 0xe1);
    ReductionBits();
  }

  /** RIGHTSHIFTX multiplies by x in place. */
  method RightShiftX(x: array<byte>)
    requires x.Length == 16
    modifies x
    ensures BitsOf(x[..]) == TimesX(BitsOf(old(x[..])))
  {
    hide Bits8, Add, LowBit, ShiftedByte, BitsOf, Plus, Reducer;
    ghost var before := x[..];
    var borrow := LowBit(x[15]);
    ShiftBytes(x);
    BitsOfShifted(before, false, x[..]);
    if borrow {
      BitsAfterReduction(x[..]);
      x[0] := Add(x[0], 0xe1);
    }
  }

  method ShiftBytes(x: array<byte>)
    requires x.Length == 16
    modifies x
    ensures IsShifted(old(x[..]), false, x[..])
  {
    hide LowBit, ShiftedByte;
    var carryIn := false;
    for i := 0 to 16
      invariant carryIn == if i == 0 then false else LowBit(old(x[i - 1]))
      invariant forall k {:trigger x[k]} :: 0 <= k < i ==>
        x[k] == ShiftedByte(old(x[k]), if k == 0 then false else LowBit(old(x[k - 1])))
      invariant forall k :: i <= k < 16 ==> x[k] == old(x[k])
    {
      var carryOut := LowBit(x[i]);
      x[i] := ShiftedByte(x[i], carryIn);
      carryIn := carryOut;
    }
  }
}
