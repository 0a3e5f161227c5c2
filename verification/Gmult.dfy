/** The byte forms of GMULT, c/aes.c: bit by bit, and byte by byte through a table of 256 multiples. */
module Gmult {

  import opened AesBlock
  import opened Buffers
  import opened Gf128
  import opened GcmBits
  import opened XorBuffers

  // ---------- consuming a multiplier from its top bit ----------

  function LeftShiftedByte(b: byte, carryIn: bool): byte {
    (b << 1) | (if carryIn then 1 else 0)
  }

  lemma HasOfLeftShifted(b: byte, carryIn: bool, i: nat)
    requires i < 8
    ensures Has(LeftShiftedByte(b, carryIn), Mask(i)) == if i == 7 then carryIn else Has(b, Mask(i + 1))
  {
  }

  lemma BitsOfLeftShiftedByte(b: byte, carryIn: bool)
    ensures Bits8(LeftShiftedByte(b, carryIn)) == Bits8(b)[1..] + [carryIn] && Bits8(b)[0] == HighBit(b)
  {
    HighBitIsFirst(b);
    hide Has, LeftShiftedByte, Mask, HighBit;
    var t, q := Bits8(LeftShiftedByte(b, carryIn)), Bits8(b);
    var r := q[1..] + [carryIn];
    forall i | 0 <= i < 8 ensures t[i] == r[i] {
      HasOfLeftShifted(b, carryIn, i);
      if i < 7 {
        assert r[i] == q[i + 1];
      }
    }
  }

  lemma HighBitIsFirst(b: byte)
    ensures HighBit(b) == Has(b, Mask(0))
  {
  }

  /** The bytes t are the bytes s shifted left as one number. */
  ghost predicate IsLeftShifted(s: seq<byte>, t: seq<byte>) {
    && |s| == |t|
    && forall i {:trigger t[i]} :: 0 <= i < |s| ==> t[i] == LeftShiftedByte(s[i], i + 1 < |s| && HighBit(s[i + 1]))
  }

  lemma {:induction false} BitsOfLeftShifted(s: seq<byte>, t: seq<byte>)
    requires s != [] && IsLeftShifted(s, t)
    ensures BitsOf(t) == BitsOf(s)[1..] + [false] && BitsOf(s)[0] == HighBit(s[0])
  {
    hide Bits8, HighBit, LeftShiftedByte;
    var carryIn := 1 < |s| && HighBit(s[1]);
    BitsOfLeftShiftedByte(s[0], carryIn);
    if |s| == 1 {
      assert s == [s[0]] && t == [t[0]];
      BitsOfOne(s[0]);
      BitsOfOne(t[0]);
    } else {
      BitsOfLeftShifted(s[1..], t[1..]);
      LeftShiftsJoin(Bits8(s[0]), BitsOf(s[1..]));
    }
  }

  lemma LeftShiftsJoin(p: Bits, q: Bits)
    requires |p| > 0 && |q| > 0
    ensures (p[1..] + [q[0]]) + (q[1..] + [false]) == (p + q)[1..] + [false]
  {
  }

  lemma ShiftedAway(b: Bits, n: nat)
    requires 0 < n <= |b|
    ensures (b[1..] + [false])[..n - 1] == b[..n][1..] && b[..n][0] == b[0]
  {
  }

  /** One step of every bit-serial loop: add v when the next bit is set, and multiply v by x. */
  lemma SerialStep(z: Bits, v: Bits, y: Bits)
    requires |z| == |v| == 128 && y != []
    ensures Plus(z, Mul(v, y)) == Plus(if y[0] then Plus(z, v) else z, Mul(TimesX(v), y[1..]))
  {
    hide Plus, TimesX;
    PlusLaws(z, Select(y[0], v), Mul(TimesX(v), y[1..]));
    PlusLaws(z, z, z);
  }

  // ---------- bit by bit (GCM_SMALL) ----------

  method AbsorbBit(z: array<byte>, v: array<byte>, y: byte, n: nat, ghost rest: Bits, ghost total: Bits)
    returns (next: byte)
    requires z != v && z.Length == v.Length == 16 && 0 < n <= 8
    requires Plus(BitsOf(z[..]), Mul(BitsOf(v[..]), Bits8(y)[..n] + rest)) == total
    modifies z, v
    ensures Plus(BitsOf(z[..]), Mul(BitsOf(v[..]), Bits8(next)[..n - 1] + rest)) == total
  {
    hide BitsOf, Plus, Mul, TimesX, Bits8, LeftShiftedByte, HighBit, XorBytes;
    ghost var todo := Bits8(y)[..n] + rest;
    SerialStep(BitsOf(z[..]), BitsOf(v[..]), todo);
    BitsOfXor(z[..], v[..]);
    BitsOfLeftShiftedByte(y, false);
    ShiftedAway(Bits8(y), n);
    assert todo[1..] == Bits8(y)[..n][1..] + rest;
    if HighBit(y) {
      XorInto(z, v[..]);
    }
    RightShiftX(v);
    next := LeftShiftedByte(y, false);
  }

  method AbsorbByte(z: array<byte>, v: array<byte>, y0: byte, ghost rest: Bits)
    requires z != v && z.Length == v.Length == 16
    modifies z, v
    ensures Plus(BitsOf(z[..]), Mul(BitsOf(v[..]), rest))
            == old(Plus(BitsOf(z[..]), Mul(BitsOf(v[..]), Bits8(y0) + rest)))
  {
    hide BitsOf, Plus, Mul, Bits8;
    ghost var total := Plus(BitsOf(z[..]), Mul(BitsOf(v[..]), Bits8(y0) + rest));
    assert Bits8(y0)[..8] == Bits8(y0);
    var y := y0;
    for j := 0 to 8
      invariant Plus(BitsOf(z[..]), Mul(BitsOf(v[..]), Bits8(y)[..8 - j] + rest)) == total
    {
      y := AbsorbBit(z, v, y, 8 - j, rest, total);
    }
    assert Bits8(y)[..0] + rest == rest;
  }

  lemma BitsFrom(s: seq<byte>, i: nat)
    requires i < |s|
    ensures BitsOf(s[i..]) == Bits8(s[i]) + BitsOf(s[i + 1..])
  {
    hide Bits8;
    assert s[i..][1..] == s[i + 1..];
  }

  /** X becomes the product of X and Y. */
  method GmultSerial(x: array<byte>, y: array<byte>)
    requires x.Length == y.Length == 16 && x != y
    modifies x
    ensures BitsOf(x[..]) == Mul(BitsOf(old(x[..])), BitsOf(y[..]))
  {
    hide BitsOf, Plus, Mul, Bits8;
    var z := new byte[16](_ => 0);
    var v := new byte[16](_ => 0);
    assert z[..] == ZeroBytes(16);
    BitsOfZeroBytes(16);
    CopyInto(v, 0, x[..]);
    SpliceAll(ZeroBytes(16), x[..]);
    ghost var product := Mul(BitsOf(x[..]), BitsOf(y[..]));
    PlusLaws(product, product, product);
    assert y[0..] == y[..];
    for i := 0 to 16
      invariant x[..] == old(x[..]) && y[..] == old(y[..])
      invariant Plus(BitsOf(z[..]), Mul(BitsOf(v[..]), BitsOf(y[i..]))) == product
    {
      BitsFrom(y[..], i);
      assert y[..][i..] == y[i..] && y[..][i + 1..] == y[i + 1..];
      AbsorbByte(z, v, y[i], BitsOf(y[i + 1..]));
    }
    MulOfNoBytes(BitsOf(v[..]), y[16..]);
    PlusLaws(BitsOf(z[..]), BitsOf(z[..]), BitsOf(z[..]));
    SpliceAll(x[..], z[..]);
    CopyInto(x, 0, z[..]);
  }

  lemma MulOfNoBytes(v: Bits, s: seq<byte>)
    requires |v| == 128 && s == []
    ensures Mul(v, BitsOf(s)) == Zeros(128)
  {
  }
}
