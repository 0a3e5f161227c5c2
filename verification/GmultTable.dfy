/** GenerateM0 and the table form of GMULT, c/aes.c. */
module GmultTable {

  import opened AesBlock
  import opened Buffers
  import opened Gf128
  import opened GcmBits
  import opened Gmult
  import opened ReductionTable
  import opened XorBuffers

  // ---------- the table of multiples of H ----------

  /** Row n holds H times the polynomial whose coefficients are the bits of the byte n. */
  ghost predicate RowHolds(h: Bits, row: seq<byte>, n: nat) {
    |h| == 128 && n < 256 && |row| == 16 && BitsOf(row) == Mul(h, Bits8(n as byte))
  }

  ghost predicate IsTable(h: Bits, m: seq<seq<byte>>) {
    |m| == 256 && forall n {:trigger m[n]} :: 0 <= n < 256 ==> RowHolds(h, m[n], n)
  }

  predicate IsPower(i: nat) {
    i == 1 || i == 2 || i == 4 || i == 8 || i == 16 || i == 32 || i == 64 || i == 128
  }

  lemma FirstRow(h: Bits, row: seq<byte>)
    requires |h| == 128 && |row| == 16 && BitsOf(row) == h
    ensures RowHolds(h, row, 128)
  {
    hide BitsOf, Mul, TimesX, Plus;
    TopBit();
    var rest := Zeros(7);
    assert Bits8(0x80) == [true] + rest;
    MulUnfold(h, Bits8(0x80));
    assert Bits8(0x80)[1..] == rest;
    MulByZeros(TimesX(h), 7);
    PlusLaws(h, h, h);
  }

  lemma TopBit()
    ensures Bits8(0x80) == [true] + Zeros(7)
  {
  }

  lemma {:induction false} MulByZeros(v: Bits, n: nat)
    requires |v| == 128
    ensures Mul(v, Zeros(n)) == Zeros(128)
    decreases n
  {
    hide Mul, TimesX, Plus;
    if n == 0 {
      MulOfNothing(v);
    } else {
      MulUnfold(v, Zeros(n));
      assert Zeros(n)[1..] == Zeros(n - 1);
      MulByZeros(TimesX(v), n - 1);
      PlusLaws(Zeros(128), Zeros(128), Zeros(128));
    }
  }

  /** Halving a byte without a low bit multiplies the row by x. */
  lemma HalvedRow(h: Bits, row: seq<byte>, shifted: seq<byte>, i: nat)
    requires IsPower(i) && i <= 64 && RowHolds(h, row, 2 * i)
    requires |shifted| == 16 && BitsOf(shifted) == TimesX(BitsOf(row))
    ensures RowHolds(h, shifted, i)
  {
    hide BitsOf, Mul, TimesX, Plus, Bits8, Zeros;
    HalvedBits(i);
    var p := Bits8((2 * i) as byte)[..7];
    MulOfTimesX(h, p);
    MulThenZero(h, p);
    MulAfterZero(h, p);
  }

  lemma HalvedBits(i: nat)
    requires IsPower(i) && i <= 64
    ensures var p := Bits8((2 * i) as byte);
            Bits8(i as byte) == [false] + p[..7] && p == p[..7] + [false]
  {
    hide Bits8;
    var b := (2 * i) as byte;
    HalvedByte(i);
    BitsOfShiftedByte(b, false);
    assert Bits8(b) == Bits8(b)[..7] + [Bits8(b)[7]];
  }

  lemma HalvedByte(i: nat)
    requires IsPower(i) && i <= 64
    ensures i as byte == ShiftedByte((2 * i) as byte, false) && !LowBit((2 * i) as byte)
  {
  }

  lemma MulThenZero(v: Bits, p: Bits)
    requires |v| == 128
    ensures Mul(v, p + [false]) == Mul(v, p)
    decreases |p|
  {
    hide Mul, TimesX, Plus;
    if p == [] {
      MulUnfold(v, p + [false]);
      assert (p + [false])[1..] == [];
      MulOfNothing(v);
      MulOfNothing(TimesX(v));
      PlusLaws(Zeros(128), Zeros(128), Zeros(128));
    } else {
      MulUnfold(v, p + [false]);
      MulUnfold(v, p);
      assert (p + [false])[1..] == p[1..] + [false];
      MulThenZero(TimesX(v), p[1..]);
    }
  }

  lemma MulAfterZero(v: Bits, p: Bits)
    requires |v| == 128
    ensures Mul(v, [false] + p) == Mul(TimesX(v), p)
  {
    hide Mul, TimesX, Plus;
    MulUnfold(v, [false] + p);
    assert ([false] + p)[1..] == p;
    PlusLaws(Mul(TimesX(v), p), Mul(TimesX(v), p), Mul(TimesX(v), p));
  }

  /** The index i + j below the next power of two is the exclusive-or of i and j. */
  lemma IndexOfSum(i: nat, j: nat)
    requires IsPower(i) && j < i
    ensures i + j < 256 && (i + j) as byte == Add(i as byte, j as byte)
  {
    var p, q := i as byte, j as byte;
    ByteAndBack(i);
    ByteAndBack(j);
    BelowPower(p, q);
    DisjointSum(p, q);
    hide Add;
    assert (i + j) as byte == (Add(p, q) as nat) as byte;
  }

  lemma BelowPower(p: byte, q: byte)
    requires IsPower(p as nat) && q as nat < p as nat
    ensures p & q == 0
  {
  }

  lemma DisjointSum(p: byte, q: byte)
    requires p & q == 0
    ensures Add(p, q) as nat == p as nat + q as nat
  {
  }

  lemma SummedRow(h: Bits, row: seq<byte>, other: seq<byte>, i: nat, j: nat)
    requires IsPower(i) && j < i && RowHolds(h, row, i) && RowHolds(h, other, j)
    ensures i + j < 256 && RowHolds(h, XorBytes(row, other), i + j)
  {
    hide BitsOf, Mul, Plus, Bits8, XorBytes, Add;
    IndexOfSum(i, j);
    BitsOfXor(row, other);
    Bits8OfSum(i as byte, j as byte);
    MulOfSum(h, Bits8(i as byte), Bits8(j as byte));
  }

  /** The rows whose index is a power of two above i. */
  ghost predicate PowersHold(h: Bits, m: seq<seq<byte>>, i: nat) {
    |m| == 256 && forall n {:trigger IsPower(n)} :: i < n < 256 && IsPower(n) ==> RowHolds(h, m[n], n)
  }

  ghost predicate RowsHold(h: Bits, m: seq<seq<byte>>, lo: nat, hi: nat) {
    |m| == 256 && hi <= 256 && forall n {:trigger m[n]} :: lo <= n < hi ==> RowHolds(h, m[n], n)
  }

  /** XMEMCPY(m[i], m[i*2]); RIGHTSHIFTX(m[i]) */
  method HalveRow(m: array<seq<byte>>, i: nat, ghost h: Bits)
    requires m.Length == 256 && IsPower(i) && i <= 64 && PowersHold(h, m[..], i)
    modifies m
    ensures PowersHold(h, m[..], i / 2)
  {
    hide RowHolds, TimesX, BitsOf;
    assert IsPower(2 * i);
    RowLength(h, m[2 * i], 2 * i);
    var x := new byte[16](_ => 0);
    SpliceAll(x[..], m[2 * i]);
    CopyInto(x, 0, m[2 * i]);
    RightShiftX(x);
    HalvedRow(h, m[2 * i], x[..], i);
    m[i] := x[..];
  }

  lemma RowLength(h: Bits, row: seq<byte>, n: nat)
    requires RowHolds(h, row, n)
    ensures |row| == 16
  {
  }

  /** The rows between a power of two and the next. */
  method FillBetween(m: array<seq<byte>>, i: nat, ghost h: Bits)
    requires m.Length == 256 && IsPower(i) && i >= 2 && PowersHold(h, m[..], 0) && RowsHold(h, m[..], 1, i)
    modifies m
    ensures PowersHold(h, m[..], 0) && RowsHold(h, m[..], 1, 2 * i)
  {
    hide RowHolds, XorBytes;
    for j := 1 to i
      invariant PowersHold(h, m[..], 0) && RowsHold(h, m[..], 1, i + j)
    {
      RowLength(h, m[i], i);
      RowLength(h, m[j], j);
      SummedRow(h, m[i], m[j], i, j);
      NotPower(i, j);
      m[i + j] := XorBytes(m[i], m[j]);
    }
  }

  lemma NotPower(i: nat, j: nat)
    requires IsPower(i) && 0 < j < i
    ensures i + j < 256 && !IsPower(i + j)
  {
  }

  /** GenerateM0 */
  method GenerateM0(m: array<seq<byte>>, H: seq<byte>)
    requires m.Length == 256 && |H| == 16
    modifies m
    ensures IsTable(BitsOf(H), m[..])
  {
    hide RowHolds, BitsOf;
    ghost var h := BitsOf(H);
    m[128] := H;
    FirstRow(h, H);
    var i: nat := 64;
    while i > 0
      invariant i == 0 || (IsPower(i) && i <= 64)
      invariant PowersHold(h, m[..], i)
    {
      HalveRow(m, i, h);
      i := i / 2;
    }
    i := 2;
    assert IsPower(1);
    while i < 256
      invariant i == 256 || (IsPower(i) && i >= 2)
      invariant PowersHold(h, m[..], 0) && RowsHold(h, m[..], 1, i)
    {
      FillBetween(m, i, h);
      i := i * 2;
    }
    m[0] := ZeroBytes(16);
    ZeroRow(h);
  }

  lemma ZeroRow(h: Bits)
    requires |h| == 128
    ensures RowHolds(h, ZeroBytes(16), 0)
  {
    hide Mul, BitsOf;
    BitsOfZeroBytes(16);
    MulByZeros(h, 8);
    assert Bits8(0) == Zeros(8);
  }

  lemma TableRow(h: Bits, m: seq<seq<byte>>, b: byte)
    requires IsTable(h, m)
    ensures |h| == 128 && b as nat < |m| && |m[b as nat]| == 16 && BitsOf(m[b as nat]) == Mul(h, Bits8(b))
  {
    hide BitsOf, Mul, Bits8;
    assert RowHolds(h, m[b as nat], b as nat);
  }

  // ---------- multiplication by x^8 ----------

  function Ends(r0: byte, r1: byte, a: byte): (s: seq<byte>)
    ensures |s| == 16
  {
    [r0, r1] + ZeroBytes(13) + [a]
  }

  /** The bits of r1 that are clear with n shifts to go: it has had only 8 - n bits shifted in, the first of
      them always 0. */
  function Clear(n: nat): byte {
    match n
    case 0 => 1
    case 1 => 3
    case 2 => 7
    case 3 => 0xf
    case 4 => 0x1f
    case 5 => 0x3f
    case 6 => 0x7f
    case _ => 0xff
  }

  lemma ClearStep(r0: byte, r1: byte, n: nat)
    requires 0 < n <= 8 && r1 & Clear(n) == 0 && (n == 8 ==> r0 == 0)
    ensures ShiftedByte(r1, LowBit(r0)) & Clear(n - 1) == 0 && !LowBit(r1)
  {
  }

  lemma TimesXOfEnds(r0: byte, r1: byte, a: byte)
    requires !LowBit(r1)
    ensures var top := ShiftedByte(r0, false);
            TimesX(BitsOf(Ends(r0, r1, a)))
            == BitsOf(Ends(if LowBit(a) then Add(top, 0xe1) else top, ShiftedByte(r1, LowBit(r0)),
                           ShiftedByte(a, false)))
  {
    hide BitsOf, Add, Plus, Reducer;
    var top := ShiftedByte(r0, false);
    var s, t := Ends(r0, r1, a), Ends(top, ShiftedByte(r1, LowBit(r0)), ShiftedByte(a, false));
    ShiftedEnds(r0, r1, a);
    BitsOfShifted(s, false, t);
    BitsAfterReduction(t);
    assert t[0 := Add(top, 0xe1)] == Ends(Add(top, 0xe1), ShiftedByte(r1, LowBit(r0)), ShiftedByte(a, false));
    assert s[15] == a && t[0] == top;
  }

  lemma ShiftedEnds(r0: byte, r1: byte, a: byte)
    requires !LowBit(r1)
    ensures IsShifted(Ends(r0, r1, a), false,
                      Ends(ShiftedByte(r0, false), ShiftedByte(r1, LowBit(r0)), ShiftedByte(a, false)))
  {
    assert ShiftedByte(0, false) == 0 && !LowBit(0);
    hide ShiftedByte, LowBit;
  }

  /** n shifts of such a block, with the last byte run out after eight of them. */
  lemma {:induction false} TimesXPowerOfEnds(r0: byte, r1: byte, a: byte, n: nat)
    requires n <= 8 && r1 & Clear(n) == 0 && (n == 8 ==> r0 == 0) && Vanishes(a, n)
    ensures var r := Reduced(r0, r1, a, n);
            TimesXPower(BitsOf(Ends(r0, r1, a)), n) == BitsOf(Ends(r.0, r.1, 0))
    decreases n
  {
    hide BitsOf, Add, TimesX, Ends, ShiftedByte, LowBit, Clear;
    if n > 0 {
      ClearStep(r0, r1, n);
      TimesXOfEnds(r0, r1, a);
      var top := ShiftedByte(r0, false);
      TimesXPowerOfEnds(if LowBit(a) then Add(top, 0xe1) else top, ShiftedByte(r1, LowBit(r0)),
                        ShiftedByte(a, false), n - 1);
    }
  }

  /** a has no bits left after n shifts. */
  predicate Vanishes(a: byte, n: nat)
    decreases n
  {
    if n == 0 then a == 0 else Vanishes(ShiftedByte(a, false), n - 1)
  }

  lemma EightShiftsVanish(a: byte)
    ensures Vanishes(a, 8)
  {
    var a1 := ShiftedByte(a, false);
    var a2 := ShiftedByte(a1, false);
    var a3 := ShiftedByte(a2, false);
    var a4 := ShiftedByte(a3, false);
    var a5 := ShiftedByte(a4, false);
    var a6 := ShiftedByte(a5, false);
    var a7 := ShiftedByte(a6, false);
    assert Vanishes(a7, 1);
    assert Vanishes(a5, 3);
    assert Vanishes(a3, 5);
    assert Vanishes(a1, 7);
  }

  lemma {:induction false} TimesXPowerOfLeading(v: Bits, n: nat)
    requires |v| + n <= 128
    ensures TimesXPower(v + Zeros(128 - |v|), n) == Zeros(n) + v + Zeros(128 - |v| - n)
    decreases n
  {
    if n == 0 {
      assert Zeros(0) + v + Zeros(128 - |v|) == v + Zeros(128 - |v|);
    } else {
      var w := [false] + v;
      var u := v + Zeros(128 - |v|);
      TimesXOfLeading(v);
      TimesXPowerOfLeading(w, n - 1);
      hide Zeros, TimesX;
      ZerosThenFalse(n, v);
    }
  }

  lemma TimesXOfLeading(v: Bits)
    requires |v| < 128
    ensures TimesX(v + Zeros(128 - |v|)) == ([false] + v) + Zeros(127 - |v|)
  {
    var u := v + Zeros(128 - |v|);
    assert !u[127];
    assert [false] + u[..127] == ([false] + v) + Zeros(127 - |v|);
  }

  lemma ZerosThenFalse(n: nat, v: Bits)
    requires n > 0
    ensures Zeros(n - 1) + ([false] + v) == Zeros(n) + v
  {
  }

  /** Moving every byte up by one place and adding R of the byte that falls off multiplies by x^8. */
  lemma TimesX8(z: seq<byte>, after: seq<byte>)
    requires |z| == |after| == 16
    requires after[0] == R(z[15]).0 && after[1] == Add(z[0], R(z[15]).1) && after[2..] == z[1..15]
    ensures BitsOf(after) == TimesXPower(BitsOf(z), 8)
  {
    hide BitsOf, Add, TimesX, TimesXPower, Plus, Ends, R;
    var a := z[15];
    var front := z[..15] + [0];
    EndsOfByte(z, front, a);
    TimesXPowerIsLinear(BitsOf(front), BitsOf(Ends(0, 0, a)), 8);
    ShiftedFront(front);
    ShiftedLast(a);
    JoinedBytes(z, front, after, a);
    BitsOfXor([0] + front[..15], Ends(R(a).0, R(a).1, 0));
  }

  lemma ShiftedLast(a: byte)
    ensures TimesXPower(BitsOf(Ends(0, 0, a)), 8) == BitsOf(Ends(R(a).0, R(a).1, 0))
  {
    hide BitsOf, Ends, TimesXPower, Vanishes, Reduced;
    EightShiftsVanish(a);
    assert 0 & Clear(8) == 0;
    TimesXPowerOfEnds(0, 0, a, 8);
  }

  lemma EndsOfByte(z: seq<byte>, front: seq<byte>, a: byte)
    requires |z| == 16 && a == z[15] && front == z[..15] + [0]
    ensures BitsOf(z) == Plus(BitsOf(front), BitsOf(Ends(0, 0, a)))
  {
    hide BitsOf, Plus, Add;
    BitsOfXor(front, Ends(0, 0, a));
    AddZeroes(z, a);
    assert XorBytes(front, Ends(0, 0, a)) == z;
  }

  lemma AddZeroes(z: seq<byte>, a: byte)
    ensures forall b: byte {:trigger Add(b, 0)} :: Add(b, 0) == b
    ensures Add(0, a) == a
  {
  }

  lemma ShiftedFront(front: seq<byte>)
    requires |front| == 16 && front[15] == 0
    ensures TimesXPower(BitsOf(front), 8) == BitsOf([0] + front[..15])
  {
    hide BitsOf, TimesXPower;
    var v := BitsOf(front[..15]);
    assert front == front[..15] + [0] && [0] + front[..15] == [0] + front[..15];
    BitsOfConcat(front[..15], [0]);
    BitsOfConcat([0], front[..15]);
    BitsOfOne(0);
    assert Bits8(0) == Zeros(8);
    TimesXPowerOfLeading(v, 8);
    assert Zeros(8) + v + Zeros(0) == Zeros(8) + v;
  }

  lemma JoinedBytes(z: seq<byte>, front: seq<byte>, after: seq<byte>, a: byte)
    requires |z| == |after| == 16 && a == z[15] && front == z[..15] + [0]
    requires after[0] == R(a).0 && after[1] == Add(z[0], R(a).1) && after[2..] == z[1..15]
    ensures after == XorBytes([0] + front[..15], Ends(R(a).0, R(a).1, 0))
  {
    hide Add, R;
    AddZeroes(z, R(a).0);
    var sum := XorBytes([0] + front[..15], Ends(R(a).0, R(a).1, 0));
    forall i | 0 <= i < 16 ensures after[i] == sum[i] {
      if i >= 2 {
        assert after[i] == after[2..][i - 2];
      }
    }
  }

  // ---------- byte by byte ----------

  /** The loop over j: every byte up by one place, then R of the byte that fell off. */
  method MultiplyByX8(z: array<byte>)
    requires z.Length == 16
    modifies z
    ensures BitsOf(z[..]) == TimesXPower(BitsOf(old(z[..])), 8)
  {
    hide BitsOf, Add, R, TimesXPower, LiteralR, First, Second;
    ghost var before := z[..];
    var a := z[15];
    for j := 15 downto 0
      invariant forall k :: 0 <= k <= j ==> z[k] == before[k]
      invariant forall k :: j < k < 16 ==> z[k] == before[k - 1]
    {
      z[j + 1] := z[j];
    }
    LiteralIsR(a);
    z[0] := First(LiteralR(a));
    z[1] := Add(z[1], Second(LiteralR(a)));
    TimesX8(before, z[..]);
  }

  /** x becomes the product of x and H, for the table m of H. */
  method GmultByTable(x: array<byte>, m: array<seq<byte>>, ghost h: Bits)
    requires x.Length == 16 && |h| == 128 && IsTable(h, m[..])
    modifies x
    ensures BitsOf(x[..]) == Mul(BitsOf(old(x[..])), h)
  {
    hide BitsOf, Mul, TimesXPower, IsTable, XorBytes, Plus;
    ghost var x0 := x[..];
    MulIsCommutative(h, BitsOf(x0));
    var z := new byte[16](_ => 0);
    NothingYet(h, z[..], x0);
    var i := 15;
    while i > 0
      invariant 0 <= i <= 15 && x[..] == x0 && BitsOf(z[..]) == TimesXPower(Mul(h, BitsOf(x0[i + 1..])), 8)
    {
      TableRow(h, m[..], x[i]);
      HornerStep(h, z[..], m[x[i] as nat], x0, i);
      XorInto(z, m[x[i] as nat]);
      MultiplyByX8(z);
      i := i - 1;
    }
    TableRow(h, m[..], x[0]);
    HornerStep(h, z[..], m[x[0] as nat], x0, 0);
    XorInto(z, m[x[0] as nat]);
    assert x0[0..] == x0;
    SpliceAll(x[..], z[..]);
    CopyInto(x, 0, z[..]);
  }

  lemma NothingYet(h: Bits, z: seq<byte>, x: seq<byte>)
    requires |h| == 128 && z == seq(16, _ => 0) && |x| == 16
    ensures BitsOf(z) == TimesXPower(Mul(h, BitsOf(x[16..])), 8)
  {
    hide BitsOf, Mul, TimesXPower;
    assert z == ZeroBytes(16);
    BitsOfZeroBytes(16);
    MulOfNoBytes(h, x[16..]);
    TimesXPowerOfLeading([], 8);
    assert [] + Zeros(128) == Zeros(128) && Zeros(8) + [] + Zeros(120) == Zeros(128);
  }

  /** Adding the row for byte i to x^8 times the product with the bytes after it gives the product from byte i on. */
  lemma HornerStep(h: Bits, z: seq<byte>, row: seq<byte>, x: seq<byte>, i: nat)
    requires |h| == 128 && |z| == |row| == |x| == 16 && i < 16
    requires BitsOf(z) == TimesXPower(Mul(h, BitsOf(x[i + 1..])), 8) && BitsOf(row) == Mul(h, Bits8(x[i]))
    ensures BitsOf(XorBytes(z, row)) == Mul(h, BitsOf(x[i..]))
  {
    hide BitsOf, Mul, TimesXPower, XorBytes, Plus, Bits8;
    BitsOfXor(z, row);
    BitsFrom(x, i);
    MulOfConcat(h, Bits8(x[i]), BitsOf(x[i + 1..]));
    PlusLaws(BitsOf(z), BitsOf(row), BitsOf(z));
  }

  /** The bits of the product determine the block, so every form of GMULT leaves the same bytes. */
  lemma ProductIsUnique(x: seq<byte>, y: seq<byte>, first: seq<byte>, second: seq<byte>)
    requires |x| == |y| == 16
    requires BitsOf(first) == Mul(BitsOf(x), BitsOf(y)) && BitsOf(second) == Mul(BitsOf(x), BitsOf(y))
    ensures first == second
  {
    hide BitsOf, Mul;
    BitsOfIsInjective(first, second);
  }
}
