/** CMAC_Base of cmac.cpp: subkeys by multiplication by u, and a state that holds back the last block so that it
    can be mixed with the right subkey. */
module Cmacs {

  import opened AesBlock
  import opened BlockCiphers
  import opened Buffers
  import G = Gf128
  import opened GcmBits
  import opened Gmult
  import opened XorBuffers

  // ---------- MulU ----------

  /** The block sizes CMAC supports, with the low bits of the polynomial u^n reduces to. */
  predicate IsSupported(n: nat) { n == 8 || n == 16 || n == 32 }

  /** What u to the power of 8n reduces to: x^4 + x^3 + x + 1, x^7 + x^2 + x + 1, x^10 + x^5 + x + 1. */
  function Polynomial(n: nat): (p: seq<byte>)
    requires IsSupported(n)
    ensures |p| == n
  {
    if n == 8 then Zeroes(7) + [0x1b] else if n == 16 then Zeroes(15) + [0x87] else Zeroes(30) + [4, 0x23]
  }

  /** Multiplication by u of a block read as a polynomial, its first bit the highest coefficient. */
  function TimesU(b: G.Bits, n: nat): (r: G.Bits)
    requires IsSupported(n) && |b| == 8 * n
    ensures |r| == 8 * n
  {
    var shifted := b[1..] + [false];
    if b[0] then G.Plus(shifted, BitsOf(Polynomial(n))) else shifted
  }

  datatype CmacStatus = Fine | InvalidArgument

  /** k[i] += k[i] + carry */
  function Doubled(b: byte, carry: byte): byte { b + (b + carry) }

  function TopBit(b: byte): byte { b >> 7 }

  lemma DoubledIsShifted(b: byte, c: byte)
    ensures Doubled(b, TopBit(c)) == LeftShiftedByte(b, HighBit(c)) && Doubled(b, 0) == LeftShiftedByte(b, false)
    ensures TopBit(c) != 0 <==> HighBit(c)
  {
    DoublingBytes(b);
    TopBitIsHighBit(c);
    hide Doubled, TopBit, HighBit, LeftShiftedByte;
  }

  lemma DoublingBytes(b: byte)
    ensures Doubled(b, 0) == LeftShiftedByte(b, false) && Doubled(b, 1) == LeftShiftedByte(b, true)
  {
  }

  lemma TopBitIsHighBit(c: byte)
    ensures TopBit(c) == if HighBit(c) then 1 else 0
  {
  }

  /** The bytes from i on are doubled, with the carry into byte i - 1 as given. */
  ghost predicate DoubledFrom(before: seq<byte>, now: seq<byte>, i: nat, carry: byte) {
    && |now| == |before| && i <= |before| && carry == (if i < |before| then TopBit(before[i]) else 0)
    && (forall j {:trigger now[j]} :: i <= j < |now| ==>
          now[j] == LeftShiftedByte(before[j], j + 1 < |before| && HighBit(before[j + 1])))
    && (forall j {:trigger now[j]} :: 0 <= j < i ==> now[j] == before[j])
  }

  lemma DoubledOneMore(before: seq<byte>, now: seq<byte>, i: nat, carry: byte)
    requires DoubledFrom(before, now, i, carry) && i > 0
    ensures DoubledFrom(before, now[i - 1 := Doubled(now[i - 1], carry)], i - 1, TopBit(now[i - 1]))
  {
    hide Doubled, TopBit, HighBit, LeftShiftedByte;
    DoubledIsShifted(before[i - 1], if i < |before| then before[i] else 0);
  }

  /** Two bytes a pass, from the end; then the reduction when a bit fell off the front. Of an odd number of bytes the
      first is left alone. */
  method MulU(k: array<byte>) returns (status: CmacStatus)
    modifies k
    ensures IsSupported(k.Length) ==> status == Fine && BitsOf(k[..]) == TimesU(BitsOf(old(k[..])), k.Length)
    ensures status == InvalidArgument <==> !IsSupported(k.Length) && k.Length >= 2 && HighBit(old(k[k.Length % 2]))
  {
    hide BitsOf, Doubled, TopBit, HighBit, DoubledFrom, IsLeftShifted, Polynomial, Add;
    ghost var before := k[..];
    var carry: byte := ShiftAll(k);
    LastCarry(before, k[..], carry);
    if IsSupported(k.Length) {
      ShiftedAll(before, k[..], carry);
    }
    if carry != 0 {
      ghost var shifted := k[..];
      if k.Length == 8 {
        k[7] := Add(k[7], 0x1b);
      } else if k.Length == 16 {
        k[15] := Add(k[15], 0x87);
      } else if k.Length == 32 {
        k[30] := Add(k[30], 4);
        k[31] := Add(k[31], 0x23);
      } else {
        return InvalidArgument;
      }
      AfterReduction(shifted, k[..]);
    }
    return Fine;
  }

  lemma DoubledNothing(before: seq<byte>)
    ensures DoubledFrom(before, before, |before|, 0)
  {
  }

  /** One pass: the bytes at i and i - 1. */
  method DoubleTwo(k: array<byte>, i: nat, carry0: byte, ghost before: seq<byte>) returns (carry: byte)
    requires 1 <= i < k.Length && DoubledFrom(before, k[..], i + 1, carry0)
    modifies k
    ensures DoubledFrom(before, k[..], i - 1, carry)
  {
    hide Doubled, TopBit, DoubledFrom;
    DoubledOneMore(before, k[..], i + 1, carry0);
    var carry2 := TopBit(k[i]);
    k[i] := Doubled(k[i], carry0);
    DoubledOneMore(before, k[..], i, carry2);
    carry := TopBit(k[i - 1]);
    k[i - 1] := Doubled(k[i - 1], carry2);
  }

  method ShiftAll(k: array<byte>) returns (carry: byte)
    modifies k
    ensures DoubledFrom(old(k[..]), k[..], k.Length % 2, carry)
  {
    hide DoubledFrom;
    ghost var before := k[..];
    DoubledNothing(before);
    carry := 0;
    var i := k.Length - 1;
    while i >= 1
      invariant -1 <= i < k.Length && (k.Length - 1 - i) % 2 == 0 && DoubledFrom(before, k[..], i + 1, carry)
    {
      carry := DoubleTwo(k, i, carry, before);
      i := i - 2;
    }
  }

  lemma LastCarry(before: seq<byte>, now: seq<byte>, carry: byte)
    requires DoubledFrom(before, now, |before| % 2, carry)
    ensures carry != 0 <==> |before| >= 2 && HighBit(before[|before| % 2])
  {
    hide LeftShiftedByte, HighBit, TopBit;
    DoubledIsShifted(0, if |before| >= 2 then before[|before| % 2] else 0);
  }

  lemma ShiftedAll(before: seq<byte>, now: seq<byte>, carry: byte)
    requires before != [] && DoubledFrom(before, now, 0, carry)
    ensures BitsOf(now) == BitsOf(before)[1..] + [false] && BitsOf(before)[0] == HighBit(before[0])
    ensures carry != 0 <==> HighBit(before[0])
  {
    hide BitsOf, LeftShiftedByte, HighBit, TopBit;
    DoubledIsShifted(0, before[0]);
    BitsOfLeftShifted(before, now);
  }

  lemma AfterReduction(shifted: seq<byte>, now: seq<byte>)
    requires IsSupported(|shifted|) && |now| == |shifted|
    requires |now| == 8 ==> now == shifted[7 := Add(shifted[7], 0x1b)]
    requires |now| == 16 ==> now == shifted[15 := Add(shifted[15], 0x87)]
    requires |now| == 32 ==> now == shifted[30 := Add(shifted[30], 4)][31 := Add(shifted[31], 0x23)]
    ensures BitsOf(now) == G.Plus(BitsOf(shifted), BitsOf(Polynomial(|shifted|)))
  {
    AddNothing();
    hide BitsOf, Add;
    assert now == XorBytes(shifted, Polynomial(|shifted|));
    BitsOfXor(shifted, Polynomial(|shifted|));
  }

  // ---------- the MAC of section 6.2 of NIST SP 800-38B ----------

  datatype Keys = Keys(cipher: BlockCipher, k1: seq<byte>, k2: seq<byte>)

  ghost predicate AreKeys(k: Keys) {
    IsBlockCipher(k.cipher) && |k.k1| == |k.k2| == k.cipher.size
  }

  /** The subkeys of section 6.1: u and u^2 times the encryption of the zero block. */
  ghost predicate AreSubkeys(k: Keys) {
    && AreKeys(k) && IsSupported(k.cipher.size)
    && |k.cipher.process(Zeroes(k.cipher.size))| == k.cipher.size
    && BitsOf(k.k1) == TimesU(BitsOf(k.cipher.process(Zeroes(k.cipher.size))), k.cipher.size)
    && BitsOf(k.k2) == TimesU(BitsOf(k.k1), k.cipher.size)
  }

  /** The last block, whole or not, mixed with the subkey for its case. */
  function LastBlock(k: Keys, m: seq<byte>): (b: seq<byte>)
    requires |k.k1| == |k.k2| == k.cipher.size && |m| <= k.cipher.size
    ensures |b| == k.cipher.size
  {
    if |m| == k.cipher.size then XorBytes(m, k.k1)
    else XorBytes(m + [0x80] + Zeroes(k.cipher.size - |m| - 1), k.k2)
  }

  function MacFrom(k: Keys, x: seq<byte>, m: seq<byte>): (mac: seq<byte>)
    requires AreKeys(k) && |x| == k.cipher.size
    ensures |mac| == k.cipher.size
    decreases |m|
  {
    var n := k.cipher.size;
    if |m| > n then StepLength(k.cipher, x, m[..n]); MacFrom(k, Step(k.cipher, x, m[..n]), m[n..])
    else StepLength(k.cipher, x, LastBlock(k, m)); Step(k.cipher, x, LastBlock(k, m))
  }

  function Mac(k: Keys, m: seq<byte>): (mac: seq<byte>)
    requires AreKeys(k)
    ensures |mac| == k.cipher.size
  {
    MacFrom(k, Zeroes(k.cipher.size), m)
  }

  // ---------- how the state follows the message ----------

  /** What is left of m once every block that another byte follows has been absorbed. */
  function HeldBack(size: nat, m: seq<byte>): (held: seq<byte>)
    requires size > 0
    ensures |held| <= size && (m == [] <==> held == []) && |held| <= |m|
    decreases |m|
  {
    if |m| <= size then m else HeldBack(size, m[size..])
  }

  function Absorbed(c: BlockCipher, x: seq<byte>, m: seq<byte>): (r: seq<byte>)
    requires IsBlockCipher(c) && |x| == c.size
    ensures |r| == c.size
    decreases |m|
  {
    if |m| <= c.size then x else StepLength(c, x, m[..c.size]); Absorbed(c, Step(c, x, m[..c.size]), m[c.size..])
  }

  /** reg and counter are what m leaves. */
  ghost predicate Holds(c: BlockCipher, m: seq<byte>, reg: seq<byte>, counter: nat) {
    && IsBlockCipher(c) && counter == |HeldBack(c.size, m)|
    && reg == HeldIn(Absorbed(c, Zeroes(c.size), m), HeldBack(c.size, m))
  }

  lemma {:induction false} AbsorbedInTwo(c: BlockCipher, x: seq<byte>, m: seq<byte>, more: seq<byte>)
    requires IsBlockCipher(c) && |x| == c.size
    ensures Absorbed(c, x, m + more) == Absorbed(c, Absorbed(c, x, m), HeldBack(c.size, m) + more)
    ensures HeldBack(c.size, m + more) == HeldBack(c.size, HeldBack(c.size, m) + more)
    decreases |m|
  {
    hide IsBlockCipher, Step;
    BlockSizePositive(c);
    if |m| > c.size {
      assert (m + more)[..c.size] == m[..c.size] && (m + more)[c.size..] == m[c.size..] + more;
      StepLength(c, x, m[..c.size]);
      AbsorbedInTwo(c, Step(c, x, m[..c.size]), m[c.size..], more);
    }
  }

  lemma {:induction false} MacOfState(k: Keys, x: seq<byte>, m: seq<byte>)
    requires AreKeys(k) && |x| == k.cipher.size
    ensures MacFrom(k, x, m) == MacFrom(k, Absorbed(k.cipher, x, m), HeldBack(k.cipher.size, m))
    decreases |m|
  {
    hide IsBlockCipher, Step, LastBlock;
    BlockSizePositive(k.cipher);
    if |m| > k.cipher.size {
      StepLength(k.cipher, x, m[..k.cipher.size]);
      MacOfState(k, Step(k.cipher, x, m[..k.cipher.size]), m[k.cipher.size..]);
    }
  }

  lemma HoldsNothing(c: BlockCipher)
    requires IsBlockCipher(c)
    ensures Holds(c, [], Zeroes(c.size), 0)
  {
    hide IsBlockCipher, HeldIn;
    BlockSizePositive(c);
    HoldingNothing(Zeroes(c.size));
  }

  lemma HoldsBounds(c: BlockCipher, m: seq<byte>, reg: seq<byte>, counter: nat)
    requires Holds(c, m, reg, counter)
    ensures IsBlockCipher(c) && c.size > 0 && counter <= c.size && |reg| == c.size && (counter == 0 <==> m == [])
  {
  }

  /** More bytes that still fit in the block. */
  lemma HoldsMore(c: BlockCipher, m: seq<byte>, reg: seq<byte>, counter: nat, more: seq<byte>)
    requires Holds(c, m, reg, counter) && counter + |more| <= c.size
    ensures |reg| == c.size && Holds(c, m + more, XorredAt(reg, counter, more), counter + |more|)
  {
    hide IsBlockCipher, HeldIn, XorredAt, Absorbed, HeldBack;
    var zero := Zeroes(c.size);
    BlockSizePositive(c);
    var x, held := Absorbed(c, zero, m), HeldBack(c.size, m);
    AbsorbedInTwo(c, zero, m, more);
    FitsInBlock(c, x, held + more);
    HoldingMore(x, held, more);
  }

  lemma FitsInBlock(c: BlockCipher, x: seq<byte>, held: seq<byte>)
    requires IsBlockCipher(c) && |x| == c.size && |held| <= c.size
    ensures Absorbed(c, x, held) == x && HeldBack(c.size, held) == held
  {
  }

  /** A full register is processed once it is known that more follows; from then on the register is as good as
      the state of a fresh message whose starting value is the register. */
  ghost predicate Primed(c: BlockCipher, m: seq<byte>, reg: seq<byte>) {
    && IsBlockCipher(c) && |reg| == c.size
    && forall more: seq<byte> {:trigger m + more} :: more != [] ==>
         && Absorbed(c, Zeroes(c.size), m + more) == Absorbed(c, reg, more)
         && HeldBack(c.size, m + more) == HeldBack(c.size, more)
  }

  lemma PrimedByFull(c: BlockCipher, m: seq<byte>, reg: seq<byte>)
    requires Holds(c, m, reg, c.size)
    ensures Primed(c, m, c.process(reg))
  {
    hide HeldIn, HeldBack, Absorbed, XorBytes;
    var zero := Zeroes(c.size);
    var x, held := Absorbed(c, zero, m), HeldBack(c.size, m);
    HoldingBlock(x, held);
    forall more: seq<byte> | more != []
      ensures Absorbed(c, zero, m + more) == Absorbed(c, c.process(reg), more)
      ensures HeldBack(c.size, m + more) == HeldBack(c.size, more)
    {
      AbsorbedInTwo(c, zero, m, more);
      PastFullBlock(c, x, held, more);
    }
  }

  lemma PastFullBlock(c: BlockCipher, x: seq<byte>, held: seq<byte>, more: seq<byte>)
    requires IsBlockCipher(c) && |x| == |held| == c.size && more != []
    ensures |Step(c, x, held)| == c.size
    ensures Absorbed(c, x, held + more) == Absorbed(c, Step(c, x, held), more)
    ensures HeldBack(c.size, held + more) == HeldBack(c.size, more)
  {
    hide IsBlockCipher, Step;
    BlockSizePositive(c);
    StepLength(c, x, held);
    assert (held + more)[..c.size] == held && (held + more)[c.size..] == more;
  }

  lemma PrimedByNothing(c: BlockCipher)
    requires IsBlockCipher(c)
    ensures Primed(c, [], Zeroes(c.size))
  {
    hide Absorbed, HeldBack;
    forall more: seq<byte> ensures [] + more == more {
    }
  }

  /** All but the last byte of a long input has its whole blocks absorbed; at least one byte is left over. */
  lemma {:induction false} PrimedByBlocks(c: BlockCipher, reg: seq<byte>, input: seq<byte>)
    requires IsBlockCipher(c) && |reg| == c.size && input != []
    ensures var front := input[..|input| - 1];
            var rest := input[|front| - |Leftover(c.size, front)|..];
            && rest != [] && |rest| <= c.size
            && Absorbed(c, reg, input) == Chained(c, reg, front) && HeldBack(c.size, input) == rest
    decreases |input|
  {
    hide IsBlockCipher, Step;
    BlockSizePositive(c);
    var front := input[..|input| - 1];
    if |input| > c.size {
      StepLength(c, reg, input[..c.size]);
      PrimedByBlocks(c, Step(c, reg, input[..c.size]), input[c.size..]);
      assert front[c.size..] == input[c.size..][..|input| - c.size - 1] && front[..c.size] == input[..c.size];
      LeftoverIsSuffix(c.size, front);
    }
  }

  /** A primed register with a last part of at most a block exclusive-ored in. */
  lemma HoldsAfterPriming(c: BlockCipher, m: seq<byte>, reg: seq<byte>, input: seq<byte>)
    requires Primed(c, m, reg) && input != []
    ensures c.size > 0
    ensures var front := input[..|input| - 1];
            var rest := input[|front| - |Leftover(c.size, front)|..];
            && |rest| <= c.size && |Chained(c, reg, front)| == c.size
            && Holds(c, m + input, XorredAt(Chained(c, reg, front), 0, rest), |rest|)
  {
    hide HeldIn, HeldBack, Absorbed, XorredAt, Leftover, Chained;
    BlockSizePositive(c);
    PrimedByBlocks(c, reg, input);
    var front := input[..|input| - 1];
    var rest := input[|front| - |Leftover(c.size, front)|..];
    var x := Chained(c, reg, front);
    HoldingNothing(x);
    HoldingMore(x, [], rest);
    assert [] + rest == rest;
  }

  lemma HoldsFinal(k: Keys, m: seq<byte>, reg: seq<byte>, counter: nat)
    requires AreKeys(k) && Holds(k.cipher, m, reg, counter)
    ensures |reg| == k.cipher.size && counter <= k.cipher.size
    ensures counter == k.cipher.size ==> Mac(k, m) == Step(k.cipher, reg, k.k1)
    ensures counter < k.cipher.size ==> Mac(k, m) == Step(k.cipher, XorredAt(reg, counter, [0x80]), k.k2)
  {
    hide IsBlockCipher, HeldIn, Absorbed, HeldBack, XorredAt, Step, LastBlock;
    var zero := Zeroes(k.cipher.size);
    BlockSizePositive(k.cipher);
    var x, held := Absorbed(k.cipher, zero, m), HeldBack(k.cipher.size, m);
    MacOfState(k, zero, m);
    LastStep(k, x, held);
  }

  lemma LastStep(k: Keys, x: seq<byte>, held: seq<byte>)
    requires AreKeys(k) && |x| == k.cipher.size && |held| <= k.cipher.size
    ensures |held| == k.cipher.size ==> Step(k.cipher, x, LastBlock(k, held)) == Step(k.cipher, HeldIn(x, held), k.k1)
    ensures |held| < k.cipher.size ==>
      Step(k.cipher, x, LastBlock(k, held)) == Step(k.cipher, XorredAt(HeldIn(x, held), |held|, [0x80]), k.k2)
  {
    hide IsBlockCipher, XorredAt, XorBytes, HeldIn;
    if |held| == k.cipher.size {
      HoldingBlock(x, held);
      XorAssociates(x, held, k.k1);
    } else {
      HoldingMore(x, held, [0x80]);
      var padded := held + [0x80] + Zeroes(k.cipher.size - |held| - 1);
      HeldIsPadded(x, held + [0x80]);
      XorAssociates(x, padded, k.k2);
    }
  }

  lemma HeldIsPadded(x: seq<byte>, held: seq<byte>)
    requires |held| <= |x|
    ensures HeldIn(x, held) == XorBytes(x, held + Zeroes(|x| - |held|))
  {
  }

  lemma XorAssociates(a: seq<byte>, b: seq<byte>, c: seq<byte>)
    requires |a| == |b| == |c|
    ensures XorBytes(a, XorBytes(b, c)) == XorBytes(XorBytes(a, b), c)
  {
    forall i | 0 <= i < |a| ensures Add(a[i], Add(b[i], c[i])) == Add(Add(a[i], b[i]), c[i]) {
      AddIsAbelian(a[i], b[i], c[i]);
    }
    hide Add;
  }

  // ---------- the object ----------

  class CmacState {
    const cipher: BlockCipher
    const reg: array<byte>
    const k1: array<byte>
    const k2: array<byte>
    var counter: nat
    /** What has been fed in since the last MAC. */
    ghost var message: seq<byte>

    ghost predicate Valid()
      reads this, reg, k1, k2
    {
      && reg.Length == k1.Length == k2.Length == cipher.size && reg !in {k1, k2} && k1 != k2
      && Holds(cipher, message, reg[..], counter)
    }

    ghost function Subkeys(): (k: Keys)
      reads k1, k2
    {
      Keys(cipher, k1[..], k2[..])
    }

    /** UncheckedSetKey */
    constructor (c: BlockCipher)
      requires IsBlockCipher(c) && IsSupported(c.size)
      ensures Valid() && cipher == c && message == [] && AreSubkeys(Subkeys())
      ensures fresh(reg) && fresh(k1) && fresh(k2)
    {
      cipher := c;
      reg := new byte[c.size](_ => 0);
      k1 := new byte[c.size](_ => 0);
      k2 := new byte[c.size](_ => 0);
      counter := 0;
      message := [];
      new;
      assert reg[..] == Zeroes(c.size);
      HoldsNothing(c);
      SetSubkeys();
    }

    method SetSubkeys()
      requires IsBlockCipher(cipher) && IsSupported(cipher.size)
      requires reg.Length == k1.Length == k2.Length == cipher.size && reg !in {k1, k2} && k1 != k2
      requires reg[..] == Zeroes(cipher.size)
      modifies k1, k2
      ensures AreSubkeys(Subkeys())
    {
      hide BitsOf, TimesU, Spliced, Holds;
      var l := cipher.process(reg[..]);
      SpliceAll(k1[..], l);
      CopyInto(k1, 0, l);
      var status := MulU(k1);
      SpliceAll(k2[..], k1[..]);
      CopyInto(k2, 0, k1[..]);
      status := MulU(k2);
    }

    method Update(input: seq<byte>)
      requires Valid()
      modifies this, reg
      ensures Valid() && message == old(message) + input && Subkeys() == old(Subkeys())
    {
      hide Holds, Primed, IsBlockCipher, Chained, Leftover, XorredAt;
      if |input| == 0 {
        assert message + input == message;
        return;
      }
      HoldsBounds(cipher, message, reg[..], counter);
      var rest := input;
      if counter > 0 {
        var len := if cipher.size - counter < |input| then cipher.size - counter else |input|;
        HoldsMore(cipher, message, reg[..], counter, input[..len]);
        XorAt(reg, counter, input[..len]);
        counter := counter + len;
        message := message + input[..len];
        rest := input[len..];
        JoinAt(old(message), input, len);
        if |rest| == 0 {
          assert message + rest == message;
          return;
        }
        PrimedByFull(cipher, message, reg[..]);
        ProcessBlock(cipher, reg);
        counter := 0;
      } else {
        HoldsNothing(cipher);
        HeldNothing(cipher, reg[..]);
        PrimedByNothing(cipher);
        assert message + rest == input;
      }
      AbsorbRest(rest);
    }

    /** The two last parts of Update, from a register with nothing held in it. */
    method AbsorbRest(input: seq<byte>)
      requires reg.Length == k1.Length == k2.Length == cipher.size && reg !in {k1, k2} && k1 != k2
      requires Primed(cipher, message, reg[..]) && counter == 0 && |input| > 0
      modifies this, reg
      ensures Valid() && message == old(message) + input && Subkeys() == old(Subkeys())
    {
      PrimedIsSound(cipher, message, reg[..]);
      HoldsAfterPriming(cipher, message, reg[..], input);
      hide Holds, Primed, IsBlockCipher, XorredAt;
      ghost var front := input[..|input| - 1];
      var rest := input;
      if |input| > cipher.size {
        var leftOver := AdvancedProcessBlocks(cipher, reg, input[..|input| - 1]);
        rest := input[|input| - 1 - leftOver..];
      }
      XorAt(reg, 0, rest);
      counter := |rest|;
      message := message + input;
    }

    method TruncatedFinal(size: nat) returns (mac: seq<byte>)
      requires Valid() && size <= cipher.size
      modifies this, reg
      ensures Valid() && message == [] && AreKeys(Subkeys()) && Subkeys() == old(Subkeys())
      ensures mac == Mac(Subkeys(), old(message))[..size]
    {
      HoldsBounds(cipher, message, reg[..], counter);
      HoldsFinal(Subkeys(), message, reg[..], counter);
      hide IsBlockCipher, Holds, Mac, XorredAt, XorBytes;
      if counter < cipher.size {
        XorAt(reg, counter, [0x80]);
        XorInto(reg, k2[..]);
      } else {
        XorInto(reg, k1[..]);
      }
      ProcessBlock(cipher, reg);
      mac := reg[..size];
      SpliceAll(reg[..], Zeroes(cipher.size));
      CopyInto(reg, 0, Zeroes(cipher.size));
      counter := 0;
      message := [];
      HoldsNothing(cipher);
    }
  }

  lemma JoinAt(m: seq<byte>, input: seq<byte>, n: nat)
    requires n <= |input|
    ensures (m + input[..n]) + input[n..] == m + input
  {
  }

  lemma HeldNothing(c: BlockCipher, reg: seq<byte>)
    requires Holds(c, [], reg, 0)
    ensures reg == Zeroes(c.size)
  {
    HoldingNothing(Zeroes(c.size));
  }

  lemma PrimedIsSound(c: BlockCipher, m: seq<byte>, reg: seq<byte>)
    requires Primed(c, m, reg)
    ensures IsBlockCipher(c) && |reg| == c.size && c.size > 0
  {
  }
}
