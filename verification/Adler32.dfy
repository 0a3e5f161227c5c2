/** Adler32 of adler32.cpp: delayed reduction that never leaves 32 bits and ends with the checksum of RFC 1950. */
module Adler32 {

  type octet = n: nat | n < 256

  const BASE: nat := 65521

  /** What an unsigned long of 32 bits holds. */
  const WORD: nat := 0x1_0000_0000

  // ---------- the checksum of section 2.2 of RFC 1950 ----------

  function S1(data: seq<octet>): (s: nat)
    ensures s < BASE
  {
    if data == [] then 1 else (S1(data[..|data| - 1]) + data[|data| - 1]) % BASE
  }

  function S2(data: seq<octet>): (s: nat)
    ensures s < BASE
  {
    if data == [] then 0 else (S2(data[..|data| - 1]) + S1(data)) % BASE
  }

  /** s1 and s2 are the sums of data, not yet reduced. */
  ghost predicate Sums(data: seq<octet>, s1: nat, s2: nat) {
    s1 % BASE == S1(data) && s2 % BASE == S2(data)
  }

  lemma SumModulo(a: nat, b: nat)
    ensures (a % BASE + b) % BASE == (a + b) % BASE && (a % BASE + b % BASE) % BASE == (a + b) % BASE
  {
  }

  lemma SumsStep(data: seq<octet>, s1: nat, s2: nat, d: octet)
    requires Sums(data, s1, s2)
    ensures Sums(data + [d], s1 + d, s2 + (s1 + d))
  {
    hide S1, S2;
    SumModulo(s1, d);
    SumModulo(s2, s1 + d);
    OneMore(data, d);
  }

  lemma OneMore(data: seq<octet>, d: octet)
    ensures S1(data + [d]) == (S1(data) + d) % BASE && S2(data + [d]) == (S2(data) + S1(data + [d])) % BASE
  {
    assert (data + [d])[..|data|] == data;
  }

  /** A sum below twice the base is reduced by one subtraction. */
  lemma OneSubtraction(s: nat)
    requires BASE <= s < 2 * BASE
    ensures (s - BASE) % BASE == s % BASE && s - BASE < BASE
  {
  }

  lemma AlreadyReduced(s: nat)
    requires s < BASE
    ensures s % BASE == s
  {
  }

  // ---------- the bounds ----------

  /** The most that s1 can be while up to n bytes have been added to a reduced value. */
  function TopS1(n: nat): nat { BASE - 1 + 255 * n }

  /** With a multiple of 8 bytes to go, how many of them were added to s2 since it was last reduced. */
  function Unreduced(length: nat): nat {
    if length % 0x8000 == 0 then 0 else 0x8000 - length % 0x8000
  }

  /** What s2 cannot reach: reduced, and then at most TopS1(8) a byte. */
  function BoundS2(length: nat): nat { BASE + TopS1(8) * Unreduced(length) }

  lemma BoundIsBelowWord(length: nat)
    requires length % 8 == 0 && length > 0
    ensures BoundS2(length) + 8 * TopS1(8) <= WORD
    ensures (length - 8) % 0x8000 != 0 ==> BoundS2(length) + 8 * TopS1(8) <= BoundS2(length - 8)
  {
    if length % 0x8000 != 0 {
      assert Unreduced(length) <= 0x8000 - 8;
    }
  }

  class Adler {
    var s1: nat
    var s2: nat
    /** What has been fed in since the last reset. */
    ghost var message: seq<octet>

    ghost predicate Valid()
      reads this
    {
      s1 == S1(message) && s2 == S2(message)
    }

    constructor ()
      ensures Valid() && message == []
    {
      s1, s2 := 1, 0;
      message := [];
    }

    /** s1 += d; s2 += s1, within 32 bits */
    method Accumulate(a: nat, b: nat, d: octet, ghost data: seq<octet>) returns (c: nat, e: nat)
      requires Sums(data, a, b) && a + d < WORD && b + (a + d) < WORD
      ensures Sums(data + [d], c, e) && c == a + d && e == b + c && c < WORD && e < WORD
    {
      SumsStep(data, a, b, d);
      c := a + d;
      e := b + c;
    }

    /** Up to seven bytes, until the rest is a multiple of eight. */
    method Unaligned(input: seq<octet>) returns (a: nat, b: nat, used: nat)
      requires Valid() && |input| % 8 != 0
      ensures used == |input| % 8 && a < BASE && b < BASE && Sums(message + input[..used], a, b)
    {
      hide Sums, S1, S2;
      a, b, used := s1, s2, 0;
      var length := |input|;
      ReducedSums();
      assert message + input[..0] == message;
      while true
        invariant used <= 6 && used + length == |input| && length % 8 == |input| % 8 - used && length % 8 != 0
        invariant a <= TopS1(used) && b <= BASE - 1 + used * TopS1(7) && Sums(message + input[..used], a, b)
        decreases length
      {
        assert (message + input[..used]) + [input[used]] == message + input[..used + 1];
        a, b := Accumulate(a, b, input[used], message + input[..used]);
        used := used + 1;
        length := length - 1;
        if length % 8 == 0 { break; }
      }
      a, b := Reduce(a, b, true, message + input[..used]);
    }

    lemma ReducedSums()
      requires Valid()
      ensures Sums(message, s1, s2)
    {
      AlreadyReduced(s1);
      AlreadyReduced(s2);
    }

    /** if (s1 >= BASE) s1 -= BASE, and s2 %= BASE when it is time */
    method Reduce(a: nat, b: nat, whole: bool, ghost data: seq<octet>) returns (c: nat, e: nat)
      requires a < 2 * BASE && Sums(data, a, b)
      ensures c < BASE && (if whole then e < BASE else e == b) && Sums(data, c, e)
    {
      hide S1, S2;
      c, e := a, b;
      if c >= BASE {
        OneSubtraction(c);
        c := c - BASE;
      }
      if whole {
        e := e % BASE;
        AlreadyReduced(e);
      }
    }

    /** Eight bytes without a reduction. */
    method Eight(a: nat, b: nat, d: seq<octet>, ghost data: seq<octet>) returns (c: nat, e: nat)
      requires |d| == 8 && a < BASE && b + 8 * TopS1(8) < WORD && Sums(data, a, b)
      ensures c <= TopS1(8) && e <= b + 8 * TopS1(8) && Sums(data + d, c, e)
    {
      hide Sums;
      c, e := a, b;
      assert data + d[..0] == data;
      for i := 0 to 8
        invariant c <= TopS1(i) && e <= b + i * TopS1(8) && Sums(data + d[..i], c, e)
      {
        assert (data + d[..i]) + [d[i]] == data + d[..i + 1];
        c, e := Accumulate(c, e, d[i], data + d[..i]);
      }
      assert data + d[..8] == data + d;
    }

    method Update(input: seq<octet>)
      modifies this
      requires Valid()
      ensures Valid() && message == old(message) + input
    {
      hide Sums, S1, S2, BoundS2;
      ReducedSums();
      var a, b, used := s1, s2, 0;
      assert message + input[..0] == message;
      if |input| % 8 != 0 {
        a, b, used := Unaligned(input);
      }
      a, b := Aligned(a, b, input[used..], message + input[..used]);
      assert (message + input[..used]) + input[used..] == message + input;
      SumsReduced(message + input, a, b);
      s1, s2 := a, b;
      message := message + input;
    }

    lemma SumsReduced(data: seq<octet>, a: nat, b: nat)
      requires Sums(data, a, b) && a < BASE && b < BASE
      ensures a == S1(data) && b == S2(data)
    {
    }

    method Aligned(a0: nat, b0: nat, input: seq<octet>, ghost data: seq<octet>) returns (a: nat, b: nat)
      requires |input| % 8 == 0 && a0 < BASE && b0 < BASE && Sums(data, a0, b0)
      ensures a < BASE && b < BASE && Sums(data + input, a, b)
    {
      hide Sums, Unreduced;
      a, b := a0, b0;
      var length: nat, used: nat := |input|, 0;
      assert data + input[..0] == data;
      while length > 0
        invariant length % 8 == 0 && used + length == |input| && a < BASE && b < BoundS2(length)
        invariant Sums(data + input[..used], a, b)
      {
        BoundIsBelowWord(length);
        Extended(data, input, used, 8);
        a, b := Eight(a, b, input[used..used + 8], data + input[..used]);
        length := length - 8;
        used := used + 8;
        a, b := Reduce(a, b, length % 0x8000 == 0, data + input[..used]);
      }
      assert input[..used] == input;
      AllReduced();
    }

    lemma Extended(data: seq<octet>, input: seq<octet>, i: nat, n: nat)
      requires i + n <= |input|
      ensures (data + input[..i]) + input[i..i + n] == data + input[..i + n]
    {
    }

    lemma AllReduced()
      ensures BoundS2(0) == BASE
    {
    }

    /** The bytes of s2 and then of s1, most significant first, as many as asked for; then a fresh start. More than four
        are refused. */
    method TruncatedFinal(size: nat) returns (ok: bool, hash: seq<octet>)
      requires Valid()
      modifies this
      ensures Valid() && ok == (size <= 4)
      ensures ok ==> message == []
      ensures ok ==>
        hash == [S2(old(message)) / 256, S2(old(message)) % 256, S1(old(message)) / 256, S1(old(message)) % 256][..size]
      ensures !ok ==> hash == [] && message == old(message) && s1 == old(s1) && s2 == old(s2)
    {
      ok, hash := size <= 4, [];
      if !ok {
        return;
      }
      hash := [s2 / 256, s2 % 256, s1 / 256, s1 % 256][..size];
      s1, s2 := 1, 0;
      message := [];
    }
  }
}
