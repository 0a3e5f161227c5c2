/** The checksum of RFC 1950 as two sums over the whole message, and as the number its four bytes write. */
module AdlerReference {

  import opened Adler32

  /** The sum of the bytes. */
  function Plain(data: seq<octet>): nat {
    if data == [] then 0 else data[0] + Plain(data[1..])
  }

  /** The sum of the bytes, each as often as there are bytes from it on. */
  function Weighted(data: seq<octet>): nat {
    if data == [] then 0 else |data| * data[0] + Weighted(data[1..])
  }

  lemma {:induction false} PlainOfMore(data: seq<octet>, d: octet)
    ensures Plain(data + [d]) == Plain(data) + d
  {
    if data == [] {
      assert [d][1..] == [] && data + [d] == [d];
    } else {
      assert (data + [d])[1..] == data[1..] + [d];
      PlainOfMore(data[1..], d);
    }
  }

  lemma {:induction false} WeightedOfMore(data: seq<octet>, d: octet)
    ensures Weighted(data + [d]) == Weighted(data) + Plain(data) + d
  {
    if data == [] {
      assert [d][1..] == [] && data + [d] == [d];
    } else {
      assert (data + [d])[1..] == data[1..] + [d];
      WeightedOfMore(data[1..], d);
      var n: nat, first: nat := |data|, data[0];
      assert (n + 1) * first == n * first + first;
    }
  }

  /** s1 is one more than the sum of the bytes, and s2 the sum of all values of s1 on the way, both modulo the largest
      prime below 2^16. */
  lemma {:induction false} SumsInClosedForm(data: seq<octet>)
    ensures S1(data) == (1 + Plain(data)) % 65521
    ensures S2(data) == (|data| + Weighted(data)) % 65521
  {
    hide S1, S2, Plain, Weighted;
    if data == [] {
      SumsOfNothing();
    } else {
      var n := |data| - 1;
      var front, d := data[..n], data[n];
      assert data == front + [d];
      SumsInClosedForm(front);
      SumsExtend(front, d);
    }
  }

  lemma SumsOfNothing()
    ensures S1([]) == 1 && S2([]) == 0 && Plain([]) == 0 && Weighted([]) == 0
  {
  }

  lemma SumsExtend(front: seq<octet>, d: octet)
    requires S1(front) == (1 + Plain(front)) % 65521 && S2(front) == (|front| + Weighted(front)) % 65521
    ensures S1(front + [d]) == (1 + Plain(front + [d])) % 65521
    ensures S2(front + [d]) == (|front| + 1 + Weighted(front + [d])) % 65521
  {
    hide S1, S2, Plain, Weighted;
    PlainOfMore(front, d);
    WeightedOfMore(front, d);
    OneMore(front, d);
    SumModulo(1 + Plain(front), d);
    SumModulo(|front| + Weighted(front), 1 + Plain(front) + d);
  }

  /** The four bytes are the number s2 times 2^16 plus s1, most significant first. */
  lemma BytesOfChecksum(data: seq<octet>)
    ensures var s1: nat, s2: nat := S1(data), S2(data);
            var hash := [s2 / 256, s2 % 256, s1 / 256, s1 % 256];
            0x100_0000 * hash[0] + 0x1_0000 * hash[1] + 0x100 * hash[2] + hash[3] == 0x1_0000 * s2 + s1
  {
    hide S1, S2;
  }

  /** The checksum of the letters abc. */
  lemma ChecksumOfAbc()
    ensures 0x1_0000 * S2([97, 98, 99]) + S1([97, 98, 99]) == 0x024d_0127
  {
    hide S1, S2;
    var data: seq<octet> := [97, 98, 99];
    SumsInClosedForm(data);
    assert data[1..] == [98, 99] && [98, 99][1..] == [99] && [99][1..] == [];
    TwoLetters();
  }

  lemma TwoLetters()
    ensures Plain([98, 99]) == 197 && Weighted([98, 99]) == 295
  {
    assert [98, 99][1..] == [99] && [99][1..] == [];
    assert Plain([99]) == 99 && Weighted([99]) == 99;
  }
}
