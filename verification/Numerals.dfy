/** Numbers written in a fixed count of bytes, most significant byte first. */
module Numerals {

  import opened AesBlock

  /** The last k bytes of n, most significant first. */
  function BigEndian(n: nat, k: nat): (b: seq<byte>)
    ensures |b| == k
  {
    if k == 0 then [] else BigEndian(n / 256, k - 1) + [(n % 256) as byte]
  }

  function Power256(k: nat): (p: nat)
    ensures p > 0
  {
    if k == 0 then 1 else 256 * Power256(k - 1)
  }

  function FromBigEndian(b: seq<byte>): nat {
    if b == [] then 0 else 256 * FromBigEndian(b[..|b| - 1]) + b[|b| - 1] as nat
  }

  /** Written in k bytes, a number below 256^k can be read back. */
  lemma {:induction false} BigEndianRoundTrip(n: nat, k: nat)
    requires n < Power256(k)
    ensures FromBigEndian(BigEndian(n, k)) == n
  {
    if k > 0 {
      QuotientBelow(n, k);
      BigEndianRoundTrip(n / 256, k - 1);
      ByteAndBack(n % 256);
      assert BigEndian(n, k)[..k - 1] == BigEndian(n / 256, k - 1);
    }
  }

  lemma QuotientBelow(n: nat, k: nat)
    requires k > 0 && n < Power256(k)
    ensures n / 256 < Power256(k - 1)
  {
  }

  /** Fewer bytes are the last of more bytes. */
  lemma {:induction false} BigEndianSuffix(n: nat, k: nat, j: nat)
    requires j <= k
    ensures BigEndian(n, k)[k - j..] == BigEndian(n, j)
  {
    if j > 0 {
      BigEndianSuffix(n / 256, k - 1, j - 1);
      var front, last := BigEndian(n / 256, k - 1), (n % 256) as byte;
      assert (front + [last])[k - j..] == front[k - j..] + [last];
    } else {
      assert BigEndian(n, k)[k..] == [];
    }
  }

  /** Every sequence of bytes writes its own value. */
  lemma {:induction false} ValueOfBlock(b: seq<byte>)
    ensures FromBigEndian(b) < Power256(|b|) && BigEndian(FromBigEndian(b), |b|) == b
    decreases |b|
  {
    hide FromBigEndian, BigEndian, Power256;
    if b == [] {
      EmptyBlock();
    } else {
      var front, last := b[..|b| - 1], b[|b| - 1];
      ValueOfBlock(front);
      OneByteMore(front, last, FromBigEndian(front));
      assert b == front + [last];
    }
  }

  lemma EmptyBlock()
    ensures FromBigEndian([]) == 0 && Power256(0) == 1 && BigEndian(0, 0) == []
  {
  }

  lemma OneByteMore(front: seq<byte>, last: byte, v: nat)
    requires v == FromBigEndian(front) && v < Power256(|front|) && BigEndian(v, |front|) == front
    ensures FromBigEndian(front + [last]) == 256 * v + last as nat < Power256(|front| + 1)
    ensures BigEndian(256 * v + last as nat, |front| + 1) == front + [last]
  {
    hide FromBigEndian, BigEndian;
    ValueOfMore(front, last);
    BytesOfMore(v, last, |front|);
  }

  lemma ValueOfMore(front: seq<byte>, last: byte)
    ensures FromBigEndian(front + [last]) == 256 * FromBigEndian(front) + last as nat
  {
    assert (front + [last])[..|front|] == front;
  }

  lemma BytesOfMore(v: nat, last: byte, k: nat)
    ensures BigEndian(256 * v + last as nat, k + 1) == BigEndian(v, k) + [last]
  {
    QuotientAndRemainder(v, last);
  }

  lemma QuotientAndRemainder(q: nat, r: byte)
    ensures (256 * q + r as nat) / 256 == q && ((256 * q + r as nat) % 256) as byte == r
  {
    ByteIsSmall(r);
    DividedBy256(q, r as nat);
  }

  lemma ByteIsSmall(r: byte)
    ensures r as nat < 256 && (r as nat) as byte == r
  {
  }

  lemma DividedBy256(q: nat, v: nat)
    requires v < 256
    ensures (256 * q + v) / 256 == q && (256 * q + v) % 256 == v
  {
  }

  /** Byte i of k has the weight 256^(k - 1 - i). */
  lemma {:induction false} BigEndianByte(n: nat, k: nat, i: nat)
    requires i < k
    ensures BigEndian(n, k)[i] as nat == n / Power256(k - 1 - i) % 256
  {
    hide Power256;
    ByteAndBack(n % 256);
    if i == k - 1 {
      PowerZero();
    } else {
      BigEndianByte(n / 256, k - 1, i);
      PowerStep(k - 1 - i);
      DividedTwice(n, 256, Power256(k - 2 - i));
    }
  }

  lemma PowerZero()
    ensures Power256(0) == 1
  {
  }

  lemma PowerStep(k: nat)
    requires k > 0
    ensures Power256(k) == 256 * Power256(k - 1)
  {
  }

  lemma DividedTwice(n: nat, a: nat, b: nat)
    requires a > 0 && b > 0
    ensures n / a / b == n / (a * b)
  {
    Regrouped(n, a, b, n / a / b, n / a % b, n % a);
  }

  lemma Regrouped(n: nat, a: nat, b: nat, q: nat, r: nat, s: nat)
    requires r < b && s < a && n == a * (b * q + r) + s
    ensures n / (a * b) == q
  {
    AtLeast(a, b - r);
    assert a * b == a * r + a * (b - r);
    assert a * (b * q + r) == a * b * q + a * r;
    QuotientIs(n, a * b, q, a * r + s);
  }

  lemma AtLeast(a: nat, k: nat)
    requires k > 0
    ensures a * k >= a
  {
  }

  lemma QuotientIs(n: nat, m: nat, q: nat, r: nat)
    requires r < m && n == m * q + r
    ensures n / m == q
  {
    var d := n / m - q;
    assert m * d == m * (n / m) - m * q;
    if d > 0 {
      AtLeast(m, d);
    } else if d < 0 {
      assert m * -d == -(m * d);
      AtLeast(m, -d);
    }
  }

  lemma RemainderIs(n: nat, m: nat, q: nat, r: nat)
    requires r < m && n == m * q + r
    ensures n % m == r
  {
    QuotientIs(n, m, q, r);
  }
}
