/** How many blocks there are: 256^n of n bytes, numbered by their big-endian values. */
module BlockCounting {

  import opened AesBlock
  import opened Numerals

  ghost predicate AreDistinct<T(!new)>(s: seq<T>) {
    forall i, j {:trigger s[i], s[j]} :: 0 <= i < j < |s| ==> s[i] != s[j]
  }

  /** Of more values than are avoided one is not avoided. */
  lemma {:induction false} NotAvoided<T(!new)>(s: seq<T>, avoid: seq<T>) returns (i: nat)
    requires AreDistinct(s) && |s| > |avoid|
    ensures i < |s| && s[i] !in avoid
    decreases |avoid|
  {
    if avoid == [] {
      i := 0;
    } else {
      var last, others := avoid[|avoid| - 1], avoid[..|avoid| - 1];
      if k: nat :| k < |s| && s[k] == last {
        var rest := s[..k] + s[k + 1..];
        Without(s, k);
        var j := NotAvoided(rest, others);
        i := if j < k then j else j + 1;
        assert s[i] == rest[j] && s[i] != last;
      } else {
        i := NotAvoided(s, others);
      }
      assert avoid == others + [last];
    }
  }

  lemma Without<T(!new)>(s: seq<T>, k: nat)
    requires AreDistinct(s) && k < |s|
    ensures AreDistinct(s[..k] + s[k + 1..])
  {
    var rest := s[..k] + s[k + 1..];
    forall i, j | 0 <= i < j < |rest| ensures rest[i] != rest[j] {
      assert rest[i] == s[if i < k then i else i + 1] && rest[j] == s[if j < k then j else j + 1];
    }
  }

  /** The first count blocks. */
  function Numbered(count: nat, n: nat): (s: seq<seq<byte>>)
    ensures |s| == count
  {
    seq(count, (v: nat) => BigEndian(v, n))
  }

  lemma NumberedAreDistinct(count: nat, n: nat)
    requires count <= Power256(n)
    ensures AreDistinct(Numbered(count, n))
  {
    hide BigEndian, FromBigEndian, Power256;
    forall i, j | 0 <= i < j < count ensures BigEndian(i, n) != BigEndian(j, n) {
      BigEndianRoundTrip(i, n);
      BigEndianRoundTrip(j, n);
    }
  }

  /** A block that is none of those avoided. */
  lemma FreshBlock(n: nat, avoid: seq<seq<byte>>) returns (b: seq<byte>)
    requires |avoid| < Power256(n)
    ensures |b| == n && b !in avoid
  {
    hide BigEndian, Power256;
    NumberedAreDistinct(|avoid| + 1, n);
    var i := NotAvoided(Numbered(|avoid| + 1, n), avoid);
    b := BigEndian(i, n);
  }

  lemma EveryBlockIsNumbered(b: seq<byte>)
    ensures b in Numbered(Power256(|b|), |b|)
  {
    hide BigEndian, FromBigEndian, Power256;
    ValueOfBlock(b);
    assert Numbered(Power256(|b|), |b|)[FromBigEndian(b)] == b;
  }

  /** Of more blocks than there are two are equal. */
  lemma TwoAreEqual(s: seq<seq<byte>>, n: nat) returns (i: nat, j: nat)
    requires |s| > Power256(n) && forall k :: 0 <= k < |s| ==> |s[k]| == n
    ensures i < j < |s| && s[i] == s[j]
  {
    hide BigEndian, FromBigEndian, Power256;
    if AreDistinct(s) {
      var all := Numbered(Power256(n), n);
      var k := NotAvoided(s, all);
      EveryBlockIsNumbered(s[k]);
      assert false;
    } else {
      i, j :| 0 <= i < j < |s| && s[i] == s[j];
    }
  }

  function Factorial(m: nat): (f: nat)
    ensures f > 0
  {
    if m == 0 then 1 else m * Factorial(m - 1)
  }

  /** Every number up to m divides m!. */
  lemma {:induction false} DividesFactorial(p: nat, m: nat) returns (q: nat)
    requires 1 <= p <= m
    ensures p * q == Factorial(m)
  {
    if p == m {
      q := Factorial(m - 1);
    } else {
      var r := DividesFactorial(p, m - 1);
      q := m * r;
      assert p * (m * r) == m * (p * r);
    }
  }
}
