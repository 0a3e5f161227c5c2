/** What X.690 says of lengths, subidentifiers and integers as strings of digits, and that the printers give the
    shortest strings and the parsers accept exactly the right ones. */
module DerReference {

  import opened Der
  import opened Numerals

  // ---------- positional notation ----------

  /** The number whose digits to the base are s, the most significant first. */
  function Numeral(base: nat, s: seq<nat>): nat {
    if s == [] then 0 else base * Numeral(base, s[..|s| - 1]) + s[|s| - 1]
  }

  predicate AreDigits(base: nat, s: seq<nat>) {
    forall i :: 0 <= i < |s| ==> s[i] < base
  }

  lemma LastDigit(base: nat, front: seq<nat>, last: nat)
    ensures Numeral(base, front + [last]) == base * Numeral(base, front) + last
  {
    assert (front + [last])[..|front|] == front;
  }

  lemma SameQuotient(base: nat, q: nat, r: nat, u: nat, v: nat)
    requires r < base && v < base && base * q + r == base * u + v
    ensures q == u && r == v
  {
    QuotientIs(base * q + r, base, q, r);
    QuotientIs(base * q + r, base, u, v);
  }

  lemma {:induction false} NotZero(base: nat, t: seq<nat>)
    requires base > 0 && t != [] && t[0] > 0
    ensures Numeral(base, t) > 0
    decreases |t|
  {
    if |t| > 1 {
      NotZero(base, t[..|t| - 1]);
      assert base * Numeral(base, t[..|t| - 1]) > 0;
    }
  }

  /** No string of digits for a number is shorter than one that does not start with a zero, and no other string is as
      short. */
  lemma {:induction false} Fewest(base: nat, s: seq<nat>, t: seq<nat>)
    requires base > 1 && AreDigits(base, s) && AreDigits(base, t) && Numeral(base, s) == Numeral(base, t)
    requires t != [] && t[0] > 0
    ensures |t| <= |s| && (|t| == |s| ==> s == t)
    decreases |t|
  {
    NotZero(base, t);
    assert s != [];
    var m, n := |s| - 1, |t| - 1;
    SameQuotient(base, Numeral(base, s[..m]), s[m], Numeral(base, t[..n]), t[n]);
    if n > 0 {
      Fewest(base, s[..m], t[..n]);
    }
    if m == n && n > 0 {
      assert s == s[..m] + [s[m]] && t == t[..n] + [t[n]];
    }
  }

  /** Strings of digits of one length for one number are the same. */
  lemma {:induction false} SameLength(base: nat, s: seq<nat>, t: seq<nat>)
    requires base > 1 && AreDigits(base, s) && AreDigits(base, t) && Numeral(base, s) == Numeral(base, t)
    requires |s| == |t|
    ensures s == t
    decreases |t|
  {
    if s != [] {
      var n := |t| - 1;
      SameQuotient(base, Numeral(base, s[..n]), s[n], Numeral(base, t[..n]), t[n]);
      SameLength(base, s[..n], t[..n]);
      assert s == s[..n] + [s[n]] && t == t[..n] + [t[n]];
    }
  }

  // ---------- bytes ----------

  lemma {:induction false} FromBytesIsNumeral(b: seq<octet>)
    ensures FromBytes(0, b) == Numeral(256, b)
  {
    if b != [] {
      var n := |b| - 1;
      FromBytesIsNumeral(b[..n]);
      FromBytesLast(0, b[..n], b[n]);
      assert b == b[..n] + [b[n]];
    }
  }

  lemma OctetsAreDigits(b: seq<octet>)
    ensures AreDigits(256, b)
  {
  }

  lemma BytesOfNumber(n: nat)
    ensures Numeral(256, Bytes(n, NumBytes(n))) == n && (n > 0 ==> NumBytes(n) > 0 && Bytes(n, NumBytes(n))[0] > 0)
  {
    hide Bytes, NumBytes, Numeral;
    BytesRoundTrip(n, NumBytes(n));
    FromBytesIsNumeral(Bytes(n, NumBytes(n)));
    if n > 0 {
      FirstByteNotZero(n);
    }
  }

  // ---------- lengths ----------

  /** h is a definite length n in one of the two forms of section 8.1.3 of X.690: one byte below 128, or the count of
      the bytes that follow with the high bit set, and those bytes. */
  predicate IsLength(h: seq<octet>, n: nat) {
    || (|h| == 1 && h[0] < 128 && n == h[0])
    || (|h| > 1 && h[0] == 128 + (|h| - 1) && n == Numeral(256, h[1..]))
  }

  lemma {:induction false} FromBytesGrows(acc: nat, b: seq<octet>)
    ensures FromBytes(acc, b) >= acc && (b != [] ==> FromBytes(acc, b) >= acc * 256)
    decreases |b|
  {
    if b != [] {
      FromBytesGrows(acc * 256 + b[0], b[1..]);
    }
  }

  /** Reading count bytes succeeds exactly when they are there and the number fits in 64 bits. */
  lemma {:induction false} ReadLengthIff(acc: nat, count: nat, s: seq<octet>)
    requires acc < LWORD
    ensures ReadLength(acc, count, s).Definite? <==> count <= |s| && FromBytes(acc, s[..count]) < LWORD
    ensures ReadLength(acc, count, s).Definite? ==>
      count <= |s| && ReadLength(acc, count, s) == Definite(FromBytes(acc, s[..count]), s[count..])
    ensures !ReadLength(acc, count, s).Indefinite?
    decreases count
  {
    if count == 0 {
      assert s[..0] == [] && s[0..] == s;
    } else if acc >= 0x100_0000_0000_0000 {
      if count <= |s| {
        FromBytesGrows(acc, s[..count]);
      }
    } else if s != [] {
      ReadLengthIff(acc * 256 + s[0], count - 1, s[1..]);
      if count <= |s| {
        assert s[..count][1..] == s[1..][..count - 1] && s[1..][count - 1..] == s[count..];
      }
    }
  }

  /** What the parser reads as a definite length is one. */
  lemma ParsedIsLength(s: seq<octet>, n: nat, rest: seq<octet>)
    requires ParseLength(s) == Definite(n, rest)
    ensures |rest| < |s| && n < LWORD
    ensures var h := s[..|s| - |rest|]; s == h + rest && IsLength(h, n)
  {
    hide ReadLength, FromBytes, Numeral;
    if s[0] < 0x80 {
      assert s[..1] + s[1..] == s;
    } else {
      var k := s[0] - 0x80;
      ReadLengthIff(0, k, s[1..]);
      FromBytesIsNumeral(s[1..][..k]);
      var h := s[..1 + k];
      assert h[1..] == s[1..][..k] && s[1..][k..] == s[1 + k..] && h + s[1 + k..] == s;
    }
  }

  /** And every definite length below 2^64 is read as one, with nothing after it consumed. */
  lemma LengthIsParsed(h: seq<octet>, n: nat, rest: seq<octet>)
    requires IsLength(h, n) && n < LWORD
    ensures ParseLength(h + rest) == Definite(n, rest)
  {
    hide ReadLength, FromBytes, Numeral;
    var s := h + rest;
    assert s[1..] == h[1..] + rest;
    if h[0] < 128 {
      assert s[1..] == rest;
    } else {
      var k := |h| - 1;
      assert s[1..][..k] == h[1..] && s[1..][k..] == rest;
      FromBytesIsNumeral(h[1..]);
      ReadLengthIff(0, k, s[1..]);
    }
  }

  lemma DerLengthIsLength(n: nat)
    requires n < LWORD
    ensures IsLength(DerLength(n), n)
    ensures |DerLength(n)| > 1 ==> DerLength(n)[1] != 0
  {
    hide Bytes, NumBytes, Numeral;
    if n > 0x7f {
      BytesOfNumber(n);
      FewBytes(n);
      assert DerLength(n)[1..] == Bytes(n, NumBytes(n));
    }
  }

  /** The printed length is the shortest of all that parse to the number, and the only one that short. */
  lemma DerLengthIsShortest(n: nat, s: seq<octet>)
    requires n < LWORD && ParseLength(s) == Definite(n, [])
    ensures |DerLength(n)| <= |s| && (|s| == |DerLength(n)| ==> s == DerLength(n))
  {
    hide Bytes, NumBytes, Numeral, ParseLength, AreDigits;
    ParsedIsLength(s, n, []);
    assert s[..|s|] == s;
    if n > 0x7f {
      var t := Bytes(n, NumBytes(n));
      BytesOfNumber(n);
      FewBytes(n);
      OctetsAreDigits(t);
      OctetsAreDigits(s[1..]);
      Fewest(256, s[1..], t);
      assert s == [s[0]] + s[1..];
    }
  }

  // ---------- subidentifiers ----------

  /** The digits to the base 128, without the marks. */
  function Unmarked(s: seq<octet>): (d: seq<nat>)
    ensures |d| == |s|
  {
    seq(|s|, i requires 0 <= i < |s| => s[i] % 128)
  }

  /** s is v as section 8.19.2 of X.690 writes it, leading zeros aside: all bytes but the last have the high bit set. */
  predicate IsArc(s: seq<octet>, v: nat) {
    && s != [] && s[|s| - 1] < 128 && (forall i :: 0 <= i < |s| - 1 ==> s[i] >= 128)
    && Numeral(128, Unmarked(s)) == v
  }

  lemma UnmarkedOfMore(s: seq<octet>, d: octet)
    ensures Unmarked(s + [d]) == Unmarked(s) + [d % 128]
  {
  }

  lemma {:induction false} MarkedDigits(v: nat)
    ensures Marked(v) != [] && Numeral(128, Unmarked(Marked(v))) == v
    ensures forall i :: 0 <= i < |Marked(v)| ==> Marked(v)[i] >= 128
    ensures v > 0 ==> Marked(v)[0] > 128
  {
    hide Unmarked, Numeral;
    var front := if v < 128 then [] else Marked(v / 128);
    UnmarkedOfMore(front, 128 + v % 128);
    LastDigit(128, Unmarked(front), v % 128);
    if v < 128 {
      NoDigits();
    } else {
      MarkedDigits(v / 128);
    }
  }

  lemma NoDigits()
    ensures Unmarked([]) == [] && Numeral(128, []) == 0
  {
  }

  /** The printed subidentifier is one, and its first byte is not 0x80. */
  lemma ArcIsArc(v: nat)
    ensures IsArc(Arc(v), v) && Arc(v)[0] != 128
  {
    hide Unmarked, Numeral, Marked;
    var front := MarkedBefore(v);
    UnmarkedOfMore(front, v % 128);
    LastDigit(128, Unmarked(front), v % 128);
    if v < 128 {
      NoDigits();
    } else {
      MarkedDigits(v / 128);
    }
  }

  lemma UnmarkedAreDigits(s: seq<octet>)
    ensures AreDigits(128, Unmarked(s))
  {
  }

  lemma SameMarks(s: seq<octet>, v: nat, t: seq<octet>, w: nat)
    requires IsArc(s, v) && IsArc(t, w) && Unmarked(s) == Unmarked(t)
    ensures s == t
  {
    forall i | 0 <= i < |s| ensures s[i] == t[i] {
      assert Unmarked(s)[i] == Unmarked(t)[i];
    }
  }

  /** The shortest of all that stand for the number, and the only one that short. */
  lemma ArcIsShortest(v: nat, s: seq<octet>)
    requires IsArc(s, v)
    ensures |Arc(v)| <= |s| && (|s| == |Arc(v)| ==> s == Arc(v))
  {
    hide Numeral, AreDigits, Arc, Unmarked;
    var t := Arc(v);
    ArcIsArc(v);
    UnmarkedAreDigits(s);
    UnmarkedAreDigits(t);
    if |t| > 1 {
      LeadingDigit(t, v);
      Fewest(128, Unmarked(s), Unmarked(t));
    }
    if |s| == |t| {
      SameLength(128, Unmarked(s), Unmarked(t));
      SameMarks(s, v, t, v);
    }
  }

  lemma LeadingDigit(t: seq<octet>, v: nat)
    requires IsArc(t, v) && |t| > 1 && t[0] != 128
    ensures Unmarked(t)[0] > 0
  {
  }

  /** Reading digits onto acc succeeds exactly on a subidentifier whose number fits in 32 bits. */
  lemma {:induction false} ParseValueIff(acc: nat, used: nat, s: seq<octet>)
    requires acc < WORD
    ensures ParseValue(acc, used, s).Value? ==>
      var r := ParseValue(acc, used, s);
      && |r.rest| < |s| && r.used == used + |s| - |r.rest| && r.v == Onto(acc, s[..|s| - |r.rest|]) < WORD
      && IsMarked(s[..|s| - |r.rest|]) && s[|s| - |r.rest|..] == r.rest
    decreases |s|
  {
    if s != [] && acc < 0x200_0000 {
      if s[0] < 128 {
        assert s[..1][1..] == [] && s[..1] == [s[0]];
      } else {
        ParseValueIff(acc * 128 + (s[0] - 128), used + 1, s[1..]);
        var r := ParseValue(acc, used, s);
        if r.Value? {
          var n := |s| - |r.rest|;
          assert s[..n][1..] == s[1..][..n - 1] && s[1..][n - 1..] == s[n..];
          MarkedMore(s[..n]);
        }
      }
    }
  }

  predicate IsMarked(s: seq<octet>) {
    s != [] && s[|s| - 1] < 128 && forall i :: 0 <= i < |s| - 1 ==> s[i] >= 128
  }

  lemma MarkedMore(s: seq<octet>)
    requires |s| > 1 && s[0] >= 128 && IsMarked(s[1..])
    ensures IsMarked(s)
  {
    forall i | 0 <= i < |s| - 1 ensures s[i] >= 128 {
      if i > 0 { assert s[1..][i - 1] >= 128; }
    }
  }

  /** The number whose digits to the base 128 follow those already read into acc. */
  function Onto(acc: nat, s: seq<octet>): nat
    decreases |s|
  {
    if s == [] then acc else Onto(acc * 128 + s[0] % 128, s[1..])
  }

  lemma {:induction false} OntoLast(acc: nat, s: seq<octet>, d: octet)
    ensures Onto(acc, s + [d]) == 128 * Onto(acc, s) + d % 128
    decreases |s|
  {
    if s == [] {
      assert ([d])[1..] == [] && [] + [d] == [d];
    } else {
      assert (s + [d])[1..] == s[1..] + [d];
      OntoLast(acc * 128 + s[0] % 128, s[1..], d);
    }
  }

  lemma {:induction false} OntoIsNumeral(s: seq<octet>)
    ensures Onto(0, s) == Numeral(128, Unmarked(s))
  {
    hide Unmarked;
    if s == [] {
      NoDigits();
    } else {
      var n := |s| - 1;
      OntoIsNumeral(s[..n]);
      OntoLast(0, s[..n], s[n]);
      UnmarkedOfMore(s[..n], s[n]);
      assert s == s[..n] + [s[n]];
      LastDigit(128, Unmarked(s[..n]), s[n] % 128);
    }
  }

  /** What the parser reads as a value is a subidentifier of 32 bits. */
  lemma ParsedIsArc(s: seq<octet>, v: nat, used: nat, rest: seq<octet>)
    requires ParseValue(0, 0, s) == Value(v, used, rest)
    ensures used <= |s| && s == s[..used] + rest && IsArc(s[..used], v) && v < WORD
  {
    hide Numeral, Unmarked, Onto, ParseValue, IsMarked, IsArc;
    ParseValueIff(0, 0, s);
    OntoIsNumeral(s[..used]);
    MarkedIsArc(s[..used], v);
    assert s == s[..used] + s[used..];
  }

  lemma MarkedIsArc(s: seq<octet>, v: nat)
    requires IsMarked(s) && Numeral(128, Unmarked(s)) == v
    ensures IsArc(s, v)
  {
  }

  lemma {:induction false} OntoGrows(acc: nat, s: seq<octet>)
    ensures Onto(acc, s) >= acc && (s != [] ==> Onto(acc, s) >= 128 * acc)
    decreases |s|
  {
    if s != [] {
      OntoGrows(acc * 128 + s[0] % 128, s[1..]);
    }
  }

  lemma {:induction false} MarkedIsParsed(acc: nat, used: nat, s: seq<octet>, rest: seq<octet>)
    requires IsMarked(s) && Onto(acc, s) < WORD
    ensures ParseValue(acc, used, s + rest) == Value(Onto(acc, s), used + |s|, rest)
    decreases |s|
  {
    OntoGrows(acc, s);
    assert (s + rest)[1..] == s[1..] + rest;
    if |s| == 1 {
      assert s[1..] == [] && s[1..] + rest == rest;
    } else {
      MarkedIsParsed(acc * 128 + s[0] % 128, used + 1, s[1..], rest);
    }
  }

  /** And every subidentifier of 32 bits is read as one. */
  lemma ArcIsParsed(s: seq<octet>, v: nat, rest: seq<octet>)
    requires IsArc(s, v) && v < WORD
    ensures ParseValue(0, 0, s + rest) == Value(v, |s|, rest)
  {
    hide Numeral, Unmarked, Onto, ParseValue;
    OntoIsNumeral(s);
    MarkedIsParsed(0, 0, s, rest);
  }

  // ---------- object identifiers ----------

  /** 1.2.840.113549, an example every implementation is compared with. */
  lemma RsaIdentifier()
    ensures Encoded([1, 2, 840, 113549]) == [0x06, 0x06, 0x2a, 0x86, 0x48, 0x86, 0xf7, 0x0d]
  {
    var values := [1, 2, 840, 113549];
    assert values[2..] == [840, 113549] && [840, 113549][1..] == [113549] && [113549][1..] == [];
    TwoDigits();
    ThreeDigits();
    assert Arcs(values[2..]) == Arc(840) + (Arc(113549) + Arcs([]));
    hide Arc;
  }

  lemma TwoDigits()
    ensures Arc(840) == [0x86, 0x48]
  {
    assert Marked(6) == [0x86];
  }

  lemma ThreeDigits()
    ensures Arc(113549) == [0x86, 0xf7, 0x0d]
  {
    assert Marked(6) == [0x86];
    assert Marked(887) == [0x86, 0xf7];
  }

  // ---------- unsigned integers ----------

  /** c is w in binary, not negative when read as two's complement: the contents of an INTEGER, section 8.3 of X.690. */
  predicate IsNonNegative(c: seq<octet>, w: nat) {
    c != [] && c[0] < 128 && Numeral(256, c) == w
  }

  lemma {:induction false} ZeroInFrontOf(d: seq<octet>)
    ensures Numeral(256, [0] + d) == Numeral(256, d)
  {
    hide FromBytes;
    FromBytesIsNumeral(d);
    FromBytesIsNumeral([0] + d);
    ZeroInFront(d);
  }

  lemma DigitsAre(w: nat)
    ensures Numeral(256, Digits(w)) == w && (w > 0 ==> Digits(w)[0] > 0) && (w == 0 ==> Digits(w) == [0])
  {
    hide Bytes, NumBytes, Numeral, FromBytes;
    DigitsRoundTrip(w);
    FromBytesIsNumeral(Digits(w));
    if w > 0 {
      FirstByteNotZero(w);
    } else {
      ZeroDigits();
    }
  }

  lemma ContentsAre(w: nat)
    ensures IsNonNegative(Contents(w), w)
  {
    hide Digits, Numeral;
    DigitsAre(w);
    ZeroInFrontOf(Digits(w));
  }

  /** The printed contents are the shortest that stand for the number, and the only ones that short. */
  lemma ContentsAreShortest(w: nat, c: seq<octet>)
    requires IsNonNegative(c, w)
    ensures |Contents(w)| <= |c| && (|c| == |Contents(w)| ==> c == Contents(w))
  {
    hide Digits, Numeral, AreDigits;
    var d := Digits(w);
    DigitsAre(w);
    ContentsAre(w);
    OctetsAreDigits(c);
    OctetsAreDigits(d);
    OctetsAreDigits(Contents(w));
    if w > 0 {
      Fewest(256, c, d);
    }
    if |c| == |Contents(w)| {
      SameLength(256, c, Contents(w));
    }
  }

  lemma {:induction false} StrippedKeeps(b: seq<octet>)
    ensures Numeral(256, Stripped(b)) == Numeral(256, b)
    ensures |Stripped(b)| > 4 ==> Stripped(b)[0] > 0
    decreases |b|
  {
    hide Numeral;
    if |b| > 4 && b[0] == 0 {
      StrippedKeeps(b[1..]);
      ZeroInFrontOf(b[1..]);
      assert b == [0] + b[1..];
    }
  }

  lemma {:induction false} ManyDigits(b: seq<octet>)
    requires |b| >= 4
    ensures |b| > 4 && b[0] > 0 ==> Numeral(256, b) >= WORD
    ensures |b| == 4 ==> Numeral(256, b) < WORD && (b[0] > 0 ==> Numeral(256, b) >= 0x100_0000)
    decreases |b|
  {
    if |b| > 4 {
      ManyDigits(b[..|b| - 1]);
    } else {
      assert b[..3][..2] == b[..2] && b[..2][..1] == b[..1] && b[..1][..0] == [];
      var first: nat, second: nat, third: nat := b[0], b[1], b[2];
      assert Numeral(256, b[..1]) == first;
      assert Numeral(256, b[..2]) == 256 * first + second;
      assert Numeral(256, b[..3]) == 256 * (256 * first + second) + third;
    }
  }

  lemma {:induction false} FewDigits(b: seq<octet>)
    requires |b| <= 4
    ensures Numeral(256, b) < WORD
  {
    if |b| == 4 {
      ManyDigits(b);
    } else {
      ShortDigits(b);
    }
  }

  lemma {:induction false} ShortDigits(b: seq<octet>)
    requires |b| <= 3
    ensures Numeral(256, b) < Top(|b|)
  {
    if b != [] {
      ShortDigits(b[..|b| - 1]);
    }
  }

  lemma FourDigits(b: seq<octet>)
    ensures |Stripped(b)| <= 4 <==> Numeral(256, b) < WORD
  {
    hide Numeral, Stripped;
    StrippedKeeps(b);
    if |Stripped(b)| > 4 {
      ManyDigits(Stripped(b));
    } else {
      FewDigits(Stripped(b));
    }
  }

  /** The parser accepts exactly: the tag, a definite length of bytes that are there, and in them a number of 32 bits
      within the bounds, the first bit not being taken for a sign; and it stops behind them. */
  lemma ParseUnsignedIff(s: seq<octet>, tag: octet, minValue: nat, maxValue: nat, w: nat, rest: seq<octet>)
    ensures ParseUnsigned(s, tag, minValue, maxValue) == Unsigned(w, rest) <==>
            && s != [] && s[0] == tag && ParseLength(s[1..]).Definite?
            && var l := ParseLength(s[1..]);
            && l.n <= |l.rest| && rest == l.rest[l.n..] && w == Numeral(256, l.rest[..l.n])
            && w < WORD && minValue <= w <= maxValue
  {
    hide Numeral, Stripped, ParseLength, FromBytes;
    if s != [] && s[0] == tag {
      var l := ParseLength(s[1..]);
      if l.Definite? && l.n <= |l.rest| {
        var b := l.rest[..l.n];
        StrippedKeeps(b);
        FourDigits(b);
        FromBytesIsNumeral(Stripped(b));
      }
    }
  }
}
