/** `GeneralCascadeMultiplication`: a sum of multiples of different bases by repeated division of the
    largest exponent by the next largest one, with the pairs kept in a heap. */
module GeneralCascade {
  import opened Groups
  import opened SimultaneousMultiplication
  import opened CascadeMultiplication

  datatype BaseAndExponent<T> = BaseAndExponent(base: T, exponent: nat)

  // ---------- the heap of <algorithm>, ordered by exponent ----------

  function Parent(i: nat): nat
    requires i > 0
  {
    (i - 1) / 2
  }

  ghost predicate BelowParent<T>(s: seq<BaseAndExponent<T>>, i: nat) {
    0 < i < |s| ==> s[i].exponent <= s[Parent(i)].exponent
  }

  ghost predicate BelowGrandparent<T>(s: seq<BaseAndExponent<T>>, i: nat) {
    0 < i < |s| && Parent(i) > 0 ==> s[i].exponent <= s[Parent(Parent(i))].exponent
  }

  ghost predicate IsHeap<T>(s: seq<BaseAndExponent<T>>, n: nat) {
    forall i :: 0 < i < n ==> BelowParent(s, i)
  }

  /** A heap except that entry i may be larger than its parent. */
  ghost predicate RisingAt<T>(s: seq<BaseAndExponent<T>>, n: nat, i: nat) {
    && (forall k :: 0 < k < n && k != i ==> BelowParent(s, k))
    && (forall k :: 0 < k < n && Parent(k) == i ==> BelowGrandparent(s, k))
  }

  /** A heap except that entry i may be smaller than its children. */
  ghost predicate SinkingAt<T>(s: seq<BaseAndExponent<T>>, n: nat, i: nat) {
    && (forall k :: 0 < k < n && Parent(k) != i ==> BelowParent(s, k))
    && (forall k :: 0 < k < n && Parent(k) == i ==> BelowGrandparent(s, k))
  }

  function Swap<T>(s: seq<T>, i: nat, j: nat): (t: seq<T>)
    requires i < |s| && j < |s|
    ensures multiset(t) == multiset(s)
  {
    s[i := s[j]][j := s[i]]
  }

  lemma {:induction false} TopIsLargest<T>(s: seq<BaseAndExponent<T>>, n: nat, i: nat)
    requires i < n <= |s| && IsHeap(s, n)
    ensures s[i].exponent <= s[0].exponent
  {
    if i > 0 {
      assert BelowParent(s, i);
      TopIsLargest(s, n, Parent(i));
    }
  }

  lemma RiseStep<T>(s: seq<BaseAndExponent<T>>, n: nat, i: nat)
    requires 0 < i < n <= |s| && RisingAt(s, n, i) && s[Parent(i)].exponent < s[i].exponent
    ensures RisingAt(Swap(s, Parent(i), i), n, Parent(i))
  {
    var p, t := Parent(i), Swap(s, Parent(i), i);
    forall k | 0 < k < n && k != p
      ensures BelowParent(t, k)
    {
      assert k == i || BelowParent(s, k);
      assert Parent(k) == i ==> BelowGrandparent(s, k);
    }
    forall k | 0 < k < n && Parent(k) == p
      ensures BelowGrandparent(t, k)
    {
      assert k == i || BelowParent(s, k);
      assert p > 0 ==> BelowParent(s, p);
    }
  }

  lemma SinkStep<T>(s: seq<BaseAndExponent<T>>, n: nat, i: nat, c: nat)
    requires 0 < c < n <= |s| && Parent(c) == i && SinkingAt(s, n, i) && s[i].exponent < s[c].exponent
    requires forall k :: 0 < k < n && Parent(k) == i ==> s[k].exponent <= s[c].exponent
    ensures SinkingAt(Swap(s, i, c), n, c)
  {
    var t := Swap(s, i, c);
    forall k | 0 < k < n && Parent(k) != c
      ensures BelowParent(t, k)
    {
      assert Parent(k) != i ==> BelowParent(s, k);
      assert BelowGrandparent(s, c);
    }
    forall k | 0 < k < n && Parent(k) == c
      ensures BelowGrandparent(t, k)
    {
      assert BelowParent(s, k);
    }
  }

  /** std::push_heap on a[..n]: a[..n-1] is a heap, a[n-1] is inserted. */
  method PushHeap<T>(a: array<BaseAndExponent<T>>, n: nat)
    requires 0 < n <= a.Length && IsHeap(a[..], n - 1)
    modifies a
    ensures IsHeap(a[..], n) && multiset(a[..]) == old(multiset(a[..]))
  {
    hide IsHeap;
    var i: nat := n - 1;
    StartRising(a[..], n);
    while i > 0 && a[Parent(i)].exponent < a[i].exponent
      invariant i < n && RisingAt(a[..], n, i) && multiset(a[..]) == old(multiset(a[..]))
    {
      RiseStep(a[..], n, i);
      var p := Parent(i);
      ghost var t := Swap(a[..], p, i);
      a[p], a[i] := a[i], a[p];
      assert a[..] == t;
      i := p;
    }
    RisenHeap(a[..], n, i);
  }

  lemma StartRising<T>(s: seq<BaseAndExponent<T>>, n: nat)
    requires 0 < n <= |s| && IsHeap(s, n - 1)
    ensures RisingAt(s, n, n - 1)
  {
  }

  lemma RisenHeap<T>(s: seq<BaseAndExponent<T>>, n: nat, i: nat)
    requires i < n <= |s| && RisingAt(s, n, i) && (i > 0 ==> s[Parent(i)].exponent >= s[i].exponent)
    ensures IsHeap(s, n)
  {
    forall k | 0 < k < n
      ensures BelowParent(s, k)
    {
    }
  }

  /** std::pop_heap on a[..n]: the top goes to a[n-1], the rest becomes a heap again. */
  method PopHeap<T>(a: array<BaseAndExponent<T>>, n: nat)
    requires 0 < n <= a.Length && IsHeap(a[..], n)
    modifies a
    ensures IsHeap(a[..], n - 1) && multiset(a[..]) == old(multiset(a[..]))
    ensures a[n - 1] == old(a[0])
  {
    hide IsHeap, SinkingAt;
    ghost var t := Swap(a[..], 0, n - 1);
    StartSinking(a[..], n);
    a[0], a[n - 1] := a[n - 1], a[0];
    assert a[..] == t;
    Sink(a, n - 1);
  }

  method Sink<T>(a: array<BaseAndExponent<T>>, n: nat)
    requires n < a.Length && SinkingAt(a[..], n, 0)
    modifies a
    ensures IsHeap(a[..], n) && multiset(a[..]) == old(multiset(a[..])) && a[n] == old(a[n])
  {
    hide IsHeap, SinkingAt;
    var i: nat := 0;
    var done := false;
    while !done
      invariant SinkingAt(a[..], n, i) && multiset(a[..]) == old(multiset(a[..])) && a[n] == old(a[n])
      invariant done ==> IsHeap(a[..], n)
      decreases !done, n - i
    {
      done, i := SinkOnce(a, n, i);
    }
  }

  /** The larger child of i comes up, unless i is at least as large. */
  method SinkOnce<T>(a: array<BaseAndExponent<T>>, n: nat, i: nat) returns (done: bool, c: nat)
    requires n < a.Length && SinkingAt(a[..], n, i)
    modifies a
    ensures SinkingAt(a[..], n, c) && multiset(a[..]) == old(multiset(a[..])) && a[n] == old(a[n])
    ensures if done then IsHeap(a[..], n) else i < c < n
  {
    hide IsHeap, SinkingAt;
    if 2 * i + 1 >= n {
      SunkHeap(a[..], n, i);
      return true, i;
    }
    c := 2 * i + 1;
    if c + 1 < n && a[c].exponent < a[c + 1].exponent {
      c := c + 1;
    }
    LargerChild(a[..], n, i, c);
    if a[c].exponent <= a[i].exponent {
      SunkHeap(a[..], n, i);
      return true, i;
    }
    SinkStep(a[..], n, i, c);
    ghost var t := Swap(a[..], i, c);
    a[i], a[c] := a[c], a[i];
    assert a[..] == t;
    done := false;
  }

  lemma LargerChild<T>(s: seq<BaseAndExponent<T>>, n: nat, i: nat, c: nat)
    requires 2 * i + 1 <= c <= 2 * i + 2 && c < n <= |s|
    requires c == 2 * i + 1 ==> c + 1 >= n || s[c].exponent >= s[c + 1].exponent
    requires c == 2 * i + 2 ==> s[c - 1].exponent <= s[c].exponent
    ensures Parent(c) == i && forall k :: 0 < k < n && Parent(k) == i ==> s[k].exponent <= s[c].exponent
  {
  }

  lemma StartSinking<T>(s: seq<BaseAndExponent<T>>, n: nat)
    requires 0 < n <= |s| && IsHeap(s, n)
    ensures SinkingAt(Swap(s, 0, n - 1), n - 1, 0)
  {
    forall k | 0 < k < n - 1 && Parent(k) != 0
      ensures BelowParent(Swap(s, 0, n - 1), k)
    {
      assert BelowParent(s, k);
    }
  }

  lemma SunkHeap<T>(s: seq<BaseAndExponent<T>>, n: nat, i: nat)
    requires n <= |s| && SinkingAt(s, n, i)
    requires forall k :: 0 < k < n && Parent(k) == i ==> s[k].exponent <= s[i].exponent
    ensures IsHeap(s, n)
  {
    forall k | 0 < k < n
      ensures BelowParent(s, k)
    {
    }
  }

  /** std::make_heap on the whole array. */
  method MakeHeap<T>(a: array<BaseAndExponent<T>>)
    modifies a
    ensures IsHeap(a[..], a.Length) && multiset(a[..]) == old(multiset(a[..]))
  {
    var n: nat := 0;
    while n < a.Length
      invariant n <= a.Length && IsHeap(a[..], n) && multiset(a[..]) == old(multiset(a[..]))
    {
      n := n + 1;
      PushHeap(a, n);
    }
  }

  // ---------- the sum that is computed ----------

  function Term<T>(g: Group<T>, p: BaseAndExponent<T>): T {
    Times(g, p.exponent, p.base)
  }

  /** sum of exponent_i · base_i */
  function Sum<T>(g: Group<T>, s: seq<BaseAndExponent<T>>): T {
    if s == [] then g.identity else g.add(Sum(g, s[..|s| - 1]), Term(g, s[|s| - 1]))
  }

  function TotalExponent<T>(s: seq<BaseAndExponent<T>>): nat {
    if s == [] then 0 else TotalExponent(s[..|s| - 1]) + s[|s| - 1].exponent
  }

  ghost predicate AllMembers<T>(g: Group<T>, s: seq<BaseAndExponent<T>>) {
    forall p :: p in s ==> g.member(p.base)
  }

  lemma {:induction false} SumMember<T(!new)>(g: Group<T>, s: seq<BaseAndExponent<T>>)
    requires IsAbelian(g) && AllMembers(g, s)
    ensures g.member(Sum(g, s))
  {
    if s != [] {
      SumMember(g, s[..|s| - 1]);
      TimesMember(g, s[|s| - 1].exponent, s[|s| - 1].base);
    }
  }

  lemma {:induction false} SumRemove<T(!new)>(g: Group<T>, s: seq<BaseAndExponent<T>>, k: nat)
    requires IsAbelian(g) && AllMembers(g, s) && k < |s|
    ensures Sum(g, s) == g.add(Sum(g, s[..k] + s[k + 1..]), Term(g, s[k]))
    ensures TotalExponent(s) == TotalExponent(s[..k] + s[k + 1..]) + s[k].exponent
  {
    hide IsAbelian, Times;
    var n := |s| - 1;
    var rest := s[..k] + s[k + 1..];
    if k == n {
      assert rest == s[..n];
    } else {
      SumRemove(g, s[..n], k);
      var inner := s[..n][..k] + s[..n][k + 1..];
      assert rest[..|rest| - 1] == inner && rest[|rest| - 1] == s[n];
      SumMember(g, inner);
      TimesMember(g, s[k].exponent, s[k].base);
      TimesMember(g, s[n].exponent, s[n].base);
      Associate(g, Sum(g, inner), Term(g, s[k]), Term(g, s[n]));
      Commute(g, Term(g, s[k]), Term(g, s[n]));
      Associate(g, Sum(g, inner), Term(g, s[n]), Term(g, s[k]));
    }
  }

  lemma {:induction false} SumPermutation<T(!new)>(g: Group<T>, s: seq<BaseAndExponent<T>>, t: seq<BaseAndExponent<T>>)
    requires IsAbelian(g) && AllMembers(g, s) && multiset(s) == multiset(t)
    ensures AllMembers(g, t) && Sum(g, s) == Sum(g, t) && TotalExponent(s) == TotalExponent(t)
    decreases |s|
  {
    hide IsAbelian, Times;
    assert forall p :: p in t ==> p in multiset(s);
    if s == [] {
      assert |multiset(s)| == |t|;
    } else {
      var n := |s| - 1;
      assert s[n] in multiset(t);
      var k :| 0 <= k < |t| && t[k] == s[n];
      RemoveEqual(s, t, k);
      SumPermutation(g, s[..n], t[..k] + t[k + 1..]);
      SumRemove(g, t, k);
    }
  }

  lemma RemoveEqual<T>(s: seq<T>, t: seq<T>, k: nat)
    requires |s| > 0 && k < |t| && t[k] == s[|s| - 1] && multiset(s) == multiset(t)
    ensures multiset(s[..|s| - 1]) == multiset(t[..k] + t[k + 1..])
  {
    Removed(s, |s| - 1);
    Removed(t, k);
    assert s[..|s| - 1] + s[|s|..] == s[..|s| - 1];
  }

  lemma Removed<T>(s: seq<T>, k: nat)
    requires k < |s|
    ensures multiset(s[..k] + s[k + 1..]) == multiset(s) - multiset{s[k]}
  {
    var front, rest := s[..k], s[k + 1..];
    assert s == front + ([s[k]] + rest);
    assert multiset(s) == multiset(front) + (multiset{s[k]} + multiset(rest));
  }

  lemma SumEnds<T(!new)>(g: Group<T>, s: seq<BaseAndExponent<T>>)
    requires IsAbelian(g) && AllMembers(g, s) && |s| >= 2
    ensures Sum(g, s) == g.add(Sum(g, s[1..|s| - 1]), g.add(Term(g, s[0]), Term(g, s[|s| - 1])))
    ensures TotalExponent(s) == TotalExponent(s[1..|s| - 1]) + s[0].exponent + s[|s| - 1].exponent
  {
    hide IsAbelian, Times;
    var init, middle := s[..|s| - 1], s[1..|s| - 1];
    assert init[..0] + init[1..] == middle;
    SumRemove(g, init, 0);
    SumMember(g, middle);
    TimesMember(g, s[0].exponent, s[0].base);
    TimesMember(g, s[|s| - 1].exponent, s[|s| - 1].base);
    Associate(g, Sum(g, middle), Term(g, s[0]), Term(g, s[|s| - 1]));
  }

  /** One division step: e_l = q·e_b + r turns e_b·b + e_l·l into e_b·(b + q·l) + r·l. */
  lemma DivideStep<T(!new)>(g: Group<T>, b: T, eb: nat, l: T, el: nat, q: nat, r: nat)
    requires IsAbelian(g) && g.member(b) && g.member(l) && el == q * eb + r
    ensures g.member(g.add(b, Times(g, q, l)))
    ensures g.add(Times(g, eb, g.add(b, Times(g, q, l))), Times(g, r, l)) == g.add(Times(g, eb, b), Times(g, el, l))
  {
    TimesTimes(g, eb, q, l);
    hide IsAbelian, Times;
    TimesMember(g, q, l);
    DivideSum(g, b, eb, l, el, Times(g, q, l), eb * q, r);
  }

  lemma DivideSum<T(!new)>(g: Group<T>, b: T, eb: nat, l: T, el: nat, ql: T, m: nat, r: nat)
    requires IsAbelian(g) && g.member(b) && g.member(l) && g.member(ql) && el == m + r
    requires Times(g, eb, ql) == Times(g, m, l)
    ensures g.member(g.add(b, ql))
    ensures g.add(Times(g, eb, g.add(b, ql)), Times(g, r, l)) == g.add(Times(g, eb, b), Times(g, el, l))
  {
    hide IsAbelian, Times;
    TimesDistribute(g, eb, b, ql);
    TimesMember(g, eb, b);
    TimesMember(g, m, l);
    TimesMember(g, r, l);
    Associate(g, Times(g, eb, b), Times(g, m, l), Times(g, r, l));
    TimesAdd(g, m, r, l);
    SumIsMember(g, b, ql);
  }

  lemma SumIsMember<T(!new)>(g: Group<T>, a: T, b: T)
    requires IsAbelian(g) && g.member(a) && g.member(b)
    ensures g.member(g.add(a, b))
  {
  }

  lemma {:induction false} SumOfZeros<T(!new)>(g: Group<T>, s: seq<BaseAndExponent<T>>)
    requires IsAbelian(g) && forall p :: p in s ==> p.exponent == 0
    ensures Sum(g, s) == g.identity
  {
    if s != [] {
      SumOfZeros(g, s[..|s| - 1]);
    }
  }

  lemma SumOne<T(!new)>(g: Group<T>, s: seq<BaseAndExponent<T>>)
    requires IsAbelian(g) && AllMembers(g, s) && |s| > 0
    requires forall p :: p in s[..|s| - 1] ==> p.exponent == 0
    ensures Sum(g, s) == Term(g, s[|s| - 1])
  {
    SumOfZeros(g, s[..|s| - 1]);
    TimesMember(g, s[|s| - 1].exponent, s[|s| - 1].base);
    Commute(g, g.identity, Term(g, s[|s| - 1]));
  }

  lemma SumTwo<T(!new)>(g: Group<T>, s: seq<BaseAndExponent<T>>)
    requires IsAbelian(g) && AllMembers(g, s) && |s| == 2
    ensures Sum(g, s) == Combination(g, s[0].exponent, s[0].base, s[1].exponent, s[1].base)
  {
    hide IsAbelian, Times;
    assert s[..1][..0] == [];
    SumOne(g, s[..1]);
  }

  /** When the top of the heap is zero, only the last pair contributes. */
  lemma AllZero<T(!new)>(g: Group<T>, s: seq<BaseAndExponent<T>>)
    requires IsAbelian(g) && AllMembers(g, s) && |s| > 1 && IsHeap(s, |s| - 1) && s[0].exponent == 0
    ensures Sum(g, s) == Term(g, s[|s| - 1])
  {
    forall i | 0 <= i < |s| - 1
      ensures s[i].exponent == 0
    {
      TopIsLargest(s, |s| - 1, i);
    }
    SumOne(g, s);
  }

  lemma LargestIsLast<T>(s: seq<BaseAndExponent<T>>, t: seq<BaseAndExponent<T>>)
    requires |s| > 0 && IsHeap(s, |s|) && multiset(s) == multiset(t) && t != [] && t[|t| - 1] == s[0]
    ensures t[0].exponent <= t[|t| - 1].exponent
  {
    assert t[0] in multiset(s);
    var i :| 0 <= i < |s| && s[i] == t[0];
    TopIsLargest(s, |s|, i);
  }

  lemma ChangeEnds<T(!new)>(g: Group<T>, s: seq<BaseAndExponent<T>>, q: nat, r: nat, base: T)
    requires IsAbelian(g) && AllMembers(g, s) && |s| >= 2
    requires s[|s| - 1].exponent == q * s[0].exponent + r && base == g.add(s[0].base, Times(g, q, s[|s| - 1].base))
    ensures var t := s[|s| - 1 := s[|s| - 1].(exponent := r)][0 := s[0].(base := base)];
            AllMembers(g, t) && Sum(g, t) == Sum(g, s)
            && TotalExponent(t) == TotalExponent(s) - s[|s| - 1].exponent + r
  {
    hide IsAbelian, Times;
    var n := |s| - 1;
    var t := s[n := s[n].(exponent := r)][0 := s[0].(base := base)];
    DivideStep(g, s[0].base, s[0].exponent, s[n].base, s[n].exponent, q, r);
    SumEnds(g, s);
    assert t[1..n] == s[1..n];
    SumEnds(g, t);
  }

  lemma SameHeap<T>(s: seq<BaseAndExponent<T>>, t: seq<BaseAndExponent<T>>, n: nat)
    requires n <= |s| == |t| && IsHeap(s, n) && forall i :: 0 <= i < n ==> t[i].exponent == s[i].exponent
    ensures IsHeap(t, n)
  {
    forall i | 0 < i < n
      ensures BelowParent(t, i)
    {
      assert BelowParent(s, i);
    }
  }

  // ---------- the algorithm ----------

  /** The body of the main loop before the heap is repaired. */
  method DivideLargest<T(!new)>(g: Group<T>, a: array<BaseAndExponent<T>>, wordBits: nat)
    requires IsAbelian(g) && AllMembers(g, a[..]) && a.Length > 1 && wordBits > 0 && IsHeap(a[..], a.Length - 1)
    requires 0 < a[0].exponent <= a[a.Length - 1].exponent
    modifies a
    ensures AllMembers(g, a[..]) && Sum(g, a[..]) == old(Sum(g, a[..])) && IsHeap(a[..], a.Length - 1)
    ensures TotalExponent(a[..]) < old(TotalExponent(a[..]))
  {
    hide IsAbelian, Times, Sum, IsHeap, TotalExponent, AllMembers;
    var last := a.Length - 1;
    ghost var s := a[..];
    MemberAt(g, s, last);
    var t := a[last].exponent;
    var q, r := Divide(t, a[0].exponent);
    a[last] := a[last].(exponent := r);
    if q == 1 {
      TimesOne(g, a[last].base);
      a[0] := a[0].(base := g.add(a[0].base, a[last].base));
    } else {
      var multiple := ScalarMultiply(g, a[last].base, q, wordBits);
      a[0] := a[0].(base := g.add(a[0].base, multiple));
    }
    ChangeEnds(g, s, q, r, a[0].base);
    assert a[..] == s[last := s[last].(exponent := r)][0 := s[0].(base := a[0].base)];
    SameHeap(s, a[..], last);
  }

  /** Integer::Divide: quotient and remainder. */
  method Divide(n: nat, d: nat) returns (q: nat, r: nat)
    requires 0 < d
    ensures n == q * d + r && r < d && (d <= n ==> r < n)
  {
    q, r := n / d, n % d;
  }

  lemma MemberAt<T>(g: Group<T>, s: seq<BaseAndExponent<T>>, i: nat)
    requires AllMembers(g, s) && i < |s|
    ensures g.member(s[i].base)
  {
    assert s[i] in s;
  }

  /** sum of exponent_i · base_i over one or more pairs. `unset` is the content of an unused entry in the
      two-base table. */
  method GeneralCascadeMultiplication<T(!new)>(g: Group<T>, a: array<BaseAndExponent<T>>, wordBits: nat, unset: T)
    returns (result: T)
    requires IsAbelian(g) && AllMembers(g, a[..]) && a.Length > 0 && wordBits > 0
    modifies a
    ensures result == old(Sum(g, a[..]))
  {
    hide IsAbelian, Times, Sum, IsHeap, TotalExponent, AllMembers, Combination;
    if a.Length == 1 {
      SumOne(g, a[..]);
      MemberAt(g, a[..], 0);
      result := ScalarMultiply(g, a[0].base, a[0].exponent, wordBits);
    } else if a.Length == 2 {
      SumTwo(g, a[..]);
      MemberAt(g, a[..], 0);
      MemberAt(g, a[..], 1);
      result := CascadeScalarMultiply(g, a[0].base, a[0].exponent, a[1].base, a[1].exponent, unset);
    } else {
      var last := a.Length - 1;
      MakeHeap(a);
      SumPermutation(g, old(a[..]), a[..]);
      PopLargest(g, a);
      while a[0].exponent != 0
        invariant IsHeap(a[..], last) && AllMembers(g, a[..]) && a[0].exponent <= a[last].exponent
        invariant Sum(g, a[..]) == old(Sum(g, a[..]))
        decreases TotalExponent(a[..])
      {
        DivideLargest(g, a, wordBits);
        label Divided:
        PushHeap(a, a.Length);
        SumPermutation(g, old@Divided(a[..]), a[..]);
        PopLargest(g, a);
      }
      AllZero(g, a[..]);
      MemberAt(g, a[..], last);
      result := ScalarMultiply(g, a[last].base, a[last].exponent, wordBits);
    }
  }

  method PopLargest<T(!new)>(g: Group<T>, a: array<BaseAndExponent<T>>)
    requires IsAbelian(g) && AllMembers(g, a[..]) && a.Length > 0 && IsHeap(a[..], a.Length)
    modifies a
    ensures IsHeap(a[..], a.Length - 1) && AllMembers(g, a[..]) && a[0].exponent <= a[a.Length - 1].exponent
    ensures Sum(g, a[..]) == old(Sum(g, a[..])) && TotalExponent(a[..]) == old(TotalExponent(a[..]))
  {
    hide IsAbelian, Times, Sum, IsHeap, TotalExponent, AllMembers;
    PopHeap(a, a.Length);
    SumPermutation(g, old(a[..]), a[..]);
    LargestIsLast(old(a[..]), a[..]);
  }
}
