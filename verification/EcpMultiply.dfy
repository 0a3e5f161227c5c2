/** `ECP::SimultaneousMultiply`: the windows of every exponent are matched with projective multiples of
    the point, which are made affine together and summed by the general cascade. */
module EcpMultiplication {
  import opened Bits
  import opened Groups
  import opened WindowSliders
  import opened SimultaneousMultiplication
  import opened GeneralCascade
  import opened Fields
  import opened Ecp
  import opened Jacobian

  datatype Option<T> = None | Some(value: T)

  const WINDOW_SIZE: nat := 5

  /** The lists the source keeps for one exponent. */
  datatype Uses = Uses(baseIndices: seq<nat>, exponentWindows: seq<nat>, negateBase: seq<bool>)

  function WithSign(negate: bool, n: nat): int {
    if negate then 0 - n else n
  }

  /** Entry k of the lists is window k of the exponent. */
  ghost predicate Recorded(windows: seq<Window>, used: nat, u: Uses, begins: seq<nat>) {
    && used <= |windows|
    && |u.baseIndices| == |u.exponentWindows| == |u.negateBase| == used
    && forall k :: 0 <= k < used ==>
         && u.baseIndices[k] < |begins|
         && begins[u.baseIndices[k]] == windows[k].begin
         && windows[k].digit == WithSign(u.negateBase[k], u.exponentWindows[k])
  }

  /** bases[j] stands for 2^begins[j]·P. */
  ghost predicate BasesAre<F>(c: Curve<F>, p: Point<F>, bases: seq<ProjectivePoint<F>>, begins: seq<nat>) {
    |bases| == |begins| &&
    forall j :: 0 <= j < |bases| ==> Represents(c.f, bases[j], Times(EcGroup(c), Pow2(begins[j]), p))
  }

  ghost predicate AllFollow(exps: seq<nat>, exponents: seq<WindowSlider>, windows: seq<seq<Window>>, uses: seq<Uses>,
                            begins: seq<nat>)
    reads exponents
  {
    && |exponents| == |windows| == |uses| == |exps|
    && (forall k, m :: 0 <= k < m < |exps| ==> exponents[k] != exponents[m])
    && (forall k :: 0 <= k < |exps| ==>
          && Follows(true, exps[k], exponents[k], windows[k], |uses[k].baseIndices|)
          && exponents[k].windowSize == WINDOW_SIZE
          && Recorded(windows[k], |uses[k].baseIndices|, uses[k], begins))
  }

  method StartExponents(exps: seq<nat>, wordBits: nat)
    returns (exponents: seq<WindowSlider>, ghost windows: seq<seq<Window>>)
    requires wordBits > 0
    ensures AllFollow(exps, exponents, windows, seq(|exps|, _ => Uses([], [], [])), [])
    ensures forall k :: 0 <= k < |exps| ==> fresh(exponents[k])
  {
    hide Recode, Pow2, Follows, Recorded;
    exponents, windows := [], [];
    var i := 0;
    while i < |exps|
      invariant 0 <= i <= |exps| && |exponents| == |windows| == i
      invariant forall k, m :: 0 <= k < m < i ==> exponents[k] != exponents[m]
      invariant forall k :: 0 <= k < i ==> fresh(exponents[k]) && exponents[k].windowSize == WINDOW_SIZE
      invariant forall k :: 0 <= k < i ==> Follows(true, exps[k], exponents[k], windows[k], 0)
    {
      var s := new WindowSlider(exps[i], true, WINDOW_SIZE, wordBits);
      s.FindNextWindow();
      StartFollows(exps[i], s);
      exponents, windows := exponents + [s], windows + [s.Windows()];
      i := i + 1;
    }
    NothingRecorded(windows);
  }

  lemma StartFollows(e: nat, s: WindowSlider)
    requires s.Valid() && !s.firstTime && s.fastNegate && s.Windows() == Recode(e, s.windowSize, true, 0)
    requires (s.finished <==> s.Windows() == []) && (!s.finished ==> s.Windows()[0] == Window(s.windowBegin, s.Digit()))
    ensures Follows(true, e, s, s.Windows(), 0)
  {
    hide Recode;
    assert s.Windows()[0..] == s.Windows();
  }

  lemma NothingRecorded(windows: seq<seq<Window>>)
    ensures forall k :: 0 <= k < |windows| ==> Recorded(windows[k], 0, Uses([], [], []), [])
  {
  }

  lemma MoreBegins(windows: seq<Window>, used: nat, u: Uses, begins: seq<nat>, b: nat)
    requires Recorded(windows, used, u, begins)
    ensures Recorded(windows, used, u, begins + [b])
  {
  }

  lemma RecordOne(windows: seq<Window>, used: nat, u: Uses, begins: seq<nat>, begin: nat, w: nat, negate: bool)
    requires Recorded(windows, used, u, begins) && used < |windows| && begins != [] && begins[|begins| - 1] == begin
    requires windows[used] == Window(begin, WithSign(negate, w))
    ensures Recorded(windows, used + 1,
                     Uses(u.baseIndices + [|begins| - 1], u.exponentWindows + [w], u.negateBase + [negate]), begins)
  {
  }

  /** The inner loop: records every window that begins at this position, and the base once if needed. */
  method RecordWindowsAt<F(==, !new)>(exps: seq<nat>, exponents: seq<WindowSlider>, ghost windows: seq<seq<Window>>,
                                      position: nat, current: ProjectivePoint<F>, startUses: seq<Uses>,
                                      startBases: seq<ProjectivePoint<F>>, ghost startBegins: seq<nat>)
    returns (uses: seq<Uses>, bases: seq<ProjectivePoint<F>>, ghost begins: seq<nat>, notDone: bool)
    requires AllFollow(exps, exponents, windows, startUses, startBegins) && |startBases| == |startBegins|
    requires forall k :: 0 <= k < |exps| && !exponents[k].finished ==> exponents[k].windowBegin >= position
    modifies exponents
    ensures AllFollow(exps, exponents, windows, uses, begins)
    ensures (bases == startBases && begins == startBegins)
            || (bases == startBases + [current] && begins == startBegins + [position])
    ensures forall k :: 0 <= k < |exps| && !exponents[k].finished ==> exponents[k].windowBegin > position
    ensures notDone <==> exists k :: 0 <= k < |exps| && !exponents[k].finished
  {
    hide AllFollow;
    SlidersDiffer(exps, exponents, windows, startUses, startBegins);
    uses, bases, begins, notDone := startUses, startBases, startBegins, false;
    var baseAdded := false;
    var i := 0;
    while i < |exps|
      invariant 0 <= i <= |exps| && AllFollow(exps, exponents, windows, uses, begins)
      invariant if baseAdded then bases == startBases + [current] && begins == startBegins + [position]
                else bases == startBases && begins == startBegins
      invariant forall k :: i <= k < |exps| && !exponents[k].finished ==> exponents[k].windowBegin >= position
      invariant forall k :: 0 <= k < i && !exponents[k].finished ==> exponents[k].windowBegin > position
      invariant notDone <==> exists k :: 0 <= k < i && !exponents[k].finished
    {
      var s := exponents[i];
      if !s.finished && position == s.windowBegin {
        if !baseAdded {
          AddBegin(exps, exponents, windows, uses, begins, position);
          bases, begins, baseAdded := bases + [current], begins + [position], true;
        }
        uses := RecordAt(exps, exponents, windows, i, uses, begins, |bases| - 1);
      }
      notDone := notDone || !s.finished;
      i := i + 1;
    }
  }

  lemma SlidersDiffer(exps: seq<nat>, exponents: seq<WindowSlider>, windows: seq<seq<Window>>, uses: seq<Uses>,
                      begins: seq<nat>)
    requires AllFollow(exps, exponents, windows, uses, begins)
    ensures |exponents| == |exps| && forall k, m :: 0 <= k < m < |exps| ==> exponents[k] != exponents[m]
  {
  }

  /** Exponent i uses the base with this index. */
  method RecordAt(exps: seq<nat>, exponents: seq<WindowSlider>, ghost windows: seq<seq<Window>>, i: nat,
                  startUses: seq<Uses>, ghost begins: seq<nat>, index: nat) returns (uses: seq<Uses>)
    requires AllFollow(exps, exponents, windows, startUses, begins) && i < |exps|
    requires !exponents[i].finished && |begins| == index + 1 && begins[index] == exponents[i].windowBegin
    modifies exponents[i]
    ensures AllFollow(exps, exponents, windows, uses, begins)
    ensures !exponents[i].finished ==> exponents[i].windowBegin > old(exponents[i].windowBegin)
  {
    hide Recode, Pow2, Follows, Recorded;
    var u := RecordWindow(exps[i], exponents[i], windows[i], startUses[i], begins, index);
    uses := startUses[i := u];
  }

  lemma AddBegin(exps: seq<nat>, exponents: seq<WindowSlider>, windows: seq<seq<Window>>, uses: seq<Uses>,
                 begins: seq<nat>, b: nat)
    requires AllFollow(exps, exponents, windows, uses, begins)
    ensures AllFollow(exps, exponents, windows, uses, begins + [b])
  {
    hide Follows;
    forall k | 0 <= k < |exps|
      ensures Recorded(windows[k], |uses[k].baseIndices|, uses[k], begins + [b])
    {
      MoreBegins(windows[k], |uses[k].baseIndices|, uses[k], begins, b);
    }
  }

  /** Appends the current window to the lists and moves on. */
  method RecordWindow(e: nat, s: WindowSlider, ghost windows: seq<Window>, u: Uses, ghost begins: seq<nat>, index: nat)
    returns (u': Uses)
    requires Follows(true, e, s, windows, |u.baseIndices|) && !s.finished && s.windowSize == WINDOW_SIZE
    requires Recorded(windows, |u.baseIndices|, u, begins)
    requires |begins| == index + 1 && begins[index] == s.windowBegin
    modifies s
    ensures |u'.baseIndices| == |u.baseIndices| + 1
    ensures Follows(true, e, s, windows, |u'.baseIndices|) && s.windowSize == WINDOW_SIZE
    ensures Recorded(windows, |u'.baseIndices|, u', begins)
    ensures !s.finished ==> s.windowBegin > old(s.windowBegin)
  {
    hide Recode;
    RecordOne(windows, |u.baseIndices|, u, begins, s.windowBegin, s.expWindow, s.negateNext);
    u' := Uses(u.baseIndices + [index], u.exponentWindows + [s.expWindow], u.negateBase + [s.negateNext]);
    Advance(true, e, s, windows, |u.baseIndices|);
  }

  /** The outer loop. */
  method CollectBases<F(==, !new)>(c: Curve<F>, p: Point<F>, exps: seq<nat>, exponents: seq<WindowSlider>,
                                   ghost windows: seq<seq<Window>>)
    returns (uses: seq<Uses>, bases: seq<ProjectivePoint<F>>, ghost begins: seq<nat>)
    requires IsCurve(c) && AddIsAssociative(c) && VerifyPoint(c, p)
    requires AllFollow(exps, exponents, windows, seq(|exps|, _ => Uses([], [], [])), [])
    modifies exponents
    ensures AllFollow(exps, exponents, windows, uses, begins) && BasesAre(c, p, bases, begins)
    ensures forall k :: 0 <= k < |exps| ==> exponents[k].finished
  {
    hide IsCurve, AddIsAssociative, Times, Recode, Pow2, Follows, Recorded, LastBegin, Represents, Ecp.Double;
    hide Fourth, BasesAre, EcGroup, VerifyPoint, Horizon;
    var rd := new ProjectiveDoubling(c, p);
    uses, bases, begins := seq(|exps|, _ => Uses([], [], [])), [], [];
    var expBitPosition := 0;
    FirstPower(c, p);
    NoBases(c, p);
    var notDone := true;
    ghost var horizon := Horizon(windows);
    HorizonCovers(windows);
    while notDone
      invariant AllFollow(exps, exponents, windows, uses, begins) && BasesAre(c, p, bases, begins)
      invariant fresh(rd) && rd.c == c && rd.Valid(Times(EcGroup(c), Pow2(expBitPosition), p))
      invariant forall k :: 0 <= k < |exps| && !exponents[k].finished ==> exponents[k].windowBegin >= expBitPosition
      invariant !notDone ==> forall k :: 0 <= k < |exps| ==> exponents[k].finished
      invariant expBitPosition <= horizon
      decreases horizon - expBitPosition, notDone
    {
      var current := rd.P;
      MoreBases(c, p, bases, begins, current, expBitPosition);
      uses, bases, begins, notDone := RecordWindowsAt(exps, exponents, windows, expBitPosition, current, uses, bases,
                                                      begins);
      if notDone {
        ghost var k :| 0 <= k < |exps| && !exponents[k].finished;
        BeginWithinHorizon(true, exps[k], exponents[k], windows[k], |uses[k].baseIndices|);
        DoublePower(c, p, rd, expBitPosition);
        expBitPosition := expBitPosition + 1;
      }
    }
  }

  lemma NoBases<F>(c: Curve<F>, p: Point<F>)
    ensures BasesAre(c, p, [], [])
  {
  }

  lemma MoreBases<F>(c: Curve<F>, p: Point<F>, bases: seq<ProjectivePoint<F>>, begins: seq<nat>,
                     current: ProjectivePoint<F>, n: nat)
    requires BasesAre(c, p, bases, begins) && Represents(c.f, current, Times(EcGroup(c), Pow2(n), p))
    ensures |bases| == |begins| && BasesAre(c, p, bases + [current], begins + [n])
  {
    hide Represents, Times, Pow2;
  }

  /** From 2^n·P to twice as much. */
  method DoublePower<F(==, !new)>(c: Curve<F>, p: Point<F>, rd: ProjectiveDoubling<F>, n: nat)
    requires IsCurve(c) && AddIsAssociative(c) && VerifyPoint(c, p)
    requires rd.c == c && rd.Valid(Times(EcGroup(c), Pow2(n), p))
    modifies rd
    ensures rd.c == c && rd.Valid(Times(EcGroup(c), Pow2(n + 1), p))
  {
    hide AddIsAssociative, Times, Pow2, Represents, Ecp.Double, Fourth;
    NextPower(c, p, n);
    rd.Double(Times(EcGroup(c), Pow2(n), p));
  }

  lemma FirstPower<F(!new)>(c: Curve<F>, p: Point<F>)
    requires IsCurve(c) && AddIsAssociative(c) && VerifyPoint(c, p)
    ensures Times(EcGroup(c), Pow2(0), p) == p
  {
    CurveIsAbelian(c);
    TimesPow2(EcGroup(c), 0, p);
  }

  lemma NextPower<F(!new)>(c: Curve<F>, p: Point<F>, n: nat)
    requires IsCurve(c) && AddIsAssociative(c) && VerifyPoint(c, p)
    ensures Ecp.Double(c, Times(EcGroup(c), Pow2(n), p)) == Times(EcGroup(c), Pow2(n + 1), p)
  {
    hide IsCurve, AddIsAssociative, Times, Pow2;
    CurveIsAbelian(c);
    TimesPow2(EcGroup(c), n, p);
    var q := Times(EcGroup(c), Pow2(n), p);
    assert Ecp.Add(c, q, q) == Ecp.Double(c, q);
  }

  // ---------- from projective to affine coordinates ----------

  /** What the source reads off a converted base: the identity when z is zero, otherwise (x, y). */
  function Read<F(==)>(f: Field<F>, b: ProjectivePoint<F>): Point<F> {
    if b.z == f.Zero() then Infinity else Affine(b.x, b.y)
  }

  /** One iteration of the conversion loop; zi is the inverse of z. */
  function ToAffine<F(==)>(f: Field<F>, b: ProjectivePoint<F>, zi: F): ProjectivePoint<F> {
    if zi == f.Zero() then b.(z := zi)
    else
      var y, z := f.Mul(b.y, zi), f.Square(zi);
      ProjectivePoint(f.Mul(b.x, z), f.Mul(y, z), z)
  }

  lemma ToAffineReads<F(!new)>(f: Field<F>, b: ProjectivePoint<F>, p: Point<F>)
    requires IsField(f) && Represents(f, b, p)
    ensures Read(f, ToAffine(f, b, f.inv(b.z))) == p
  {
    if b.z != f.Zero() {
      var zi := f.inv(b.z);
      Rings.Laws(f.ring, zi, b.z, b.z);
      Rings.MulZero(f.ring, b.z);
      ProductNonzero(f, zi, zi);
      Rings.Laws(f.ring, p.x, p.x, p.x);
      Rings.Laws(f.ring, p.y, p.y, p.y);
      Rings.Laws(f.ring, f.One(), f.One(), f.One());
      UndoSquare(f, p.x, b.z, zi);
      UndoCube(f, p.y, b.z, zi);
    }
  }

  lemma UndoSquare<F(!new)>(f: Field<F>, x: F, z: F, zi: F)
    requires Rings.IsRing(f.ring)
    ensures f.Mul(f.Mul(x, f.Square(z)), f.Square(zi)) == f.Mul(x, f.Square(f.Mul(z, zi)))
  {
    hide Rings.IsRing;
    Rings.RingIdentity(f.ring, 3,
                       Rings.Mul(Rings.Mul(Rings.Var(0), ESquare(Rings.Var(1))), ESquare(Rings.Var(2))),
                       Rings.Mul(Rings.Var(0), ESquare(Rings.Mul(Rings.Var(1), Rings.Var(2)))),
                       [x, z, zi]);
  }

  lemma UndoCube<F(!new)>(f: Field<F>, y: F, z: F, zi: F)
    requires Rings.IsRing(f.ring)
    ensures f.Mul(f.Mul(f.Mul(y, Cube(f, z)), zi), f.Square(zi)) == f.Mul(y, Cube(f, f.Mul(z, zi)))
  {
    hide Rings.IsRing;
    Rings.RingIdentity(f.ring, 3,
                       Rings.Mul(Rings.Mul(Rings.Mul(Rings.Var(0), ECube(Rings.Var(1))), Rings.Var(2)),
                                 ESquare(Rings.Var(2))),
                       Rings.Mul(Rings.Var(0), ECube(Rings.Mul(Rings.Var(1), Rings.Var(2)))),
                       [y, z, zi]);
  }

  method ConvertBases<F(==, !new)>(c: Curve<F>, p: Point<F>, bases: seq<ProjectivePoint<F>>, ghost begins: seq<nat>)
    returns (converted: seq<ProjectivePoint<F>>)
    requires IsField(c.f) && BasesAre(c, p, bases, begins)
    ensures |converted| == |begins|
    ensures forall j :: 0 <= j < |begins| ==> Read(c.f, converted[j]) == Times(EcGroup(c), Pow2(begins[j]), p)
  {
    hide IsField, Times, Pow2, Represents, Read, ToAffine;
    var zs := new F[|bases|](j requires 0 <= j < |bases| => bases[j].z);
    ParallelInvert(c.f, zs);
    converted := [];
    var i := 0;
    while i < |bases|
      invariant 0 <= i <= |bases| && |converted| == i
      invariant forall j :: 0 <= j < i ==> Read(c.f, converted[j]) == Times(EcGroup(c), Pow2(begins[j]), p)
      invariant forall j :: 0 <= j < |bases| ==> zs[j] == c.f.inv(bases[j].z)
    {
      ToAffineReads(c.f, bases[i], Times(EcGroup(c), Pow2(begins[i]), p));
      converted := converted + [ToAffine(c.f, bases[i], zs[i])];
      i := i + 1;
    }
  }

  // ---------- the final cascade ----------

  /** The base and window that entry k of the lists contributes. */
  function CascadeEntry<F(==)>(c: Curve<F>, converted: seq<ProjectivePoint<F>>, u: Uses,
                               k: nat): BaseAndExponent<Point<F>>
    requires k < |u.baseIndices| == |u.exponentWindows| == |u.negateBase| && u.baseIndices[k] < |converted|
  {
    var base := Read(c.f, converted[u.baseIndices[k]]);
    var signed := if base.Affine? && u.negateBase[k] then Affine(base.x, c.f.Neg(base.y)) else base;
    BaseAndExponent(signed, u.exponentWindows[k])
  }

  /** Two to the power of where a window begins, with the sign of its digit. */
  function SignedPower(w: Window): int {
    if w.digit < 0 then 0 - Pow2(w.begin) else Pow2(w.begin)
  }

  /** s[k] contributes the k-th window. */
  ghost predicate CascadeFor<F>(c: Curve<F>, p: Point<F>, s: seq<BaseAndExponent<Point<F>>>, windows: seq<Window>) {
    |s| == |windows| && forall k :: 0 <= k < |s| ==>
      s[k].base == Times(EcGroup(c), SignedPower(windows[k]), p)
      && s[k].exponent == if windows[k].digit < 0 then 0 - windows[k].digit else windows[k].digit
  }

  lemma CascadeMembers<F(!new)>(c: Curve<F>, p: Point<F>, s: seq<BaseAndExponent<Point<F>>>, windows: seq<Window>)
    requires IsAbelian(EcGroup(c)) && VerifyPoint(c, p) && CascadeFor(c, p, s, windows)
    ensures AllMembers(EcGroup(c), s)
  {
    hide IsAbelian, VerifyPoint, Times, Pow2;
    forall q | q in s
      ensures EcGroup(c).member(q.base)
    {
      var k :| 0 <= k < |s| && s[k] == q;
      CascadeTerm(c, p, q, windows[k]);
    }
  }

  lemma {:induction false} CascadeSum<F(!new)>(c: Curve<F>, p: Point<F>, s: seq<BaseAndExponent<Point<F>>>,
                                               windows: seq<Window>)
    requires IsAbelian(EcGroup(c)) && VerifyPoint(c, p) && CascadeFor(c, p, s, windows)
    ensures Sum(EcGroup(c), s) == Times(EcGroup(c), WindowSliders.Value(windows), p)
  {
    hide IsAbelian, VerifyPoint, Times, Pow2, Term;
    var g, n := EcGroup(c), |s| - 1;
    if s == [] {
      TimesZero(g, p);
    } else {
      CascadeSum(c, p, s[..n], windows[..n]);
      var w := windows[n];
      CascadeTerm(c, p, s[n], w);
      TimesAdd(g, WindowSliders.Value(windows[..n]), w.digit * Pow2(w.begin), p);
    }
  }

  lemma TimesZero<T>(g: Group<T>, p: T)
    ensures Times(g, 0, p) == g.identity
  {
  }

  lemma CascadeTerm<F(!new)>(c: Curve<F>, p: Point<F>, e: BaseAndExponent<Point<F>>, w: Window)
    requires IsAbelian(EcGroup(c)) && VerifyPoint(c, p)
    requires e.base == Times(EcGroup(c), if w.digit < 0 then 0 - Pow2(w.begin) else Pow2(w.begin), p)
    requires e.exponent == if w.digit < 0 then 0 - w.digit else w.digit
    ensures EcGroup(c).member(e.base) && Term(EcGroup(c), e) == Times(EcGroup(c), w.digit * Pow2(w.begin), p)
  {
    hide IsAbelian, VerifyPoint, Times, Pow2;
    var signed := if w.digit < 0 then 0 - Pow2(w.begin) else Pow2(w.begin);
    TimesMember(EcGroup(c), signed, p);
    TimesTimes(EcGroup(c), e.exponent, signed, p);
    SignedProduct(w.digit, Pow2(w.begin));
  }

  lemma SignedProduct(d: int, b: int)
    ensures (if d < 0 then 0 - d else d) * (if d < 0 then 0 - b else b) == d * b
  {
  }

  lemma EntryContributes<F(!new)>(c: Curve<F>, p: Point<F>, converted: seq<ProjectivePoint<F>>, begins: seq<nat>,
                                  windows: seq<Window>, u: Uses, k: nat)
    requires IsAbelian(EcGroup(c)) && VerifyPoint(c, p)
    requires |converted| == |begins| && Recorded(windows, |windows|, u, begins) && k < |windows|
    requires windows[k].digit != 0
    requires forall j :: 0 <= j < |begins| ==> Read(c.f, converted[j]) == Times(EcGroup(c), Pow2(begins[j]), p)
    ensures var e := CascadeEntry(c, converted, u, k);
            e.base == Times(EcGroup(c), SignedPower(windows[k]), p)
            && e.exponent == if windows[k].digit < 0 then 0 - windows[k].digit else windows[k].digit
  {
    hide IsAbelian, VerifyPoint, Times, Pow2, Read;
    TimesNegate(EcGroup(c), Pow2(windows[k].begin), p);
  }

  method FinalCascade<F(==, !new)>(c: Curve<F>, p: Point<F>, e: nat, converted: seq<ProjectivePoint<F>>, u: Uses,
                                   wordBits: nat, ghost begins: seq<nat>, ghost windows: seq<Window>)
    returns (result: Option<Point<F>>)
    requires IsAbelian(EcGroup(c)) && VerifyPoint(c, p) && wordBits > 0
    requires |converted| == |begins| && windows == Recode(e, WINDOW_SIZE, true, 0)
    requires Recorded(windows, |windows|, u, begins)
    requires forall j :: 0 <= j < |begins| ==> Read(c.f, converted[j]) == Times(EcGroup(c), Pow2(begins[j]), p)
    ensures result == if e == 0 then None else Some(Times(EcGroup(c), e, p))
  {
    hide IsAbelian, VerifyPoint, Times, Pow2, Read, Recode, WindowSliders.Value, CascadeEntry, Sum;
    RecodeWellFormed(e, WINDOW_SIZE, true, 0);
    RecodeValue(e, WINDOW_SIZE, true, 0);
    WholeValue(e);
    var n := |u.baseIndices|;
    if n == 0 {
      return None;
    }
    var entries := seq(n, k requires 0 <= k < n => CascadeEntry(c, converted, u, k));
    forall k | 0 <= k < n
      ensures entries[k] == CascadeEntry(c, converted, u, k) && windows[k].digit != 0
    {
    }
    CascadeMatches(c, p, converted, begins, windows, u, entries);
    CascadeMembers(c, p, entries, windows);
    CascadeSum(c, p, entries, windows);
    var finalCascade := new BaseAndExponent<Point<F>>[n](k requires 0 <= k < n => entries[k]);
    assert finalCascade[..] == entries;
    var r := GeneralCascadeMultiplication(EcGroup(c), finalCascade, wordBits, Infinity);
    result := Some(r);
  }

  lemma WholeValue(e: nat)
    ensures e * Pow2(0) == e
  {
  }

  lemma CascadeMatches<F(!new)>(c: Curve<F>, p: Point<F>, converted: seq<ProjectivePoint<F>>, begins: seq<nat>,
                                windows: seq<Window>, u: Uses, entries: seq<BaseAndExponent<Point<F>>>)
    requires IsAbelian(EcGroup(c)) && VerifyPoint(c, p) && |entries| == |windows|
    requires |converted| == |begins| && Recorded(windows, |windows|, u, begins)
    requires forall j :: 0 <= j < |begins| ==> Read(c.f, converted[j]) == Times(EcGroup(c), Pow2(begins[j]), p)
    requires forall k :: 0 <= k < |windows| ==> windows[k].digit != 0 && entries[k] == CascadeEntry(c, converted, u, k)
    ensures CascadeFor(c, p, entries, windows)
  {
    hide IsAbelian, VerifyPoint, Times, Pow2, Read, CascadeEntry;
    forall k | 0 <= k < |windows|
      ensures var e := entries[k];
              e.base == Times(EcGroup(c), SignedPower(windows[k]), p)
              && e.exponent == if windows[k].digit < 0 then 0 - windows[k].digit else windows[k].digit
    {
      EntryContributes(c, p, converted, begins, windows, u, k);
    }
  }

  /** results[i] = exps[i]·p. The source hands an exponent of zero to the cascade as an empty range, which
      has no defined result: None exactly when some exponent is zero. */
  method SimultaneousMultiply<F(==, !new)>(c: Curve<F>, p: Point<F>, exps: seq<nat>, wordBits: nat)
    returns (results: Option<seq<Point<F>>>)
    requires IsCurve(c) && AddIsAssociative(c) && VerifyPoint(c, p) && wordBits > 0
    ensures results.Some? <==> forall i :: 0 <= i < |exps| ==> exps[i] > 0
    ensures results.Some? ==> |results.value| == |exps|
    ensures results.Some? ==> forall i :: 0 <= i < |exps| ==> results.value[i] == Times(EcGroup(c), exps[i], p)
  {
    hide IsCurve, AddIsAssociative, VerifyPoint, IsAbelian, Times, Pow2, Recode, Recorded, Represents, Read;
    CurveIsAbelian(c);
    CurveHasField(c);
    var exponents;
    ghost var windows;
    exponents, windows := StartExponents(exps, wordBits);
    var uses, bases;
    ghost var begins;
    uses, bases, begins := CollectBases(c, p, exps, exponents, windows);
    var converted := ConvertBases(c, p, bases, begins);
    var values: seq<Point<F>> := [];
    var i := 0;
    while i < |exps|
      invariant 0 <= i <= |exps| && |values| == i
      invariant forall k :: 0 <= k < i ==> exps[k] > 0 && values[k] == Times(EcGroup(c), exps[k], p)
      modifies {}
    {
      var r := FinalCascade(c, p, exps[i], converted, uses[i], wordBits, begins, windows[i]);
      if r.None? {
        return None;
      }
      values := values + [r.value];
      i := i + 1;
    }
    results := Some(values);
  }

  lemma CurveHasField<F(!new)>(c: Curve<F>)
    requires IsCurve(c)
    ensures IsField(c.f)
  {
  }

  /** `ECP::ScalarMultiply`: k·p for every non-negative k, zero included, because short exponents take the
      generic path. */
  method ScalarMultiply<F(==, !new)>(c: Curve<F>, p: Point<F>, k: nat, wordBits: nat) returns (result: Point<F>)
    requires IsCurve(c) && AddIsAssociative(c) && VerifyPoint(c, p) && wordBits > 0
    ensures result == Times(EcGroup(c), k, p)
  {
    hide IsCurve, AddIsAssociative, VerifyPoint, IsAbelian, Times;
    CurveIsAbelian(c);
    if BitCount(k) <= 5 {
      result := SimultaneousMultiplication.ScalarMultiply(EcGroup(c), p, k, wordBits);
    } else {
      var results := SimultaneousMultiply(c, p, [k], wordBits);
      result := results.value[0];
    }
  }
}
