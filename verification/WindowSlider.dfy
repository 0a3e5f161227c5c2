/** The sliding window recoding of an exponent: what the windows are (`Recode`), and the class that
    produces them one at a time. */
module WindowSliders {
  import opened Bits

  /** One emitted window: it contributes digit * 2^begin. The digit is negative when the base has to be
      negated before it is used. */
  datatype Window = Window(begin: nat, digit: int)

  /** The windows of e * 2^begin, least significant first. */
  function Recode(e: nat, w: nat, fastNegate: bool, begin: nat): seq<Window>
    requires w > 0
    decreases e
  {
    if e == 0 then []
    else if e % 2 == 0 then Recode(e / 2, w, fastNegate, begin + 1)
    else
      RecodeDecreases(e, w);
      var low := Low(e, w);
      if fastNegate && GetBit(e, w) then
        [Window(begin, low - Pow2(w))] + Recode(Shr(e, w) + 1, w, fastNegate, begin + w)
      else
        [Window(begin, low)] + Recode(Shr(e, w), w, fastNegate, begin + w)
  }

  lemma RecodeDecreases(e: nat, w: nat)
    requires w > 0 && e % 2 == 1
    ensures Shr(e, w) < e
    ensures GetBit(e, w) ==> Shr(e, w) + 1 < e
  {
    ShrDecreases(e / 2, w - 1);
  }

  /** The sum of the windows' contributions. */
  function Value(ws: seq<Window>): int {
    if ws == [] then 0 else Value(ws[..|ws| - 1]) + ws[|ws| - 1].digit * Pow2(ws[|ws| - 1].begin)
  }

  lemma {:induction false} ValueConcat(us: seq<Window>, vs: seq<Window>)
    ensures Value(us + vs) == Value(us) + Value(vs)
  {
    if vs == [] {
      assert us + vs == us;
    } else {
      var init := vs[..|vs| - 1];
      assert (us + vs)[..|us + vs| - 1] == us + init;
      ValueConcat(us, init);
    }
  }

  lemma ValueSingle(u: Window)
    ensures Value([u]) == u.digit * Pow2(u.begin)
  {
    assert [u][..0] == [];
  }

  /** The windows add up to the exponent. */
  lemma {:induction false} RecodeValue(e: nat, w: nat, fastNegate: bool, begin: nat)
    requires w > 0
    ensures Value(Recode(e, w, fastNegate, begin)) == e * Pow2(begin)
    decreases e
  {
    hide Value, Pow2, Low, Shr, GetBit;
    if e == 0 {
      ValueOfNothing();
    } else if e % 2 == 0 {
      RecodeValue(e / 2, w, fastNegate, begin + 1);
      Pow2Step(begin);
      Regroup(e / 2, Pow2(begin));
    } else {
      RecodeDecreases(e, w);
      var carry := if fastNegate && GetBit(e, w) then 1 else 0;
      var head := Window(begin, Low(e, w) - carry * Pow2(w));
      var rest := Recode(Shr(e, w) + carry, w, fastNegate, begin + w);
      assert Recode(e, w, fastNegate, begin) == [head] + rest;
      RecodeValue(Shr(e, w) + carry, w, fastNegate, begin + w);
      ValueConcat([head], rest);
      ValueSingle(head);
      RecombineShifted(e, w, carry, begin);
    }
  }

  lemma ValueOfNothing()
    ensures Value([]) == 0
  {
  }

  lemma Pow2Step(n: nat)
    ensures Pow2(n + 1) == 2 * Pow2(n)
  {
  }

  lemma Regroup(h: int, b: int)
    ensures h * (2 * b) == (2 * h) * b
  {
  }

  lemma RecombineShifted(e: nat, w: nat, carry: int, begin: nat)
    ensures (Low(e, w) - carry * Pow2(w)) * Pow2(begin) + (Shr(e, w) + carry) * Pow2(begin + w) == e * Pow2(begin)
  {
    Pow2Add(w, begin);
    SplitAt(e, w);
    Recombine(e, Shr(e, w), carry, Low(e, w), Pow2(w), Pow2(begin));
  }

  lemma Recombine(e: int, q: int, carry: int, low: int, d: int, b: int)
    requires e == q * d + low
    ensures (low - carry * d) * b + (q + carry) * (d * b) == e * b
  {
  }

  /** Every digit is odd and fits the bucket table, windows do not overlap, and nothing is negated unless
      negation was allowed. */
  ghost predicate WellFormed(ws: seq<Window>, w: nat, fastNegate: bool, begin: nat) {
    && (forall i :: 0 <= i < |ws| ==>
          && ws[i].digit % 2 == 1
          && 0 < Pow2(w) + ws[i].digit && ws[i].digit < Pow2(w)
          && (!fastNegate ==> ws[i].digit > 0)
          && ws[i].begin >= begin)
    && (forall i, j :: 0 <= i < j < |ws| ==> ws[i].begin + w <= ws[j].begin)
  }

  lemma {:induction false} RecodeWellFormed(e: nat, w: nat, fastNegate: bool, begin: nat)
    requires w > 0
    ensures WellFormed(Recode(e, w, fastNegate, begin), w, fastNegate, begin)
    ensures Recode(e, w, fastNegate, begin) == [] <==> e == 0
    decreases e
  {
    if e == 0 {
    } else if e % 2 == 0 {
      RecodeWellFormed(e / 2, w, fastNegate, begin + 1);
    } else {
      RecodeOdd(e, w, fastNegate, begin);
      var ws := Recode(e, w, fastNegate, begin);
      RecodeWellFormed(Carried(e, w, fastNegate), w, fastNegate, begin + w);
      OddWindow(e, w);
      WellFormedCons(ws[0], ws[1..], w, fastNegate, begin);
      assert ws == [ws[0]] + ws[1..];
    }
  }

  lemma WellFormedCons(head: Window, rest: seq<Window>, w: nat, fastNegate: bool, begin: nat)
    requires WellFormed(rest, w, fastNegate, begin + w)
    requires head.begin == begin && head.digit % 2 == 1 && (!fastNegate ==> head.digit > 0)
    requires 0 < Pow2(w) + head.digit && head.digit < Pow2(w)
    ensures WellFormed([head] + rest, w, fastNegate, begin)
  {
    var ws := [head] + rest;
    forall i | 0 <= i < |ws|
      ensures ws[i].digit % 2 == 1 && 0 < Pow2(w) + ws[i].digit && ws[i].digit < Pow2(w)
      ensures (!fastNegate ==> ws[i].digit > 0) && ws[i].begin >= begin
    {
      assert i > 0 ==> ws[i] == rest[i - 1];
    }
    forall i, j | 0 <= i < j < |ws|
      ensures ws[i].begin + w <= ws[j].begin
    {
      assert ws[j] == rest[j - 1];
      assert i > 0 ==> ws[i] == rest[i - 1];
    }
  }

  /** The exponent that is left above an odd one's first window. */
  function Carried(e: nat, w: nat, fastNegate: bool): nat {
    Shr(e, w) + if fastNegate && GetBit(e, w) then 1 else 0
  }

  lemma RecodeOdd(e: nat, w: nat, fastNegate: bool, begin: nat)
    requires w > 0 && e % 2 == 1
    ensures Carried(e, w, fastNegate) < e
    ensures var digit := if fastNegate && GetBit(e, w) then Low(e, w) - Pow2(w) else Low(e, w);
            Recode(e, w, fastNegate, begin)
            == [Window(begin, digit)] + Recode(Carried(e, w, fastNegate), w, fastNegate, begin + w)
  {
    RecodeDecreases(e, w);
  }

  lemma OddWindow(e: nat, w: nat)
    requires w > 0 && e % 2 == 1
    ensures Low(e, w) % 2 == 1 && Low(e, w) < Pow2(w)
    ensures (Low(e, w) - Pow2(w)) % 2 == 1 && (Pow2(w) - Low(e, w)) % 2 == 1
  {
    hide Pow2, Low;
    LowBelow(e, w);
    OneBitLess(e, w);
    OddDifference(Low(e / 2, w - 1), Pow2(w - 1));
  }

  lemma OneBitLess(e: nat, w: nat)
    requires w > 0 && e % 2 == 1
    ensures Pow2(w) == 2 * Pow2(w - 1) && Low(e, w) == 1 + 2 * Low(e / 2, w - 1)
  {
  }

  lemma OddDifference(a: int, b: int)
    ensures (1 + 2 * a - 2 * b) % 2 == 1 && (2 * b - (1 + 2 * a)) % 2 == 1
  {
  }

  class WindowSlider {
    var exp: nat
    var windowSize: nat
    var windowBegin: nat
    var expWindow: nat
    var negateNext: bool
    var firstTime: bool
    var finished: bool
    const fastNegate: bool
    const wordBits: nat  // WORD_BITS of the platform

    ghost predicate Valid()
      reads this
    {
      windowSize > 0 && wordBits > 0
    }

    ghost function Digit(): int
      reads this
    {
      if negateNext then 0 - expWindow else expWindow
    }

    /** The windows that are still to be used, the current one first. */
    ghost function Windows(): seq<Window>
      requires Valid()
      reads this
    {
      if firstTime then Recode(exp, windowSize, fastNegate, windowBegin)
      else if finished then []
      else
        [Window(windowBegin, Digit())]
        + Recode(Shr(exp, windowSize), windowSize, fastNegate, windowBegin + windowSize)
    }

    constructor (expIn: nat, fastNegateIn: bool, windowSizeIn: nat, wordBitsIn: nat)
      requires wordBitsIn > 0
      ensures Valid() && firstTime && !finished
      ensures windowSize == if windowSizeIn == 0 then DefaultWindowSize(expIn) else windowSizeIn
      ensures fastNegate == fastNegateIn
      ensures Windows() == Recode(expIn, windowSize, fastNegateIn, 0)
    {
      exp, windowBegin, expWindow := expIn, 0, 0;
      windowSize := if windowSizeIn == 0 then DefaultWindowSize(expIn) else windowSizeIn;
      fastNegate, wordBits := fastNegateIn, wordBitsIn;
      negateNext, firstTime, finished := false, true, false;
    }

    /** Moves to the next window. The first call only finds the first one. */
    method FindNextWindow()
      requires Valid() && !finished
      modifies this
      ensures Valid() && !firstTime
      ensures windowSize == old(windowSize)
      ensures Windows() == if old(firstTime) then old(Windows()) else old(Windows())[1..]
      ensures finished <==> Windows() == []
      ensures !finished ==> Windows()[0] == Window(windowBegin, Digit())
    {
      hide Recode, Shr, GetBit;
      var skipCount, exhausted := SkipZeros();
      firstTime := false;
      if exhausted {
        finished := true;
        return;
      }
      exp := Shr(exp, skipCount);
      windowBegin := windowBegin + skipCount;
      TakeWindow();
    }

    /** The window at the bottom of an odd exponent, negated when that is allowed and the bit above it is set. */
    method TakeWindow()
      requires Valid() && !finished && !firstTime && GetBit(exp, 0)
      modifies `expWindow, `negateNext, `exp
      ensures Valid() && Windows() == old(Recode(exp, windowSize, fastNegate, windowBegin))
    {
      RecodeOdd(exp, windowSize, fastNegate, windowBegin);
      LowBelow(exp, windowSize);
      ShrCarry(exp, windowSize);
      hide Recode, Shr, Low, Pow2;
      expWindow := Low(exp, windowSize);
      if fastNegate && GetBit(exp, windowSize) {
        negateNext := true;
        expWindow := Pow2(windowSize) - expWindow;
        exp := exp + Pow2(windowSize);
      } else {
        negateNext := false;
      }
    }

    /** The search loop of FindNextWindow: the first set bit at or above the starting position. */
    method SkipZeros() returns (skipCount: nat, exhausted: bool)
      requires Valid() && !finished
      ensures (if firstTime then Windows() else Windows()[1..])
              == if exhausted then [] else Recode(Shr(exp, skipCount), windowSize, fastNegate, windowBegin + skipCount)
      ensures !exhausted ==> GetBit(Shr(exp, skipCount), 0)
    {
      var expLen := WordCount(exp, wordBits) * wordBits;
      skipCount := if firstTime then 0 else windowSize;
      ghost var todo := Recode(Shr(exp, skipCount), windowSize, fastNegate, windowBegin + skipCount);
      while !GetBit(exp, skipCount)
        invariant todo == Recode(Shr(exp, skipCount), windowSize, fastNegate, windowBegin + skipCount)
        decreases expLen - skipCount
      {
        if skipCount >= expLen {
          ShrBeyondWords(exp, wordBits, skipCount);
          return skipCount, true;
        }
        ShrOne(exp, skipCount);
        skipCount := skipCount + 1;
      }
      return skipCount, false;
    }
  }

  function DefaultWindowSize(e: nat): nat {
    var expLen := BitCount(e);
    if expLen <= 17 then 1 else if expLen <= 24 then 2 else if expLen <= 70 then 3
    else if expLen <= 197 then 4 else if expLen <= 539 then 5 else if expLen <= 1434 then 6 else 7
  }
}
