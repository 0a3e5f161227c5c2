/** `AbstractGroup::SimultaneousMultiply`: all the multiples of one base are collected in buckets, one
    per odd digit, while the base is doubled. */
module SimultaneousMultiplication {
  import opened Bits
  import opened Groups
  import opened WindowSliders

  /** sum of (2j+1)·c[j] over j >= k: the multiple of the base that a bucket table stands for. */
  ghost function Weighted(c: seq<int>, k: nat): int
    decreases |c| - k
  {
    if k >= |c| then 0 else (2 * k + 1) * c[k] + Weighted(c, k + 1)
  }

  ghost function Suffix(c: seq<int>, k: nat): int
    decreases |c| - k
  {
    if k >= |c| then 0 else c[k] + Suffix(c, k + 1)
  }

  ghost function SuffixSums(c: seq<int>, k: nat): int
    decreases |c| - k
  {
    if k >= |c| then 0 else Suffix(c, k) + SuffixSums(c, k + 1)
  }

  lemma {:induction false} WeightedBySuffixes(c: seq<int>, k: nat)
    ensures Weighted(c, k) == 2 * SuffixSums(c, k + 1) + (2 * k + 1) * Suffix(c, k)
    decreases |c| - k
  {
    if k < |c| {
      WeightedBySuffixes(c, k + 1);
      assert (2 * k + 1) * (c[k] + Suffix(c, k + 1)) == (2 * k + 1) * c[k] + (2 * k + 1) * Suffix(c, k + 1);
      assert (2 * k + 3) * Suffix(c, k + 1) == (2 * k + 1) * Suffix(c, k + 1) + 2 * Suffix(c, k + 1);
    }
  }

  lemma WeightedIsTwiceAndOnce(c: seq<int>)
    ensures Weighted(c, 0) == 2 * SuffixSums(c, 1) + Suffix(c, 0)
  {
    WeightedBySuffixes(c, 0);
  }

  lemma {:induction false} WeightedUpdate(c: seq<int>, j: nat, d: int, k: nat)
    requires j < |c|
    ensures Weighted(c[j := c[j] + d], k) == Weighted(c, k) + if k <= j then (2 * j + 1) * d else 0
    decreases |c| - k
  {
    if k < |c| {
      WeightedUpdate(c, j, d, k + 1);
      if k == j {
        assert (2 * k + 1) * (c[k] + d) == (2 * k + 1) * c[k] + (2 * k + 1) * d;
      }
    }
  }

  lemma {:induction false} WeightedZero(n: nat, k: nat)
    ensures Weighted(seq(n, _ => 0), k) == 0
    decreases n - k
  {
    if k < n {
      WeightedZero(n, k + 1);
    }
  }

  /** What the proof remembers about one exponent: all its windows, how many are used up, and the
      multiple of the base that sits in each bucket. */
  datatype Track = Track(windows: seq<Window>, used: nat, coeffs: seq<int>)

  ghost predicate HoldsMultiples<T>(g: Group<T>, base: T, bucket: seq<T>, coeffs: seq<int>) {
    |bucket| == |coeffs| && forall j :: 0 <= j < |bucket| ==> bucket[j] == Times(g, coeffs[j], base)
  }

  /** The slider is about to deliver the windows of e from number `used` on. */
  ghost predicate Follows(fastNegate: bool, e: nat, s: WindowSlider, windows: seq<Window>, used: nat)
    reads s
  {
    && s.Valid() && !s.firstTime && s.fastNegate == fastNegate
    && windows == Recode(e, s.windowSize, fastNegate, 0)
    && used <= |windows|
    && s.Windows() == windows[used..]
    && (s.finished <==> used == |windows|)
    && (!s.finished ==> windows[used] == Window(s.windowBegin, s.Digit()))
  }

  ghost predicate Tracks<T>(g: Group<T>, base: T, e: nat, s: WindowSlider, bucket: seq<T>, t: Track)
    reads s
  {
    && Follows(g.inversionIsFast, e, s, t.windows, t.used)
    && |bucket| == Pow2(s.windowSize - 1)
    && HoldsMultiples(g, base, bucket, t.coeffs)
    && Weighted(t.coeffs, 0) == Value(t.windows[..t.used])
  }

  /** FindNextWindow moves on to the next window, which begins strictly later. */
  method Advance(ghost fastNegate: bool, ghost e: nat, s: WindowSlider, ghost windows: seq<Window>, ghost used: nat)
    requires Follows(fastNegate, e, s, windows, used) && !s.finished
    modifies s
    ensures Follows(fastNegate, e, s, windows, used + 1) && s.windowSize == old(s.windowSize)
    ensures !s.finished ==> s.windowBegin > old(s.windowBegin)
  {
    hide Recode;
    assert windows[used..][1..] == windows[used + 1..];
    RecodeWellFormed(e, s.windowSize, fastNegate, 0);
    s.FindNextWindow();
  }

  /** Adds the current window to its bucket. */
  method AddToBucket<T(!new)>(g: Group<T>, base: T, e: nat, s: WindowSlider, bucket: seq<T>, power: T, ghost t: Track)
    returns (bucket': seq<T>, ghost t': Track)
    requires IsAbelian(g) && g.member(base) && Tracks(g, base, e, s, bucket, t) && !s.finished
    requires power == Times(g, Pow2(s.windowBegin), base)
    modifies s
    ensures Tracks(g, base, e, s, bucket', t')
    ensures t'.windows == t.windows && t'.used == t.used + 1
    ensures s.windowSize == old(s.windowSize)
    ensures !s.finished ==> s.windowBegin > old(s.windowBegin)
  {
    hide IsAbelian, Times, Weighted, Recode, Value;
    var index := s.expWindow / 2;
    ghost var delta: int := if s.negateNext then 0 - Pow2(s.windowBegin) else Pow2(s.windowBegin);
    IndexInRange(e, s, t);
    TimesAdd(g, t.coeffs[index], delta, base);
    if s.negateNext {
      TimesNegate(g, Pow2(s.windowBegin), base);
      bucket' := bucket[index := g.add(bucket[index], g.inverse(power))];
    } else {
      bucket' := bucket[index := g.add(bucket[index], power)];
    }
    t' := t.(used := t.used + 1, coeffs := t.coeffs[index := t.coeffs[index] + delta]);
    AccountForWindow(t, index, delta);
    Advance(g.inversionIsFast, e, s, t.windows, t.used);
  }

  lemma IndexInRange(e: nat, s: WindowSlider, t: Track)
    requires s.Valid() && t.windows == Recode(e, s.windowSize, s.fastNegate, 0)
    requires t.used < |t.windows| && t.windows[t.used] == Window(s.windowBegin, s.Digit())
    ensures s.expWindow / 2 < Pow2(s.windowSize - 1)
    ensures (2 * (s.expWindow / 2) + 1) * (if s.negateNext then 0 - Pow2(s.windowBegin) else Pow2(s.windowBegin))
            == t.windows[t.used].digit * Pow2(s.windowBegin)
  {
    RecodeWellFormed(e, s.windowSize, s.fastNegate, 0);
    assert t.windows[t.used].digit == s.Digit();
    assert 2 * (s.expWindow / 2) + 1 == s.expWindow;
    Signed(s.expWindow, Pow2(s.windowBegin));
  }

  lemma Signed(a: int, b: int)
    ensures a * (0 - b) == (0 - a) * b
  {
  }

  lemma AccountForWindow(t: Track, index: nat, delta: int)
    requires t.used < |t.windows| && index < |t.coeffs|
    requires (2 * index + 1) * delta == t.windows[t.used].digit * Pow2(t.windows[t.used].begin)
    requires Weighted(t.coeffs, 0) == Value(t.windows[..t.used])
    ensures Weighted(t.coeffs[index := t.coeffs[index] + delta], 0) == Value(t.windows[..t.used + 1])
  {
    WeightedUpdate(t.coeffs, index, delta, 0);
    assert t.windows[..t.used + 1][..t.used] == t.windows[..t.used];
  }

  /** The suffix-sum pass over one bucket table: sum of (2j+1)·bucket[j]. */
  method CollectBuckets<T(!new)>(g: Group<T>, base: T, bucket: seq<T>, ghost c: seq<int>) returns (r: T)
    requires IsAbelian(g) && g.member(base) && |bucket| > 0 && HoldsMultiples(g, base, bucket, c)
    ensures r == Times(g, Weighted(c, 0), base)
  {
    WeightedIsTwiceAndOnce(c);
    hide IsAbelian, Times, Weighted;
    var b, last := bucket, |bucket| - 1;
    r := b[last];
    if last > 0 {
      ghost var sums := c[last];
      var j := last - 1;
      while j >= 1
        invariant 0 <= j < last && |b| == |bucket|
        invariant b[j + 1] == Times(g, Suffix(c, j + 1), base)
        invariant forall k :: 0 <= k <= j ==> b[k] == bucket[k]
        invariant sums == SuffixSums(c, j + 1) && r == Times(g, sums, base)
      {
        TimesAdd(g, c[j], Suffix(c, j + 1), base);
        b := b[j := g.add(b[j], b[j + 1])];
        TimesAdd(g, sums, Suffix(c, j), base);
        r := g.add(r, b[j]);
        sums := sums + Suffix(c, j);
        j := j - 1;
      }
      TimesAdd(g, c[0], Suffix(c, 1), base);
      b := b[0 := g.add(b[0], b[1])];
      TimesAdd(g, sums, sums, base);
      TimesAdd(g, sums + sums, Suffix(c, 0), base);
      r := g.add(g.add(r, r), b[0]);
    }
  }

  ghost function Horizon(ws: seq<seq<Window>>): nat {
    if ws == [] then 0 else Horizon(ws[..|ws| - 1]) + LastBegin(ws[|ws| - 1])
  }

  ghost function LastBegin(ws: seq<Window>): nat {
    if ws == [] then 0 else ws[|ws| - 1].begin
  }

  lemma {:induction false} HorizonCovers(ws: seq<seq<Window>>)
    ensures forall i :: 0 <= i < |ws| ==> LastBegin(ws[i]) <= Horizon(ws)
  {
    if ws != [] {
      var init := ws[..|ws| - 1];
      HorizonCovers(init);
      assert forall i :: 0 <= i < |init| ==> ws[i] == init[i];
    }
  }

  ghost predicate AllTracked<T>(g: Group<T>, base: T, exps: seq<nat>, exponents: seq<WindowSlider>,
                                buckets: seq<seq<T>>, ts: seq<Track>)
    reads exponents
  {
    && |exponents| == |buckets| == |ts| == |exps|
    && (forall k, m :: 0 <= k < m < |exps| ==> exponents[k] != exponents[m])
    && (forall k :: 0 <= k < |exps| ==> Tracks(g, base, exps[k], exponents[k], buckets[k], ts[k]))
  }

  /** The first loop: a slider on its first window and an empty bucket table for every exponent. */
  method StartSliders<T(!new)>(g: Group<T>, base: T, exps: seq<nat>, wordBits: nat)
    returns (exponents: seq<WindowSlider>, buckets: seq<seq<T>>, ghost ts: seq<Track>)
    requires wordBits > 0
    ensures AllTracked(g, base, exps, exponents, buckets, ts) && forall k :: 0 <= k < |exps| ==> fresh(exponents[k])
  {
    hide IsAbelian, Times, Weighted, Recode, Value, Pow2, Tracks;
    exponents, buckets, ts := [], [], [];
    var i := 0;
    while i < |exps|
      invariant 0 <= i <= |exps| && AllTracked(g, base, exps[..i], exponents, buckets, ts)
      invariant forall k :: 0 <= k < i ==> fresh(exponents[k])
    {
      var s := new WindowSlider(exps[i], g.inversionIsFast, 0, wordBits);
      s.FindNextWindow();
      var bucket := seq(Pow2(s.windowSize - 1), _ => g.identity);
      ghost var t := Track(s.Windows(), 0, seq(Pow2(s.windowSize - 1), _ => 0));
      StartTrack(g, base, exps[i], s, bucket, t);
      exponents, buckets, ts := exponents + [s], buckets + [bucket], ts + [t];
      i := i + 1;
    }
    assert exps[..i] == exps;
  }

  /** The inner loop: every window that begins at this position goes into its bucket. */
  method UseWindowsAt<T(!new)>(g: Group<T>, base: T, exps: seq<nat>, exponents: seq<WindowSlider>, position: nat,
                               power: T, startBuckets: seq<seq<T>>, ghost startTs: seq<Track>)
    returns (buckets: seq<seq<T>>, ghost ts: seq<Track>, notDone: bool)
    requires IsAbelian(g) && g.member(base) && AllTracked(g, base, exps, exponents, startBuckets, startTs)
    requires power == Times(g, Pow2(position), base)
    requires forall k :: 0 <= k < |exps| && !exponents[k].finished ==> exponents[k].windowBegin >= position
    modifies exponents
    ensures AllTracked(g, base, exps, exponents, buckets, ts)
    ensures forall k :: 0 <= k < |exps| ==> ts[k].windows == startTs[k].windows
    ensures forall k :: 0 <= k < |exps| && !exponents[k].finished ==> exponents[k].windowBegin > position
    ensures notDone <==> exists k :: 0 <= k < |exps| && !exponents[k].finished
  {
    hide IsAbelian, Times, Weighted, Recode, Value, Pow2, Tracks;
    buckets, ts, notDone := startBuckets, startTs, false;
    var i := 0;
    while i < |exps|
      invariant 0 <= i <= |exps| && AllTracked(g, base, exps, exponents, buckets, ts)
      invariant forall k :: 0 <= k < |exps| ==> ts[k].windows == startTs[k].windows
      invariant forall k :: i <= k < |exps| && !exponents[k].finished ==> exponents[k].windowBegin >= position
      invariant forall k :: 0 <= k < i && !exponents[k].finished ==> exponents[k].windowBegin > position
      invariant notDone <==> exists k :: 0 <= k < i && !exponents[k].finished
    {
      var s := exponents[i];
      if !s.finished && position == s.windowBegin {
        ghost var t := ts[i];
        var bucket;
        bucket, t := AddToBucket(g, base, exps[i], s, buckets[i], power, t);
        buckets, ts := buckets[i := bucket], ts[i := t];
      }
      notDone := notDone || !s.finished;
      i := i + 1;
    }
  }

  lemma TrackHorizon(ts: seq<Track>) returns (horizon: nat)
    ensures forall k :: 0 <= k < |ts| ==> LastBegin(ts[k].windows) <= horizon
  {
    var all := seq(|ts|, i requires 0 <= i < |ts| => ts[i].windows);
    HorizonCovers(all);
    assert forall k :: 0 <= k < |ts| ==> ts[k].windows == all[k];
    horizon := Horizon(all);
  }

  /** A slider that has not finished is on a window no later than the last. */
  lemma StillWithinHorizon<T(!new)>(g: Group<T>, base: T, exps: seq<nat>, exponents: seq<WindowSlider>,
                                    buckets: seq<seq<T>>, ts: seq<Track>, position: nat, horizon: nat)
    requires AllTracked(g, base, exps, exponents, buckets, ts)
    requires forall k :: 0 <= k < |exps| ==> LastBegin(ts[k].windows) <= horizon
    requires forall k :: 0 <= k < |exps| && !exponents[k].finished ==> exponents[k].windowBegin > position
    requires exists k :: 0 <= k < |exps| && !exponents[k].finished
    ensures position < horizon
  {
    hide Times, Weighted, Recode, Value, Pow2, Tracks, Follows, LastBegin;
    var k :| 0 <= k < |exps| && !exponents[k].finished;
    TracksFollows(g, base, exps[k], exponents[k], buckets[k], ts[k]);
    BeginWithinHorizon(g.inversionIsFast, exps[k], exponents[k], ts[k].windows, ts[k].used);
  }

  /** The outer loop: doubles the base until every exponent is used up. */
  method FillBuckets<T(!new)>(g: Group<T>, base: T, exps: seq<nat>, exponents: seq<WindowSlider>,
                              startBuckets: seq<seq<T>>, ghost startTs: seq<Track>)
    returns (buckets: seq<seq<T>>, ghost ts: seq<Track>)
    requires IsAbelian(g) && g.member(base) && AllTracked(g, base, exps, exponents, startBuckets, startTs)
    modifies exponents
    ensures AllTracked(g, base, exps, exponents, buckets, ts)
    ensures forall k :: 0 <= k < |exps| ==> exponents[k].finished
  {
    hide IsAbelian, Times, Weighted, Recode, Value, Pow2, Tracks, Follows, LastBegin;
    buckets, ts := startBuckets, startTs;
    var expBitPosition := 0;
    var power := base;
    TimesPow2(g, 0, base);
    var notDone := true;
    ghost var horizon := TrackHorizon(ts);
    while notDone
      invariant AllTracked(g, base, exps, exponents, buckets, ts)
      invariant forall k :: 0 <= k < |exps| ==> LastBegin(ts[k].windows) <= horizon
      invariant forall k :: 0 <= k < |exps| && !exponents[k].finished ==> exponents[k].windowBegin >= expBitPosition
      invariant power == Times(g, Pow2(expBitPosition), base) && expBitPosition <= horizon
      invariant !notDone ==> forall k :: 0 <= k < |exps| ==> exponents[k].finished
      decreases horizon - expBitPosition, notDone
    {
      buckets, ts, notDone := UseWindowsAt(g, base, exps, exponents, expBitPosition, power, buckets, ts);
      if notDone {
        StillWithinHorizon(g, base, exps, exponents, buckets, ts, expBitPosition, horizon);
        TimesPow2(g, expBitPosition, base);
        power := g.add(power, power);
        expBitPosition := expBitPosition + 1;
      }
    }
  }

  /** results[i] = exps[i]·base, for every base, every list of exponents and either value of
      inversionIsFast. */
  method SimultaneousMultiply<T(!new)>(g: Group<T>, base: T, exps: seq<nat>, wordBits: nat) returns (results: seq<T>)
    requires IsAbelian(g) && g.member(base) && wordBits > 0
    ensures |results| == |exps|
    ensures forall i :: 0 <= i < |exps| ==> results[i] == Times(g, exps[i], base)
  {
    hide IsAbelian, Times, Weighted, Recode, Value, Pow2, Tracks;
    var exponents, buckets;
    ghost var ts;
    exponents, buckets, ts := StartSliders(g, base, exps, wordBits);
    buckets, ts := FillBuckets(g, base, exps, exponents, buckets, ts);
    results := [];
    var i := 0;
    while i < |exps|
      invariant 0 <= i <= |exps| && |results| == i
      invariant forall k :: 0 <= k < i ==> results[k] == Times(g, exps[k], base)
      modifies {}
    {
      FinishedTrack(g, base, exps[i], exponents[i], buckets[i], ts[i]);
      var r := CollectBuckets(g, base, buckets[i], ts[i].coeffs);
      results := results + [r];
      i := i + 1;
    }
  }

  lemma StartTrack<T(!new)>(g: Group<T>, base: T, e: nat, s: WindowSlider, bucket: seq<T>, t: Track)
    requires s.Valid() && !s.firstTime && s.fastNegate == g.inversionIsFast
    requires s.Windows() == Recode(e, s.windowSize, g.inversionIsFast, 0) && (s.finished <==> s.Windows() == [])
    requires !s.finished ==> s.Windows()[0] == Window(s.windowBegin, s.Digit())
    requires bucket == seq(Pow2(s.windowSize - 1), _ => g.identity)
    requires t == Track(s.Windows(), 0, seq(Pow2(s.windowSize - 1), _ => 0))
    ensures Tracks(g, base, e, s, bucket, t)
  {
    WeightedZero(Pow2(s.windowSize - 1), 0);
    assert t.windows[..0] == [] && t.windows[0..] == t.windows;
  }

  lemma BeginWithinHorizon(fastNegate: bool, e: nat, s: WindowSlider, windows: seq<Window>, used: nat)
    requires Follows(fastNegate, e, s, windows, used)
    ensures !s.finished ==> s.windowBegin <= LastBegin(windows)
  {
    hide Recode;
    RecodeWellFormed(e, s.windowSize, fastNegate, 0);
    assert !s.finished ==> windows[used].begin <= windows[|windows| - 1].begin;
  }

  lemma TracksFollows<T(!new)>(g: Group<T>, base: T, e: nat, s: WindowSlider, bucket: seq<T>, t: Track)
    requires Tracks(g, base, e, s, bucket, t)
    ensures Follows(g.inversionIsFast, e, s, t.windows, t.used)
  {
  }

  lemma FinishedTrack<T(!new)>(g: Group<T>, base: T, e: nat, s: WindowSlider, bucket: seq<T>, t: Track)
    requires Tracks(g, base, e, s, bucket, t) && s.finished
    ensures |bucket| > 0 && HoldsMultiples(g, base, bucket, t.coeffs) && Weighted(t.coeffs, 0) == e
  {
    hide Times, Recode, Weighted;
    assert t.windows[..t.used] == t.windows;
    RecodeValue(e, s.windowSize, g.inversionIsFast, 0);
  }

  method ScalarMultiply<T(!new)>(g: Group<T>, base: T, exponent: nat, wordBits: nat) returns (result: T)
    requires IsAbelian(g) && g.member(base) && wordBits > 0
    ensures result == Times(g, exponent, base)
  {
    var results := SimultaneousMultiply(g, base, [exponent], wordBits);
    result := results[0];
  }
}
