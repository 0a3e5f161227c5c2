/** Writing into the middle of a buffer. */
module Buffers {

  /** whole with mid written over it from index at. */
  function Spliced<T>(whole: seq<T>, at: nat, mid: seq<T>): (s: seq<T>)
    requires at + |mid| <= |whole|
    ensures |s| == |whole|
  {
    whole[..at] + mid + whole[at + |mid|..]
  }

  lemma SpliceTwice<T>(whole: seq<T>, at: nat, first: seq<T>, second: seq<T>)
    requires at + |first| + |second| <= |whole|
    ensures Spliced(Spliced(whole, at, first), at + |first|, second) == Spliced(whole, at, first + second)
  {
  }

  lemma SpliceOver<T>(whole: seq<T>, at: nat, first: seq<T>, second: seq<T>)
    requires |first| == |second| && at + |first| <= |whole|
    ensures Spliced(Spliced(whole, at, first), at, second) == Spliced(whole, at, second)
  {
  }

  lemma SpliceRead<T>(whole: seq<T>, at: nat, mid: seq<T>)
    requires at + |mid| <= |whole|
    ensures Spliced(whole, at, mid)[at..at + |mid|] == mid
  {
  }

  lemma SpliceBeyond<T>(whole: seq<T>, at: nat, mid: seq<T>, i: nat, j: nat)
    requires at + |mid| <= i <= j <= |whole|
    ensures Spliced(whole, at, mid)[i..j] == whole[i..j]
  {
  }

  lemma SpliceNothing<T>(whole: seq<T>, at: nat)
    requires at <= |whole|
    ensures Spliced(whole, at, []) == whole
  {
  }

  lemma SpliceAll<T>(whole: seq<T>, mid: seq<T>)
    requires |mid| == |whole|
    ensures Spliced(whole, 0, mid) == mid
  {
  }

  lemma SliceOfSlice<T>(whole: seq<T>, at: nat, sz: nat, i: nat, j: nat)
    requires i <= j <= sz && at + sz <= |whole|
    ensures whole[at..at + sz][i..j] == whole[at + i..at + j]
  {
    var part := whole[at..at + sz];
    assert forall t :: i <= t < j ==> part[t] == whole[at + t];
  }

  /** buf[at..at + |b|] becomes b. */
  method CopyInto<T>(buf: array<T>, at: nat, b: seq<T>)
    requires at + |b| <= buf.Length
    modifies buf
    ensures buf[..] == Spliced(old(buf[..]), at, b)
  {
    for i := 0 to |b|
      invariant forall j :: 0 <= j < i ==> buf[at + j] == b[j]
      invariant forall j :: (0 <= j < at || at + i <= j < buf.Length) ==> buf[j] == old(buf[j])
    {
      buf[at + i] := b[i];
    }
  }
}
