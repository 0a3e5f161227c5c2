/** Data that arrives in pieces. */
module Pieces {

  function Flat<T>(pieces: seq<seq<T>>): seq<T> {
    if pieces == [] then [] else Flat(pieces[..|pieces| - 1]) + pieces[|pieces| - 1]
  }

  lemma FlatStep<T>(pieces: seq<seq<T>>, i: nat)
    requires i < |pieces|
    ensures Flat(pieces[..i + 1]) == Flat(pieces[..i]) + pieces[i]
  {
    assert pieces[..i + 1][..i] == pieces[..i];
  }

  lemma {:induction false} FlatCons<T>(piece: seq<T>, pieces: seq<seq<T>>)
    ensures Flat([piece] + pieces) == piece + Flat(pieces)
    decreases |pieces|
  {
    var n := |pieces|;
    if n == 0 {
      assert ([piece] + pieces)[..0] == [] && ([piece] + pieces)[0] == piece;
    } else {
      assert ([piece] + pieces)[..n] == [piece] + pieces[..n - 1];
      FlatCons(piece, pieces[..n - 1]);
      assert (piece + Flat(pieces[..n - 1])) + pieces[n - 1] == piece + (Flat(pieces[..n - 1]) + pieces[n - 1]);
    }
  }

  /** s cut into pieces of the given lengths, as far as it reaches, and a last piece. */
  function Cut<T>(s: seq<T>, cuts: seq<nat>): seq<seq<T>>
    decreases |cuts|
  {
    if cuts == [] then [s]
    else
      var n := if cuts[0] <= |s| then cuts[0] else |s|;
      [s[..n]] + Cut(s[n..], cuts[1..])
  }

  lemma {:induction false} FlatOfCut<T>(s: seq<T>, cuts: seq<nat>)
    ensures Flat(Cut(s, cuts)) == s
    decreases |cuts|
  {
    if cuts == [] {
      assert [s][..0] == [] && Flat([s]) == [] + s;
    } else {
      var n := if cuts[0] <= |s| then cuts[0] else |s|;
      FlatOfCut(s[n..], cuts[1..]);
      FlatCons(s[..n], Cut(s[n..], cuts[1..]));
    }
  }

  lemma {:induction false} FlatLonger<T>(pieces: seq<seq<T>>, i: nat)
    requires i <= |pieces|
    ensures |Flat(pieces[..i])| <= |Flat(pieces)|
    decreases |pieces| - i
  {
    if i == |pieces| {
      assert pieces[..i] == pieces;
    } else {
      FlatStep(pieces, i);
      FlatLonger(pieces, i + 1);
    }
  }
}
