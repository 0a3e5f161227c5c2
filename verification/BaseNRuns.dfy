/** Whole messages through the encoder, the grouper and the decoder, each fed in pieces. */
module BaseNRuns {

  import opened AesBlock
  import opened BaseBits
  import opened BaseNDecoding
  import opened BaseNEncoding
  import opened Pieces

  /** No character of s stands for a member of the alphabet. */
  ghost predicate IsForeign(alphabet: seq<byte>, s: seq<byte>, caseInsensitive: bool) {
    forall i, j {:trigger s[i], alphabet[j]} ::
      0 <= i < |s| && 0 <= j < |alphabet| ==> !Matches(alphabet[j], s[i], caseInsensitive)
  }

  lemma ForeignIsSkipped(lookup: Lookup, alphabet: seq<byte>, n: nat, s: seq<byte>, caseInsensitive: bool)
    requires 0 < n <= 7 && |alphabet| == Pow(n) && IsFilled(lookup, alphabet, |alphabet|, caseInsensitive)
    requires IsForeign(alphabet, s, caseInsensitive)
    ensures AreSkipped(lookup, s)
  {
    hide Matches;
    FilledInverts(lookup, alphabet, n, caseInsensitive);
    forall i | 0 <= i < |s| ensures lookup[s[i] as nat] == -1 {
      assert Entry(lookup, s[i]) == -1;
    }
  }

  method Encode(encoder: BaseNEncoder, pieces: seq<seq<byte>>)
    requires encoder.Valid() && encoder.message == [] && encoder.output == encoder.before == []
    modifies encoder, encoder.outBuf
    ensures encoder.Valid()
    ensures encoder.output ==
            Encoded(encoder.alphabet, encoder.bitsPerChar, encoder.outputBlockSize, encoder.padding, Flat(pieces))
  {
    hide BaseNEncoder.Valid, Encoded;
    for i := 0 to |pieces|
      invariant encoder.Valid() && encoder.before == [] && encoder.message == Flat(pieces[..i])
    {
      FlatStep(pieces, i);
      encoder.Put2(pieces[i], false);
    }
    assert pieces[..|pieces|] == pieces;
    encoder.Put2([], true);
    assert Flat(pieces) + [] == Flat(pieces);
  }

  method Group(grouper: Grouper, pieces: seq<seq<byte>>)
    requires grouper.Valid() && grouper.message == [] && grouper.before == []
    modifies grouper
    ensures grouper.output == GroupedMessage(grouper.groupSize, grouper.separator, grouper.terminator, Flat(pieces))
  {
    hide Grouper.Valid, GroupedMessage;
    for i := 0 to |pieces|
      invariant grouper.Valid() && grouper.before == [] && grouper.message == Flat(pieces[..i])
    {
      FlatStep(pieces, i);
      grouper.Put2(pieces[i], false);
    }
    assert pieces[..|pieces|] == pieces;
    grouper.Put2([], true);
    assert Flat(pieces) + [] == Flat(pieces);
  }

  method Decode(decoder: BaseNDecoder, pieces: seq<seq<byte>>)
    requires decoder.Valid() && decoder.message == [] && decoder.before == []
    modifies decoder, decoder.outBuf
    ensures decoder.Valid() && decoder.output == Decoded(decoder.lookup, decoder.bitsPerChar, Flat(pieces))
  {
    hide BaseNDecoder.Valid, Decoded;
    for i := 0 to |pieces|
      invariant decoder.Valid() && decoder.before == [] && decoder.message == Flat(pieces[..i])
    {
      FlatStep(pieces, i);
      decoder.Put2(pieces[i], false);
    }
    assert pieces[..|pieces|] == pieces;
    decoder.Put2([], true);
    assert Flat(pieces) + [] == Flat(pieces);
  }

  /** The three in a row, for any table that inverts the alphabet. */
  method RunThrough(alphabet: seq<byte>, lookup: Lookup, n: nat, padding: Padding, groupSize: nat,
                    separator: seq<byte>, terminator: seq<byte>,
                    pieces: seq<seq<byte>>, encodingCuts: seq<nat>, textCuts: seq<nat>)
    returns (text: seq<byte>, plain: seq<byte>)
    requires IsLookup(lookup, n) && |alphabet| == Pow(n) && Inverts(lookup, alphabet)
    requires AreSkipped(lookup, separator) && AreSkipped(lookup, terminator)
    requires padding.Padding? ==> AreSkipped(lookup, [padding.c])
    ensures plain == Flat(pieces)
  {
    hide BaseNEncoder.Valid, BaseNDecoder.Valid, GroupedMessage, Encoded, Decoded, Inverts, AreSkipped;
    var encoder := new BaseNEncoder(alphabet, n, padding);
    var grouper := new Grouper(groupSize, separator, terminator);
    var decoder := new BaseNDecoder(lookup, n);
    Encode(encoder, pieces);
    FlatOfCut(encoder.output, encodingCuts);
    Group(grouper, Cut(encoder.output, encodingCuts));
    text := grouper.output;
    FlatOfCut(text, textCuts);
    Decode(decoder, Cut(text, textCuts));
    plain := decoder.output;
    BaseNRoundTrip(alphabet, lookup, n, encoder.outputBlockSize, padding, groupSize, separator, terminator,
                   Flat(pieces));
  }

  /** A message comes back from its grouped encoding, however message, encoding and text were cut, when the padding,
      the separator and the terminator stand for no member of the alphabet. */
  method ThereAndBack(alphabet: seq<byte>, n: nat, caseInsensitive: bool, padding: Padding, groupSize: nat,
                      separator: seq<byte>, terminator: seq<byte>,
                      pieces: seq<seq<byte>>, encodingCuts: seq<nat>, textCuts: seq<nat>)
    returns (text: seq<byte>, plain: seq<byte>)
    requires 0 < n <= 7 && |alphabet| == Pow(n) && IsInjective(alphabet, caseInsensitive)
    requires IsForeign(alphabet, separator, caseInsensitive) && IsForeign(alphabet, terminator, caseInsensitive)
    requires padding.Padding? ==> IsForeign(alphabet, [padding.c], caseInsensitive)
    ensures plain == Flat(pieces)
  {
    hide IsFilled, IsInjective, IsForeign, Inverts, AreSkipped;
    var table := new int[256](_ => -1);
    InitializeDecodingLookupArray(table, alphabet, caseInsensitive);
    FilledInverts(table[..], alphabet, n, caseInsensitive);
    ForeignIsSkipped(table[..], alphabet, n, separator, caseInsensitive);
    ForeignIsSkipped(table[..], alphabet, n, terminator, caseInsensitive);
    if padding.Padding? {
      ForeignIsSkipped(table[..], alphabet, n, [padding.c], caseInsensitive);
    }
    text, plain := RunThrough(alphabet, table[..], n, padding, groupSize, separator, terminator, pieces, encodingCuts,
                              textCuts);
  }
}
