/** The schedules that AesSetKeyLocal, c/aes.c, leaves in the key array for each direction. */
module AesKeys {

  import opened AesBlock
  import opened AesTables
  import opened KeySchedule

  datatype Direction = Encryption | Decryption

  /** The user key read big-endian, four bytes a word. */
  function KeyWords(userKey: seq<byte>): (words: seq<word>)
    requires |userKey| % 4 == 0
    ensures |words| == |userKey| / 4
  {
    seq(|userKey| / 4, j requires 0 <= j < |userKey| / 4 =>
      Word(userKey[4 * j], userKey[4 * j + 1], userKey[4 * j + 2], userKey[4 * j + 3]))
  }

  predicate KeyLengthIsLegal(n: nat) { n == 16 || n == 24 || n == 32 }

  function RoundsFor(n: nat): nat { n / 4 + 6 }

  /** Where a word of the schedule moves when the order of the round keys is inverted. */
  function Mirror(rounds: nat, j: nat): (m: nat)
    requires j < 4 * rounds + 4
    ensures m < 4 * rounds + 4
  {
    4 * (rounds - j / 4) + j % 4
  }

  function EncryptionKey(sb: Sbox, userKey: seq<byte>): (rk: seq<word>)
    requires KeyLengthIsLegal(|userKey|)
    ensures |rk| == 4 * RoundsFor(|userKey|) + 4
  {
    seq(4 * RoundsFor(|userKey|) + 4, (j: nat) => W(sb, KeyWords(userKey), j))
  }

  function DecryptionKey(sb: Sbox, userKey: seq<byte>): (rk: seq<word>)
    requires KeyLengthIsLegal(|userKey|)
    ensures |rk| == 4 * RoundsFor(|userKey|) + 4
  {
    var rounds := RoundsFor(|userKey|);
    seq(4 * rounds + 4, (j: nat) requires j < 4 * rounds + 4 =>
      var w := W(sb, KeyWords(userKey), Mirror(rounds, j));
      if 4 <= j < 4 * rounds then InvMixColumn(w) else w)
  }

  function Schedule(sb: Sbox, userKey: seq<byte>, dir: Direction): (rk: seq<word>)
    requires KeyLengthIsLegal(|userKey|)
    ensures |rk| == 4 * RoundsFor(|userKey|) + 4
  {
    if dir == Encryption then EncryptionKey(sb, userKey) else DecryptionKey(sb, userKey)
  }

  lemma MirrorWithin(rounds: nat, n: nat, k: nat)
    requires k < 4 && n <= rounds
    ensures 4 * n + k < 4 * rounds + 4 && Mirror(rounds, 4 * n + k) == 4 * (rounds - n) + k
  {
  }

  lemma RoundKeyMirrored(sb: Sbox, userKey: seq<byte>, n: nat)
    requires KeyLengthIsLegal(|userKey|) && n <= RoundsFor(|userKey|)
    ensures var rounds := RoundsFor(|userKey|);
            var key := RoundKey(EncryptionKey(sb, userKey), rounds - n);
            RoundKey(DecryptionKey(sb, userKey), n) == if 0 < n < rounds then InvMix(key) else key
  {
    hide W, KeyWords, InvMixColumn, Mirror;
    var rounds := RoundsFor(|userKey|);
    MirrorWithin(rounds, n, 0);
    MirrorWithin(rounds, n, 1);
    MirrorWithin(rounds, n, 2);
    MirrorWithin(rounds, n, 3);
  }

  lemma SchedulesAreInverse(sb: Sbox, userKey: seq<byte>)
    requires KeyLengthIsLegal(|userKey|)
    ensures IsDecryptionSchedule(EncryptionKey(sb, userKey), DecryptionKey(sb, userKey), RoundsFor(|userKey|))
  {
    hide EncryptionKey, DecryptionKey, RoundKey, InvMix;
    var rounds := RoundsFor(|userKey|);
    forall n | 0 <= n <= rounds
      ensures RoundKey(DecryptionKey(sb, userKey), n)
              == if 0 < n < rounds then InvMix(RoundKey(EncryptionKey(sb, userKey), rounds - n))
                 else RoundKey(EncryptionKey(sb, userKey), rounds - n)
    {
      RoundKeyMirrored(sb, userKey, n);
    }
  }

  // ---------- inverting the order of the round keys ----------

  /** The first and last words, up to i of each, have changed places. */
  ghost predicate Mirrored(before: seq<word>, now: seq<word>, rounds: nat, i: nat) {
    && |now| == |before| >= 4 * rounds + 4
    && forall j {:trigger now[j]} :: 0 <= j < 4 * rounds + 4 ==>
         now[j] == if j < i || j >= 4 * rounds + 4 - i then before[Mirror(rounds, j)] else before[j]
  }

  /** Where the first n words of two round keys starting at i and j change places. */
  function Partner(i: nat, j: nat, n: nat, t: nat): nat
    requires i + n <= j
  {
    if i <= t < i + n then t + j - i else if j <= t < j + n then t - j + i else t
  }

  ghost predicate Swapped(before: seq<word>, now: seq<word>, i: nat, j: nat, n: nat) {
    && i + n <= j && j + n <= |before| == |now|
    && forall t {:trigger now[t]} :: 0 <= t < |now| ==> now[t] == before[Partner(i, j, n, t)]
  }

  method SwapWord(rk: array<word>, i: nat, j: nat, n: nat, ghost before: seq<word>)
    requires i + n < j && j + n < rk.Length && Swapped(before, rk[..], i, j, n)
    modifies rk
    ensures Swapped(before, rk[..], i, j, n + 1)
  {
    var temp := rk[i + n];
    rk[i + n] := rk[j + n];
    rk[j + n] := temp;
  }

  method SwapRoundKeys(rk: array<word>, i: nat, j: nat)
    requires i + 4 <= j && j + 4 <= rk.Length
    modifies rk
    ensures Swapped(old(rk[..]), rk[..], i, j, 4)
  {
    ghost var before := rk[..];
    assert Swapped(before, rk[..], i, j, 0);
    hide Swapped;
    SwapWord(rk, i, j, 0, before);
    SwapWord(rk, i, j, 1, before);
    SwapWord(rk, i, j, 2, before);
    SwapWord(rk, i, j, 3, before);
  }

  lemma MirroredExtends(before: seq<word>, mid: seq<word>, now: seq<word>, rounds: nat, i: nat, j: nat)
    requires i % 4 == 0 && i + j == 4 * rounds && i < j
    requires Mirrored(before, mid, rounds, i) && Swapped(mid, now, i, j, 4)
    ensures Mirrored(before, now, rounds, i + 4)
  {
    hide Mirror;
    forall t | 0 <= t < 4 * rounds + 4
      ensures now[t] == if t < i + 4 || t >= 4 * rounds - i then before[Mirror(rounds, t)] else before[t]
    {
      if i <= t < i + 4 {
        MirrorWithin(rounds, i / 4, t - i);
      }
      if j <= t < j + 4 {
        MirrorWithin(rounds, j / 4, t - j);
      }
    }
  }

  method ReverseRoundKeys(rk: array<word>, rounds: nat)
    requires rk.Length >= 4 * rounds + 4
    modifies rk
    ensures Mirrored(old(rk[..]), rk[..], rounds, 4 * rounds + 4)
  {
    var i, j := 0, 4 * rounds;
    ghost var before := rk[..];
    assert Mirrored(before, rk[..], rounds, 0);
    hide Mirrored, Swapped;
    while i < j
      invariant i % 4 == 0 && j % 4 == 0 && i + j == 4 * rounds && i <= j + 4
      invariant Mirrored(before, rk[..], rounds, i)
      decreases j - i
    {
      ghost var mid := rk[..];
      SwapRoundKeys(rk, i, j);
      MirroredExtends(before, mid, rk[..], rounds, i, j);
      i := i + 4;
      j := j - 4;
    }
    MirroredMiddle(before, rk[..], rounds, i, j);
  }

  /** Once the two ends have met, at most the middle round key has not moved, and it is its own mirror. */
  lemma MirroredMiddle(before: seq<word>, now: seq<word>, rounds: nat, i: nat, j: nat)
    requires i % 4 == 0 && i + j == 4 * rounds && j <= i <= j + 4 && Mirrored(before, now, rounds, i)
    ensures Mirrored(before, now, rounds, 4 * rounds + 4)
  {
    hide Mirror;
    var q := i / 4;
    assert i == 4 * q;
    forall t | 0 <= t < 4 * rounds + 4 ensures now[t] == before[Mirror(rounds, t)] {
      if i <= t < 4 * rounds + 4 - i {
        MirrorWithin(rounds, q, t - i);
      }
    }
  }

  // ---------- InvMixColumns on all but the first and last round keys ----------

  ghost predicate Mixed(before: seq<word>, now: seq<word>, n: nat) {
    && |now| == |before| >= n
    && forall j {:trigger now[j]} :: 0 <= j < |now| ==>
         now[j] == if 4 <= j < n then InvMixColumn(before[j]) else before[j]
  }

  method MixWord(sb: Sbox, rk: array<word>, j: nat, ghost before: seq<word>)
    requires IsPermutation(sb) && 4 <= j < rk.Length && Mixed(before, rk[..], j)
    modifies rk
    ensures Mixed(before, rk[..], j + 1)
  {
    hide InvMixColumn, InvMixTable;
    InvMixTableIsInvMix(sb, rk[j]);
    rk[j] := InvMixTable(sb, rk[j]);
  }

  method MixRoundKeys(sb: Sbox, rk: array<word>, rounds: nat)
    requires IsPermutation(sb) && rounds > 0 && rk.Length >= 4 * rounds + 4
    modifies rk
    ensures Mixed(old(rk[..]), rk[..], 4 * rounds)
  {
    ghost var before := rk[..];
    assert Mixed(before, rk[..], 4);
    hide Mixed, IsPermutation;
    for i := 1 to rounds
      invariant Mixed(before, rk[..], 4 * i)
    {
      MixWord(sb, rk, 4 * i, before);
      MixWord(sb, rk, 4 * i + 1, before);
      MixWord(sb, rk, 4 * i + 2, before);
      MixWord(sb, rk, 4 * i + 3, before);
    }
  }

  lemma MirroredAndMixed(sb: Sbox, userKey: seq<byte>, expanded: seq<word>, mirrored: seq<word>, mixed: seq<word>)
    requires KeyLengthIsLegal(|userKey|)
    requires Expanded(sb, KeyWords(userKey), expanded, 4 * RoundsFor(|userKey|) + 4)
    requires Mirrored(expanded, mirrored, RoundsFor(|userKey|), 4 * RoundsFor(|userKey|) + 4)
    requires Mixed(mirrored, mixed, 4 * RoundsFor(|userKey|))
    ensures mixed[..4 * RoundsFor(|userKey|) + 4] == DecryptionKey(sb, userKey)
  {
    hide W, InvMixColumn, KeyWords;
  }

  lemma ExpandedIsEncryptionKey(sb: Sbox, userKey: seq<byte>, rk: seq<word>)
    requires KeyLengthIsLegal(|userKey|)
    requires Expanded(sb, KeyWords(userKey), rk, 4 * RoundsFor(|userKey|) + 4)
    ensures rk[..4 * RoundsFor(|userKey|) + 4] == EncryptionKey(sb, userKey)
  {
    hide W, KeyWords;
  }
}
