/** The block cipher of c/aes.c in both directions, round by round through the tables. */
module AesRounds {

  import opened AesBlock
  import opened AesTables
  import opened KeySchedule
  import opened AesKeys

  const AES_BLOCK_SIZE: nat := 16

  datatype Status = Success | BadFuncArg

  // ---------- blocks as bytes ----------

  function FromBytes(b: seq<byte>): State
    requires |b| == 16
  {
    State(Word(b[0], b[1], b[2], b[3]), Word(b[4], b[5], b[6], b[7]), Word(b[8], b[9], b[10], b[11]),
          Word(b[12], b[13], b[14], b[15]))
  }

  function WordBytes(w: word): (b: seq<byte>)
    ensures |b| == 4
  {
    [Byte3(w), Byte2(w), Byte1(w), Byte0(w)]
  }

  function ToBytes(s: State): (b: seq<byte>)
    ensures |b| == 16
  {
    WordBytes(s.s0) + WordBytes(s.s1) + WordBytes(s.s2) + WordBytes(s.s3)
  }

  lemma BytesRoundTrip(b: seq<byte>)
    requires |b| == 16
    ensures ToBytes(FromBytes(b)) == b
  {
    hide Word, Byte3, Byte2, Byte1, Byte0;
    BytesOfWord(b[0], b[1], b[2], b[3]);
    BytesOfWord(b[4], b[5], b[6], b[7]);
    BytesOfWord(b[8], b[9], b[10], b[11]);
    BytesOfWord(b[12], b[13], b[14], b[15]);
  }

  lemma StateRoundTrip(s: State)
    ensures FromBytes(ToBytes(s)) == s
  {
    hide Word, Byte3, Byte2, Byte1, Byte0;
    WordOfBytes(s.s0);
    WordOfBytes(s.s1);
    WordOfBytes(s.s2);
    WordOfBytes(s.s3);
  }

  function EncryptBlock(sb: Sbox, rk: seq<word>, rounds: nat, b: seq<byte>): (c: seq<byte>)
    requires rounds > 0 && 4 * rounds + 4 <= |rk| && |b| == 16
    ensures |c| == 16
  {
    ToBytes(Cipher(sb, rk, rounds, FromBytes(b)))
  }

  function DecryptBlock(sb: Sbox, rk: seq<word>, rounds: nat, b: seq<byte>): (c: seq<byte>)
    requires rounds > 0 && 4 * rounds + 4 <= |rk| && |b| == 16
    ensures |c| == 16
  {
    ToBytes(EqInvCipher(sb, rk, rounds, FromBytes(b)))
  }

  /** For every key of a legal length and every block, decryption under the transformed schedule undoes
      encryption under the expanded one. */
  lemma BlockRoundTrip(sb: Sbox, userKey: seq<byte>, b: seq<byte>)
    requires IsPermutation(sb) && KeyLengthIsLegal(|userKey|) && |b| == 16
    ensures var rounds := RoundsFor(|userKey|);
            DecryptBlock(sb, DecryptionKey(sb, userKey), rounds,
                         EncryptBlock(sb, EncryptionKey(sb, userKey), rounds, b)) == b
  {
    hide IsPermutation, IsDecryptionSchedule, EncryptionKey, DecryptionKey, FromBytes, ToBytes, Cipher, EqInvCipher;
    var rounds := RoundsFor(|userKey|);
    var ek, dk := EncryptionKey(sb, userKey), DecryptionKey(sb, userKey);
    SchedulesAreInverse(sb, userKey);
    DecryptUndoesEncrypt(sb, ek, dk, rounds, FromBytes(b));
    StateRoundTrip(Cipher(sb, ek, rounds, FromBytes(b)));
    BytesRoundTrip(b);
  }

  // ---------- one round by table lookup ----------

  method FirstRound(s: State, rk: array<word>, ghost used: seq<word>)
    returns (s0: word, s1: word, s2: word, s3: word)
    requires 4 <= |used| <= rk.Length && used == rk[..|used|]
    ensures State(s0, s1, s2, s3) == Xor(s, RoundKey(used, 0))
  {
    s0, s1, s2, s3 := AddWords(s.s0, rk[0]), AddWords(s.s1, rk[1]), AddWords(s.s2, rk[2]), AddWords(s.s3, rk[3]);
  }

  method TeRound(sb: Sbox, s0: word, s1: word, s2: word, s3: word, rk: array<word>, p: nat, ghost used: seq<word>)
    returns (t0: word, t1: word, t2: word, t3: word)
    requires p % 4 == 0 && p + 4 <= |used| <= rk.Length && used == rk[..|used|]
    ensures State(t0, t1, t2, t3) == Xor(Mix(SubShift(sb, State(s0, s1, s2, s3))), RoundKey(used, p / 4))
  {
    hide TeColumn, MixColumn, SubShiftColumn, AddWords;
    TeColumnIsRound(sb, s0, s1, s2, s3, rk[p]);
    TeColumnIsRound(sb, s1, s2, s3, s0, rk[p + 1]);
    TeColumnIsRound(sb, s2, s3, s0, s1, rk[p + 2]);
    TeColumnIsRound(sb, s3, s0, s1, s2, rk[p + 3]);
    t0 := TeColumn(sb, s0, s1, s2, s3, rk[p]);
    t1 := TeColumn(sb, s1, s2, s3, s0, rk[p + 1]);
    t2 := TeColumn(sb, s2, s3, s0, s1, rk[p + 2]);
    t3 := TeColumn(sb, s3, s0, s1, s2, rk[p + 3]);
  }

  method TdRound(sb: Sbox, s0: word, s1: word, s2: word, s3: word, rk: array<word>, p: nat, ghost used: seq<word>)
    returns (t0: word, t1: word, t2: word, t3: word)
    requires p % 4 == 0 && p + 4 <= |used| <= rk.Length && used == rk[..|used|]
    ensures State(t0, t1, t2, t3) == Xor(InvMix(InvSubShift(sb, State(s0, s1, s2, s3))), RoundKey(used, p / 4))
  {
    hide TdColumn, InvMixColumn, InvSubShiftColumn, AddWords;
    TdColumnIsRound(sb, s0, s3, s2, s1, rk[p]);
    TdColumnIsRound(sb, s1, s0, s3, s2, rk[p + 1]);
    TdColumnIsRound(sb, s2, s1, s0, s3, rk[p + 2]);
    TdColumnIsRound(sb, s3, s2, s1, s0, rk[p + 3]);
    t0 := TdColumn(sb, s0, s3, s2, s1, rk[p]);
    t1 := TdColumn(sb, s1, s0, s3, s2, rk[p + 1]);
    t2 := TdColumn(sb, s2, s1, s0, s3, rk[p + 2]);
    t3 := TdColumn(sb, s3, s2, s1, s0, rk[p + 3]);
  }

  function LastTe(sb: Sbox, a: word, b: word, c: word, d: word, k: word): word {
    AddWords(MaskedTe4(sb, Byte3(a), Byte2(b), Byte1(c), Byte0(d)), k)
  }

  function LastTd(sb: Sbox, a: word, b: word, c: word, d: word, k: word): word {
    AddWords(MaskedTd4(sb, Byte3(a), Byte2(b), Byte1(c), Byte0(d)), k)
  }

  lemma LastTeIsSubShift(sb: Sbox, a: word, b: word, c: word, d: word, k: word)
    ensures LastTe(sb, a, b, c, d, k) == AddWords(SubShiftColumn(sb, a, b, c, d), k)
  {
    hide Byte3, Byte2, Byte1, Byte0, Word, MaskedTe4, AddWords;
    MaskedTe4IsWord(sb, Byte3(a), Byte2(b), Byte1(c), Byte0(d));
  }

  lemma LastTdIsInvSubShift(sb: Sbox, a: word, b: word, c: word, d: word, k: word)
    ensures LastTd(sb, a, b, c, d, k) == AddWords(InvSubShiftColumn(sb, a, b, c, d), k)
  {
    hide Byte3, Byte2, Byte1, Byte0, Word, MaskedTd4, AddWords;
    MaskedTd4IsWord(sb, Byte3(a), Byte2(b), Byte1(c), Byte0(d));
  }

  method LastTeRound(sb: Sbox, t0: word, t1: word, t2: word, t3: word, rk: array<word>, p: nat, ghost used: seq<word>)
    returns (s0: word, s1: word, s2: word, s3: word)
    requires p % 4 == 0 && p + 4 <= |used| <= rk.Length && used == rk[..|used|]
    ensures State(s0, s1, s2, s3) == Xor(SubShift(sb, State(t0, t1, t2, t3)), RoundKey(used, p / 4))
  {
    hide LastTe, SubShiftColumn, AddWords;
    LastTeIsSubShift(sb, t0, t1, t2, t3, rk[p]);
    LastTeIsSubShift(sb, t1, t2, t3, t0, rk[p + 1]);
    LastTeIsSubShift(sb, t2, t3, t0, t1, rk[p + 2]);
    LastTeIsSubShift(sb, t3, t0, t1, t2, rk[p + 3]);
    s0 := LastTe(sb, t0, t1, t2, t3, rk[p]);
    s1 := LastTe(sb, t1, t2, t3, t0, rk[p + 1]);
    s2 := LastTe(sb, t2, t3, t0, t1, rk[p + 2]);
    s3 := LastTe(sb, t3, t0, t1, t2, rk[p + 3]);
  }

  method LastTdRound(sb: Sbox, t0: word, t1: word, t2: word, t3: word, rk: array<word>, p: nat, ghost used: seq<word>)
    returns (s0: word, s1: word, s2: word, s3: word)
    requires p % 4 == 0 && p + 4 <= |used| <= rk.Length && used == rk[..|used|]
    ensures State(s0, s1, s2, s3) == Xor(InvSubShift(sb, State(t0, t1, t2, t3)), RoundKey(used, p / 4))
  {
    hide LastTd, InvSubShiftColumn, AddWords;
    LastTdIsInvSubShift(sb, t0, t3, t2, t1, rk[p]);
    LastTdIsInvSubShift(sb, t1, t0, t3, t2, rk[p + 1]);
    LastTdIsInvSubShift(sb, t2, t1, t0, t3, rk[p + 2]);
    LastTdIsInvSubShift(sb, t3, t2, t1, t0, rk[p + 3]);
    s0 := LastTd(sb, t0, t3, t2, t1, rk[p]);
    s1 := LastTd(sb, t1, t0, t3, t2, rk[p + 1]);
    s2 := LastTd(sb, t2, t1, t0, t3, rk[p + 2]);
    s3 := LastTd(sb, t3, t2, t1, t0, rk[p + 3]);
  }

  /** Both halves of each pass of the round loop, and the last round; r is half the number of rounds. */
  method EncryptState(sb: Sbox, rk: array<word>, r0: nat, b: State) returns (c: State)
    requires 0 < r0 && 8 * r0 + 4 <= rk.Length
    ensures c == Cipher(sb, rk[..8 * r0 + 4], 2 * r0, b)
  {
    hide SubShift, Mix, Xor, RoundKey;
    ghost var used := rk[..8 * r0 + 4];
    var s0, s1, s2, s3 := FirstRound(b, rk, used);
    var t0, t1, t2, t3 := 0, 0, 0, 0;
    var r, p := r0, 0;
    while true
      invariant 0 < r <= r0 && p == 8 * (r0 - r)
      invariant State(s0, s1, s2, s3) == Rounds(sb, used, 2 * (r0 - r), b)
      decreases r
    {
      t0, t1, t2, t3 := TeRound(sb, s0, s1, s2, s3, rk, p + 4, used);
      p := p + 8;
      r := r - 1;
      if r == 0 { break; }
      s0, s1, s2, s3 := TeRound(sb, t0, t1, t2, t3, rk, p, used);
    }
    s0, s1, s2, s3 := LastTeRound(sb, t0, t1, t2, t3, rk, p, used);
    c := State(s0, s1, s2, s3);
  }

  method DecryptState(sb: Sbox, rk: array<word>, r0: nat, b: State) returns (c: State)
    requires 0 < r0 && 8 * r0 + 4 <= rk.Length
    ensures c == EqInvCipher(sb, rk[..8 * r0 + 4], 2 * r0, b)
  {
    hide InvSubShift, InvMix, Xor, RoundKey;
    ghost var used := rk[..8 * r0 + 4];
    var s0, s1, s2, s3 := FirstRound(b, rk, used);
    var t0, t1, t2, t3 := 0, 0, 0, 0;
    var r, p := r0, 0;
    while true
      invariant 0 < r <= r0 && p == 8 * (r0 - r)
      invariant State(s0, s1, s2, s3) == InvRounds(sb, used, 2 * (r0 - r), b)
      decreases r
    {
      t0, t1, t2, t3 := TdRound(sb, s0, s1, s2, s3, rk, p + 4, used);
      p := p + 8;
      r := r - 1;
      if r == 0 { break; }
      s0, s1, s2, s3 := TdRound(sb, t0, t1, t2, t3, rk, p, used);
    }
    s0, s1, s2, s3 := LastTdRound(sb, t0, t1, t2, t3, rk, p, used);
    c := State(s0, s1, s2, s3);
  }
}
