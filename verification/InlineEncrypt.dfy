/** The four encryptors of bench/aes.c: the key words slide along the schedule while the state is encrypted. */
module InlineEncrypt {

  import opened AesBlock
  import opened AesTables
  import opened KeySchedule
  import opened AesKeys
  import opened AesRounds
  import opened InlineAes

  /** k is word j of the schedule of key, byte-reversed. */
  ghost predicate IsWord(sb: Sbox, key: seq<word>, k: word, j: nat) {
    |key| > 0 && Rev(k) == W(sb, key, j)
  }

  ghost predicate AreWords(sb: Sbox, key: seq<word>, k0: word, k1: word, k2: word, k3: word, j: nat) {
    IsWord(sb, key, k0, j) && IsWord(sb, key, k1, j + 1) && IsWord(sb, key, k2, j + 2) && IsWord(sb, key, k3, j + 3)
  }

  // ---------- one word of the schedule at a time ----------

  /** k ^= previous */
  method Chained(ghost sb: Sbox, ghost key: seq<word>, k: word, previous: word, ghost j: nat) returns (next: word)
    requires |key| <= j && |key| > 0 && j % |key| != 0 && !(|key| > 6 && j % |key| == 4)
    requires IsWord(sb, key, k, j - |key|) && IsWord(sb, key, previous, j - 1)
    ensures IsWord(sb, key, next, j)
  {
    hide Rev, AddWords, Rcon, SubWord, RotWord;
    RevOfSum(k, previous);
    next := AddWords(k, previous);
  }

  /** temp = rotated and substituted previous, temp ^= rcon, k ^= temp */
  method Rotated(sb: Sbox, ghost key: seq<word>, k: word, previous: word, rcon: byte, ghost j: nat) returns (next: word)
    requires |key| <= j && |key| > 0 && j % |key| == 0 && rcon == RconByte(j / |key|)
    requires IsWord(sb, key, k, j - |key|) && IsWord(sb, key, previous, j - 1)
    ensures IsWord(sb, key, next, j)
  {
    hide Rev, AddWords, SubByte, SubWord, RotWord, RotDown8, RconByte, Word;
    var temp := RotDown8(previous);
    RevOfRotDown8(previous);
    RevOfSubByte(sb, temp);
    temp := SubByte(sb, temp);
    RevOfRcon(rcon);
    RevOfSum(temp, rcon as word);
    temp := AddWords(temp, rcon as word);
    RevOfSum(k, temp);
    next := AddWords(k, temp);
  }

  /** temp = substituted previous, k ^= temp */
  method Substituted(sb: Sbox, ghost key: seq<word>, k: word, previous: word, ghost j: nat) returns (next: word)
    requires |key| == 8 <= j && j % 8 == 4
    requires IsWord(sb, key, k, j - 8) && IsWord(sb, key, previous, j - 1)
    ensures IsWord(sb, key, next, j)
  {
    hide Rev, AddWords, SubByte, SubWord, RotWord, Rcon;
    RevOfSubByte(sb, previous);
    RevOfSum(k, SubByte(sb, previous));
    next := AddWords(k, SubByte(sb, previous));
  }

  lemma NextRconByte(rcon: byte, n: nat)
    requires n > 0 && rcon == RconByte(n)
    ensures NextRcon(rcon) == RconByte(n + 1)
  {
    hide NextRcon, XTime;
    NextRconIsXTime(rcon);
  }

  // ---------- rounds against the schedule ----------

  /** The schedule, as far as it is needed for the given number of rounds. */
  function ScheduleWords(sb: Sbox, key: seq<word>, rounds: nat): (rk: seq<word>)
    requires |key| > 0
    ensures |rk| == 4 * rounds + 4
  {
    seq(4 * rounds + 4, (j: nat) => W(sb, key, j))
  }

  lemma RoundKeyOfWords(sb: Sbox, key: seq<word>, rounds: nat, n: nat, k0: word, k1: word, k2: word, k3: word)
    requires n <= rounds && AreWords(sb, key, k0, k1, k2, k3, 4 * n)
    ensures |key| > 0 && RoundKey(ScheduleWords(sb, key, rounds), n) == RevState(State(k0, k1, k2, k3))
  {
    hide Rev, W;
  }

  /** The state is what n rounds make of block. */
  ghost predicate AfterRounds(sb: Sbox, key: seq<word>, rounds: nat, n: nat, block: State, state: seq<word>) {
    |key| > 0 && n <= rounds && |state| == 4
    && RevState(StateOf(state)) == Rounds(sb, ScheduleWords(sb, key, rounds), n, RevState(block))
  }

  ghost predicate IsEncrypted(sb: Sbox, key: seq<word>, rounds: nat, block: State, state: seq<word>) {
    |key| > 0 && rounds > 0 && |state| == 4
    && RevState(StateOf(state)) == Cipher(sb, ScheduleWords(sb, key, rounds), rounds, RevState(block))
  }

  /** state[i] ^= ki */
  method AddFirstKey(ghost sb: Sbox, ghost key: seq<word>, ghost rounds: nat, state: array<word>,
                     k0: word, k1: word, k2: word, k3: word)
    requires state.Length == 4 && AreWords(sb, key, k0, k1, k2, k3, 0)
    modifies state
    ensures AfterRounds(sb, key, rounds, 0, StateOf(old(state[..])), state[..])
  {
    hide Rev, AddWords, W, ScheduleWords;
    RoundKeyOfWords(sb, key, rounds, 0, k0, k1, k2, k3);
    RevOfSum(state[0], k0);
    RevOfSum(state[1], k1);
    RevOfSum(state[2], k2);
    RevOfSum(state[3], k3);
    state[0] := AddWords(state[0], k0);
    state[1] := AddWords(state[1], k1);
    state[2] := AddWords(state[2], k2);
    state[3] := AddWords(state[3], k3);
  }

  method NextRound(sb: Sbox, ghost key: seq<word>, ghost rounds: nat, ghost n: nat, ghost block: State,
                   state: array<word>, k0: word, k1: word, k2: word, k3: word)
    requires state.Length == 4 && 0 < n <= rounds && AreWords(sb, key, k0, k1, k2, k3, 4 * n)
    requires AfterRounds(sb, key, rounds, n - 1, block, state[..])
    modifies state
    ensures AfterRounds(sb, key, rounds, n, block, state[..])
  {
    hide RevState, AreWords, ScheduleWords, Mix, SubShift, Xor, RoundKey;
    RoundKeyOfWords(sb, key, rounds, n, k0, k1, k2, k3);
    FullRound(sb, state, k0, k1, k2, k3);
  }

  lemma LastRound(sb: Sbox, key: seq<word>, rounds: nat, block: State, before: seq<word>, after: seq<word>,
                  k0: word, k1: word, k2: word, k3: word)
    requires rounds > 0 && |after| == 4 && AreWords(sb, key, k0, k1, k2, k3, 4 * rounds)
    requires AfterRounds(sb, key, rounds, rounds - 1, block, before)
    requires RevState(StateOf(after)) == Xor(SubShift(sb, RevState(StateOf(before))), RevState(State(k0, k1, k2, k3)))
    ensures IsEncrypted(sb, key, rounds, block, after)
  {
    hide RevState, AreWords, ScheduleWords, SubShift, Xor, RoundKey, Rounds, StateOf;
    RoundKeyOfWords(sb, key, rounds, rounds, k0, k1, k2, k3);
  }

  /** The key words in memory, byte-reversed. */
  function KeyOf(key: seq<word>): (k: seq<word>)
    ensures |k| == |key|
  {
    seq(|key|, i requires 0 <= i < |key| => Rev(key[i]))
  }

  method FirstWords(ghost sb: Sbox, key: seq<word>) returns (k0: word, k1: word, k2: word, k3: word)
    requires |key| >= 4
    ensures AreWords(sb, KeyOf(key), k0, k1, k2, k3, 0)
    ensures k0 == key[0] && k1 == key[1] && k2 == key[2] && k3 == key[3]
  {
    hide Rev;
    k0, k1, k2, k3 := key[0], key[1], key[2], key[3];
  }

  method FirstRcon() returns (rcon: byte)
    ensures rcon == RconByte(1)
  {
    rcon := 1;
  }

  // ---------- the encryptors ----------

  /** encrypt_128_key_expand_inline */
  method Encrypt128(sb: Sbox, state: array<word>, key: seq<word>)
    requires state.Length == 4 && |key| == 4
    modifies state
    ensures IsEncrypted(sb, KeyOf(key), 10, StateOf(old(state[..])), state[..])
  {
    hide IsWord, AfterRounds, IsEncrypted, RevState, SubShift, Xor, RconByte;
    ghost var kk, block := KeyOf(key), StateOf(state[..]);
    var k0, k1, k2, k3 := FirstWords(sb, key);
    AddFirstKey(sb, kk, 10, state, k0, k1, k2, k3);
    var rcon: byte := FirstRcon();
    for i := 1 to 11
      invariant AreWords(sb, kk, k0, k1, k2, k3, 4 * i - 4) && rcon == RconByte(i)
      invariant if i == 11 then IsEncrypted(sb, kk, 10, block, state[..])
                else AfterRounds(sb, kk, 10, i - 1, block, state[..])
    {
      k0 := Rotated(sb, kk, k0, k3, rcon, 4 * i);
      NextRconByte(rcon, i);
      rcon := NextRcon(rcon);
      k1 := Chained(sb, kk, k1, k0, 4 * i + 1);
      k2 := Chained(sb, kk, k2, k1, 4 * i + 2);
      k3 := Chained(sb, kk, k3, k2, 4 * i + 3);
      var isFinalRound := i == 10;
      if isFinalRound {
        ghost var before := state[..];
        MaskedRound(sb, state, k0, k1, k2, k3);
        LastRound(sb, kk, 10, block, before, state[..], k0, k1, k2, k3);
      } else {
        NextRound(sb, kk, 10, i, block, state, k0, k1, k2, k3);
      }
    }
  }

  /** encrypt_128_key_expand_inline_no_branch */
  method Encrypt128NoBranch(sb: Sbox, state: array<word>, key: seq<word>)
    requires state.Length == 4 && |key| == 4
    modifies state
    ensures IsEncrypted(sb, KeyOf(key), 10, StateOf(old(state[..])), state[..])
  {
    hide IsWord, AfterRounds, IsEncrypted, RevState, SubShift, Xor, RconByte;
    ghost var kk, block := KeyOf(key), StateOf(state[..]);
    var k0, k1, k2, k3 := FirstWords(sb, key);
    AddFirstKey(sb, kk, 10, state, k0, k1, k2, k3);
    var rcon: byte := FirstRcon();
    for i := 1 to 10
      invariant AreWords(sb, kk, k0, k1, k2, k3, 4 * i - 4) && rcon == RconByte(i)
      invariant AfterRounds(sb, kk, 10, i - 1, block, state[..])
    {
      k0 := Rotated(sb, kk, k0, k3, rcon, 4 * i);
      NextRconByte(rcon, i);
      rcon := NextRcon(rcon);
      k1 := Chained(sb, kk, k1, k0, 4 * i + 1);
      k2 := Chained(sb, kk, k2, k1, 4 * i + 2);
      k3 := Chained(sb, kk, k3, k2, 4 * i + 3);
      NextRound(sb, kk, 10, i, block, state, k0, k1, k2, k3);
    }
    k0 := Rotated(sb, kk, k0, k3, rcon, 40);
    k1 := Chained(sb, kk, k1, k0, 41);
    k2 := Chained(sb, kk, k2, k1, 42);
    k3 := Chained(sb, kk, k3, k2, 43);
    ghost var before := state[..];
    ByteRound(sb, state, k0, k1, k2, k3);
    LastRound(sb, kk, 10, block, before, state[..], k0, k1, k2, k3);
  }

  /** The six key words of the 192-bit form, word j of the schedule first. */
  ghost predicate AreSixWords(sb: Sbox, key: seq<word>, k0: word, k1: word, k2: word, k3: word, k4: word, k5: word,
                              j: nat) {
    AreWords(sb, key, k0, k1, k2, k3, j) && IsWord(sb, key, k4, j + 4) && IsWord(sb, key, k5, j + 5)
  }

  method LastTwoOfSix(ghost sb: Sbox, key: seq<word>) returns (k4: word, k5: word)
    requires |key| == 6
    ensures IsWord(sb, KeyOf(key), k4, 4) && IsWord(sb, KeyOf(key), k5, 5)
  {
    hide Rev;
    k4, k5 := key[4], key[5];
  }

  /** encrypt_192_key_expand_inline_no_branch, whose goto enters the loop past the first two assignments */
  method Encrypt192(sb: Sbox, state: array<word>, key: seq<word>)
    requires state.Length == 4 && |key| == 6
    modifies state
    ensures IsEncrypted(sb, KeyOf(key), 12, StateOf(old(state[..])), state[..])
  {
    hide IsWord, AfterRounds, IsEncrypted, RevState, SubShift, Xor, RconByte;
    ghost var kk, block := KeyOf(key), StateOf(state[..]);
    var k0, k1, k2, k3 := FirstWords(sb, key);
    var k4, k5 := LastTwoOfSix(sb, key);
    AddFirstKey(sb, kk, 12, state, k0, k1, k2, k3);
    var rcon: byte := FirstRcon();
    var i := 1;
    while i <= 3
      invariant 1 <= i <= 4 && rcon == RconByte(2 * i - 1)
      invariant if i == 1 then AreSixWords(sb, kk, k0, k1, k2, k3, k4, k5, 0)
                else AreWords(sb, kk, k0, k1, k2, k3, 12 * i - 12) && IsWord(sb, kk, k4, 12 * i - 14)
                     && IsWord(sb, kk, k5, 12 * i - 13)
      invariant AfterRounds(sb, kk, 12, 3 * i - 3, block, state[..])
    {
      ghost var j := 12 * i - 12;
      if i != 1 {
        k4 := Chained(sb, kk, k4, k3, j + 4);
        k5 := Chained(sb, kk, k5, k4, j + 5);
      }
      k0, k1, k2, k3, k4, k5, rcon := ThreeRounds(sb, kk, block, i, state, k0, k1, k2, k3, k4, k5, rcon);
      i := i + 1;
    }
    k4 := Chained(sb, kk, k4, k3, 40);
    k5 := Chained(sb, kk, k5, k4, 41);
    k0, k1, k2, k3, k4, k5, rcon := TwoRounds(sb, kk, block, 4, state, k0, k1, k2, k3, k4, k5, rcon);
    k0 := Rotated(sb, kk, k0, k5, rcon, 48);
    k1 := Chained(sb, kk, k1, k0, 49);
    k2 := Chained(sb, kk, k2, k1, 50);
    k3 := Chained(sb, kk, k3, k2, 51);
    ghost var before := state[..];
    ByteRound(sb, state, k0, k1, k2, k3);
    LastRound(sb, kk, 12, block, before, state[..], k0, k1, k2, k3);
  }

  /** From label a: two rounds, leaving the six words six further along. */
  method TwoRounds(sb: Sbox, ghost key: seq<word>, ghost block: State, ghost i: nat, state: array<word>,
                   k0: word, k1: word, k2: word, k3: word, k4: word, k5: word, rcon: byte)
    returns (n0: word, n1: word, n2: word, n3: word, n4: word, n5: word, next: byte)
    requires state.Length == 4 && |key| == 6 && 1 <= i <= 4 && rcon == RconByte(2 * i - 1)
    requires AreSixWords(sb, key, k0, k1, k2, k3, k4, k5, 12 * i - 12)
    requires AfterRounds(sb, key, 12, 3 * i - 3, block, state[..])
    modifies state
    ensures AreSixWords(sb, key, n0, n1, n2, n3, n4, n5, 12 * i - 6) && next == RconByte(2 * i)
    ensures AfterRounds(sb, key, 12, 3 * i - 1, block, state[..])
  {
    hide IsWord, AfterRounds, RconByte;
    ghost var j := 12 * i - 12;
    n0 := Rotated(sb, key, k0, k5, rcon, j + 6);
    NextRconByte(rcon, 2 * i - 1);
    next := NextRcon(rcon);
    n1 := Chained(sb, key, k1, n0, j + 7);
    NextRound(sb, key, 12, 3 * i - 2, block, state, k4, k5, n0, n1);
    n2 := Chained(sb, key, k2, n1, j + 8);
    n3 := Chained(sb, key, k3, n2, j + 9);
    n4 := Chained(sb, key, k4, n3, j + 10);
    n5 := Chained(sb, key, k5, n4, j + 11);
    NextRound(sb, key, 12, 3 * i - 1, block, state, n2, n3, n4, n5);
  }

  /** The whole loop body from label a. */
  method ThreeRounds(sb: Sbox, ghost key: seq<word>, ghost block: State, ghost i: nat, state: array<word>,
                     k0: word, k1: word, k2: word, k3: word, k4: word, k5: word, rcon: byte)
    returns (n0: word, n1: word, n2: word, n3: word, n4: word, n5: word, next: byte)
    requires state.Length == 4 && |key| == 6 && 1 <= i <= 3 && rcon == RconByte(2 * i - 1)
    requires AreSixWords(sb, key, k0, k1, k2, k3, k4, k5, 12 * i - 12)
    requires AfterRounds(sb, key, 12, 3 * i - 3, block, state[..])
    modifies state
    ensures AreWords(sb, key, n0, n1, n2, n3, 12 * i) && IsWord(sb, key, n4, 12 * i - 2)
    ensures IsWord(sb, key, n5, 12 * i - 1)
    ensures next == RconByte(2 * i + 1)
    ensures AfterRounds(sb, key, 12, 3 * i, block, state[..])
  {
    hide IsWord, AfterRounds, RconByte;
    n0, n1, n2, n3, n4, n5, next := TwoRounds(sb, key, block, i, state, k0, k1, k2, k3, k4, k5, rcon);
    n0 := Rotated(sb, key, n0, n5, next, 12 * i);
    NextRconByte(next, 2 * i);
    next := NextRcon(next);
    n1 := Chained(sb, key, n1, n0, 12 * i + 1);
    n2 := Chained(sb, key, n2, n1, 12 * i + 2);
    n3 := Chained(sb, key, n3, n2, 12 * i + 3);
    NextRound(sb, key, 12, 3 * i, block, state, n0, n1, n2, n3);
  }

  method LastFourOfEight(ghost sb: Sbox, key: seq<word>) returns (k4: word, k5: word, k6: word, k7: word)
    requires |key| == 8
    ensures AreWords(sb, KeyOf(key), k4, k5, k6, k7, 4)
  {
    hide Rev;
    k4, k5, k6, k7 := key[4], key[5], key[6], key[7];
  }

  /** k4 to k7 of the 256-bit form, substituted without a round constant. */
  method SubstitutedFour(sb: Sbox, ghost key: seq<word>, k3: word, k4: word, k5: word, k6: word, k7: word, ghost j: nat)
    returns (n4: word, n5: word, n6: word, n7: word)
    requires |key| == 8 <= j && j % 8 == 4
    requires IsWord(sb, key, k3, j - 1) && AreWords(sb, key, k4, k5, k6, k7, j - 8)
    ensures AreWords(sb, key, n4, n5, n6, n7, j)
  {
    hide IsWord;
    n4 := Substituted(sb, key, k4, k3, j);
    n5 := Chained(sb, key, k5, n4, j + 1);
    n6 := Chained(sb, key, k6, n5, j + 2);
    n7 := Chained(sb, key, k7, n6, j + 3);
  }

  method RotatedFour(sb: Sbox, ghost key: seq<word>, k7: word, k0: word, k1: word, k2: word, k3: word, rcon: byte,
                     ghost j: nat)
    returns (n0: word, n1: word, n2: word, n3: word)
    requires |key| == 8 <= j && j % 8 == 0 && rcon == RconByte(j / 8)
    requires IsWord(sb, key, k7, j - 1) && AreWords(sb, key, k0, k1, k2, k3, j - 8)
    ensures AreWords(sb, key, n0, n1, n2, n3, j)
  {
    hide IsWord, RconByte;
    n0 := Rotated(sb, key, k0, k7, rcon, j);
    n1 := Chained(sb, key, k1, n0, j + 1);
    n2 := Chained(sb, key, k2, n1, j + 2);
    n3 := Chained(sb, key, k3, n2, j + 3);
  }

  /** encrypt_256_key_expand_inline_no_branch, whose goto enters the loop past the substitution */
  method Encrypt256(sb: Sbox, state: array<word>, key: seq<word>)
    requires state.Length == 4 && |key| == 8
    modifies state
    ensures IsEncrypted(sb, KeyOf(key), 14, StateOf(old(state[..])), state[..])
  {
    hide IsWord, AfterRounds, IsEncrypted, RevState, SubShift, Xor, RconByte;
    ghost var kk, block := KeyOf(key), StateOf(state[..]);
    var k0, k1, k2, k3 := FirstWords(sb, key);
    var k4, k5, k6, k7 := LastFourOfEight(sb, key);
    AddFirstKey(sb, kk, 14, state, k0, k1, k2, k3);
    var rcon: byte := FirstRcon();
    var i := 1;
    while i <= 6
      invariant 1 <= i <= 7 && rcon == RconByte(i)
      invariant AreWords(sb, kk, k0, k1, k2, k3, 8 * i - 8)
      invariant AreWords(sb, kk, k4, k5, k6, k7, if i == 1 then 4 else 8 * i - 12)
      invariant AfterRounds(sb, kk, 14, 2 * i - 2, block, state[..])
    {
      if i != 1 {
        k4, k5, k6, k7 := SubstitutedFour(sb, kk, k3, k4, k5, k6, k7, 8 * i - 4);
      }
      NextRound(sb, kk, 14, 2 * i - 1, block, state, k4, k5, k6, k7);
      k0, k1, k2, k3 := RotatedFour(sb, kk, k7, k0, k1, k2, k3, rcon, 8 * i);
      NextRconByte(rcon, i);
      rcon := NextRcon(rcon);
      NextRound(sb, kk, 14, 2 * i, block, state, k0, k1, k2, k3);
      i := i + 1;
    }
    k4, k5, k6, k7 := SubstitutedFour(sb, kk, k3, k4, k5, k6, k7, 52);
    NextRound(sb, kk, 14, 13, block, state, k4, k5, k6, k7);
    k0, k1, k2, k3 := RotatedFour(sb, kk, k7, k0, k1, k2, k3, rcon, 56);
    ghost var before := state[..];
    ByteRound(sb, state, k0, k1, k2, k3);
    LastRound(sb, kk, 14, block, before, state[..], k0, k1, k2, k3);
  }

  // ---------- against expanding the key first ----------

  /** Little-endian words of memory. */
  function LoadLittle(b: seq<byte>): (w: seq<word>)
    requires |b| % 4 == 0
    ensures |w| == |b| / 4
  {
    seq(|b| / 4, i requires 0 <= i < |b| / 4 => Word(b[4 * i + 3], b[4 * i + 2], b[4 * i + 1], b[4 * i]))
  }

  function StoreLittle(s: seq<word>): (b: seq<byte>)
    requires |s| == 4
    ensures |b| == 16
  {
    LittleBytes(s[0]) + LittleBytes(s[1]) + LittleBytes(s[2]) + LittleBytes(s[3])
  }

  function LittleBytes(w: word): (b: seq<byte>)
    ensures |b| == 4
  {
    [Byte0(w), Byte1(w), Byte2(w), Byte3(w)]
  }

  lemma StoreIsReversed(s: seq<word>)
    requires |s| == 4
    ensures StoreLittle(s) == ToBytes(RevState(StateOf(s)))
  {
    hide Rev, Byte3, Byte2, Byte1, Byte0;
    BytesOfRev(s[0]);
    BytesOfRev(s[1]);
    BytesOfRev(s[2]);
    BytesOfRev(s[3]);
  }

  lemma KeyOfMemory(userKey: seq<byte>)
    requires |userKey| % 4 == 0
    ensures KeyOf(LoadLittle(userKey)) == KeyWords(userKey)
  {
    hide Word, Rev;
    forall i | 0 <= i < |userKey| / 4 ensures KeyOf(LoadLittle(userKey))[i] == KeyWords(userKey)[i] {
      RevOfWord(userKey[4 * i + 3], userKey[4 * i + 2], userKey[4 * i + 1], userKey[4 * i]);
    }
  }

  lemma StateOfMemory(block: seq<byte>)
    requires |block| == 16
    ensures RevState(StateOf(LoadLittle(block))) == FromBytes(block)
  {
    hide Word, Rev;
    RevOfWord(block[3], block[2], block[1], block[0]);
    RevOfWord(block[7], block[6], block[5], block[4]);
    RevOfWord(block[11], block[10], block[9], block[8]);
    RevOfWord(block[15], block[14], block[13], block[12]);
  }

  /** Whatever encrypts in this sense leaves in memory the block that AesEncrypt makes under the expanded key. */
  lemma InlineIsExpandThenEncrypt(sb: Sbox, userKey: seq<byte>, block: seq<byte>, after: seq<word>)
    requires KeyLengthIsLegal(|userKey|) && |block| == 16 && |after| == 4
    requires IsEncrypted(sb, KeyOf(LoadLittle(userKey)), RoundsFor(|userKey|), StateOf(LoadLittle(block)), after)
    ensures StoreLittle(after) == EncryptBlock(sb, EncryptionKey(sb, userKey), RoundsFor(|userKey|), block)
  {
    hide W, KeyOf, LoadLittle, StoreLittle, KeyWords, RevState, StateOf, Cipher, ToBytes, FromBytes;
    StoreIsReversed(after);
    KeyOfMemory(userKey);
    StateOfMemory(block);
    assert ScheduleWords(sb, KeyWords(userKey), RoundsFor(|userKey|)) == EncryptionKey(sb, userKey);
  }

  /** Two encryptors of the same key and block, such as the branching and the branch-free 128-bit form, agree. */
  lemma EncryptedIsUnique(sb: Sbox, key: seq<word>, rounds: nat, block: State, first: seq<word>, second: seq<word>)
    requires IsEncrypted(sb, key, rounds, block, first) && IsEncrypted(sb, key, rounds, block, second)
    ensures first == second
  {
    hide Rev, Cipher, ScheduleWords;
    forall i | 0 <= i < 4 ensures first[i] == second[i] {
      RevTwice(first[i]);
      RevTwice(second[i]);
    }
  }
}
