/** The key schedules of AesSetKeyLocal, c/aes.c, against KeyExpansion of section 5.2 of FIPS 197 and the
    transformed schedule of section 5.3.5. */
module KeySchedule {

  import opened AesBlock
  import opened AesTables

  // ---------- KeyExpansion ----------

  function SubWord(sb: Sbox, w: word): word {
    Word(sb.forward(Byte3(w)), sb.forward(Byte2(w)), sb.forward(Byte1(w)), sb.forward(Byte0(w)))
  }

  function RotWord(w: word): word {
    Word(Byte2(w), Byte1(w), Byte0(w), Byte3(w))
  }

  /** The powers of x, from x^0 for n = 1. */
  function RconByte(n: nat): byte
    requires n > 0
  {
    if n == 1 then 1 else XTime(RconByte(n - 1))
  }

  function Rcon(n: nat): word
    requires n > 0
  {
    Word(RconByte(n), 0, 0, 0)
  }

  /** Word j of the schedule of a key of |key| words. */
  function W(sb: Sbox, key: seq<word>, j: nat): word
    requires |key| > 0
  {
    if j < |key| then key[j]
    else if j % |key| == 0 then
      AddWords(W(sb, key, j - |key|), AddWords(SubWord(sb, RotWord(W(sb, key, j - 1))), Rcon(j / |key|)))
    else if |key| > 6 && j % |key| == 4 then
      AddWords(W(sb, key, j - |key|), SubWord(sb, W(sb, key, j - 1)))
    else
      AddWords(W(sb, key, j - |key|), W(sb, key, j - 1))
  }

  ghost predicate Expanded(sb: Sbox, key: seq<word>, rk: seq<word>, n: nat) {
    |key| > 0 && n <= |rk| && forall j {:trigger rk[j]} :: 0 <= j < n ==> rk[j] == W(sb, key, j)
  }

  lemma ExpandedWord(sb: Sbox, key: seq<word>, rk: seq<word>, n: nat, j: nat)
    requires Expanded(sb, key, rk, n) && j < n
    ensures rk[j] == W(sb, key, j)
  {
  }

  lemma ExpandedExtends(sb: Sbox, key: seq<word>, before: seq<word>, after: seq<word>, n: nat)
    requires Expanded(sb, key, before, n) && |after| == |before| && n < |after|
    requires after == before[n := after[n]] && after[n] == W(sb, key, n)
    ensures Expanded(sb, key, after, n + 1)
  {
    hide W;
  }

  // ---------- the literal table of round constants ----------

  const RCON: seq<word> := [0x01000000, 0x02000000, 0x04000000, 0x08000000, 0x10000000, 0x20000000, 0x40000000,
                            0x80000000, 0x1B000000, 0x36000000]

  /** RCON[n] is the nth power of x in the top byte. */
  lemma {:induction false} RconIsPower(n: nat)
    requires n < |RCON|
    ensures RCON[n] == Rcon(n + 1)
  {
    if n > 0 {
      RconIsPower(n - 1);
      BytesOfWord(RconByte(n), 0, 0, 0);
      RconStep(n);
    }
  }

  lemma RconStep(n: nat)
    requires 0 < n < |RCON|
    ensures RCON[n] == Word(XTime(Byte3(RCON[n - 1])), 0, 0, 0)
  {
  }

  // ---------- the table forms of SubWord ----------

  function RotSubTable(sb: Sbox, temp: word): word {
    MaskedTe4(sb, Byte2(temp), Byte1(temp), Byte0(temp), Byte3(temp))
  }

  function SubTable(sb: Sbox, temp: word): word {
    MaskedTe4(sb, Byte3(temp), Byte2(temp), Byte1(temp), Byte0(temp))
  }

  lemma TablesAreSubWord(sb: Sbox, temp: word)
    ensures RotSubTable(sb, temp) == SubWord(sb, RotWord(temp)) && SubTable(sb, temp) == SubWord(sb, temp)
  {
    MaskedTe4IsWord(sb, Byte2(temp), Byte1(temp), Byte0(temp), Byte3(temp));
    MaskedTe4IsWord(sb, Byte3(temp), Byte2(temp), Byte1(temp), Byte0(temp));
    BytesOfWord(Byte2(temp), Byte1(temp), Byte0(temp), Byte3(temp));
    hide Word, MaskedTe4, Byte3, Byte2, Byte1, Byte0;
  }

  // ---------- the expansion loops ----------

  /** rk[j] = rk[j - Nk] ^ rk[j - 1] */
  method ChainWord(sb: Sbox, ghost key: seq<word>, rk: array<word>, nk: nat, j: nat)
    requires nk == |key| > 0 && nk <= j < rk.Length && j % nk != 0 && !(nk > 6 && j % nk == 4)
    requires Expanded(sb, key, rk[..], j)
    modifies rk
    ensures Expanded(sb, key, rk[..], j + 1)
  {
    hide Expanded, AddWords, SubWord, Rcon, RotWord;
    ghost var before := rk[..];
    ExpandedWord(sb, key, before, j, j - nk);
    ExpandedWord(sb, key, before, j, j - 1);
    rk[j] := AddWords(rk[j - nk], rk[j - 1]);
    ExpandedExtends(sb, key, before, rk[..], j);
  }

  /** The first word of every Nk: rotated, substituted and mixed with a round constant. */
  method RotatedWord(sb: Sbox, ghost key: seq<word>, rk: array<word>, nk: nat, j: nat, i: nat)
    requires nk == |key| > 0 && nk <= j < rk.Length && j % nk == 0 && i + 1 == j / nk && i < |RCON|
    requires Expanded(sb, key, rk[..], j)
    modifies rk
    ensures Expanded(sb, key, rk[..], j + 1)
  {
    hide Expanded, AddWords, SubWord, Rcon, RotWord, RotSubTable;
    ghost var before := rk[..];
    ExpandedWord(sb, key, before, j, j - nk);
    ExpandedWord(sb, key, before, j, j - 1);
    var temp := rk[j - 1];
    TablesAreSubWord(sb, temp);
    RconIsPower(i);
    AddWordsIsAbelian(rk[j - nk], RotSubTable(sb, temp), RCON[i]);
    rk[j] := AddWords(AddWords(rk[j - nk], RotSubTable(sb, temp)), RCON[i]);
    ExpandedExtends(sb, key, before, rk[..], j);
  }

  /** The fifth word of every eight in a 256-bit schedule: substituted only. */
  method SubstitutedWord(sb: Sbox, ghost key: seq<word>, rk: array<word>, j: nat)
    requires |key| == 8 <= j < rk.Length && j % 8 == 4
    requires Expanded(sb, key, rk[..], j)
    modifies rk
    ensures Expanded(sb, key, rk[..], j + 1)
  {
    hide Expanded, AddWords, SubWord, Rcon, RotWord, SubTable;
    ghost var before := rk[..];
    ExpandedWord(sb, key, before, j, j - 8);
    ExpandedWord(sb, key, before, j, j - 1);
    TablesAreSubWord(sb, rk[j - 1]);
    rk[j] := AddWords(rk[j - 8], SubTable(sb, rk[j - 1]));
    ExpandedExtends(sb, key, before, rk[..], j);
  }

  method Expand128(sb: Sbox, ghost key: seq<word>, rk: array<word>)
    requires |key| == 4 && rk.Length == 60 && Expanded(sb, key, rk[..], 4)
    modifies rk
    ensures Expanded(sb, key, rk[..], 44)
  {
    hide Expanded;
    var p, i := 0, 0;
    while true
      invariant p == 4 * i && i < 10 && Expanded(sb, key, rk[..], p + 4)
      decreases 10 - i
    {
      RotatedWord(sb, key, rk, 4, p + 4, i);
      ChainWord(sb, key, rk, 4, p + 5);
      ChainWord(sb, key, rk, 4, p + 6);
      ChainWord(sb, key, rk, 4, p + 7);
      i := i + 1;
      if i == 10 { break; }
      p := p + 4;
    }
  }

  method Expand192(sb: Sbox, ghost key: seq<word>, rk: array<word>)
    requires |key| == 6 && rk.Length == 60 && Expanded(sb, key, rk[..], 6)
    modifies rk
    ensures Expanded(sb, key, rk[..], 52)
  {
    hide Expanded;
    var p, i := 0, 0;
    while true
      invariant p == 6 * i && i < 8 && Expanded(sb, key, rk[..], p + 6)
      decreases 8 - i
    {
      RotatedWord(sb, key, rk, 6, p + 6, i);
      ChainWord(sb, key, rk, 6, p + 7);
      ChainWord(sb, key, rk, 6, p + 8);
      ChainWord(sb, key, rk, 6, p + 9);
      i := i + 1;
      if i == 8 { break; }
      ChainWord(sb, key, rk, 6, p + 10);
      ChainWord(sb, key, rk, 6, p + 11);
      p := p + 6;
    }
  }

  method Expand256(sb: Sbox, ghost key: seq<word>, rk: array<word>)
    requires |key| == 8 && rk.Length == 60 && Expanded(sb, key, rk[..], 8)
    modifies rk
    ensures Expanded(sb, key, rk[..], 60)
  {
    hide Expanded;
    var p, i := 0, 0;
    while true
      invariant p == 8 * i && i < 7 && Expanded(sb, key, rk[..], p + 8)
      decreases 7 - i
    {
      RotatedWord(sb, key, rk, 8, p + 8, i);
      ChainWord(sb, key, rk, 8, p + 9);
      ChainWord(sb, key, rk, 8, p + 10);
      ChainWord(sb, key, rk, 8, p + 11);
      i := i + 1;
      if i == 7 { break; }
      SubstitutedWord(sb, key, rk, p + 12);
      ChainWord(sb, key, rk, 8, p + 13);
      ChainWord(sb, key, rk, 8, p + 14);
      ChainWord(sb, key, rk, 8, p + 15);
      p := p + 8;
    }
  }
}
