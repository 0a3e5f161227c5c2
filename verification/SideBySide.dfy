/** The alternative forms of one computation, run on the same input. */
module SideBySide {

  import opened AesBlock
  import opened AesCipher
  import opened AesKeys
  import opened AesReference
  import opened AesRounds
  import opened Buffers
  import opened Cbc
  import opened Gf128
  import opened GcmBits
  import opened Ghash
  import opened Gmult
  import opened GmultTable
  import opened GmultWords
  import opened InlineAes
  import opened InlineEncrypt

  // ---------- encryption ----------

  method Filled<T>(s: seq<T>, unset: T) returns (a: array<T>)
    ensures fresh(a) && a[..] == s
  {
    a := new T[|s|](_ => unset);
    SpliceAll(a[..], s);
    CopyInto(a, 0, s);
  }

  /** The branching and the branch-free 128-bit form. */
  method BothForms(sb: Sbox, key: seq<word>, block: seq<word>) returns (first: seq<word>, second: seq<word>)
    requires |key| == 4 && |block| == 4
    ensures first == second
  {
    hide IsEncrypted;
    var state := Filled(block, 0);
    Encrypt128(sb, state, key);
    first := state[..];
    state := Filled(block, 0);
    Encrypt128NoBranch(sb, state, key);
    second := state[..];
    EncryptedIsUnique(sb, KeyOf(key), 10, StateOf(block), first, second);
  }

  /** Expanding on the fly, for each length of key: the encryption of FIPS 197. */
  method OnTheFly(sb: Sbox, key: seq<byte>, block: seq<byte>) returns (c: seq<byte>)
    requires KeyLengthIsLegal(|key|) && |block| == 16
    ensures IsEncryption(sb, key, block, c)
  {
    hide IsEncrypted, EncryptBlock, EncryptionKey, LoadLittle, StoreLittle, IsEncryption;
    EncryptBlockIsEncryption(sb, key, block);
    var state := Filled(LoadLittle(block), 0);
    if |key| == 16 {
      Encrypt128(sb, state, LoadLittle(key));
    } else if |key| == 24 {
      Encrypt192(sb, state, LoadLittle(key));
    } else {
      Encrypt256(sb, state, LoadLittle(key));
    }
    InlineIsExpandThenEncrypt(sb, key, block, state[..]);
    c := StoreLittle(state[..]);
  }

  /** Expanding first, with the object of c/aes.c: the same. */
  method ExpandedFirst(sb: Sbox, key: seq<byte>, block: seq<byte>) returns (c: seq<byte>)
    requires IsPermutation(sb) && KeyLengthIsLegal(|key|) && |block| == 16
    ensures IsEncryption(sb, key, block, c)
  {
    hide EncryptBlock, EncryptionKey, DecryptionKey, IsPermutation, Spliced, IsEncryption;
    KeyedEncrypts(sb, key, block);
    var aes := new Aes(sb);
    var status := aes.SetKey(key, NoIv, Encryption);
    var out := new byte[16](_ => 0);
    SpliceAll(out[..], aes.KeyInUse().Enc(block));
    aes.EncryptOne(block, out, 0);
    c := out[..];
  }

  /** The two give the same sixteen bytes. */
  method OnTheFlyAndExpanded(sb: Sbox, key: seq<byte>, block: seq<byte>)
    returns (inline: seq<byte>, expanded: seq<byte>)
    requires IsPermutation(sb) && KeyLengthIsLegal(|key|) && |block| == 16
    ensures inline == expanded && IsEncryption(sb, key, block, inline)
  {
    hide IsEncryption, IsPermutation;
    inline := OnTheFly(sb, key, block);
    expanded := ExpandedFirst(sb, key, block);
    EncryptionIsUnique(sb, key, block, inline, expanded);
  }

  // ---------- the product ----------

  method SerialProduct(x: seq<byte>, y: seq<byte>) returns (z: seq<byte>)
    requires |x| == |y| == 16
    ensures BitsOf(z) == Mul(BitsOf(x), BitsOf(y))
  {
    hide BitsOf, Mul;
    var a := Filled(x, 0);
    var b := Filled(y, 0);
    GmultSerial(a, b);
    z := a[..];
  }

  method TableProduct(x: seq<byte>, y: seq<byte>) returns (z: seq<byte>)
    requires |x| == |y| == 16
    ensures BitsOf(z) == Mul(BitsOf(x), BitsOf(y))
  {
    hide BitsOf, Mul, IsTable;
    var a := Filled(x, 0);
    var m := new seq<byte>[256](_ => []);
    GenerateM0(m, y);
    GmultByTable(a, m, BitsOf(y));
    z := a[..];
  }

  method Words32Product(x: seq<byte>, y: seq<byte>) returns (z: seq<byte>)
    requires |x| == |y| == 16
    ensures BitsOf(z) == Mul(BitsOf(x), BitsOf(y))
  {
    hide BitsOf, Mul, WordsBits, LoadWords, StoreWords;
    var a := Filled(LoadWords(x), 0);
    var b := Filled(LoadWords(y), 0);
    LoadedBits(x);
    LoadedBits(y);
    Gmult32(a, b);
    StoredBits(a[..]);
    z := StoreWords(a[..]);
  }

  method Words64Product(x: seq<byte>, y: seq<byte>) returns (z: seq<byte>)
    requires |x| == |y| == 16
    ensures BitsOf(z) == Mul(BitsOf(x), BitsOf(y))
  {
    hide BitsOf, Mul, PairBits, LoadLongs, StoreLongs;
    var a := Filled(LoadLongs(x), 0);
    var b := Filled(LoadLongs(y), 0);
    LoadedLongBits(x);
    LoadedLongBits(y);
    Gmult64(a, b);
    StoredLongBits(a[..]);
    z := StoreLongs(a[..]);
  }

  /** The four forms of GMULT. */
  method FourProducts(x: seq<byte>, y: seq<byte>)
    returns (serial: seq<byte>, table: seq<byte>, words32: seq<byte>, words64: seq<byte>)
    requires |x| == |y| == 16
    ensures serial == table == words32 == words64
  {
    hide BitsOf, Mul;
    serial := SerialProduct(x, y);
    table := TableProduct(x, y);
    words32 := Words32Product(x, y);
    words64 := Words64Product(x, y);
    ProductIsUnique(x, y, serial, table);
    ProductIsUnique(x, y, serial, words32);
    ProductIsUnique(x, y, serial, words64);
  }
}
