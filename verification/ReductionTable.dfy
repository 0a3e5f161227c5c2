/** The reduction table of c/aes.c as it is written there, against its meaning. */
module ReductionTable {

  import opened AesBlock
  import opened GcmBits

  /** What n further shifts of a block whose last byte is a bring into its first two bytes, r0 and r1 so far. */
  function Reduced(r0: byte, r1: byte, a: byte, n: nat): (byte, byte)
    decreases n
  {
    if n == 0 then (r0, r1)
    else
      var top := ShiftedByte(r0, false);
      Reduced(if LowBit(a) then Add(top, 0xe1) else top, ShiftedByte(r1, LowBit(r0)), ShiftedByte(a, false), n - 1)
  }

  /** The table R: the first two bytes of x^8 times the block that ends in a. */
  function R(a: byte): (byte, byte) {
    Reduced(0, 0, a, 8)
  }

  // ---------- the literal table ----------

  /** An entry of two bytes, the first one high. */
  type pair = bv16

  function First(p: pair): byte { (p >> 8) as byte }
  function Second(p: pair): byte { (p & 0xff) as byte }

  function Pair(a: byte): pair {
    (R(a).0 as pair << 8) | R(a).1 as pair
  }

  /** What bit i of a brings in. */
  function Share(a: byte, mask: byte, share: pair): pair {
    if a & mask != 0 then share else 0
  }

  /** Pair, bit by bit. */
  function Shares(a: byte): pair {
    Share(a, 0x01, 0x01c2) ^ Share(a, 0x02, 0x0384) ^ Share(a, 0x04, 0x0708) ^ Share(a, 0x08, 0x0e10)
    ^ Share(a, 0x10, 0x1c20) ^ Share(a, 0x20, 0x3840) ^ Share(a, 0x40, 0x7080) ^ Share(a, 0x80, 0xe100)
  }

  function Row0(j: byte): pair {
    match j
    case 0 => 0x0000
    case 1 => 0x01c2
    case 2 => 0x0384
    case 3 => 0x0246
    case 4 => 0x0708
    case 5 => 0x06ca
    case 6 => 0x048c
    case 7 => 0x054e
    case 8 => 0x0e10
    case 9 => 0x0fd2
    case 10 => 0x0d94
    case 11 => 0x0c56
    case 12 => 0x0918
    case 13 => 0x08da
    case 14 => 0x0a9c
    case _ => 0x0b5e
  }

  function Row1(j: byte): pair {
    match j
    case 0 => 0x1c20
    case 1 => 0x1de2
    case 2 => 0x1fa4
    case 3 => 0x1e66
    case 4 => 0x1b28
    case 5 => 0x1aea
    case 6 => 0x18ac
    case 7 => 0x196e
    case 8 => 0x1230
    case 9 => 0x13f2
    case 10 => 0x11b4
    case 11 => 0x1076
    case 12 => 0x1538
    case 13 => 0x14fa
    case 14 => 0x16bc
    case _ => 0x177e
  }

  function Row2(j: byte): pair {
    match j
    case 0 => 0x3840
    case 1 => 0x3982
    case 2 => 0x3bc4
    case 3 => 0x3a06
    case 4 => 0x3f48
    case 5 => 0x3e8a
    case 6 => 0x3ccc
    case 7 => 0x3d0e
    case 8 => 0x3650
    case 9 => 0x3792
    case 10 => 0x35d4
    case 11 => 0x3416
    case 12 => 0x3158
    case 13 => 0x309a
    case 14 => 0x32dc
    case _ => 0x331e
  }

  function Row3(j: byte): pair {
    match j
    case 0 => 0x2460
    case 1 => 0x25a2
    case 2 => 0x27e4
    case 3 => 0x2626
    case 4 => 0x2368
    case 5 => 0x22aa
    case 6 => 0x20ec
    case 7 => 0x212e
    case 8 => 0x2a70
    case 9 => 0x2bb2
    case 10 => 0x29f4
    case 11 => 0x2836
    case 12 => 0x2d78
    case 13 => 0x2cba
    case 14 => 0x2efc
    case _ => 0x2f3e
  }

  function Row4(j: byte): pair {
    match j
    case 0 => 0x7080
    case 1 => 0x7142
    case 2 => 0x7304
    case 3 => 0x72c6
    case 4 => 0x7788
    case 5 => 0x764a
    case 6 => 0x740c
    case 7 => 0x75ce
    case 8 => 0x7e90
    case 9 => 0x7f52
    case 10 => 0x7d14
    case 11 => 0x7cd6
    case 12 => 0x7998
    case 13 => 0x785a
    case 14 => 0x7a1c
    case _ => 0x7bde
  }

  function Row5(j: byte): pair {
    match j
    case 0 => 0x6ca0
    case 1 => 0x6d62
    case 2 => 0x6f24
    case 3 => 0x6ee6
    case 4 => 0x6ba8
    case 5 => 0x6a6a
    case 6 => 0x682c
    case 7 => 0x69ee
    case 8 => 0x62b0
    case 9 => 0x6372
    case 10 => 0x6134
    case 11 => 0x60f6
    case 12 => 0x65b8
    case 13 => 0x647a
    case 14 => 0x663c
    case _ => 0x67fe
  }

  function Row6(j: byte): pair {
    match j
    case 0 => 0x48c0
    case 1 => 0x4902
    case 2 => 0x4b44
    case 3 => 0x4a86
    case 4 => 0x4fc8
    case 5 => 0x4e0a
    case 6 => 0x4c4c
    case 7 => 0x4d8e
    case 8 => 0x46d0
    case 9 => 0x4712
    case 10 => 0x4554
    case 11 => 0x4496
    case 12 => 0x41d8
    case 13 => 0x401a
    case 14 => 0x425c
    case _ => 0x439e
  }

  function Row7(j: byte): pair {
    match j
    case 0 => 0x54e0
    case 1 => 0x5522
    case 2 => 0x5764
    case 3 => 0x56a6
    case 4 => 0x53e8
    case 5 => 0x522a
    case 6 => 0x506c
    case 7 => 0x51ae
    case 8 => 0x5af0
    case 9 => 0x5b32
    case 10 => 0x5974
    case 11 => 0x58b6
    case 12 => 0x5df8
    case 13 => 0x5c3a
    case 14 => 0x5e7c
    case _ => 0x5fbe
  }

  function Row8(j: byte): pair {
    match j
    case 0 => 0xe100
    case 1 => 0xe0c2
    case 2 => 0xe284
    case 3 => 0xe346
    case 4 => 0xe608
    case 5 => 0xe7ca
    case 6 => 0xe58c
    case 7 => 0xe44e
    case 8 => 0xef10
    case 9 => 0xeed2
    case 10 => 0xec94
    case 11 => 0xed56
    case 12 => 0xe818
    case 13 => 0xe9da
    case 14 => 0xeb9c
    case _ => 0xea5e
  }

  function Row9(j: byte): pair {
    match j
    case 0 => 0xfd20
    case 1 => 0xfce2
    case 2 => 0xfea4
    case 3 => 0xff66
    case 4 => 0xfa28
    case 5 => 0xfbea
    case 6 => 0xf9ac
    case 7 => 0xf86e
    case 8 => 0xf330
    case 9 => 0xf2f2
    case 10 => 0xf0b4
    case 11 => 0xf176
    case 12 => 0xf438
    case 13 => 0xf5fa
    case 14 => 0xf7bc
    case _ => 0xf67e
  }

  function Row10(j: byte): pair {
    match j
    case 0 => 0xd940
    case 1 => 0xd882
    case 2 => 0xdac4
    case 3 => 0xdb06
    case 4 => 0xde48
    case 5 => 0xdf8a
    case 6 => 0xddcc
    case 7 => 0xdc0e
    case 8 => 0xd750
    case 9 => 0xd692
    case 10 => 0xd4d4
    case 11 => 0xd516
    case 12 => 0xd058
    case 13 => 0xd19a
    case 14 => 0xd3dc
    case _ => 0xd21e
  }

  function Row11(j: byte): pair {
    match j
    case 0 => 0xc560
    case 1 => 0xc4a2
    case 2 => 0xc6e4
    case 3 => 0xc726
    case 4 => 0xc268
    case 5 => 0xc3aa
    case 6 => 0xc1ec
    case 7 => 0xc02e
    case 8 => 0xcb70
    case 9 => 0xcab2
    case 10 => 0xc8f4
    case 11 => 0xc936
    case 12 => 0xcc78
    case 13 => 0xcdba
    case 14 => 0xcffc
    case _ => 0xce3e
  }

  function Row12(j: byte): pair {
    match j
    case 0 => 0x9180
    case 1 => 0x9042
    case 2 => 0x9204
    case 3 => 0x93c6
    case 4 => 0x9688
    case 5 => 0x974a
    case 6 => 0x950c
    case 7 => 0x94ce
    case 8 => 0x9f90
    case 9 => 0x9e52
    case 10 => 0x9c14
    case 11 => 0x9dd6
    case 12 => 0x9898
    case 13 => 0x995a
    case 14 => 0x9b1c
    case _ => 0x9ade
  }

  function Row13(j: byte): pair {
    match j
    case 0 => 0x8da0
    case 1 => 0x8c62
    case 2 => 0x8e24
    case 3 => 0x8fe6
    case 4 => 0x8aa8
    case 5 => 0x8b6a
    case 6 => 0x892c
    case 7 => 0x88ee
    case 8 => 0x83b0
    case 9 => 0x8272
    case 10 => 0x8034
    case 11 => 0x81f6
    case 12 => 0x84b8
    case 13 => 0x857a
    case 14 => 0x873c
    case _ => 0x86fe
  }

  function Row14(j: byte): pair {
    match j
    case 0 => 0xa9c0
    case 1 => 0xa802
    case 2 => 0xaa44
    case 3 => 0xab86
    case 4 => 0xaec8
    case 5 => 0xaf0a
    case 6 => 0xad4c
    case 7 => 0xac8e
    case 8 => 0xa7d0
    case 9 => 0xa612
    case 10 => 0xa454
    case 11 => 0xa596
    case 12 => 0xa0d8
    case 13 => 0xa11a
    case 14 => 0xa35c
    case _ => 0xa29e
  }

  function Row15(j: byte): pair {
    match j
    case 0 => 0xb5e0
    case 1 => 0xb422
    case 2 => 0xb664
    case 3 => 0xb7a6
    case 4 => 0xb2e8
    case 5 => 0xb32a
    case 6 => 0xb16c
    case 7 => 0xb0ae
    case 8 => 0xbbf0
    case 9 => 0xba32
    case 10 => 0xb874
    case 11 => 0xb9b6
    case 12 => 0xbcf8
    case 13 => 0xbd3a
    case 14 => 0xbf7c
    case _ => 0xbebe
  }

  /** The entry with index a. */
  function LiteralR(a: byte): pair {
    var j := a & 0xf;
    match a >> 4
    case 0 => Row0(j)
    case 1 => Row1(j)
    case 2 => Row2(j)
    case 3 => Row3(j)
    case 4 => Row4(j)
    case 5 => Row5(j)
    case 6 => Row6(j)
    case 7 => Row7(j)
    case 8 => Row8(j)
    case 9 => Row9(j)
    case 10 => Row10(j)
    case 11 => Row11(j)
    case 12 => Row12(j)
    case 13 => Row13(j)
    case 14 => Row14(j)
    case _ => Row15(j)
  }

  lemma SharesAreReduced(a: byte)
    ensures Pair(a) == Shares(a)
  {
  }

  lemma PairOfBytes(x: byte, y: byte)
    ensures First((x as pair << 8) | y as pair) == x && Second((x as pair << 8) | y as pair) == y
  {
  }

  /** The literal table is the table by meaning. */
  lemma LiteralIsR(a: byte)
    ensures (First(LiteralR(a)), Second(LiteralR(a))) == R(a)
  {
    LiteralIsPair(a);
    PairOfBytes(R(a).0, R(a).1);
  }

  lemma LiteralIsPair(a: byte)
    ensures LiteralR(a) == Pair(a)
  {
    hide Pair;
    SharesAreReduced(a);
  }
}
