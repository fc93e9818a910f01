/** The rounds of AES-128 on a block of four columns (sections 5.1 and 5.3 of FIPS 197). */
module AesRounds {
  import opened GaloisField
  import opened SBox

  datatype Column = Column(r0: Byte, r1: Byte, r2: Byte, r3: Byte)

  datatype Block = Block(c0: Column, c1: Column, c2: Column, c3: Column)

  const ROUNDS := 10
  const START := 0

  // ----- on columns

  function XorColumn(a: Column, b: Column): Column
  {
    Column(Xor(a.r0, b.r0), Xor(a.r1, b.r1), Xor(a.r2, b.r2), Xor(a.r3, b.r3))
  }

  function SubColumn(a: Column): Column
  {
    Column(SubByte(a.r0), SubByte(a.r1), SubByte(a.r2), SubByte(a.r3))
  }

  function InvSubColumn(a: Column): Column
  {
    Column(InvSubByte(a.r0), InvSubByte(a.r1), InvSubByte(a.r2), InvSubByte(a.r3))
  }

  function MixColumn(a: Column): Column
  {
    Column(Mixed(a.r0, a.r1, a.r2, a.r3), Mixed(a.r1, a.r2, a.r3, a.r0),
           Mixed(a.r2, a.r3, a.r0, a.r1), Mixed(a.r3, a.r0, a.r1, a.r2))
  }

  function InvMixColumn(a: Column): Column
  {
    Column(Unmixed(a.r0, a.r1, a.r2, a.r3), Unmixed(a.r1, a.r2, a.r3, a.r0),
           Unmixed(a.r2, a.r3, a.r0, a.r1), Unmixed(a.r3, a.r0, a.r1, a.r2))
  }

  lemma ColumnRoundTrips(a: Column, k: Column)
    ensures XorColumn(XorColumn(a, k), k) == a
    ensures InvSubColumn(SubColumn(a)) == a
    ensures InvMixColumn(MixColumn(a)) == a
  {
    hide Xor;
    hide SubByte;
    hide InvSubByte;
    hide Mixed;
    hide Unmixed;
    XorCancel(a.r0, k.r0);
    XorCancel(a.r1, k.r1);
    XorCancel(a.r2, k.r2);
    XorCancel(a.r3, k.r3);
    SubRoundTrip(a.r0);
    SubRoundTrip(a.r1);
    SubRoundTrip(a.r2);
    SubRoundTrip(a.r3);
    MixRoundTrip(a.r0, a.r1, a.r2, a.r3);
    MixRoundTrip(a.r1, a.r2, a.r3, a.r0);
    MixRoundTrip(a.r2, a.r3, a.r0, a.r1);
    MixRoundTrip(a.r3, a.r0, a.r1, a.r2);
  }

  // ----- on blocks

  function XorBlock(a: Block, b: Block): Block
  {
    Block(XorColumn(a.c0, b.c0), XorColumn(a.c1, b.c1), XorColumn(a.c2, b.c2), XorColumn(a.c3, b.c3))
  }

  function SubBlock(a: Block): Block
  {
    Block(SubColumn(a.c0), SubColumn(a.c1), SubColumn(a.c2), SubColumn(a.c3))
  }

  function InvSubBlock(a: Block): Block
  {
    Block(InvSubColumn(a.c0), InvSubColumn(a.c1), InvSubColumn(a.c2), InvSubColumn(a.c3))
  }

  /** Row `r` moves `r` columns to the left. */
  function ShiftBlock(a: Block): Block
  {
    Block(Column(a.c0.r0, a.c1.r1, a.c2.r2, a.c3.r3), Column(a.c1.r0, a.c2.r1, a.c3.r2, a.c0.r3),
          Column(a.c2.r0, a.c3.r1, a.c0.r2, a.c1.r3), Column(a.c3.r0, a.c0.r1, a.c1.r2, a.c2.r3))
  }

  /** Row `r` moves `r` columns to the right. */
  function InvShiftBlock(a: Block): Block
  {
    Block(Column(a.c0.r0, a.c3.r1, a.c2.r2, a.c1.r3), Column(a.c1.r0, a.c0.r1, a.c3.r2, a.c2.r3),
          Column(a.c2.r0, a.c1.r1, a.c0.r2, a.c3.r3), Column(a.c3.r0, a.c2.r1, a.c1.r2, a.c0.r3))
  }

  function MixBlock(a: Block): Block
  {
    Block(MixColumn(a.c0), MixColumn(a.c1), MixColumn(a.c2), MixColumn(a.c3))
  }

  function InvMixBlock(a: Block): Block
  {
    Block(InvMixColumn(a.c0), InvMixColumn(a.c1), InvMixColumn(a.c2), InvMixColumn(a.c3))
  }

  lemma BlockRoundTrips(a: Block, k: Block)
    ensures XorBlock(XorBlock(a, k), k) == a
    ensures InvSubBlock(SubBlock(a)) == a
    ensures InvShiftBlock(ShiftBlock(a)) == a
    ensures InvMixBlock(MixBlock(a)) == a
  {
    hide XorColumn;
    hide SubColumn;
    hide InvSubColumn;
    hide MixColumn;
    hide InvMixColumn;
    ColumnRoundTrips(a.c0, k.c0);
    ColumnRoundTrips(a.c1, k.c1);
    ColumnRoundTrips(a.c2, k.c2);
    ColumnRoundTrips(a.c3, k.c3);
  }

  // ----- the cipher

  /** The block after the first key and `n` full rounds. */
  ghost function Forward(s: Block, keys: seq<Block>, n: nat): Block
    requires n < |keys|
  {
    if n == 0 then XorBlock(s, keys[0])
    else XorBlock(MixBlock(ShiftBlock(SubBlock(Forward(s, keys, n - 1)))), keys[n])
  }

  ghost function Encrypted(s: Block, keys: seq<Block>): Block
    requires |keys| == ROUNDS + 1
  {
    XorBlock(ShiftBlock(SubBlock(Forward(s, keys, ROUNDS - 1))), keys[ROUNDS])
  }

  /** The block on the way back, when rounds above `n` are undone. */
  ghost function Backward(t: Block, keys: seq<Block>, n: nat): Block
    requires n < ROUNDS && |keys| == ROUNDS + 1
    decreases ROUNDS - n
  {
    if n == ROUNDS - 1 then XorBlock(t, keys[ROUNDS])
    else InvMixBlock(XorBlock(InvSubBlock(InvShiftBlock(Backward(t, keys, n + 1))), keys[n + 1]))
  }

  ghost function Decrypted(t: Block, keys: seq<Block>): Block
    requires |keys| == ROUNDS + 1
  {
    XorBlock(InvSubBlock(InvShiftBlock(Backward(t, keys, START))), keys[0])
  }

  /** Halfway back, the block is what it was halfway forth. */
  lemma {:induction false} Halfway(s: Block, keys: seq<Block>, n: nat)
    requires n < ROUNDS && |keys| == ROUNDS + 1
    ensures Backward(Encrypted(s, keys), keys, n) == ShiftBlock(SubBlock(Forward(s, keys, n)))
    decreases ROUNDS - n
  {
    hide XorBlock;
    hide SubBlock;
    hide InvSubBlock;
    hide ShiftBlock;
    hide InvShiftBlock;
    hide MixBlock;
    hide InvMixBlock;
    var here := ShiftBlock(SubBlock(Forward(s, keys, n)));
    if n == ROUNDS - 1 {
      BlockRoundTrips(here, keys[ROUNDS]);
    } else {
      Halfway(s, keys, n + 1);
      var next := Forward(s, keys, n + 1);
      assert next == XorBlock(MixBlock(here), keys[n + 1]);
      BlockRoundTrips(SubBlock(next), next);
      BlockRoundTrips(next, next);
      BlockRoundTrips(MixBlock(here), keys[n + 1]);
      BlockRoundTrips(here, here);
    }
  }

  /** Decryption undoes encryption, for every block and every eleven round keys. */
  lemma CipherRoundTrip(s: Block, keys: seq<Block>)
    requires |keys| == ROUNDS + 1
    ensures Decrypted(Encrypted(s, keys), keys) == s
  {
    hide XorBlock;
    hide SubBlock;
    hide InvSubBlock;
    hide ShiftBlock;
    hide InvShiftBlock;
    hide Backward;
    hide Encrypted;
    var first := Forward(s, keys, START);
    Halfway(s, keys, START);
    BlockRoundTrips(SubBlock(first), first);
    BlockRoundTrips(first, first);
    BlockRoundTrips(s, keys[0]);
  }
}
