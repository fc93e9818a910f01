/** The round steps in place on the sixteen bytes of the state (libs/crypto/aes.c), column by column:
    byte `4 * i + j` is row `j` of column `i`. */
module AesState {
  import opened GaloisField
  import opened SBox
  import opened AesRounds

  function ColumnAt(s: seq<Byte>, at: nat): Column
    requires at + 4 <= |s|
  {
    Column(s[at], s[at + 1], s[at + 2], s[at + 3])
  }

  function BlockAt(s: seq<Byte>, at: nat): Block
    requires at + 16 <= |s|
  {
    Block(ColumnAt(s, at), ColumnAt(s, at + 4), ColumnAt(s, at + 8), ColumnAt(s, at + 12))
  }

  /** The round keys held in the expanded key. */
  ghost function Keys(rk: seq<Byte>): (keys: seq<Block>)
    requires |rk| == 176
    ensures |keys| == ROUNDS + 1
  {
    seq(ROUNDS + 1, r requires 0 <= r <= ROUNDS => BlockAt(rk, 16 * r))
  }

  method AddRoundKey(state: array<Byte>, roundKey: array<Byte>, round: nat)
    requires state.Length == 16 && roundKey.Length == 176 && round <= ROUNDS && state != roundKey
    modifies state
    ensures BlockAt(state[..], 0) == XorBlock(old(BlockAt(state[..], 0)), Keys(roundKey[..])[round])
  {
    hide Xor;
    ghost var s, rk := state[..], roundKey[..];
    for i := 0 to 4
      invariant forall k :: 0 <= k < 4 * i ==> state[k] == Xor(s[k], rk[16 * round + k])
      invariant forall k :: 4 * i <= k < 16 ==> state[k] == s[k]
    {
      for j := 0 to 4
        invariant forall k :: 0 <= k < 4 * i + j ==> state[k] == Xor(s[k], rk[16 * round + k])
        invariant forall k :: 4 * i + j <= k < 16 ==> state[k] == s[k]
      {
        state[4 * i + j] := Xor(state[4 * i + j], roundKey[round * 16 + i * 4 + j]);
      }
    }
  }

  method SubBytes(state: array<Byte>)
    requires state.Length == 16
    modifies state
    ensures BlockAt(state[..], 0) == SubBlock(old(BlockAt(state[..], 0)))
  {
    hide SubByte;
    ghost var s := state[..];
    for i := 0 to 4
      invariant forall k :: 0 <= k < 16 ==> state[k] == if k % 4 < i then SubByte(s[k]) else s[k]
    {
      for j := 0 to 4
        invariant forall k :: 0 <= k < 16 ==>
                    state[k] == if k % 4 < i || (k % 4 == i && k / 4 < j) then SubByte(s[k]) else s[k]
      {
        state[4 * j + i] := SubByte(state[4 * j + i]);
      }
    }
  }

  method InvSubBytes(state: array<Byte>)
    requires state.Length == 16
    modifies state
    ensures BlockAt(state[..], 0) == InvSubBlock(old(BlockAt(state[..], 0)))
  {
    hide InvSubByte;
    ghost var s := state[..];
    for i := 0 to 4
      invariant forall k :: 0 <= k < 16 ==> state[k] == if k % 4 < i then InvSubByte(s[k]) else s[k]
    {
      for j := 0 to 4
        invariant forall k :: 0 <= k < 16 ==>
                    state[k] == if k % 4 < i || (k % 4 == i && k / 4 < j) then InvSubByte(s[k]) else s[k]
      {
        state[4 * j + i] := InvSubByte(state[4 * j + i]);
      }
    }
  }

  method ShiftRows(state: array<Byte>)
    requires state.Length == 16
    modifies state
    ensures BlockAt(state[..], 0) == ShiftBlock(old(BlockAt(state[..], 0)))
  {
    var temp := state[1];
    state[1] := state[5];
    state[5] := state[9];
    state[9] := state[13];
    state[13] := temp;

    temp := state[2];
    state[2] := state[10];
    state[10] := temp;

    temp := state[6];
    state[6] := state[14];
    state[14] := temp;

    temp := state[3];
    state[3] := state[15];
    state[15] := state[11];
    state[11] := state[7];
    state[7] := temp;
  }

  method InvShiftRows(state: array<Byte>)
    requires state.Length == 16
    modifies state
    ensures BlockAt(state[..], 0) == InvShiftBlock(old(BlockAt(state[..], 0)))
  {
    var temp := state[13];
    state[13] := state[9];
    state[9] := state[5];
    state[5] := state[1];
    state[1] := temp;

    temp := state[2];
    state[2] := state[10];
    state[10] := temp;

    temp := state[6];
    state[6] := state[14];
    state[14] := temp;

    temp := state[3];
    state[3] := state[7];
    state[7] := state[11];
    state[11] := state[15];
    state[15] := temp;
  }

  /** The bytes of a mixed column as the code computes them. */
  lemma MixSteps(a: Byte, b: Byte, c: Byte, d: Byte)
    ensures var total := Xor(Xor(Xor(a, b), c), d);
            MixColumn(Column(a, b, c, d))
            == Column(Xor(a, Xor(XTime(Xor(a, b)), total)), Xor(b, Xor(XTime(Xor(b, c)), total)),
                      Xor(c, Xor(XTime(Xor(c, d)), total)), Xor(d, Xor(XTime(Xor(d, a)), total)))
  {
    hide Xor;
    hide XTime;
    hide Mixed;
    var total := Xor(Xor(Xor(a, b), c), d);
    XorTurn(a, b, c, d);
    MixedByTotal(a, b, c, d, total);
    MixedByTotal(b, c, d, a, total);
    MixedByTotal(c, d, a, b, total);
    MixedByTotal(d, a, b, c, total);
  }

  method MixColumns(state: array<Byte>)
    requires state.Length == 16
    modifies state
    ensures BlockAt(state[..], 0) == MixBlock(old(BlockAt(state[..], 0)))
  {
    hide Xor;
    hide XTime;
    hide MixColumn;
    ghost var s := state[..];
    for i := 0 to 4
      invariant forall k :: 4 * i <= k < 16 ==> state[k] == s[k]
      invariant i > 0 ==> ColumnAt(state[..], 0) == MixColumn(ColumnAt(s, 0))
      invariant i > 1 ==> ColumnAt(state[..], 4) == MixColumn(ColumnAt(s, 4))
      invariant i > 2 ==> ColumnAt(state[..], 8) == MixColumn(ColumnAt(s, 8))
      invariant i > 3 ==> ColumnAt(state[..], 12) == MixColumn(ColumnAt(s, 12))
    {
      MixOne(state, 4 * i);
    }
  }

  /** The loop body of the column mixing. */
  method MixOne(state: array<Byte>, at: nat)
    requires state.Length == 16 && at + 4 <= 16
    modifies state
    ensures ColumnAt(state[..], at) == MixColumn(old(ColumnAt(state[..], at)))
    ensures forall k :: 0 <= k < 16 && !(at <= k < at + 4) ==> state[k] == old(state[k])
  {
    hide Xor;
    hide XTime;
    hide MixColumn;
    MixSteps(state[at], state[at + 1], state[at + 2], state[at + 3]);
    var t := state[at];
    var total := Xor(Xor(Xor(state[at], state[at + 1]), state[at + 2]), state[at + 3]);
    var tm := XTime(Xor(state[at], state[at + 1]));
    state[at] := Xor(state[at], Xor(tm, total));
    tm := XTime(Xor(state[at + 1], state[at + 2]));
    state[at + 1] := Xor(state[at + 1], Xor(tm, total));
    tm := XTime(Xor(state[at + 2], state[at + 3]));
    state[at + 2] := Xor(state[at + 2], Xor(tm, total));
    tm := XTime(Xor(state[at + 3], t));
    state[at + 3] := Xor(state[at + 3], Xor(tm, total));
  }

  lemma UnmixSteps(a: Byte, b: Byte, c: Byte, d: Byte)
    ensures InvMixColumn(Column(a, b, c, d))
            == Column(
                 Xor(Xor(Xor(Multiply(a, FOURTEEN), Multiply(b, ELEVEN)), Multiply(c, THIRTEEN)), Multiply(d, NINE)),
                 Xor(Xor(Xor(Multiply(a, NINE), Multiply(b, FOURTEEN)), Multiply(c, ELEVEN)), Multiply(d, THIRTEEN)),
                 Xor(Xor(Xor(Multiply(a, THIRTEEN), Multiply(b, NINE)), Multiply(c, FOURTEEN)), Multiply(d, ELEVEN)),
                 Xor(Xor(Xor(Multiply(a, ELEVEN), Multiply(b, THIRTEEN)), Multiply(c, NINE)), Multiply(d, FOURTEEN)))
  {
    hide Xor;
    hide Multiply;
    XorTurn(Multiply(a, FOURTEEN), Multiply(b, ELEVEN), Multiply(c, THIRTEEN), Multiply(d, NINE));
    XorTurn(Multiply(a, NINE), Multiply(b, FOURTEEN), Multiply(c, ELEVEN), Multiply(d, THIRTEEN));
    XorTurn(Multiply(a, THIRTEEN), Multiply(b, NINE), Multiply(c, FOURTEEN), Multiply(d, ELEVEN));
    XorTurn(Multiply(a, ELEVEN), Multiply(b, THIRTEEN), Multiply(c, NINE), Multiply(d, FOURTEEN));
  }

  method InvMixColumns(state: array<Byte>)
    requires state.Length == 16
    modifies state
    ensures BlockAt(state[..], 0) == InvMixBlock(old(BlockAt(state[..], 0)))
  {
    hide Xor;
    hide Multiply;
    hide InvMixColumn;
    ghost var s := state[..];
    for i := 0 to 4
      invariant forall k :: 4 * i <= k < 16 ==> state[k] == s[k]
      invariant i > 0 ==> ColumnAt(state[..], 0) == InvMixColumn(ColumnAt(s, 0))
      invariant i > 1 ==> ColumnAt(state[..], 4) == InvMixColumn(ColumnAt(s, 4))
      invariant i > 2 ==> ColumnAt(state[..], 8) == InvMixColumn(ColumnAt(s, 8))
      invariant i > 3 ==> ColumnAt(state[..], 12) == InvMixColumn(ColumnAt(s, 12))
    {
      UnmixOne(state, 4 * i);
    }
  }

  method UnmixOne(state: array<Byte>, at: nat)
    requires state.Length == 16 && at + 4 <= 16
    modifies state
    ensures ColumnAt(state[..], at) == InvMixColumn(old(ColumnAt(state[..], at)))
    ensures forall k :: 0 <= k < 16 && !(at <= k < at + 4) ==> state[k] == old(state[k])
  {
    hide Xor;
    hide Multiply;
    hide InvMixColumn;
    var a, b, c, d := state[at], state[at + 1], state[at + 2], state[at + 3];
    UnmixSteps(a, b, c, d);
    state[at] := Xor(Xor(Xor(Multiply(a, FOURTEEN), Multiply(b, ELEVEN)), Multiply(c, THIRTEEN)), Multiply(d, NINE));
    state[at + 1] := Xor(Xor(Xor(Multiply(a, NINE), Multiply(b, FOURTEEN)), Multiply(c, ELEVEN)), Multiply(d, THIRTEEN));
    state[at + 2] := Xor(Xor(Xor(Multiply(a, THIRTEEN), Multiply(b, NINE)), Multiply(c, FOURTEEN)), Multiply(d, ELEVEN));
    state[at + 3] := Xor(Xor(Xor(Multiply(a, ELEVEN), Multiply(b, THIRTEEN)), Multiply(c, NINE)), Multiply(d, FOURTEEN));
  }

  // ----- the whole cipher

  method Cipher(state: array<Byte>, roundKey: array<Byte>)
    requires state.Length == 16 && roundKey.Length == 176 && state != roundKey
    modifies state
    ensures BlockAt(state[..], 0) == Encrypted(old(BlockAt(state[..], 0)), Keys(roundKey[..]))
  {
    hide XorBlock;
    hide SubBlock;
    hide ShiftBlock;
    hide MixBlock;
    hide BlockAt;
    hide Keys;
    ghost var s, keys := BlockAt(state[..], 0), Keys(roundKey[..]);
    AddRoundKey(state, roundKey, 0);
    var round := 1;
    while round < ROUNDS
      invariant 1 <= round <= ROUNDS && BlockAt(state[..], 0) == Forward(s, keys, round - 1)
    {
      SubBytes(state);
      ShiftRows(state);
      MixColumns(state);
      AddRoundKey(state, roundKey, round);
      round := round + 1;
    }
    SubBytes(state);
    ShiftRows(state);
    AddRoundKey(state, roundKey, ROUNDS);
  }

  method InvCipher(state: array<Byte>, roundKey: array<Byte>)
    requires state.Length == 16 && roundKey.Length == 176 && state != roundKey
    modifies state
    ensures BlockAt(state[..], 0) == Decrypted(old(BlockAt(state[..], 0)), Keys(roundKey[..]))
  {
    hide XorBlock;
    hide InvSubBlock;
    hide InvShiftBlock;
    hide InvMixBlock;
    hide BlockAt;
    hide Keys;
    ghost var t, keys := BlockAt(state[..], 0), Keys(roundKey[..]);
    AddRoundKey(state, roundKey, ROUNDS);
    var round := ROUNDS - 1;
    while round > 0
      invariant 0 <= round < ROUNDS && BlockAt(state[..], 0) == Backward(t, keys, round)
    {
      InvShiftRows(state);
      InvSubBytes(state);
      AddRoundKey(state, roundKey, round);
      InvMixColumns(state);
      round := round - 1;
    }
    InvShiftRows(state);
    InvSubBytes(state);
    AddRoundKey(state, roundKey, 0);
  }
}
