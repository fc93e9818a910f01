/** Streaming SHA-256 (libs/crypto/sha256.c) against the hash of the whole padded message
    (sections 5.1.1 and 6.2 of FIPS 180-4). */
module Sha256 {
  import opened Common
  import opened Sha256Block

  const H0: word := 0x6a09e667
  const H1: word := 0xbb67ae85
  const H2: word := 0x3c6ef372
  const H3: word := 0xa54ff53a
  const H4: word := 0x510e527f
  const H5: word := 0x9b05688c
  const H6: word := 0x1f83d9ab
  const H7: word := 0x5be0cd19
  const INITIAL := Vars(H0, H1, H2, H3, H4, H5, H6, H7)
  const NOTHING: seq<byte> := []

  // ----- the hash of a message

  /** The blocks of `s` mixed in one after the other. */
  ghost function Chained(v: Vars, s: seq<byte>): Vars
  {
    if |s| < 64 then v else Compress(Chained(v, s[..|s| - 64]), s[|s| - 64..])
  }

  function Zeros(n: nat): (s: seq<byte>)
    ensures |s| == n
  {
    seq(n, _ => 0)
  }

  /** A number as `n` bytes, the most significant first. */
  function BigEndian(x: nat, n: nat): (s: seq<byte>)
    ensures |s| == n
  {
    if n == 0 then [] else BigEndian(x / 256, n - 1) + [x % 256]
  }

  /** The value of bytes, the most significant first. */
  ghost function Value(s: seq<byte>): nat
  {
    if s == [] then 0 else 256 * Value(s[..|s| - 1]) + s[|s| - 1]
  }

  ghost function Limit(n: nat): nat
  {
    if n == 0 then 1 else 256 * Limit(n - 1)
  }

  lemma {:induction false} BigEndianValue(x: nat, n: nat)
    requires x < Limit(n)
    ensures Value(BigEndian(x, n)) == x
  {
    if n > 0 {
      BigEndianValue(x / 256, n - 1);
      var s := BigEndian(x, n);
      assert s[..|s| - 1] == BigEndian(x / 256, n - 1);
    }
  }

  /** How many zero bytes follow the mark, so that the length ends a block. */
  function Gap(r: nat): (n: nat)
    requires r < 64
    ensures (r + 1 + n + 8) % 64 == 0 && n < 64
  {
    if r < 56 then 55 - r else 119 - r
  }

  const EIGHT := 8

  ghost function Padding(n: nat): seq<byte>
  {
    [0x80] + Zeros(Gap(n % 64)) + BigEndian(8 * n % TWO64, EIGHT)
  }

  ghost function Hash(msg: seq<byte>): Vars
  {
    Chained(INITIAL, msg + Padding(|msg|))
  }

  /** Byte `i` of a word, the most significant first. */
  function ByteOf(w: word, i: nat): byte
    requires i < 4
  {
    if i == 0 then Low8(w >> 24) as int else if i == 1 then Low8(w >> 16) as int
    else if i == 2 then Low8(w >> 8) as int else Low8(w) as int
  }

  function Low8(w: word): bv8
  {
    (w & 0xff) as bv8
  }

  function WordAt(v: Vars, j: nat): word
  {
    if j == 0 then v.a else if j == 1 then v.b else if j == 2 then v.c else if j == 3 then v.d
    else if j == 4 then v.e else if j == 5 then v.f else if j == 6 then v.g else v.h
  }

  /** The eight words as bytes, each word most significant byte first. */
  function Digest(v: Vars): (s: seq<byte>)
    ensures |s| == 32
  {
    seq(32, k requires 0 <= k < 32 => ByteOf(WordAt(v, k / 4), k % 4))
  }

  /** The padding fills the last block and ends with the length in bits. */
  lemma PaddingMeets(n: nat)
    requires 8 * n < TWO64
    ensures var p := Padding(n);
            && (n + |p|) % 64 == 0 && 9 <= |p| <= 72 && p[0] == 0x80
            && (forall i :: 1 <= i < |p| - 8 ==> p[i] == 0) && Value(p[|p| - 8..]) == 8 * n
  {
    hide BigEndian;
    var p := Padding(n);
    assert p[|p| - 8..] == BigEndian(8 * n, EIGHT);
    LimitEight();
    hide Limit;
    hide Value;
    BigEndianValue(8 * n, EIGHT);
    WholeBlocks(n, Gap(n % 64));
  }

  lemma LimitEight()
    ensures Limit(EIGHT) == TWO64
  {
    assert Limit(4) == 0x1_0000_0000;
  }

  lemma WholeBlocks(n: nat, gap: nat)
    requires (n % 64 + 1 + gap + 8) % 64 == 0
    ensures (n + (1 + gap + 8)) % 64 == 0
  {
  }

  // ----- chaining

  lemma ChainedBlock(v: Vars, s: seq<byte>, block: seq<byte>)
    requires |block| == 64
    ensures Chained(v, s + block) == Compress(Chained(v, s), block)
  {
    hide Compress;
    var all := s + block;
    assert all[..|all| - 64] == s && all[|all| - 64..] == block;
  }

  // ----- what has been mixed in, and what waits for the rest of its block

  function Tail(n: nat): (r: nat)
    ensures r <= n && r < 64
  {
    n % 64
  }

  function WholeBits(n: nat): nat
  {
    8 * (n - n % 64) % TWO64
  }

  ghost function Whole(msg: seq<byte>): seq<byte>
  {
    msg[..|msg| - Tail(|msg|)]
  }

  ghost function Rest(msg: seq<byte>): (r: seq<byte>)
    ensures |r| == Tail(|msg|)
  {
    msg[|msg| - Tail(|msg|)..]
  }

  lemma NextByte(msg: seq<byte>, b: byte)
    ensures var n, all := |msg|, msg + [b];
            if Tail(n) == 63 then
              && Tail(n + 1) == 0 && WholeBits(n + 1) == (WholeBits(n) + 512) % TWO64
              && Whole(all) == Whole(msg) + (Rest(msg) + [b]) && Rest(all) == []
            else
              && Tail(n + 1) == Tail(n) + 1 && WholeBits(n + 1) == WholeBits(n)
              && Whole(all) == Whole(msg) && Rest(all) == Rest(msg) + [b]
  {
    NextCount(|msg|);
    hide Tail;
    hide WholeBits;
  }

  lemma NextCount(n: nat)
    ensures if Tail(n) == 63 then Tail(n + 1) == 0 && WholeBits(n + 1) == (WholeBits(n) + 512) % TWO64
            else Tail(n + 1) == Tail(n) + 1 && WholeBits(n + 1) == WholeBits(n)
  {
  }

  // ----- the context

  class Context {
    const data: array<byte>
    const state: array<word>
    var dataLen: nat
    var bitLen: nat

    /** The context after all bytes of `msg`. */
    ghost predicate Holds(msg: seq<byte>)
      reads this, data, state
    {
      && data.Length == 64 && state.Length == 8
      && dataLen == Tail(|msg|) && data[..dataLen] == Rest(msg)
      && bitLen == WholeBits(|msg|)
      && VarsOf(state[..]) == Chained(INITIAL, Whole(msg))
    }

    constructor ()
      ensures Holds(NOTHING) && fresh(data) && fresh(state)
    {
      data := new byte[64];
      state := new word[8];
      dataLen := 0;
      bitLen := 0;
      new;
      hide Tail;
      hide WholeBits;
      hide Compress;
      hide Chained;
      hide Whole;
      hide Rest;
      NothingYet();
      InitState(state);
    }

    method UpdateByte(b: byte, ghost msg: seq<byte>)
      requires Holds(msg)
      modifies this`dataLen, this`bitLen, data, state
      ensures Holds(msg + [b])
    {
      hide Compress;
      hide Chained;
      hide Tail;
      hide WholeBits;
      hide Whole;
      hide Rest;
      NextByte(msg, b);
      ghost var before := data[..dataLen];
      data[dataLen] := b;
      dataLen := dataLen + 1;
      assert data[..dataLen] == before + [b];
      if dataLen == 64 {
        assert data[..] == data[..dataLen];
        ChainedBlock(INITIAL, Whole(msg), data[..]);
        Transform(state, data);
        bitLen := (bitLen + 512) % TWO64;
        dataLen := 0;
      }
    }

    /** The index is a 32-bit number, so longer messages are fed in several calls. */
    method Update(bytes: seq<byte>, ghost msg: seq<byte>)
      requires Holds(msg) && |bytes| < TWO32
      modifies this`dataLen, this`bitLen, data, state
      ensures Holds(msg + bytes)
    {
      hide Wrap32;
      hide Chained;
      hide Whole;
      hide Rest;
      hide WholeBits;
      var i := 0;
      assert msg + bytes[..0] == msg;
      while i < |bytes|
        invariant 0 <= i <= |bytes| && Holds(msg + bytes[..i])
      {
        UpdateByte(bytes[i], msg + bytes[..i]);
        assert msg + bytes[..i] + [bytes[i]] == msg + bytes[..i + 1];
        WrapSmall(i + 1);
        i := Add32(i, 1);
      }
      assert bytes[..i] == bytes;
    }

    /** Writes the mark and zeros up to `end`. */
    method Pad(end: nat, ghost rest: seq<byte>)
      requires data.Length == 64 && dataLen < end <= 64 && data[..dataLen] == rest
      modifies data
      ensures data[..end] == rest + [0x80] + Zeros(end - dataLen - 1)
    {
      var i := dataLen;
      data[i] := 0x80;
      i := i + 1;
      while i < end
        invariant dataLen < i <= end && data[..i] == rest + [0x80] + Zeros(i - dataLen - 1)
      {
        data[i] := 0x00;
        i := i + 1;
        assert data[..i] == data[..i - 1] + [0];
        assert Zeros(i - 1 - dataLen - 1) + [0] == Zeros(i - dataLen - 1);
      }
    }

    /** Writes the message length in bits into the last eight bytes of the block. */
    method PutLength()
      requires data.Length == 64
      modifies data
      ensures data[..56] == old(data[..56]) && data[56..] == BigEndian(bitLen, EIGHT)
    {
      hide BigEndian;
      hide LengthByte;
      data[63] := LengthByte(bitLen, 0);
      data[62] := LengthByte(bitLen, 1);
      data[61] := LengthByte(bitLen, 2);
      data[60] := LengthByte(bitLen, 3);
      data[59] := LengthByte(bitLen, 4);
      data[58] := LengthByte(bitLen, 5);
      data[57] := LengthByte(bitLen, 6);
      data[56] := LengthByte(bitLen, 7);
      LengthBytes(bitLen, data[56..]);
    }

    method Final(ghost msg: seq<byte>) returns (hash: array<byte>)
      requires Holds(msg)
      modifies this`bitLen, data, state
      ensures fresh(hash) && hash[..] == Digest(Hash(msg))
    {
      hide Compress;
      hide Chained;
      hide Whole;
      hide Rest;
      hide Tail;
      hide WholeBits;
      hide BigEndian;
      hide Zeros;
      hide Hash;
      hide Digest;
      ghost var rest := Rest(msg);
      ghost var v := VarsOf(state[..]);
      if dataLen < 56 {
        Pad(56, rest);
      } else {
        Pad(64, rest);
        assert data[..] == data[..64];
        Transform(state, data);
        Clear();
      }
      TotalBits(|msg|);
      bitLen := (bitLen + dataLen * 8) % TWO64;
      ghost var front := data[..56];
      PutLength();
      assert data[..] == front + data[56..];
      Transform(state, data);
      LastBlocks(msg, v, bitLen, VarsOf(state[..]));
      hash := Output(state);
    }

    method Clear()
      requires data.Length == 64
      modifies data
      ensures data[..56] == Zeros(56)
    {
      for i := 0 to 56
        invariant forall k :: 0 <= k < i ==> data[k] == 0
      {
        data[i] := 0;
      }
    }
  }

  lemma NothingYet()
    ensures Tail(|NOTHING|) == 0 && WholeBits(|NOTHING|) == 0 && Rest(NOTHING) == []
    ensures Chained(INITIAL, Whole(NOTHING)) == INITIAL
  {
    hide Compress;
  }

  method InitState(state: array<word>)
    requires state.Length == 8
    modifies state
    ensures VarsOf(state[..]) == INITIAL
  {
    state[0] := H0;
    state[1] := H1;
    state[2] := H2;
    state[3] := H3;
    state[4] := H4;
    state[5] := H5;
    state[6] := H6;
    state[7] := H7;
  }

  // ----- padding

  /** A right shift by `k` bytes. */
  function Shr8(x: nat, k: nat): nat
  {
    if k == 0 then x else Shr8(x / 256, k - 1)
  }

  /** Byte `k` of a number, the least significant first. */
  function LengthByte(x: nat, k: nat): byte
  {
    Shr8(x, k) % 256
  }

  lemma {:induction false} BigEndianAt(x: nat, n: nat, k: nat)
    requires k < n
    ensures BigEndian(x, n)[n - 1 - k] == LengthByte(x, k)
  {
    if k > 0 {
      BigEndianAt(x / 256, n - 1, k - 1);
    }
  }

  lemma LengthBytes(x: nat, s: seq<byte>)
    requires s == [LengthByte(x, 7), LengthByte(x, 6), LengthByte(x, 5), LengthByte(x, 4),
                   LengthByte(x, 3), LengthByte(x, 2), LengthByte(x, 1), LengthByte(x, 0)]
    ensures s == BigEndian(x, EIGHT)
  {
    hide BigEndian;
    hide LengthByte;
    BigEndianAt(x, EIGHT, 0);
    BigEndianAt(x, EIGHT, 1);
    BigEndianAt(x, EIGHT, 2);
    BigEndianAt(x, EIGHT, 3);
    BigEndianAt(x, EIGHT, 4);
    BigEndianAt(x, EIGHT, 5);
    BigEndianAt(x, EIGHT, 6);
    BigEndianAt(x, EIGHT, 7);
  }

  lemma TotalBits(n: nat)
    ensures (WholeBits(n) + Tail(n) * 8) % TWO64 == 8 * n % TWO64
  {
  }

  lemma ZerosSplit(a: nat, b: nat)
    ensures Zeros(a + b) == Zeros(a) + Zeros(b)
  {
  }

  /** The one or two last blocks are the padded rest of the message. */
  lemma LastBlocks(msg: seq<byte>, v: Vars, bits: nat, last: Vars)
    requires v == Chained(INITIAL, Whole(msg)) && bits == 8 * |msg| % TWO64
    requires var r, len := Tail(|msg|), BigEndian(bits, EIGHT);
             if r < 56 then last == Compress(v, Rest(msg) + [0x80] + Zeros(55 - r) + len)
             else last == Compress(Compress(v, Rest(msg) + [0x80] + Zeros(63 - r)), Zeros(56) + len)
    ensures last == Hash(msg)
  {
    hide Compress;
    hide Chained;
    hide BigEndian;
    hide Zeros;
    var r, len, whole, rest := Tail(|msg|), BigEndian(bits, EIGHT), Whole(msg), Rest(msg);
    assert msg == whole + rest;
    if r < 56 {
      var block := rest + [0x80] + Zeros(55 - r) + len;
      assert msg + Padding(|msg|) == whole + block;
      ChainedBlock(INITIAL, whole, block);
    } else {
      var first, second := rest + [0x80] + Zeros(63 - r), Zeros(56) + len;
      ZerosSplit(63 - r, 56);
      assert msg + Padding(|msg|) == whole + first + second;
      ChainedBlock(INITIAL, whole, first);
      ChainedBlock(INITIAL, whole + first, second);
    }
  }

  // ----- output

  /** Byte `i` of all eight words is in place. */
  ghost predicate RowOut(hash: seq<byte>, state: seq<word>, i: nat)
    requires |hash| == 32 && |state| == 8 && i < 4
  {
    && hash[i] == ByteOf(state[0], i) && hash[i + 4] == ByteOf(state[1], i)
    && hash[i + 8] == ByteOf(state[2], i) && hash[i + 12] == ByteOf(state[3], i)
    && hash[i + 16] == ByteOf(state[4], i) && hash[i + 20] == ByteOf(state[5], i)
    && hash[i + 24] == ByteOf(state[6], i) && hash[i + 28] == ByteOf(state[7], i)
  }

  method OutputRow(hash: array<byte>, state: array<word>, i: nat)
    requires hash.Length == 32 && state.Length == 8 && i < 4
    modifies hash
    ensures RowOut(hash[..], state[..], i)
    ensures forall r: nat :: r < i && old(RowOut(hash[..], state[..], r)) ==> RowOut(hash[..], state[..], r)
  {
    hide ByteOf;
    hash[i] := ByteOf(state[0], i);
    hash[i + 4] := ByteOf(state[1], i);
    hash[i + 8] := ByteOf(state[2], i);
    hash[i + 12] := ByteOf(state[3], i);
    hash[i + 16] := ByteOf(state[4], i);
    hash[i + 20] := ByteOf(state[5], i);
    hash[i + 24] := ByteOf(state[6], i);
    hash[i + 28] := ByteOf(state[7], i);
  }

  lemma RowsDigest(hash: seq<byte>, state: seq<word>, k: nat)
    requires |hash| == 32 && |state| == 8 && k < 32 && RowOut(hash, state, k % 4)
    ensures hash[k] == Digest(VarsOf(state))[k]
  {
    hide ByteOf;
    var j, i := k / 4, k % 4;
    assert k == 4 * j + i;
  }

  method Output(state: array<word>) returns (hash: array<byte>)
    requires state.Length == 8
    ensures fresh(hash) && hash[..] == Digest(VarsOf(state[..]))
  {
    hide RowOut;
    hide Digest;
    hash := new byte[32];
    for i := 0 to 4
      invariant forall r: nat :: r < i ==> RowOut(hash[..], state[..], r)
    {
      OutputRow(hash, state, i);
    }
    forall k: nat | k < 32 ensures hash[k] == Digest(VarsOf(state[..]))[k] {
      RowsDigest(hash[..], state[..], k);
    }
  }

  /** The 32-bit index of an update after `n` turns of its loop. */
  ghost function Turn(n: nat): nat
  {
    if n == 0 then 0 else Add32(Turn(n - 1), 1)
  }

  lemma {:induction false} TurnWraps(n: nat)
    ensures Turn(n) == Wrap32(n)
  {
    if n == 0 {
      WrapSmall(0);
    } else {
      hide Wrap32;
      TurnWraps(n - 1);
      WrapAdd(n - 1, 1);
    }
  }

  /** An update ends exactly on fewer than 2^32 bytes. */
  lemma UpdateEnds(len: nat)
    ensures (exists n :: Turn(n) >= len) <==> len < TWO32
  {
    hide Wrap32;
    if len < TWO32 {
      TurnWraps(len);
      WrapSmall(len);
    } else {
      forall n ensures Turn(n) < len {
        TurnWraps(n);
      }
    }
  }

  // ----- any way of feeding the message

  ghost function Joined(parts: seq<seq<byte>>): seq<byte>
  {
    if parts == [] then NOTHING else Joined(parts[..|parts| - 1]) + parts[|parts| - 1]
  }

  /** However the message is split into updates, the digest is that of the whole padded message. */
  method HashParts(parts: seq<seq<byte>>) returns (hash: array<byte>)
    requires forall i :: 0 <= i < |parts| ==> |parts[i]| < TWO32
    ensures hash[..] == Digest(Hash(Joined(parts)))
  {
    hide Hash;
    hide Digest;
    hide Chained;
    hide Whole;
    hide Rest;
    hide Tail;
    hide WholeBits;
    var ctx := new Context();
    var i := 0;
    while i < |parts|
      invariant 0 <= i <= |parts| && ctx.Holds(Joined(parts[..i])) && fresh(ctx) && fresh(ctx.data) && fresh(ctx.state)
    {
      ctx.Update(parts[i], Joined(parts[..i]));
      assert parts[..i + 1][..i] == parts[..i];
      i := i + 1;
    }
    assert parts[..i] == parts;
    hash := ctx.Final(Joined(parts));
  }
}
