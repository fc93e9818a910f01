/** The Adler-32 checksum (section 2.2 of RFC 1950) with its modulo deferred over blocks of 5552
    bytes, in 32-bit arithmetic. */
module Adler32 {
  import opened Common

  const BASE: nat := 65521
  const BLOCK: nat := 5552

  type Byte = b: nat | b < 256

  datatype Buffer = Null | Data(bytes: seq<Byte>)

  // ----- the definition: reduce after every byte

  datatype Sums = Sums(s1: nat, s2: nat)

  function Step(s: Sums, b: Byte): Sums
  {
    var s1 := (s.s1 + b) % BASE;
    Sums(s1, (s.s2 + s1) % BASE)
  }

  function Running(s: Sums, data: seq<Byte>): Sums
  {
    if data == [] then s else Step(Running(s, data[..|data| - 1]), data[|data| - 1])
  }

  function Unpack(adler: nat): Sums
  {
    Sums(adler % 0x10000, adler / 0x10000)
  }

  function Pack(s: Sums): nat
  {
    0x10000 * s.s2 + s.s1
  }

  /** The checksum after `data`, continuing from the checksum `adler`. */
  function Checksum(adler: nat, data: seq<Byte>): nat
  {
    Pack(Running(Unpack(adler), data))
  }

  // ----- without reduction

  function Sum1(s: Sums, data: seq<Byte>): nat
  {
    if data == [] then s.s1 else Sum1(s, data[..|data| - 1]) + data[|data| - 1]
  }

  function Sum2(s: Sums, data: seq<Byte>): nat
  {
    if data == [] then s.s2 else Sum2(s, data[..|data| - 1]) + Sum1(s, data)
  }

  /** The sum of the first `n` positive numbers. */
  function Triangle(n: nat): nat
  {
    if n == 0 then 0 else Triangle(n - 1) + n
  }

  lemma {:induction false} TriangleIs(n: nat)
    ensures 2 * Triangle(n) == n * (n + 1)
  {
    if n > 0 {
      TriangleIs(n - 1);
    }
  }

  lemma {:induction false} TriangleMono(m: nat, n: nat)
    requires m <= n
    ensures Triangle(m) <= Triangle(n)
  {
    if m < n {
      TriangleMono(m, n - 1);
    }
  }

  lemma {:induction false} SumBounds(s: Sums, data: seq<Byte>)
    requires s.s1 < 0x10000 && s.s2 < 0x10000
    ensures Sum1(s, data) <= 0xFFFF + 255 * |data|
    ensures Sum2(s, data) <= 0xFFFF * (|data| + 1) + 255 * Triangle(|data|)
  {
    if data != [] {
      SumBounds(s, data[..|data| - 1]);
    }
  }

  /** One block never overflows, even from unreduced 16-bit halves. */
  lemma BlockFits(s: Sums, data: seq<Byte>)
    requires s.s1 < 0x10000 && s.s2 < 0x10000 && |data| <= BLOCK
    ensures Sum1(s, data) < 0x1_0000_0000 && Sum2(s, data) < 0x1_0000_0000
  {
    hide Sum1;
    hide Sum2;
    hide Triangle;
    SumBounds(s, data);
    var m := BLOCK;
    TriangleMono(|data|, m);
    TriangleIs(m);
  }

  /** The block length is the largest that cannot overflow. */
  lemma LongerBlockOverflows(s: Sums, data: seq<Byte>)
    requires s == Sums(BASE - 1, BASE - 1) && |data| == BLOCK + 1 && forall i :: 0 <= i < |data| ==> data[i] == 255
    ensures Sum2(s, data) >= 0x1_0000_0000
  {
    hide Sum1;
    hide Sum2;
    hide Triangle;
    LargestSums(s, data);
    TriangleIs(|data|);
  }

  lemma {:induction false} LargestSums(s: Sums, data: seq<Byte>)
    requires forall i :: 0 <= i < |data| ==> data[i] == 255
    ensures Sum1(s, data) == s.s1 + 255 * |data|
    ensures Sum2(s, data) == s.s2 + s.s1 * |data| + 255 * Triangle(|data|)
  {
    if data != [] {
      var n := |data| - 1;
      LargestSums(s, data[..n]);
      assert s.s1 * (n + 1) == s.s1 * n + s.s1;
    }
  }

  lemma ModAdd(x: nat, y: nat)
    ensures (x % BASE + y) % BASE == (x + y) % BASE
  {
  }

  /** Reducing once at the end gives the same as reducing after every byte. */
  lemma {:induction false} DeferredModulo(s: Sums, data: seq<Byte>)
    requires data != [] || (s.s1 < BASE && s.s2 < BASE)
    ensures Running(s, data) == Sums(Sum1(s, data) % BASE, Sum2(s, data) % BASE)
  {
    hide Step;
    if data != [] {
      var n := |data| - 1;
      var b, t1, t2 := data[n], Sum1(s, data[..n]), Sum2(s, data[..n]);
      StepReduced(t1, t2, b);
      if n > 0 {
        DeferredModulo(s, data[..n]);
      } else {
        assert data[..0] == [];
      }
    }
  }

  /** A step reduces its result, whether or not its start was reduced. */
  lemma StepReduced(t1: nat, t2: nat, b: Byte)
    ensures Step(Sums(t1, t2), b) == Sums((t1 + b) % BASE, (t2 + (t1 + b)) % BASE)
    ensures Step(Sums(t1 % BASE, t2 % BASE), b) == Step(Sums(t1, t2), b)
  {
    ModAdd(t1, b);
    ModAdd(t2, (t1 + b) % BASE);
    ModAdd(t1 + b, t2);
  }

  lemma {:induction false} RunningConcat(s: Sums, x: seq<Byte>, y: seq<Byte>)
    ensures Running(s, x + y) == Running(Running(s, x), y)
  {
    if y == [] {
      assert x + y == x;
    } else {
      var n := |y| - 1;
      RunningConcat(s, x, y[..n]);
      assert (x + y)[..|x + y| - 1] == x + y[..n];
    }
  }

  lemma {:induction false} RunningBounds(s: Sums, data: seq<Byte>)
    requires s.s1 < 0x10000 && s.s2 < 0x10000
    ensures Running(s, data).s1 < 0x10000 && Running(s, data).s2 < 0x10000
    ensures data != [] ==> Running(s, data).s1 < BASE && Running(s, data).s2 < BASE
  {
  }

  /** The checksum of a concatenation continues the checksum of its first part. */
  lemma ChecksumConcat(adler: nat, x: seq<Byte>, y: seq<Byte>)
    requires adler < 0x1_0000_0000
    ensures Checksum(adler, x + y) == Checksum(Checksum(adler, x), y)
    ensures Checksum(adler, x) < 0x1_0000_0000
  {
    hide Running;
    hide Pack;
    hide Unpack;
    assert Unpack(adler).s1 < 0x10000 && Unpack(adler).s2 < 0x10000 by { UnpackFits(adler); }
    RunningConcat(Unpack(adler), x, y);
    RunningBounds(Unpack(adler), x);
    UnpackPack(Running(Unpack(adler), x));
  }

  lemma UnpackFits(adler: nat)
    requires adler < 0x1_0000_0000
    ensures Unpack(adler).s1 < 0x10000 && Unpack(adler).s2 < 0x10000
  {
  }

  lemma UnpackPack(s: Sums)
    requires s.s1 < 0x10000 && s.s2 < 0x10000
    ensures Unpack(Pack(s)) == s && Pack(s) < 0x1_0000_0000
  {
  }

  // ----- in closed form

  /** The sum of the first `k` bytes. */
  function Total(data: seq<Byte>, k: nat): nat
    requires k <= |data|
  {
    if k == 0 then 0 else Total(data, k - 1) + data[k - 1]
  }

  /** The sum of the first `k` bytes, byte `i` taken `n - i` times. */
  function Weighted(data: seq<Byte>, n: nat, k: nat): nat
    requires k <= |data| && k <= n
  {
    if k == 0 then 0 else Weighted(data, n, k - 1) + (n - (k - 1)) * data[k - 1]
  }

  lemma {:induction false} WeightedMore(data: seq<Byte>, n: nat, k: nat)
    requires k <= |data| && k <= n
    ensures Weighted(data, n + 1, k) == Weighted(data, n, k) + Total(data, k)
  {
    if k > 0 {
      WeightedMore(data, n, k - 1);
      assert (n + 1 - (k - 1)) * data[k - 1] == (n - (k - 1)) * data[k - 1] + data[k - 1];
    }
  }

  lemma {:induction false} SumsAre(s: Sums, data: seq<Byte>, k: nat)
    requires k <= |data|
    ensures Sum1(s, data[..k]) == s.s1 + Total(data, k)
    ensures Sum2(s, data[..k]) == s.s2 + k * s.s1 + Weighted(data, k, k)
  {
    if k > 0 {
      SumsAre(s, data, k - 1);
      assert data[..k][..k - 1] == data[..k - 1];
      WeightedMore(data, k - 1, k - 1);
      assert k * s.s1 == (k - 1) * s.s1 + s.s1;
    }
  }

  /** The checksum of `n` bytes from its start value 1: the low half is 1 plus the bytes, the high half is n plus byte
      `i` taken n - i times, both modulo 65521. */
  lemma ClosedForm(data: seq<Byte>)
    ensures var n := |data|;
            Checksum(1, data) == 65536 * ((n + Weighted(data, n, n)) % 65521) + (1 + Total(data, n)) % 65521
  {
    hide Running;
    var n := |data|;
    assert data[..n] == data;
    SumsAre(Sums(1, 0), data, n);
    DeferredModulo(Sums(1, 0), data);
  }

  // ----- the implementation

  /** Adds one byte in 32-bit arithmetic; exact within a block. */
  method AddByte(s1: nat, s2: nat, ghost s: Sums, block: seq<Byte>, i: nat) returns (t1: nat, t2: nat)
    requires s.s1 < 0x10000 && s.s2 < 0x10000 && i < |block| <= BLOCK
    requires s1 == Sum1(s, block[..i]) && s2 == Sum2(s, block[..i])
    ensures t1 == Sum1(s, block[..i + 1]) && t2 == Sum2(s, block[..i + 1])
  {
    assert block[..i + 1][..i] == block[..i];
    BlockFits(s, block[..i + 1]);
    t1 := Add32(s1, block[i]);
    t2 := Add32(s2, t1);
  }

  method AddBlock(s1: nat, s2: nat, block: seq<Byte>) returns (t1: nat, t2: nat)
    requires s1 < 0x10000 && s2 < 0x10000 && |block| <= BLOCK
    ensures t1 == Sum1(Sums(s1, s2), block) && t2 == Sum2(Sums(s1, s2), block)
  {
    ghost var s := Sums(s1, s2);
    t1, t2 := s1, s2;
    var i := 0;
    while i + 7 < |block|
      invariant 0 <= i <= |block|
      invariant t1 == Sum1(s, block[..i]) && t2 == Sum2(s, block[..i])
    {
      t1, t2 := AddByte(t1, t2, s, block, i);
      t1, t2 := AddByte(t1, t2, s, block, i + 1);
      t1, t2 := AddByte(t1, t2, s, block, i + 2);
      t1, t2 := AddByte(t1, t2, s, block, i + 3);
      t1, t2 := AddByte(t1, t2, s, block, i + 4);
      t1, t2 := AddByte(t1, t2, s, block, i + 5);
      t1, t2 := AddByte(t1, t2, s, block, i + 6);
      t1, t2 := AddByte(t1, t2, s, block, i + 7);
      i := i + 8;
    }
    while i < |block|
      invariant 0 <= i <= |block|
      invariant t1 == Sum1(s, block[..i]) && t2 == Sum2(s, block[..i])
    {
      t1, t2 := AddByte(t1, t2, s, block, i);
      i := i + 1;
    }
    assert block[..|block|] == block;
  }

  /** The checksum of a buffer, continuing from any 32-bit checksum. */
  method Compute(adler: nat, buf: Buffer) returns (r: nat)
    requires adler < 0x1_0000_0000
    ensures buf.Null? ==> r == 1
    ensures buf.Data? ==> r == Checksum(adler, buf.bytes)
  {
    hide Running;
    hide Sum1;
    hide Sum2;
    if buf.Null? {
      return 1;
    }
    var data := buf.bytes;
    var s1: nat, s2: nat := adler % 0x10000, adler / 0x10000;
    var pos, blockLen := 0, |data| % BLOCK;
    ghost var s, more := Unpack(adler), |data| / BLOCK;
    assert data[0..] == data;
    while pos < |data|
      invariant 0 <= pos <= |data| == pos + blockLen + BLOCK * more && more >= -1
      invariant blockLen == BLOCK || (pos == 0 && blockLen < BLOCK)
      invariant s1 < 0x10000 && s2 < 0x10000
      invariant Running(Sums(s1, s2), data[pos..]) == Running(s, data)
      decreases |data| - pos, BLOCK - blockLen
    {
      var block := data[pos..pos + blockLen];
      ghost var before := Sums(s1, s2);
      var t1, t2 := AddBlock(s1, s2, block);
      s1, s2 := t1 % BASE, t2 % BASE;
      assert data[pos..] == block + data[pos + blockLen..];
      NextBlock(before, block, data[pos + blockLen..]);
      pos := pos + blockLen;
      blockLen := BLOCK;
      more := more - 1;
    }
    RunningNone(Sums(s1, s2), data[pos..]);
    r := Add32((s2 * 0x10000) % 0x1_0000_0000, s1);
  }

  lemma RunningNone(s: Sums, data: seq<Byte>)
    requires data == []
    ensures Running(s, data) == s
  {
  }

  /** Reducing the sums early does not change the checksum of what follows. */
  lemma {:induction false} StartReduced(s: Sums, data: seq<Byte>)
    requires data != []
    ensures Running(Sums(s.s1 % BASE, s.s2 % BASE), data) == Running(s, data)
  {
    var n := |data| - 1;
    if n > 0 {
      StartReduced(s, data[..n]);
    } else {
      assert data[..0] == [];
      StepReduced(s.s1, s.s2, data[0]);
    }
  }

  lemma NextBlock(before: Sums, block: seq<Byte>, rest: seq<Byte>)
    requires block != [] || rest != []
    ensures Running(Sums(Sum1(before, block) % BASE, Sum2(before, block) % BASE), rest) ==
            Running(before, block + rest)
  {
    RunningConcat(before, block, rest);
    if block == [] {
      StartReduced(before, rest);
    } else {
      DeferredModulo(before, block);
    }
  }
}
