/** Reading a block of any kind into an output buffer that ends at `end`. */
module BlockReader {
  import opened Bits
  import opened BitStream
  import opened BlockDecoder
  import opened CanonicalCode
  import opened Common
  import opened DynamicBlock
  import opened DynamicHeader
  import opened InflateTable
  import opened InflateTrie
  import opened LzDecoder
  import opened LzExpand
  import opened LzInflate
  import opened StaticCode

  /** Reads whether the block is the last one, and its type. */
  method GetKind(r: BitReader) returns (ok: bool, last: bool, kind: nat)
    requires r.Valid()
    modifies r
    ensures r.Valid() && ok == (3 <= |old(r.rest)|) && |r.rest| <= |old(r.rest)|
    ensures ok ==> kind < 4 && last == old(r.rest)[0] && kind == KindOf(old(r.rest)) && r.rest == old(r.rest)[3..]
  {
    hide Buffered;
    last, kind := false, 0;
    ghost var rest := r.rest;
    if |rest| >= 3 {
      assert Pow2(3) == 8;
      LsbBound(rest[..3]);
      assert rest[..3][1..] == rest[1..3];
    }
    var v;
    ok, v := r.GetBits(3);
    if ok {
      last, kind := v % 2 == 1, v / 2;
    }
  }

  // ----- stored blocks

  /** The next byte of the input, from the bit buffer or past it; `data` are the bytes ahead. */
  method GetByte(r: BitReader, ghost data: seq<nat>) returns (ok: bool, v: nat)
    requires r.Valid() && r.numBits % BYTE == 0 && AllBytes(data) && r.rest == BytesBits(data)
    modifies r
    ensures r.Valid() && r.numBits % BYTE == 0 && ok == (data != []) && (old(r.numBits) > 0 ==> ok)
    ensures ok ==> v == data[0] && r.rest == BytesBits(data[1..])
    ensures !ok ==> r.rest == old(r.rest)
  {
    hide Low;
    hide BytesBits;
    v := 0;
    BytesSize(data);
    BufferedSize(r.input, r.pos, r.bitBuf, r.numBits, r.rest);
    hide Buffered;
    if data != [] {
      BytesFirst(data);
      ByteFits(data[0]);
      ReadLow(data[0], BYTE, BytesBits(data[1..]));
    }
    if r.numBits == 0 {
      ok := r.NeedByte();
      if !ok {
        return;
      }
    }
    ok, v := r.GetBits(8);
  }

  lemma BufferedSize(input: seq<nat>, pos: nat, bitBuf: nat, numBits: nat, rest: Path)
    requires Buffered(input, pos, bitBuf, numBits, rest)
    ensures pos <= |input| && |rest| == numBits + 8 * (|input| - pos)
  {
    RestSize(bitBuf, numBits, input[pos..]);
  }

  /** At a whole byte, the bits ahead are those of the last bytes of the input. */
  lemma WholeRest(input: seq<nat>, pos: nat, bitBuf: nat, numBits: nat, rest: Path) returns (data: seq<nat>)
    requires Buffered(input, pos, bitBuf, numBits, rest) && |rest| % BYTE == 0
    ensures AllBytes(data) && rest == BytesBits(data)
  {
    hide BytesBits;
    hide Ahead;
    BytesSize(input);
    var k := |input| - |rest| / 8;
    data := input[k..];
    BytesEnd(input, k);
    BytesSize(data);
    SameEnd(rest, BytesBits(data), BytesBits(input));
  }

  /** Reads the four bytes of the length and its complement. */
  method GetRawHeader(r: BitReader, ghost data: seq<nat>) returns (ok: bool, len: nat)
    requires r.Valid() && r.numBits % BYTE == 0 && AllBytes(data) && r.rest == BytesBits(data)
    modifies r
    ensures r.Valid() && r.numBits % BYTE == 0 && |r.rest| <= |old(r.rest)| && ok == GoodLength(data)
    ensures ok ==> len == Word(data, 0) && r.rest == BytesBits(data[4..])
  {
    hide Buffered;
    hide BytesBits;
    len := 0;
    BytesSize(data);
    var b0, b1, b2, b3;
    ok, b0 := GetByte(r, data);
    if !ok {
      return;
    }
    BytesSize(data[1..]);
    ok, b1 := GetByte(r, data[1..]);
    if !ok {
      return;
    }
    assert data[1..][1..] == data[2..];
    BytesSize(data[2..]);
    ok, b2 := GetByte(r, data[2..]);
    if !ok {
      return;
    }
    assert data[2..][1..] == data[3..];
    BytesSize(data[3..]);
    ok, b3 := GetByte(r, data[3..]);
    if !ok {
      return;
    }
    assert data[3..][1..] == data[4..];
    BytesSize(data[4..]);
    len := b0 + 256 * b1;
    ok := len == 0xFFFF - (b2 + 256 * b3);
  }

  /** Bytes still in the bit buffer are taken from it. */
  method CopyBuffered(r: BitReader, out: array<nat>, end: nat, from: nat, n: nat, ghost data: seq<nat>)
    returns (stop: bool, cur: nat, left: nat)
    requires r.Valid() && r.numBits % BYTE == 0 && from <= out.Length && end <= out.Length
    requires AllBytes(data) && r.rest == BytesBits(data)
    modifies r, out
    ensures r.Valid() && |r.rest| <= |old(r.rest)|
    ensures left <= n && cur == from + (n - left) && (cur <= end || cur == from) && n - left <= |data|
    ensures out[..cur] == old(out[..from]) + data[..n - left]
    ensures if stop then left > 0 && cur >= end else r.rest == BytesBits(data[n - left..]) && (left == 0 || r.numBits == 0)
    ensures forall k :: cur <= k < out.Length ==> out[k] == old(out[k])
  {
    hide Buffered;
    hide BytesBits;
    stop, cur, left := false, from, n;
    assert data[0..] == data && data[..0] == [];
    BytesSize(data);
    while left > 0 && r.numBits > 0
      invariant r.Valid() && r.numBits % BYTE == 0 && |r.rest| <= |old(r.rest)|
      invariant left <= n && n - left <= |data| && cur == from + (n - left) && (cur <= end || cur == from)
      invariant r.rest == BytesBits(data[n - left..]) && out[..cur] == old(out[..from]) + data[..n - left]
      invariant forall k :: cur <= k < out.Length ==> out[k] == old(out[k])
    {
      ghost var i := n - left;
      BytesSize(data[i..]);
      var ok, v := GetByte(r, data[i..]);
      assert data[i..][1..] == data[i + 1..] && data[i..][0] == data[i];
      BytesSize(data[i + 1..]);
      if cur >= end {
        return true, cur, left;
      }
      ghost var s := out[..cur];
      out[cur] := v;
      assert out[..cur + 1] == s + [v];
      assert data[..i + 1] == data[..i] + [data[i]];
      cur, left := cur + 1, left - 1;
    }
  }

  /** Copies as many bytes as are there, have room and are wanted. */
  method MovePiece(r: BitReader, out: array<nat>, end: nat, cur: nat, wanted: nat) returns (m: nat)
    requires r.Valid() && r.numBits == 0 && wanted > 0 && cur < end <= out.Length && r.pos < |r.input|
    modifies r, out
    ensures r.Valid() && r.numBits == 0 && |r.rest| <= |old(r.rest)|
    ensures 0 < m <= wanted && cur + m <= end && r.pos == old(r.pos) + m <= |r.input|
    ensures out[..cur + m] == old(out[..cur]) + r.input[old(r.pos)..r.pos]
    ensures forall k :: cur + m <= k < out.Length ==> out[k] == old(out[k])
  {
    hide Buffered;
    m := if end - cur < |r.input| - r.pos then end - cur else |r.input| - r.pos;
    m := if m < wanted then m else wanted;
    MoveBytes(out, cur, r.input, r.pos, m);
    r.Advance(m);
  }

  /** Copies bytes from the input, in as large pieces as there are. */
  method MoveInput(r: BitReader, out: array<nat>, end: nat, from: nat, n: nat) returns (status: Status, cur: nat)
    requires r.Valid() && r.numBits == 0 && n > 0 && from <= out.Length && end <= out.Length && r.pos <= |r.input|
    modifies r, out
    ensures r.Valid() && r.numBits == 0 && |r.rest| <= |old(r.rest)|
    ensures old(r.pos) <= r.pos <= |r.input| && cur == from + (r.pos - old(r.pos)) && (cur <= end || cur == from)
    ensures cur <= out.Length && out[..cur] == old(out[..from]) + r.input[old(r.pos)..r.pos]
    ensures forall k :: cur <= k < out.Length ==> out[k] == old(out[k])
    ensures r.pos - old(r.pos) <= n && (status == BlockDone <==> r.pos - old(r.pos) == n)
    ensures status == HasMoreOutput <==> r.pos - old(r.pos) < n && cur >= end
    ensures status == Failed <==> r.pos - old(r.pos) < n && cur < end
    ensures status == Failed ==> r.pos == |r.input|
  {
    hide Buffered;
    ghost var in0, s0, input := r.pos, out[..from], r.input;
    var counter := n;
    status, cur := BlockDone, from;
    assert input[in0..in0] == [] && s0 + [] == s0;
    while counter > 0
      invariant r.Valid() && |r.rest| <= |old(r.rest)|
      invariant 0 <= counter <= n && r.numBits == 0 && r.pos == in0 + (n - counter) <= |r.input|
      invariant cur == from + (n - counter) && (cur <= end || cur == from)
      invariant out[..cur] == s0 + input[in0..r.pos]
      invariant forall k :: cur <= k < out.Length ==> out[k] == old(out[k])
    {
      if cur >= end {
        return HasMoreOutput, cur;
      }
      if r.pos >= |r.input| {
        return Failed, cur;
      }
      var m := MovePiece(r, out, end, cur, counter);
      SliceJoin(s0, input, in0, r.pos - m, r.pos);
      cur, counter := cur + m, counter - m;
    }
  }

  /** The other bytes of a stored block are copied from the input. */
  method CopyInput(r: BitReader, out: array<nat>, end: nat, from: nat, n: nat, ghost data: seq<nat>)
    returns (status: Status, cur: nat)
    requires r.Valid() && (n > 0 ==> r.numBits == 0) && from <= out.Length && end <= out.Length
    requires AllBytes(data) && r.rest == BytesBits(data)
    modifies r, out
    ensures r.Valid() && |r.rest| <= |old(r.rest)| && from <= cur <= from + n && cur <= out.Length
    ensures cur - from <= |data| && out[..cur] == old(out[..from]) + data[..cur - from] && (cur <= end || cur == from)
    ensures status == if cur - from == n then BlockDone else if cur >= end then HasMoreOutput else Failed
    ensures status == BlockDone ==> r.rest == BytesBits(data[n..])
    ensures status == Failed ==> cur - from == |data|
    ensures forall k :: cur <= k < out.Length ==> out[k] == old(out[k])
  {
    hide BytesBits;
    hide Buffered;
    if n == 0 {
      assert data[0..] == data && data[..0] == [];
      return BlockDone, from;
    }
    BufferedFacts(r.input, r.pos, r.bitBuf, r.numBits, r.rest);
    BufferedBytes(r.input, r.pos, r.bitBuf, r.numBits, r.rest);
    BufferEmpty(r.input, r.pos, r.bitBuf, r.rest);
    ghost var pos := r.pos;
    BytesOnce(data, r.input[pos..]);
    status, cur := MoveInput(r, out, end, from, n);
    BufferEmpty(r.input, r.pos, r.bitBuf, r.rest);
    assert r.input[pos..][..r.pos - pos] == r.input[pos..r.pos] && r.input[pos..][r.pos - pos..] == r.input[r.pos..];
  }

  lemma SliceJoin(s: seq<nat>, input: seq<nat>, a: nat, b: nat, c: nat)
    requires a <= b <= c <= |input|
    ensures s + input[a..b] + input[b..c] == s + input[a..c]
  {
    assert input[a..b] + input[b..c] == input[a..c];
  }

  method MoveBytes(out: array<nat>, cur: nat, input: seq<nat>, pos: nat, m: nat)
    requires cur + m <= out.Length && pos + m <= |input|
    modifies out
    ensures out[..cur + m] == old(out[..cur]) + input[pos..pos + m]
    ensures forall k :: cur + m <= k < out.Length ==> out[k] == old(out[k])
  {
    for j := 0 to m
      invariant out[..cur + j] == old(out[..cur]) + input[pos..pos + j]
      invariant forall k :: cur + j <= k < out.Length ==> out[k] == old(out[k])
    {
      ghost var s := out[..cur + j];
      out[cur + j] := input[pos + j];
      assert out[..cur + j + 1] == s + [input[pos + j]];
      assert input[pos..pos + j + 1] == input[pos..pos + j] + [input[pos + j]];
    }
  }

  /** Copies the bytes of a stored block, whose length and complement have been read. */
  method CopyStored(r: BitReader, out: array<nat>, end: nat, from: nat, n: nat, ghost data: seq<nat>)
    returns (status: Status, cur: nat)
    requires r.Valid() && r.numBits % BYTE == 0 && from <= out.Length && end <= out.Length
    requires AllBytes(data) && GoodLength(data) && n == Word(data, 0) && r.rest == BytesBits(data[4..])
    modifies r, out
    ensures r.Valid() && |r.rest| <= |old(r.rest)| && from <= cur <= out.Length && (cur <= end || cur == from)
    ensures StoredPlays(data, old(out[..from]), end, status, r.rest, out[..cur])
    ensures forall k :: cur <= k < out.Length ==> out[k] == old(out[k])
  {
    hide BytesBits;
    hide Buffered;
    hide Word;
    hide StoredPlays;
    ghost var base, body := out[..from], data[4..];
    var stop, left;
    stop, cur, left := CopyBuffered(r, out, end, from, n, body);
    ghost var k := n - left;
    if stop {
      status := HasMoreOutput;
      StoredCopied(data, base, end, k, status, r.rest, out[..cur]);
      return;
    }
    status, cur := CopyInput(r, out, end, cur, left, body[k..]);
    StoredJoin(base, body, k, cur - from);
    StoredCopied(data, base, end, cur - from, status, r.rest, out[..cur]);
  }

  /** Reads a stored block behind the `from` bytes already in the buffer. */
  method ReadStored(r: BitReader, out: array<nat>, end: nat, from: nat) returns (status: Status, cur: nat)
    requires r.Valid() && from <= out.Length && end <= out.Length
    modifies r, out
    ensures r.Valid() && |r.rest| <= |old(r.rest)| && from <= cur <= out.Length && (cur <= end || cur == from)
    ensures StoredReads(old(r.rest), old(out[..from]), end, status, r.rest, out[..cur])
    ensures forall k :: cur <= k < out.Length ==> out[k] == old(out[k])
  {
    hide BytesBits;
    hide Buffered;
    hide GoodLength;
    hide StoredPlays;
    status, cur := Failed, from;
    ghost var whole := r.SkipToByte();
    ghost var data := WholeRest(r.input, r.pos, r.bitBuf, r.numBits, r.rest);
    var ok, n := GetRawHeader(r, data);
    if !ok {
      StoredRefused(data, out[..from], end, r.rest);
      return;
    }
    status, cur := CopyStored(r, out, end, from, n, data);
  }

  lemma StoredRefused(data: seq<nat>, out: seq<nat>, end: nat, rest: Path)
    requires !GoodLength(data)
    ensures StoredPlays(data, out, end, Failed, rest, out)
  {
  }

  lemma StoredJoin(base: seq<nat>, body: seq<nat>, k: nat, m: nat)
    requires k <= m <= |body|
    ensures base + body[..k] + body[k..][..m - k] == base + body[..m]
    ensures forall i :: 0 <= i <= |body| - k ==> body[k..][i..] == body[k + i..]
  {
    assert body[..k] + body[k..][..m - k] == body[..m];
  }

  /** Bytes copied until all are there, none is left or the buffer is full. */
  lemma StoredCopied(data: seq<nat>, out: seq<nat>, end: nat, k: nat, status: Status, rest: Path, out': seq<nat>)
    requires GoodLength(data) && k <= |data| - 4 && k <= Word(data, 0) && out' == out + data[4..][..k]
    requires |out'| <= end || out' == out
    requires status == if k == Word(data, 0) then BlockDone else if |out'| >= end then HasMoreOutput else Failed
    requires status == Failed ==> k == |data| - 4
    requires status == BlockDone ==> rest == BytesBits(data[4..][k..])
    ensures StoredPlays(data, out, end, status, rest, out')
  {
    hide BytesBits;
    assert data[4..][..k] == data[4..4 + k] && data[4..][k..] == data[4 + k..];
  }

  // ----- blocks of all kinds

  /** The tables of a decompressor. */
  class Inflater {
    const lit: HuffTable
    const dist: HuffTable
    const len: HuffTable
    const lenCodes: array<nat>

    ghost predicate Shape()
    {
      && lit.Sized() && dist.Sized() && len.Sized() && lenCodes.Length == 457
      && lit != dist && lit != len && dist != len
      && lit.lookUp !in {dist.lookUp, dist.tree, len.lookUp, len.tree}
      && lit.tree !in {dist.lookUp, dist.tree, len.lookUp, len.tree}
      && dist.lookUp !in {len.lookUp, len.tree} && dist.tree !in {len.lookUp, len.tree}
      && lenCodes as object !in {lit.lookUp, lit.tree, dist.lookUp, dist.tree, len.lookUp, len.tree}
    }

    ghost function Parts(): set<object>
    {
      {lit, lit.lookUp, lit.tree, dist, dist.lookUp, dist.tree, len, len.lookUp, len.tree, lenCodes}
    }

    constructor ()
      ensures Shape() && fresh(Parts())
    {
      lit := new HuffTable();
      dist := new HuffTable();
      len := new HuffTable();
      lenCodes := new nat[457];
    }

    method BuildTables(litLens: seq<nat>, distLens: seq<nat>) returns (ok: bool)
      requires Shape() && Lengths(litLens) && Lengths(distLens) && |litLens| <= 288 && |distLens| <= 32
      modifies Parts() - {len, len.lookUp, len.tree, lenCodes}
      ensures ok == (Accepted(litLens) && Accepted(distLens))
      ensures ok ==> lit.Valid() && lit.lens == litLens && dist.Valid() && dist.lens == distLens
    {
      hide Complete;
      hide Built;
      ok := dist.Build(distLens);
      if ok {
        ok := lit.Build(litLens);
      }
    }

    /** Reads the code lengths of a block, the fixed ones or those in its header, and builds the tables. */
    method ReadTables(r: BitReader, kind: nat) returns (ok: bool)
      requires Shape() && r.Valid() && 1 <= kind <= 2
      modifies Parts(), r
      ensures r.Valid() && |r.rest| <= |old(r.rest)|
      ensures ok ==> lit.Valid() && dist.Valid() && |lit.lens| <= 288 && |dist.lens| <= 32
      ensures TablesOf(kind, old(r.rest)) == if ok then Some(Tables(lit.lens, dist.lens, r.rest)) else None
    {
      hide Buffered;
      hide Built;
      hide Accepted;
      hide HeaderOf;
      if kind == 1 {
        var litLens, distLens := StaticSizes();
        StaticAccepted();
        ok := BuildTables(litLens, distLens);
        return;
      }
      var numLit, numDist;
      ok, numLit, numDist := ReadHeader(len, r, lenCodes);
      if !ok {
        return;
      }
      var litLens, distLens := lenCodes[..numLit], lenCodes[numLit..numLit + numDist];
      LengthsSplit(lenCodes[..numLit + numDist], numLit);
      assert lenCodes[..numLit + numDist][..numLit] == litLens && lenCodes[..numLit + numDist][numLit..] == distLens;
      ok := BuildTables(litLens, distLens);
    }

    /** Decodes a block behind the `from` bytes already in the buffer. */
    method ReadBlock(r: BitReader, out: array<nat>, end: nat, from: nat)
      returns (status: Status, last: bool, cur: nat, ghost t: Trace)
      requires Shape() && r.Valid() && from <= end + 3 <= out.Length && out !in Parts()
      modifies Parts(), r, out
      ensures r.Valid() && from <= cur <= end + 3 && (status == BlockDone ==> |r.rest| < |old(r.rest)|)
      ensures BlockReads(old(r.rest), old(out[..from]), end, t, status, last, r.rest, out[..cur])
      ensures forall k :: end + 3 <= k < out.Length ==> out[k] == old(out[k])
    {
      hide Buffered;
      hide Built;
      hide StoredReads;
      hide TablesOf;
      hide KindOf;
      hide Run;
      hide Follows;
      status, cur, t := Failed, from, Trace([], []);
      var ok, kind;
      ok, last, kind := GetKind(r);
      if !ok {
        return;
      }
      if kind == 0 {
        status, cur := ReadStored(r, out, end, from);
        return;
      }
      if kind == 3 {
        NoTables(r.rest);
        return;
      }
      ok := ReadTables(r, kind);
      if !ok {
        return;
      }
      status, cur, t := GetBody(lit, dist, r, out, end, from);
    }
  }

  lemma NoTables(rest: Path)
    ensures TablesOf(3, rest) == None
  {
  }

  lemma LengthsSplit(lens: seq<nat>, n: nat)
    requires Lengths(lens) && n <= |lens|
    ensures Lengths(lens[..n]) && Lengths(lens[n..])
  {
  }
}
