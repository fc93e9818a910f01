/** The compressor's bit writer and the decompressor's bit reader.  Both keep the first bit of the
    stream lowest. */
module BitStream {
  import opened Bits
  import opened Common

  const BYTE: nat := 8

  /** The bits of a sequence of bytes. */
  function BytesBits(bytes: seq<nat>): Path
  {
    if bytes == [] then [] else BytesBits(bytes[..|bytes| - 1]) + Low(bytes[|bytes| - 1], BYTE)
  }

  ghost predicate AllBytes(input: seq<nat>)
  {
    forall i :: 0 <= i < |input| ==> input[i] < 256
  }

  lemma {:induction false} BytesSize(input: seq<nat>)
    ensures |BytesBits(input)| == 8 * |input|
  {
    if input != [] {
      BytesSize(input[..|input| - 1]);
    }
  }

  lemma {:induction false} LowConcat(x: nat, m: nat, y: nat, n: nat)
    requires x < Pow2(m)
    ensures Low(x + Shl(y, m), m + n) == Low(x, m) + Low(y, n)
  {
    var z := x + Shl(y, m);
    var q := Low(z, m + n);
    LowTake(z, m, m + n);
    LowDrop(z, m, m + n);
    MaskShrUnique(x, y, m);
    LsbLow(z, m);
    LsbLow(x, m);
    ShlZero(m);
    MaskShrUnique(x, 0, m);
    LsbInjective(Low(z, m), Low(x, m));
    assert q == q[..m] + q[m..];
  }

  lemma LowMask(x: nat, n: nat)
    ensures Low(Mask(x, n), n) == Low(x, n)
  {
    LsbLow(x, n);
    LowLsb(Low(x, n));
  }

  lemma {:induction false} MaskSmall(x: nat, n: nat)
    requires x < Pow2(n)
    ensures Mask(x, n) == x
  {
    if n > 0 {
      MaskSmall(x / 2, n - 1);
    }
  }

  /** The room in the compressor's output buffer. */
  const OUT_LIMIT: nat := 85180

  /** `written` bits left whole bytes in the output, which drops what does not fit, and the rest in the
      bit buffer. */
  ghost predicate Holds(output: seq<nat>, bitBuffer: nat, bitsIn: nat, written: Path)
  {
    && bitBuffer < Pow2(bitsIn) && AllBytes(output)
    && 8 * |output| + bitsIn <= |written|
    && (|output| < OUT_LIMIT || |written| <= 8 * OUT_LIMIT + bitsIn ==> written == BytesBits(output) + Low(bitBuffer, bitsIn))
  }

  class BitWriter {
    var output: seq<nat>
    var bitBuffer: nat
    var bitsIn: nat
    ghost var written: Path

    ghost predicate Valid()
      reads this
    {
      bitsIn < BYTE && Holds(output, bitBuffer, bitsIn, written)
    }

    constructor ()
      ensures Valid() && written == [] && output == []
    {
      output, bitBuffer, bitsIn, written := [], 0, 0, [];
    }

    /** Appends `len` bits.  The buffer is 32 bits wide. */
    method Put(bits: nat, len: nat)
      requires Valid() && bits < Pow2(len) && len <= 16
      modifies this
      ensures Valid() && written == old(written) + Low(bits, len)
      ensures bitsIn == (old(bitsIn) + len) % BYTE
      ensures old(output) <= output
    {
      hide Holds;
      hide Low;
      hide Shl;
      hide Shr;
      hide Mask;
      PutHolds(output, bitBuffer, bitsIn, written, bits, len);
      bitBuffer := Wrap32(bitBuffer + Shl(bits, bitsIn));
      bitsIn := bitsIn + len;
      written := written + Low(bits, len);
      while bitsIn >= BYTE
        invariant Holds(output, bitBuffer, bitsIn, written) && old(output) <= output
        invariant written == old(written) + Low(bits, len)
        invariant bitsIn % BYTE == (old(bitsIn) + len) % BYTE
      {
        ByteOut(output, bitBuffer, bitsIn, written);
        if |output| < OUT_LIMIT {
          output := output + [Mask(bitBuffer, BYTE)];
        }
        bitBuffer := Shr(bitBuffer, BYTE);
        bitsIn := bitsIn - BYTE;
      }
    }

    /** Whether everything written so far is in the output. */
    method Fits() returns (ok: bool)
      requires Valid()
      ensures ok == (|written| < 8 * OUT_LIMIT)
      ensures ok ==> |output| < OUT_LIMIT && written == BytesBits(output) + Low(bitBuffer, bitsIn)
    {
      ok := |output| < OUT_LIMIT;
      if ok {
        BytesSize(output);
      }
    }

    /** Goes back to an earlier state. */
    method Restore(saved: seq<nat>, buffer: nat, n: nat, ghost before: Path)
      requires n < BYTE && Holds(saved, buffer, n, before)
      modifies this
      ensures Valid() && output == saved && bitBuffer == buffer && bitsIn == n && written == before
    {
      output, bitBuffer, bitsIn, written := saved, buffer, n, before;
    }

    /** Pads to a whole byte with zero bits. */
    method Align() returns (ghost pad: nat)
      requires Valid()
      modifies this
      ensures Valid() && bitsIn == 0 && pad < BYTE && (old(bitsIn) + pad) % BYTE == 0
      ensures written == old(written) + Low(0, pad) && old(output) <= output
      ensures |old(written)| < 8 * OUT_LIMIT ==> |written| <= 8 * OUT_LIMIT
    {
      PendingSize(output, bitBuffer, bitsIn, written);
      pad := 0;
      if bitsIn > 0 {
        Pow2Positive(8 - bitsIn);
        pad := 8 - bitsIn;
        Put(0, 8 - bitsIn);
      } else {
        assert written == written + Low(0, 0);
      }
    }

    /** Hands the output on and starts an empty one. */
    method Drain() returns (bytes: seq<nat>)
      requires Valid() && |written| <= 8 * OUT_LIMIT
      modifies this
      ensures Valid() && bytes == old(output) && output == [] && AllBytes(bytes) && bitsIn == old(bitsIn)
      ensures old(written) == BytesBits(bytes) + written && |written| == bitsIn
    {
      bytes := output;
      output, written := [], Low(bitBuffer, bitsIn);
    }
  }

  lemma ByteMask(x: nat)
    ensures Mask(x, BYTE) < 256
  {
    MaskShr(x, BYTE);
    assert Pow2(8) == 256;
  }

  lemma PendingSize(output: seq<nat>, x: nat, n: nat, written: Path)
    requires Holds(output, x, n, written)
    ensures |written| < 8 * OUT_LIMIT ==> |written| == 8 * |output| + n
  {
    BytesSize(output);
  }

  lemma PutFits(x: nat, m: nat, y: nat, n: nat)
    requires x < Pow2(m) && y < Pow2(n)
    ensures x + Shl(y, m) < Pow2(m + n)
  {
    ShlStep(y, Pow2(n), m);
    ShlShl(1, n, m);
  }

  /** More bits fit above those pending, without overflow of 32 bits. */
  lemma PutHolds(output: seq<nat>, x: nat, n: nat, written: Path, bits: nat, len: nat)
    requires Holds(output, x, n, written) && n < BYTE && bits < Pow2(len) && len <= 16
    ensures Wrap32(x + Shl(bits, n)) == x + Shl(bits, n)
    ensures Holds(output, x + Shl(bits, n), n + len, written + Low(bits, len))
  {
    hide Holds;
    hide Low;
    hide Shl;
    PutMore(output, x, n, written, bits, len);
    Pow2Mono(n + len, 32);
    Words();
    WrapSmall(x + Shl(bits, n));
  }

  lemma ByteShift(n: nat)
    ensures Pow2(n + 8) == 256 * Pow2(n)
  {
    ShlShl(1, n, 8);
    Shl8(Pow2(n));
  }

  lemma Shl8(x: nat)
    ensures Shl(x, 8) == 256 * x
  {
    ShlShl(x, 4, 4);
    Shl4(x);
    Shl4(16 * x);
  }

  lemma Shl4(x: nat)
    ensures Shl(x, 4) == 16 * x
  {
    assert Shl(x, 1) == 2 * Shl(x, 0);
    assert Shl(x, 2) == 2 * Shl(x, 1);
    assert Shl(x, 3) == 2 * Shl(x, 2);
  }

  lemma Words()
    ensures Pow2(32) == TWO32 && Pow2(64) == TWO64
  {
    assert Pow2(8) == 256;
    hide Pow2;
    hide Shl;
    ByteShift(8);
    ByteShift(16);
    ByteShift(24);
    ByteShift(32);
    ByteShift(40);
    ByteShift(48);
    ByteShift(56);
  }

  lemma PutMore(output: seq<nat>, x: nat, n: nat, written: Path, bits: nat, len: nat)
    requires Holds(output, x, n, written) && bits < Pow2(len)
    ensures x + Shl(bits, n) < Pow2(n + len)
    ensures Holds(output, x + Shl(bits, n), n + len, written + Low(bits, len))
  {
    hide Low;
    hide BytesBits;
    PutFits(x, n, bits, len);
    LowConcat(x, n, bits, len);
    assert BytesBits(output) + (Low(x, n) + Low(bits, len)) == BytesBits(output) + Low(x, n) + Low(bits, len);
  }

  lemma ByteMoves(output: seq<nat>, x: nat, n: nat)
    requires x < Pow2(n) && n >= BYTE
    ensures BytesBits(output + [Mask(x, BYTE)]) + Low(Shr(x, BYTE), n - BYTE) == BytesBits(output) + Low(x, n)
    ensures Shr(x, BYTE) < Pow2(n - BYTE) && Mask(x, BYTE) < 256
  {
    hide Low;
    hide Mask;
    hide Shr;
    ShrFits(x, BYTE, n);
    ByteMask(x);
    LowMask(x, BYTE);
    LowTake(x, BYTE, n);
    LowDrop(x, BYTE, n);
    BytesAdd(output, Mask(x, BYTE));
    var q := Low(x, n);
    assert q == q[..BYTE] + q[BYTE..];
    assert BytesBits(output) + (q[..BYTE] + q[BYTE..]) == BytesBits(output) + q[..BYTE] + q[BYTE..];
  }

  /** The lowest byte moves from the bit buffer to the output, if it has room. */
  lemma ByteOut(output: seq<nat>, x: nat, n: nat, written: Path)
    requires Holds(output, x, n, written) && n >= BYTE
    ensures Holds(if |output| < OUT_LIMIT then output + [Mask(x, BYTE)] else output, Shr(x, BYTE), n - BYTE, written)
  {
    hide Low;
    hide Mask;
    hide Shr;
    hide BytesBits;
    ByteMoves(output, x, n);
  }

  lemma BytesAdd(output: seq<nat>, b: nat)
    ensures BytesBits(output + [b]) == BytesBits(output) + Low(b, BYTE)
  {
    hide Low;
    assert (output + [b])[..|output|] == output;
  }

  // ----- reading

  lemma {:induction false} BytesFirst(input: seq<nat>)
    requires input != []
    ensures BytesBits(input) == Low(input[0], BYTE) + BytesBits(input[1..])
    decreases |input|
  {
    hide Low;
    var n := |input| - 1;
    if n == 0 {
      assert input[..0] == [] && input[1..] == [];
      assert BytesBits(input) == BytesBits(input[..0]) + Low(input[0], BYTE);
    } else {
      var front, last := input[..n], input[n];
      BytesFirst(front);
      assert front[1..] == input[1..][..n - 1];
      assert BytesBits(input[1..]) == BytesBits(front[1..]) + Low(last, BYTE);
      assert Low(input[0], BYTE) + BytesBits(front[1..]) + Low(last, BYTE)
          == Low(input[0], BYTE) + (BytesBits(front[1..]) + Low(last, BYTE));
    }
  }

  lemma ByteFits(c: nat)
    requires c < 256
    ensures c < Pow2(BYTE)
  {
    assert Pow2(8) == 256;
  }

  /** The bits buffered so far and the bytes behind them. */
  ghost function Ahead(buf: nat, n: nat, input: seq<nat>): Path
  {
    Low(buf, n) + BytesBits(input)
  }

  lemma AheadByte(buf: nat, n: nat, input: seq<nat>)
    requires buf < Pow2(n) && input != [] && input[0] < 256
    ensures Ahead(buf + Shl(input[0], n), n + BYTE, input[1..]) == Ahead(buf, n, input)
    ensures buf + Shl(input[0], n) < Pow2(n + BYTE)
  {
    hide Low;
    hide BytesBits;
    ByteFits(input[0]);
    PutFits(buf, n, input[0], BYTE);
    LowConcat(buf, n, input[0], BYTE);
    BytesFirst(input);
    assert Low(buf, n) + Low(input[0], BYTE) + BytesBits(input[1..])
        == Low(buf, n) + (Low(input[0], BYTE) + BytesBits(input[1..]));
  }

  /** Four bytes at once are four bytes one after the other. */
  lemma AheadWord(buf: nat, n: nat, input: seq<nat>)
    requires buf < Pow2(n) && |input| >= 4 && AllBytes(input)
    ensures var x := buf + Shl(input[0] + 0x100 * input[1] + 0x1_0000 * input[2] + 0x100_0000 * input[3], n);
            Ahead(x, n + 32, input[4..]) == Ahead(buf, n, input) && x < Pow2(n + 32)
  {
    hide Low;
    hide BytesBits;
    hide Ahead;
    hide Pow2;
    hide Shl;
    var a := buf + Shl(input[0], n);
    var b := a + Shl(input[1], n + 8);
    var c := b + Shl(input[2], n + 16);
    AheadByte(buf, n, input);
    AheadByte(a, n + 8, input[1..]);
    assert input[1..][1..] == input[2..] && input[2..][1..] == input[3..] && input[3..][1..] == input[4..];
    AheadByte(b, n + 16, input[2..]);
    AheadByte(c, n + 24, input[3..]);
    WordShift(input[0], input[1], input[2], input[3], n);
  }

  lemma WordShift(a: nat, b: nat, c: nat, d: nat, n: nat)
    ensures Shl(a + 0x100 * b + 0x1_0000 * c + 0x100_0000 * d, n)
            == Shl(a, n) + Shl(b, n + 8) + Shl(c, n + 16) + Shl(d, n + 24)
  {
    hide Shl;
    ShlByte(b, n);
    ShlByte(c, n + 8);
    ShlByte(0x100 * c, n);
    ShlByte(d, n + 16);
    ShlByte(0x100 * d, n + 8);
    ShlByte(0x1_0000 * d, n);
    ShlAdd(a + 0x100 * b + 0x1_0000 * c, 0x100_0000 * d, n);
    ShlAdd(a + 0x100 * b, 0x1_0000 * c, n);
    ShlAdd(a, 0x100 * b, n);
  }

  lemma ShlByte(x: nat, n: nat)
    ensures Shl(x, n + 8) == Shl(0x100 * x, n)
  {
    hide Shl;
    ShlShl(x, 8, n);
    Shl8(x);
  }

  lemma AheadTake(buf: nat, n: nat, input: seq<nat>, k: nat)
    requires buf < Pow2(n) && k <= n
    ensures Shr(buf, k) < Pow2(n - k)
    ensures var rest := Ahead(buf, n, input);
            k <= |rest| && Mask(buf, k) == Lsb(rest[..k]) && Ahead(Shr(buf, k), n - k, input) == rest[k..]
  {
    hide Low;
    hide BytesBits;
    ShrFits(buf, k, n);
    LowTake(buf, k, n);
    LowDrop(buf, k, n);
    LsbLow(buf, k);
    var rest := Ahead(buf, n, input);
    assert rest[..k] == Low(buf, n)[..k];
  }

  /** `all` ends with `rest`. */
  ghost predicate Ends(rest: Path, all: Path)
  {
    |rest| <= |all| && rest == all[|all| - |rest|..]
  }

  lemma EndsMore(rest: Path, all: Path, n: nat)
    requires Ends(rest, all) && n <= |rest|
    ensures Ends(rest[n..], all)
  {
  }

  lemma {:induction false} BytesEnd(input: seq<nat>, k: nat)
    requires k <= |input|
    ensures Ends(BytesBits(input[k..]), BytesBits(input))
  {
    hide BytesBits;
    if k == 0 {
      assert input[0..] == input;
    } else {
      BytesEnd(input, k - 1);
      var tail := input[k - 1..];
      BytesFirst(tail);
      assert tail[1..] == input[k..];
      assert BytesBits(tail)[BYTE..] == BytesBits(input[k..]);
    }
  }

  /** `rest` is what is left of the input: the bits in the buffer, of whose 64 at most 61 are in use, and
      the bytes from `pos` on. */
  ghost predicate Buffered(input: seq<nat>, pos: nat, bitBuf: nat, numBits: nat, rest: Path)
  {
    && pos <= |input| && AllBytes(input) && bitBuf < Pow2(numBits) && numBits <= 61 && numBits <= 8 * pos
    && rest == Ahead(bitBuf, numBits, input[pos..]) && Ends(rest, BytesBits(input))
  }

  /** `rest` is the bytes from `pos` on. */
  ghost predicate Remaining(input: seq<nat>, pos: nat, rest: Path)
  {
    pos <= |input| && rest == BytesBits(input[pos..])
  }

  lemma BufferedFacts(input: seq<nat>, pos: nat, bitBuf: nat, numBits: nat, rest: Path)
    requires Buffered(input, pos, bitBuf, numBits, rest)
    ensures pos <= |input| && bitBuf < Pow2(numBits) && rest == Ahead(bitBuf, numBits, input[pos..])
    ensures numBits <= 61 && numBits <= 8 * pos && Ends(rest, BytesBits(input))
  {
  }

  /** Reads bits from bytes through a bit buffer that is filled byte by byte. */
  class BitReader {
    const input: seq<nat>
    var pos: nat
    var bitBuf: nat
    var numBits: nat
    ghost var rest: Path

    ghost predicate Valid()
      reads this
    {
      Buffered(input, pos, bitBuf, numBits, rest)
    }

    constructor (input: seq<nat>)
      requires AllBytes(input)
      ensures Valid() && rest == BytesBits(input) && this.input == input
    {
      this.input := input;
      pos, bitBuf, numBits, rest := 0, 0, 0, BytesBits(input);
      new;
      assert input[0..] == input && [] + BytesBits(input) == BytesBits(input);
      assert BytesBits(input)[0..] == BytesBits(input);
    }

    /** Moves one more byte into the bit buffer; fails at the end of the input. */
    method NeedByte() returns (ok: bool)
      requires Valid() && numBits <= 53
      modifies this`pos, this`bitBuf, this`numBits
      ensures Valid() && ok == (old(pos) < |input|)
      ensures if ok then numBits == old(numBits) + 8 && pos == old(pos) + 1 else numBits == old(numBits) == |rest|
    {
      hide BytesBits;
      if pos >= |input| {
        assert input[pos..] == [];
        NothingAhead(bitBuf, numBits);
        return false;
      }
      AheadByte(bitBuf, numBits, input[pos..]);
      assert input[pos..][1..] == input[pos + 1..];
      BufferFits(bitBuf + Shl(input[pos], numBits), numBits + BYTE);
      bitBuf := Wrap64(bitBuf + Shl(input[pos], numBits));
      numBits := numBits + 8;
      pos := pos + 1;
      return true;
    }

    /** Moves four more bytes into the bit buffer at once, unless it has bits for two codes. */
    method NeedWord()
      requires Valid() && |input| - pos >= 4
      modifies this`pos, this`bitBuf, this`numBits
      ensures Valid() && numBits >= 30
    {
      hide BytesBits;
      hide Ahead;
      if numBits < 30 {
        ghost var in0 := input[pos..];
        var word := input[pos] + 0x100 * input[pos + 1] + 0x1_0000 * input[pos + 2] + 0x100_0000 * input[pos + 3];
        AheadWord(bitBuf, numBits, in0);
        assert in0[4..] == input[pos + 4..];
        BufferFits(bitBuf + Shl(word, numBits), numBits + 32);
        bitBuf := Wrap64(bitBuf + Shl(word, numBits));
        pos := pos + 4;
        numBits := numBits + 32;
      }
    }

    /** Takes `n` buffered bits. */
    method Take(n: nat) returns (v: nat)
      requires Valid() && n <= numBits
      modifies this`bitBuf, this`numBits, this`rest
      ensures Valid() && n <= |old(rest)| && v == Lsb(old(rest)[..n]) && rest == old(rest)[n..]
      ensures numBits == old(numBits) - n
    {
      hide BytesBits;
      hide Ahead;
      hide Ends;
      AheadTake(bitBuf, numBits, input[pos..], n);
      EndsMore(rest, BytesBits(input), n);
      v := Mask(bitBuf, n);
      bitBuf := Shr(bitBuf, n);
      numBits := numBits - n;
      rest := rest[n..];
    }

    /** Reads `n` bits; fails when the input ends first. */
    method GetBits(n: nat) returns (ok: bool, v: nat)
      requires Valid() && n <= 16
      modifies this
      ensures Valid() && ok == (n <= |old(rest)|)
      ensures ok ==> v == Lsb(old(rest)[..n]) && rest == old(rest)[n..]
      ensures !ok ==> rest == old(rest)
      ensures n <= old(numBits) ==> numBits == old(numBits) - n
    {
      hide BytesBits;
      hide Ahead;
      while numBits < n
        invariant Valid() && rest == old(rest) && (n <= old(numBits) ==> numBits == old(numBits))
        decreases n - numBits
      {
        ok := NeedByte();
        if !ok {
          return false, 0;
        }
      }
      v := Take(n);
      ok := true;
    }

    /** Drops the next `n` bits. */
    method SkipBits(n: nat) returns (ok: bool)
      requires Valid() && n <= 16
      modifies this
      ensures Valid() && ok == (n <= |old(rest)|)
      ensures ok ==> rest == old(rest)[n..]
      ensures n <= old(numBits) ==> numBits == old(numBits) - n
    {
      var v;
      ok, v := GetBits(n);
    }

    /** Passes over whole bytes, with an empty bit buffer. */
    method Advance(m: nat)
      requires Valid() && numBits == 0 && pos + m <= |input|
      modifies this
      ensures Valid() && numBits == 0 && pos == old(pos) + m && |rest| <= |old(rest)|
    {
      hide BytesBits;
      hide Ends;
      hide Buffered;
      BufferedFacts(input, pos, bitBuf, numBits, rest);
      BufferedBytes(input, pos, bitBuf, numBits, rest);
      RestSize(bitBuf, numBits, input[pos..]);
      EndsMore(rest, BytesBits(input), 8 * m);
      assert Pow2(0) == 1;
      pos := pos + m;
      rest := rest[8 * m..];
      Emptied(input, pos, rest);
    }

    /** Drops the rest of a byte. */
    method SkipToByte() returns (ghost whole: nat)
      requires Valid()
      modifies this
      ensures Valid() && numBits == 8 * whole && rest == old(rest)[|old(rest)| % BYTE..]
      ensures |rest| == 8 * (whole + |input| - pos)
    {
      hide BytesBits;
      hide Ahead;
      hide Ends;
      RestSize(bitBuf, numBits, input[pos..]);
      var ok := SkipBits(numBits % BYTE);
      whole := numBits / BYTE;
      RestSize(bitBuf, numBits, input[pos..]);
    }

    /** Drops the rest of a byte and gives the bytes read ahead back to the input. */
    method PutBack()
      requires Valid()
      modifies this
      ensures rest == old(rest)[|old(rest)| % BYTE..] && numBits == 0 && Remaining(input, pos, rest)
      ensures Valid()
    {
      hide BytesBits;
      hide Ends;
      hide Buffered;
      ghost var k := SkipToByte();
      BufferedFacts(input, pos, bitBuf, numBits, rest);
      BufferedBytes(input, pos, bitBuf, numBits, rest);
      ghost var before := rest;
      while pos > 0 && numBits >= BYTE
        invariant pos <= |input| && numBits == 8 * k <= 8 * pos
        invariant |rest| == 8 * (k + |input| - pos) && rest == before
      {
        pos := pos - 1;
        numBits := numBits - BYTE;
        k := k - 1;
      }
      bitBuf := Mask(bitBuf, numBits);
      Emptied(input, pos, rest);
    }
  }

  lemma BufferedBytes(input: seq<nat>, pos: nat, bitBuf: nat, numBits: nat, rest: Path)
    requires Buffered(input, pos, bitBuf, numBits, rest)
    ensures AllBytes(input)
  {
  }

  lemma BufferEmpty(input: seq<nat>, pos: nat, bitBuf: nat, rest: Path)
    requires Buffered(input, pos, bitBuf, 0, rest)
    ensures Remaining(input, pos, rest)
  {
    hide BytesBits;
    assert [] + BytesBits(input[pos..]) == BytesBits(input[pos..]);
  }

  /** With an empty buffer the rest of the input is its bytes. */
  lemma Emptied(input: seq<nat>, pos: nat, rest: Path)
    requires AllBytes(input) && pos <= |input| && Ends(rest, BytesBits(input)) && |rest| == 8 * (|input| - pos)
    ensures Buffered(input, pos, 0, 0, rest) && Remaining(input, pos, rest)
  {
    hide BytesBits;
    BytesEnd(input, pos);
    BytesSize(input[pos..]);
    SameEnd(rest, BytesBits(input[pos..]), BytesBits(input));
    assert Low(0, 0) + rest == rest;
  }

  lemma SameEnd(a: Path, b: Path, all: Path)
    requires Ends(a, all) && Ends(b, all) && |a| == |b|
    ensures a == b
  {
  }

  lemma RestSize(buf: nat, n: nat, input: seq<nat>)
    ensures |Ahead(buf, n, input)| == n + 8 * |input| && |Ahead(buf, n, input)| % BYTE == n % BYTE
  {
    BytesSize(input);
  }

  lemma BufferFits(x: nat, n: nat)
    requires x < Pow2(n) && n <= 64
    ensures Wrap64(x) == x
  {
    Pow2Mono(n, 64);
    Words();
  }

  lemma NothingAhead(buf: nat, n: nat)
    ensures |Ahead(buf, n, [])| == n
  {
  }

  lemma NoBytes()
    ensures BytesBits([]) == []
  {
  }

  lemma {:induction false} BytesConcat(a: seq<nat>, b: seq<nat>)
    ensures BytesBits(a + b) == BytesBits(a) + BytesBits(b)
  {
    hide Low;
    if b == [] {
      assert a + b == a && BytesBits(a) + [] == BytesBits(a);
    } else {
      var n := |b| - 1;
      BytesConcat(a, b[..n]);
      assert (a + b)[..|a + b| - 1] == a + b[..n];
      assert BytesBits(a) + BytesBits(b[..n]) + Low(b[n], BYTE) == BytesBits(a) + (BytesBits(b[..n]) + Low(b[n], BYTE));
    }
  }
}
