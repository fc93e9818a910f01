/** The compressor's writer for 64-bit machines: codes are collected in a 64-bit word, several at a time,
    and stored by whole words.  It writes the bits of the plain writer. */
module LzWide {
  import opened Bits
  import opened BitStream
  import opened CanonicalCode
  import opened Common
  import opened LzCodes
  import opened LzStream
  import opened LzTables
  import opened SymbolStream

  /** The `k` lowest bytes of a word. */
  function LowBytes(x: nat, k: nat): (b: seq<nat>)
    ensures |b| == k
    decreases k
  {
    if k == 0 then [] else [Mask(x, BYTE)] + LowBytes(Shr(x, BYTE), k - 1)
  }

  lemma {:induction false} ShrShr(x: nat, m: nat, n: nat)
    ensures Shr(Shr(x, m), n) == Shr(x, m + n)
  {
    if m > 0 {
      ShrShr(x / 2, m - 1, n);
    }
  }

  /** Storing a word and keeping its whole bytes is moving them out one by one. */
  lemma {:induction false} BytesMove(output: seq<nat>, x: nat, n: nat, k: nat)
    requires x < Pow2(n) && 8 * k <= n && AllBytes(output)
    ensures BytesBits(output + LowBytes(x, k)) + Low(Shr(x, 8 * k), n - 8 * k) == BytesBits(output) + Low(x, n)
    ensures Shr(x, 8 * k) < Pow2(n - 8 * k) && AllBytes(output + LowBytes(x, k))
    decreases k
  {
    hide Low;
    hide BytesBits;
    hide Pow2;
    hide Mask;
    hide Shr;
    hide LowBytes;
    BytesStep(x, k);
    if k == 0 {
      assert output + [] == output;
    } else {
      var y, b := Shr(x, BYTE), Mask(x, BYTE);
      ByteMoves(output, x, n);
      BytesMove(output + [b], y, n - BYTE, k - 1);
      assert output + LowBytes(x, k) == output + [b] + LowBytes(y, k - 1);
    }
  }

  lemma BytesStep(x: nat, k: nat)
    ensures k == 0 ==> LowBytes(x, k) == [] && Shr(x, 8 * k) == x
    ensures k > 0 ==>
              && LowBytes(x, k) == [Mask(x, BYTE)] + LowBytes(Shr(x, BYTE), k - 1)
              && Shr(x, 8 * k) == Shr(Shr(x, BYTE), 8 * (k - 1))
  {
    hide Mask;
    if k > 0 {
      hide Shr;
      ShrShr(x, BYTE, 8 * (k - 1));
    }
  }

  class WordWriter {
    var output: seq<nat>
    var bitBuffer: nat
    var bitsIn: nat
    ghost var written: Path

    ghost predicate Valid()
      reads this
    {
      bitsIn <= 64 && Holds(output, bitBuffer, bitsIn, written)
    }

    constructor (output: seq<nat>, bitBuffer: nat, bitsIn: nat, ghost written: Path)
      requires bitsIn <= 64 && Holds(output, bitBuffer, bitsIn, written)
      ensures Valid() && this.output == output && this.bitsIn == bitsIn && this.written == written
    {
      this.output, this.bitBuffer, this.bitsIn, this.written := output, bitBuffer, bitsIn, written;
    }

    /** Collects `len` bits; there is always room for them. */
    method Put(bits: nat, len: nat)
      requires Valid() && bits < Pow2(len) && bitsIn + len <= 64
      modifies this
      ensures Valid() && written == old(written) + Low(bits, len)
      ensures bitsIn == old(bitsIn) + len && output == old(output)
    {
      hide Holds;
      hide Low;
      hide Pow2;
      hide Shl;
      PutMore(output, bitBuffer, bitsIn, written, bits, len);
      BufferFits(bitBuffer + Shl(bits, bitsIn), bitsIn + len);
      bitBuffer := Wrap64(bitBuffer + Shl(bits, bitsIn));
      bitsIn := bitsIn + len;
      written := written + Low(bits, len);
    }

    /** Stores the word, unless the output is full, and keeps the bits of an unfinished byte. */
    method Store() returns (ok: bool)
      requires Valid()
      modifies this
      ensures Valid() && ok == (|old(output)| < OUT_LIMIT) && written == old(written)
      ensures if ok then bitsIn < BYTE else output == old(output)
    {
      hide Low;
      hide BytesBits;
      ok := |output| < OUT_LIMIT;
      if ok {
        var k := bitsIn / BYTE;
        BytesMove(output, bitBuffer, bitsIn, k);
        output := output + LowBytes(bitBuffer, k);
        bitBuffer := Shr(bitBuffer, 8 * k);
        bitsIn := bitsIn - 8 * k;
      }
    }
  }

  method PutLiteralWide(f: WordWriter, byte: nat, lit: seq<nat>, litCodes: seq<nat>, ghost dist: seq<nat>)
    requires f.Valid() && CodesFor(lit, litCodes) && CodeUsed(lit, dist, Literal(byte)) && f.bitsIn <= 49
    modifies f
    ensures f.Valid() && f.written == old(f.written) + LzBits(lit, dist, Literal(byte))
    ensures f.bitsIn <= old(f.bitsIn) + 15 && f.output == old(f.output)
  {
    hide Holds;
    PutSymbolWide(f, byte, lit, litCodes);
  }

  method PutSymbolWide(f: WordWriter, sym: nat, sizes: seq<nat>, codes: seq<nat>)
    requires f.Valid() && Used(sizes, sym) && CodesFor(sizes, codes) && f.bitsIn <= 49
    modifies f
    ensures f.Valid() && f.written == old(f.written) + CodePath(sizes, sym)
    ensures f.bitsIn <= old(f.bitsIn) + 15 && f.output == old(f.output)
  {
    hide Holds;
    LsbBound(CodePath(sizes, sym));
    LowLsb(CodePath(sizes, sym));
    f.Put(codes[sym], sizes[sym]);
  }

  method PutExtraWide(f: WordWriter, x: nat, n: nat)
    requires f.Valid() && f.bitsIn + n <= 64
    modifies f
    ensures f.Valid() && f.written == old(f.written) + Low(x, n)
    ensures f.bitsIn == old(f.bitsIn) + n && f.output == old(f.output)
  {
    hide Holds;
    MaskShr(x, n);
    LowMask(x, n);
    f.Put(Mask(x, n), n);
  }

  /** A match takes at most 48 bits. */
  method PutMatchWide(f: WordWriter, m: nat, d: nat, lit: seq<nat>, litCodes: seq<nat>, dist: seq<nat>, distCodes: seq<nat>)
    requires f.Valid() && f.bitsIn < BYTE && m < 256 && d < LZ_DICT_SIZE
    requires CodesFor(lit, litCodes) && CodesFor(dist, distCodes) && CodeUsed(lit, dist, Match(m + 3, d + 1))
    modifies f
    ensures f.Valid() && f.written == old(f.written) + LzBits(lit, dist, Match(m + 3, d + 1)) && f.output == old(f.output)
  {
    hide Holds;
    hide CodePath;
    hide Low;
    ghost var before := f.written;
    PutSymbolWide(f, LenSym(m), lit, litCodes);
    PutExtraWide(f, m, LenExtra(m));
    var s0, n0 := SmallDistSym(d % 512), SmallDistExtra(d % 512);
    var s1, n1 := LargeDistSym(d / 256), LargeDistExtra(d / 256);
    var sym := if d < 512 then s0 else s1;
    var extra := if d < 512 then n0 else n1;
    PutSymbolWide(f, sym, dist, distCodes);
    PutExtraWide(f, d, extra);
    ghost var a, b, c, e := CodePath(lit, LenSym(m)), Low(m, LenExtra(m)), CodePath(dist, sym), Low(d, extra);
    assert before + a + b + c + e == before + (a + (b + (c + e)));
  }

  /** Sends a match, or up to three literals in a row; at most 48 bits. */
  method PutRound(f: WordWriter, buf: seq<nat>, pos: nat, flags: nat,
                  lit: seq<nat>, litCodes: seq<nat>, dist: seq<nat>, distCodes: seq<nat>,
                  ghost left: nat, ghost group: seq<LzCode>, ghost more: seq<LzCode>, ghost total: Path)
    returns (pos': nat, flags': nat, ghost left': nat, ghost group': seq<LzCode>)
    requires f.Valid() && f.bitsIn < BYTE && CodesFor(lit, litCodes) && CodesFor(dist, distCodes)
    requires Walk(buf, pos, flags, left, group, more, lit, dist, f.written, total) && group != []
    modifies f
    ensures f.Valid() && f.output == old(f.output) && pos < pos' <= |buf|
    ensures Walk(buf, pos', flags', left', group', more, lit, dist, f.written, total)
  {
    hide Holds;
    hide Walk;
    hide LzBits;
    hide CodesFor;
    hide CodeUsed;
    WalkCode(buf, pos, flags, left, group, more, lit, dist, f.written, total);
    CodeRead(buf, pos, group[0]);
    if flags % 2 == 1 {
      PutMatchWide(f, buf[pos], buf[pos + 1] + 256 * buf[pos + 2], lit, litCodes, dist, distCodes);
      return pos + 3, flags / 2, left - 1, group[1..];
    }
    PutLiteralWide(f, buf[pos], lit, litCodes, dist);
    pos', flags', left', group' := pos + 1, flags / 2, left - 1, group[1..];
    if flags' % 2 == 0 && pos' < |buf| {
      pos', flags', left', group' := PutAnother(f, buf, pos', flags', lit, litCodes, dist, left', group', more, total);
      if flags' % 2 == 0 && pos' < |buf| {
        pos', flags', left', group' := PutAnother(f, buf, pos', flags', lit, litCodes, dist, left', group', more, total);
      }
    }
  }

  method PutAnother(f: WordWriter, buf: seq<nat>, pos: nat, flags: nat, lit: seq<nat>, litCodes: seq<nat>, ghost dist: seq<nat>,
                    ghost left: nat, ghost group: seq<LzCode>, ghost more: seq<LzCode>, ghost total: Path)
    returns (pos': nat, flags': nat, ghost left': nat, ghost group': seq<LzCode>)
    requires f.Valid() && f.bitsIn <= 49 && CodesFor(lit, litCodes) && flags % 2 == 0 && pos < |buf|
    requires Walk(buf, pos, flags, left, group, more, lit, dist, f.written, total)
    modifies f
    ensures f.Valid() && f.output == old(f.output) && f.bitsIn <= old(f.bitsIn) + 15 && pos < pos' <= |buf|
    ensures Walk(buf, pos', flags', left', group', more, lit, dist, f.written, total)
  {
    hide Holds;
    hide Walk;
    hide LzBits;
    hide CodesFor;
    hide CodeUsed;
    WalkMore(buf, pos, flags, left, group, more, lit, dist, f.written, total);
    WalkCode(buf, pos, flags, left, group, more, lit, dist, f.written, total);
    CodeRead(buf, pos, group[0]);
    PutLiteralWide(f, buf[pos], lit, litCodes, dist);
    return pos + 1, flags / 2, left - 1, group[1..];
  }

  /** Sends the codes in the buffer and the end of the block; succeeds exactly if the output holds them. */
  method PutBodyWide(w: BitWriter, buf: seq<nat>, lit: seq<nat>, litCodes: seq<nat>, dist: seq<nat>, distCodes: seq<nat>,
                     ghost codes: seq<LzCode>) returns (ok: bool)
    requires w.Valid() && CodesFor(lit, litCodes) && CodesFor(dist, distCodes)
    requires ValidCodes(codes) && AllUsed(lit, dist, codes) && buf == Packed(codes)
    modifies w
    ensures w.Valid() && ok == (|old(w.written)| + |BodyBits(lit, dist, codes)| < 8 * OUT_LIMIT)
    ensures ok ==> w.written == old(w.written) + BodyBits(lit, dist, codes)
  {
    hide Holds;
    hide Walk;
    hide BodyBits;
    hide CodesFor;
    hide Packed;
    var f := new WordWriter(w.output, w.bitBuffer, w.bitsIn, w.written);
    ghost var total := w.written + BodyBits(lit, dist, codes);
    ghost var left: nat, group, more := 0, [], codes;
    var flags, pos := 1, 0;
    WalkStart(buf, codes, lit, dist, f.written, total);
    while pos < |buf|
      invariant f.Valid() && fresh(f) && f.bitsIn < BYTE && pos <= |buf|
      invariant w.Valid() && w.written == old(w.written)
      invariant Walk(buf, pos, flags, left, group, more, lit, dist, f.written, total)
      decreases |buf| - pos
    {
      if flags == 1 {
        WalkGroup(buf, pos, left, group, more, lit, dist, f.written, total);
        flags, pos := buf[pos] + 256, pos + 1;
        ghost var n := if |more| <= 8 then |more| else 8;
        left, group, more := 8, more[..n], more[n..];
      } else {
        WalkMore(buf, pos, flags, left, group, more, lit, dist, f.written, total);
      }
      pos, flags, left, group := PutRound(f, buf, pos, flags, lit, litCodes, dist, distCodes, left, group, more, total);
      ok := f.Store();
      if !ok {
        WalkLong(buf, pos, flags, left, group, more, lit, dist, f.output, f.bitBuffer, f.bitsIn, f.written, total);
        return;
      }
    }
    WalkEnd(buf, pos, flags, left, group, more, lit, dist, f.written, total);
    Handed(f.output, f.bitBuffer, f.bitsIn, f.written);
    LowMask(f.bitBuffer, f.bitsIn);
    MaskShr(f.bitBuffer, f.bitsIn);
    w.output, w.bitBuffer, w.bitsIn, w.written := f.output, 0, 0, f.written[..|f.written| - f.bitsIn];
    if f.bitsIn > 0 {
      w.Put(Mask(f.bitBuffer, f.bitsIn), f.bitsIn);
    }
    PutSymbol(w, END_OF_BLOCK, lit, litCodes);
    ok := w.Fits();
  }

  /** When the output is full, the block does not fit. */
  lemma WalkLong(buf: seq<nat>, pos: nat, flags: nat, left: nat, group: seq<LzCode>, more: seq<LzCode>,
                 lit: seq<nat>, dist: seq<nat>, output: seq<nat>, x: nat, n: nat, written: Path, total: Path)
    requires Walk(buf, pos, flags, left, group, more, lit, dist, written, total)
    requires Holds(output, x, n, written) && |output| >= OUT_LIMIT
    ensures |total| >= 8 * OUT_LIMIT
  {
  }

  /** The bits of an unfinished byte go back to the plain writer. */
  lemma Handed(output: seq<nat>, x: nat, n: nat, written: Path)
    requires Holds(output, x, n, written)
    ensures n <= |written| && Holds(output, 0, 0, written[..|written| - n])
    ensures |output| < OUT_LIMIT ==> written == written[..|written| - n] + Low(x, n)
  {
    hide BytesBits;
    var front := written[..|written| - n];
    assert Pow2(0) == 1;
    if |output| < OUT_LIMIT {
      assert front == BytesBits(output) && BytesBits(output) + Low(0, 0) == BytesBits(output);
    }
  }
}
