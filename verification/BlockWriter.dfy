/** Flushing a block: the codes recorded so far leave as a dynamic or a static block, or their bytes as
    a stored one. */
module BlockWriter {
  import opened Bits
  import opened BitStream
  import opened Blocks
  import opened CanonicalCode
  import opened DeflateTable
  import opened DynamicBlock
  import opened DynamicHeader
  import opened HuffmanDepth
  import opened LzCodes
  import opened LzStream
  import opened LzTables
  import opened LzWide
  import opened StaticCode
  import opened SymbolStream

  // ----- dynamic blocks

  ghost predicate CountsFit(counts: seq<nat>)
  {
    ShallowCounts(counts) && forall i :: 0 <= i < |counts| ==> counts[i] < 0x10000
  }

  /** The counts of a block suit both tables. */
  lemma BlockCounts(codes: seq<LzCode>, lit: seq<nat>, dist: seq<nat>)
    requires Counted(codes, lit, dist) && |codes| < 0xFFFF
    ensures ValidCodes(codes) && |lit| == 288 && |dist| == 32 && CountsFit(lit[END_OF_BLOCK := 1]) && CountsFit(dist)
  {
    hide ShallowCounts;
    hide Sum;
    TimesBound(codes, END_OF_BLOCK);
    CountedSums(codes, lit, dist);
    SumOfUpdate(lit, END_OF_BLOCK, 1);
    SmallSumShallow(lit[END_OF_BLOCK := 1]);
    SmallSumShallow(dist);
  }

  /** Both tables have a code for each of the counted codes, and none for the symbols not in use. */
  lemma BlockTables(codes: seq<LzCode>, litCounts: seq<nat>, distCounts: seq<nat>, lit: seq<nat>, dist: seq<nat>)
    requires Counted(codes, litCounts, distCounts)
    requires SizedFor(lit, litCounts[END_OF_BLOCK := 1], MAX_LENGTH) && SizedFor(dist, distCounts, MAX_LENGTH)
    ensures |lit| == 288 && |dist| == 32 && Lengths(lit) && Lengths(dist) && AllUsed(lit, dist, codes)
    ensures lit[286] == lit[287] == 0 && dist[30] == dist[31] == 0
    ensures (UsedCount(lit) >= 2 ==> Complete(lit)) && (UsedCount(dist) >= 2 ==> Complete(dist))
  {
    hide UsedSyms;
    hide LitSym;
    hide DistSym;
    hide Complete;
    TimesBound(codes, 286);
    TimesBound(codes, 287);
    TimesBound(codes, 30);
    TimesBound(codes, 31);
    forall i | 0 <= i < |codes| ensures CodeUsed(lit, dist, codes[i]) {
      TimesPositive(codes, i);
      if codes[i].Match? {
        DistanceBack(codes[i].dist - 1);
      }
    }
  }

  /** The header carries the lengths without their trailing zeros, which is all a block needs. */
  lemma BlockSent(final: bool, h: Header, lit: seq<nat>, dist: seq<nat>, codes: seq<LzCode>)
    requires h.lit <= |lit| && h.dist <= |dist| && HeaderFor(h, lit[..h.lit] + dist[..h.dist])
    requires (forall i :: h.lit <= i < |lit| ==> lit[i] == 0) && (forall i :: h.dist <= i < |dist| ==> dist[i] == 0)
    requires Lengths(lit) && Lengths(dist) && AllUsed(lit, dist, codes)
    requires (UsedCount(lit) >= 2 ==> Complete(lit)) && (UsedCount(dist) >= 2 ==> Complete(dist))
    ensures var b := Dynamic(final, h, lit[..h.lit], dist[..h.dist], codes);
            ValidBlock(b) && Content(b) == HeaderBits(h, lit[..h.lit] + dist[..h.dist]) + BodyBits(lit, dist, codes)
  {
    hide HeaderFor;
    hide HeaderBits;
    hide BodyBits;
    hide Complete;
    BodyTrimmed(lit, dist, h.lit, h.dist, codes);
    AcceptedTrimmed(lit, h.lit);
    AcceptedTrimmed(dist, h.dist);
  }

  /** Builds one of the two tables of a block. */
  method MakeTable(counts: seq<nat>) returns (sizes: seq<nat>, codes: seq<nat>)
    requires |counts| <= 288 && CountsFit(counts)
    ensures SizedFor(sizes, counts, MAX_LENGTH) && CodesFor(sizes, codes)
  {
    hide ShallowCounts;
    hide CodePath;
    AllWindows();
    Pow2Mono(9, MAX_LENGTH);
    assert Pow2(9) == 512;
    var s, c := new nat[|counts|], new nat[|counts|];
    OptimizeTable(counts, MAX_LENGTH, s, c);
    sizes, codes := s[..], c[..];
  }

  /** The body of a block, by the writer of the machine. */
  method PutCodes(w: BitWriter, wide: bool, buf: seq<nat>, lit: seq<nat>, litCodes: seq<nat>,
                  dist: seq<nat>, distCodes: seq<nat>, ghost codes: seq<LzCode>) returns (ok: bool)
    requires w.Valid() && CodesFor(lit, litCodes) && CodesFor(dist, distCodes)
    requires ValidCodes(codes) && AllUsed(lit, dist, codes) && buf == Packed(codes)
    modifies w
    ensures w.Valid() && ok == (|old(w.written)| + |BodyBits(lit, dist, codes)| < 8 * OUT_LIMIT)
    ensures ok ==> w.written == old(w.written) + BodyBits(lit, dist, codes)
  {
    hide Holds;
    hide BodyBits;
    hide AllUsed;
    hide CodesFor;
    hide Packed;
    if wide {
      ok := PutBodyWide(w, buf, lit, litCodes, dist, distCodes, codes);
    } else {
      ok := PutBody(w, buf, lit, litCodes, dist, distCodes, codes);
    }
  }

  /** Writes the type and the content of a dynamic block. */
  method PutDynamic(w: BitWriter, wide: bool, lz: LzBuffer, final: bool) returns (ok: bool, ghost b: Block)
    requires w.Valid() && Counted(lz.codes, lz.litCount[..], lz.distCount[..]) && |lz.codes| < 0xFFFF
    requires lz.codeAt <= lz.codeBuf.Length && lz.codeBuf[..lz.codeAt] == Packed(lz.codes)
    modifies w
    ensures w.Valid() && ValidBlock(b) && b.Dynamic? && b.final == final && b.codes == lz.codes
    ensures ok == (|old(w.written)| + 2 + |Content(b)| < 8 * OUT_LIMIT)
    ensures ok ==> w.written == old(w.written) + Low(2, 2) + Content(b)
  {
    hide Holds;
    hide Counted;
    hide Packed;
    hide CountsFit;
    hide SizedFor;
    hide HeaderBits;
    hide HeaderFor;
    hide BodyBits;
    hide AllUsed;
    hide CodesFor;
    hide Complete;
    hide Content;
    hide ValidBlock;
    ghost var before, codes := w.written, lz.codes;
    BlockCounts(codes, lz.litCount[..], lz.distCount[..]);
    var lit, litCodes := MakeTable(lz.litCount[..][END_OF_BLOCK := 1]);
    var dist, distCodes := MakeTable(lz.distCount[..]);
    BlockTables(codes, lz.litCount[..], lz.distCount[..], lit, dist);
    TwoBits();
    w.Put(2, 2);
    ghost var h := WriteHeader(w, lit, dist);
    BlockSent(final, h, lit, dist, codes);
    b := Dynamic(final, h, lit[..h.lit], dist[..h.dist], codes);
    ok := PutCodes(w, wide, lz.codeBuf[..lz.codeAt], lit, litCodes, dist, distCodes, codes);
    ghost var header, body := HeaderBits(h, lit[..h.lit] + dist[..h.dist]), BodyBits(lit, dist, codes);
    assert before + Low(2, 2) + header + body == before + Low(2, 2) + (header + body);
  }

  lemma TwoBits()
    ensures 0 < 1 < 2 < Pow2(2)
  {
    assert Pow2(2) == 4;
  }

  // ----- static blocks

  lemma StaticUsed(codes: seq<LzCode>)
    requires ValidCodes(codes)
    ensures AllUsed(StaticLit(), StaticDist(), codes)
  {
    forall i | 0 <= i < |codes| ensures CodeUsed(StaticLit(), StaticDist(), codes[i]) {
      if codes[i].Match? {
        DistanceBack(codes[i].dist - 1);
      }
    }
  }

  method PutStatic(w: BitWriter, wide: bool, lz: LzBuffer, final: bool) returns (ok: bool, ghost b: Block)
    requires w.Valid() && ValidCodes(lz.codes)
    requires lz.codeAt <= lz.codeBuf.Length && lz.codeBuf[..lz.codeAt] == Packed(lz.codes)
    modifies w
    ensures w.Valid() && b == Static(final, lz.codes) && ValidBlock(b)
    ensures ok == (|old(w.written)| + 2 + |Content(b)| < 8 * OUT_LIMIT)
    ensures ok ==> w.written == old(w.written) + Low(1, 2) + Content(b)
  {
    hide Holds;
    hide Packed;
    hide BodyBits;
    hide AllUsed;
    hide CodesFor;
    hide Complete;
    StaticUsed(lz.codes);
    b := Static(final, lz.codes);
    var lit, dist := StaticSizes();
    StaticComplete();
    CompleteLengths(lit);
    CompleteLengths(dist);
    var litCodes := StaticTable(lit);
    var distCodes := StaticTable(dist);
    TwoBits();
    w.Put(1, 2);
    ok := PutCodes(w, wide, lz.codeBuf[..lz.codeAt], lit, litCodes, dist, distCodes, lz.codes);
  }

  lemma CompleteLengths(lens: seq<nat>)
    requires Complete(lens)
    ensures Lengths(lens)
  {
  }

  // ----- a static block always fits

  /** The room of a code in the buffer, flag included, in eighths of a byte. */
  ghost function Eighths(codes: seq<LzCode>): nat
  {
    if codes == [] then 0 else (if codes[0].Literal? then 9 else 25) + Eighths(codes[1..])
  }

  lemma {:induction false} EighthsConcat(a: seq<LzCode>, b: seq<LzCode>)
    ensures Eighths(a + b) == Eighths(a) + Eighths(b)
  {
    if a == [] {
      assert a + b == b;
    } else {
      EighthsConcat(a[1..], b);
      assert (a + b)[1..] == a[1..] + b;
    }
  }

  lemma {:induction false} GroupEighths(group: seq<LzCode>)
    requires ValidCodes(group)
    ensures 8 * |GroupBytes(group)| + |group| == Eighths(group)
  {
    if group != [] {
      GroupEighths(group[1..]);
    }
  }

  lemma {:induction false} PackedEighths(codes: seq<LzCode>)
    requires ValidCodes(codes)
    ensures 8 * |Packed(codes)| >= Eighths(codes)
  {
    hide Eighths;
    hide GroupBytes;
    if |codes| > 8 {
      PackedEighths(codes[8..]);
      GroupEighths(codes[..8]);
      EighthsConcat(codes[..8], codes[8..]);
      assert codes == codes[..8] + codes[8..];
    } else {
      GroupEighths(codes);
      NoEighths();
    }
  }

  lemma NoEighths()
    ensures Eighths([]) == 0
  {
  }

  /** A literal takes at most 9 bits and a match at most 31. */
  lemma StaticBits(c: LzCode)
    requires ValidCode(c) && CodeUsed(StaticLit(), StaticDist(), c)
    ensures |LzBits(StaticLit(), StaticDist(), c)| <= if c.Literal? then 9 else 31
  {
    hide CodePath;
    hide Low;
    if c.Match? {
      LengthBack(c.len - MIN_MATCH_LEN);
      DistanceBack(c.dist - 1);
      ExtrasSmall(c.len - MIN_MATCH_LEN, c.dist - 1);
    }
  }

  lemma ExtrasSmall(m: nat, d: nat)
    requires m < 256 && d < 0x8000
    ensures LenExtra(m) <= 5 && DistExtra(d) <= 13
  {
  }

  lemma {:induction false} StaticBody(codes: seq<LzCode>)
    requires ValidCodes(codes) && AllUsed(StaticLit(), StaticDist(), codes)
    ensures 25 * |BodyBits(StaticLit(), StaticDist(), codes)| <= 31 * Eighths(codes) + 175
  {
    hide LzBits;
    hide CodePath;
    hide CodeUsed;
    if codes != [] {
      StaticBits(codes[0]);
      StaticBody(codes[1..]);
    }
  }

  /** Whatever the code buffer can hold fits the output as a static block. */
  lemma StaticFits(codes: seq<LzCode>)
    requires ValidCodes(codes) && AllUsed(StaticLit(), StaticDist(), codes) && |Packed(codes)| <= LZ_CODE_BUF_SIZE
    ensures |BodyBits(StaticLit(), StaticDist(), codes)| + 10 < 8 * OUT_LIMIT
  {
    hide BodyBits;
    hide Packed;
    hide Eighths;
    PackedEighths(codes);
    StaticBody(codes);
  }

  // ----- stored blocks

  method PutBytes(w: BitWriter, data: seq<nat>)
    requires w.Valid() && AllBytes(data)
    modifies w
    ensures w.Valid() && w.written == old(w.written) + BytesBits(data)
  {
    hide Holds;
    hide Low;
    hide BytesBits;
    ghost var head := w.written;
    NoBytes();
    assert data[..0] == [] && head + [] == head;
    for i := 0 to |data|
      invariant w.Valid() && w.written == head + BytesBits(data[..i])
    {
      ByteFits(data[i]);
      BytesAdd(data[..i], data[i]);
      assert data[..i + 1] == data[..i] + [data[i]];
      assert head + BytesBits(data[..i]) + Low(data[i], BYTE) == head + (BytesBits(data[..i]) + Low(data[i], BYTE));
      w.Put(data[i], 8);
    }
    assert data[..|data|] == data;
  }

  method PutStored(w: BitWriter, data: seq<nat>, final: bool) returns (ghost b: Block)
    requires w.Valid() && |data| <= LZ_DICT_SIZE && AllBytes(data)
    modifies w
    ensures w.Valid() && b.Stored? && b.final == final && b.bytes == data && ValidBlock(b)
    ensures w.written == old(w.written) + Low(0, 2) + Content(b) && (old(w.bitsIn) + 2 + b.pad) % BYTE == 0
  {
    hide Holds;
    hide Low;
    ghost var before := w.written;
    TwoBits();
    w.Put(0, 2);
    ghost var pad := w.Align();
    b := Stored(final, pad, data);
    SixteenBits();
    w.Put(|data|, 16);
    w.Put(0xFFFF - |data|, 16);
    ghost var head := before + Low(0, 2) + Low(0, pad) + Low(|data|, 16) + Low(0xFFFF - |data|, 16);
    PutBytes(w, data);
    StoredRegroup(before, Low(0, 2), Low(0, pad), Low(|data|, 16), Low(0xFFFF - |data|, 16), BytesBits(data));
  }

  lemma SixteenBits()
    ensures Pow2(16) == 0x10000
  {
    assert Pow2(8) == 256;
    ByteShift(8);
  }

  lemma StoredRegroup(w: Path, k: Path, p: Path, n: Path, m: Path, bytes: Path)
    ensures w + k + p + n + m + bytes == w + k + (p + (n + m + bytes))
  {
  }

  // ----- the choice

  /** The buffer is closed and its codes are counted. */
  ghost predicate Ready(lz: LzBuffer)
    reads lz, lz.codeBuf, lz.litCount, lz.distCount
  {
    && ValidCodes(lz.codes) && Counted(lz.codes, lz.litCount[..], lz.distCount[..]) && |lz.codes| < 0xFFFF
    && lz.codeAt <= lz.codeBuf.Length == LZ_CODE_BUF_SIZE && lz.codeBuf[..lz.codeAt] == Packed(lz.codes)
  }

  method Compress(w: BitWriter, wide: bool, lz: LzBuffer, final: bool, static_: bool) returns (ok: bool, ghost b: Block)
    requires w.Valid() && Ready(lz)
    modifies w
    ensures w.Valid() && ValidBlock(b) && !b.Stored? && b.final == final && b.codes == lz.codes
    ensures static_ ==> b == Static(final, lz.codes)
    ensures ok == (|old(w.written)| + 2 + |Content(b)| < 8 * OUT_LIMIT)
    ensures ok ==> w.written == old(w.written) + Low(Kind(b), 2) + Content(b)
  {
    hide Holds;
    hide Counted;
    hide Packed;
    hide Content;
    hide ValidBlock;
    if static_ {
      ok, b := PutStatic(w, wide, lz, final);
    } else {
      ok, b := PutDynamic(w, wide, lz, final);
    }
  }

  lemma ReadyPacked(codes: seq<LzCode>, buf: seq<nat>, at: nat)
    requires ValidCodes(codes) && at <= |buf| && buf[..at] == Packed(codes)
    ensures |Packed(codes)| <= |buf|
  {
    hide Packed;
  }

  /** Sends the recorded codes as a block.  `held` says whether the bytes of the block are still in the
      dictionary, from where they can be stored as they are. */
  method FlushBlock(w: BitWriter, wide: bool, lz: LzBuffer, data: seq<nat>, held: bool, final: bool,
                    forceStored: bool, forceStatic: bool) returns (ghost b: Block)
    requires w.Valid() && w.output == [] && |w.written| < BYTE && lz.Valid()
    requires |data| == lz.total && AllBytes(data) && (held ==> |data| <= LZ_DICT_SIZE)
    modifies w, lz`codeAt, lz.codeBuf
    ensures w.Valid() && lz.Shape() && |w.written| < 8 * OUT_LIMIT
    ensures ValidBlock(b) && b.final == final && w.written == old(w.written) + BlockBits(b)
    ensures if b.Stored? then held && b.bytes == data && (|old(w.written)| + 3 + b.pad) % BYTE == 0
            else b.codes == lz.codes
  {
    hide Holds;
    hide Layout;
    hide Counted;
    hide Packed;
    hide Content;
    hide ValidBlock;
    hide Low;
    ghost var before := w.written;
    LayoutFacts(lz.codeBuf[..], lz.codeAt, lz.flagsAt, lz.flagsLeft, lz.codes);
    lz.Close();
    assert Ready(lz);
    ReadyPacked(lz.codes, lz.codeBuf[..], lz.codeAt);
    hide Ready;
    FinalBit(final);
    BitsPending(w.output, w.bitBuffer, w.bitsIn, w.written);
    w.Put(Bit(final), 1);
    var saved, buffer, n := w.output, w.bitBuffer, w.bitsIn;
    ghost var start := w.written;
    var stored, ok := forceStored && held, false;
    if !stored {
      ok, b := Compress(w, wide, lz, final, forceStatic || lz.total < 48);
    }
    if (stored || (lz.total > 0 && |w.output| - |saved| + 1 >= lz.total)) && held {
      w.Restore(saved, buffer, n, start);
      b := PutStored(w, data, final);
      StoredSize(b);
    } else if !ok {
      w.Restore(saved, buffer, n, start);
      ok, b := Compress(w, wide, lz, final, true);
      StaticFitsBlock(lz.codes, final);
    }
    FlushRegroup(before, [final], Low(Kind(b), 2), Content(b));
  }

  lemma FlushRegroup(w: Path, f: Path, k: Path, c: Path)
    ensures w + f + k + c == w + (f + k + c) && |w + (f + k + c)| == |w| + |f| + |k| + |c|
  {
  }

  lemma FinalBit(final: bool)
    ensures Low(Bit(final), 1) == [final] && Bit(final) < Pow2(1)
  {
    assert Pow2(1) == 2;
  }

  lemma BitsPending(output: seq<nat>, x: nat, n: nat, written: Path)
    requires Holds(output, x, n, written) && output == []
    ensures |written| == n
  {
  }

  lemma StoredSize(b: Block)
    requires b.Stored? && ValidBlock(b)
    ensures |Content(b)| <= 39 + 8 * |b.bytes|
  {
    BytesSize(b.bytes);
  }

  lemma StaticFitsBlock(codes: seq<LzCode>, final: bool)
    requires ValidBlock(Static(final, codes)) && |Packed(codes)| <= LZ_CODE_BUF_SIZE
    ensures |Content(Static(final, codes))| + 10 < 8 * OUT_LIMIT
  {
    StaticFits(codes);
  }
}
