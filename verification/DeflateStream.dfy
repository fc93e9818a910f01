/** Whole streams: what the compressor makes of a sequence of literals and matches, and what the
    decompressor makes of the bytes. */
module DeflateStream {
  import opened Bits
  import opened BitStream
  import opened BlockDecoder
  import opened BlockReader
  import opened Blocks
  import opened BlockWriter
  import opened LzCodes
  import opened LzDecoder
  import opened LzExpand
  import opened StreamDecoder

  // ----- streams

  ghost predicate AllValid(blocks: seq<Block>)
  {
    forall i :: 0 <= i < |blocks| ==> ValidBlock(blocks[i])
  }

  /** Only the last block is marked as the last one. */
  ghost predicate LastMarked(blocks: seq<Block>)
  {
    blocks != [] && forall i :: 0 <= i < |blocks| ==> (blocks[i].final <==> i == |blocks| - 1)
  }

  ghost function StreamBits(blocks: seq<Block>): Path
    requires AllValid(blocks)
  {
    if blocks == [] then [] else BlockBits(blocks[0]) + StreamBits(blocks[1..])
  }

  /** Behind `at` bits, the bytes of stored blocks begin at whole bytes. */
  ghost predicate Aligned(blocks: seq<Block>, at: nat)
    requires AllValid(blocks)
    decreases |blocks|
  {
    blocks == [] ||
    (&& (blocks[0].Stored? ==> (at + 3 + blocks[0].pad) % BYTE == 0)
     && Aligned(blocks[1..], at + |BlockBits(blocks[0])|))
  }

  lemma {:induction false} StreamAppend(blocks: seq<Block>, b: Block)
    requires AllValid(blocks) && ValidBlock(b)
    ensures AllValid(blocks + [b]) && StreamBits(blocks + [b]) == StreamBits(blocks) + BlockBits(b)
  {
    hide BlockBits;
    hide ValidBlock;
    if blocks == [] {
      assert blocks + [b] == [b];
    } else {
      StreamAppend(blocks[1..], b);
      assert (blocks + [b])[1..] == blocks[1..] + [b];
    }
  }

  lemma {:induction false} AlignedAppend(blocks: seq<Block>, b: Block, at: nat)
    requires AllValid(blocks) && ValidBlock(b) && AllValid(blocks + [b]) && Aligned(blocks, at)
    requires b.Stored? ==> (at + |StreamBits(blocks)| + 3 + b.pad) % BYTE == 0
    ensures Aligned(blocks + [b], at)
    decreases |blocks|
  {
    hide BlockBits;
    hide ValidBlock;
    if blocks == [] {
      assert blocks + [b] == [b];
    } else {
      assert (blocks + [b])[1..] == blocks[1..] + [b];
      assert StreamBits(blocks) == BlockBits(blocks[0]) + StreamBits(blocks[1..]);
      hide StreamBits;
      AlignedAppend(blocks[1..], b, at + |BlockBits(blocks[0])|);
    }
  }

  /** What a stream makes of the output so far, block after block. */
  ghost function StreamEffect(out: seq<nat>, blocks: seq<Block>, room: nat): Outcome
    requires AllValid(blocks)
    decreases |blocks|
  {
    if blocks == [] then Outcome(BlockDone, out)
    else
      var first := Effect(out, blocks[0], room);
      if first.status == BlockDone then StreamEffect(first.out, blocks[1..], room) else first
  }

  ghost function BlockSpan(b: Block): nat
  {
    if b.Stored? then |b.bytes| else Span(b.codes)
  }

  /** The blocks stand for the data from `at` on. */
  ghost predicate StreamSpells(data: seq<nat>, at: nat, blocks: seq<Block>)
    decreases |blocks|
  {
    if blocks == [] then at == |data|
    else
      var next := at + BlockSpan(blocks[0]);
      BlockSpells(blocks[0], data, at, next) && StreamSpells(data, next, blocks[1..])
  }

  lemma {:induction false} SpellsAppend(data: seq<nat>, from: nat, at: nat, blocks: seq<Block>, b: Block)
    requires at + BlockSpan(b) <= |data| && StreamSpells(data[..at], from, blocks)
    requires BlockSpells(b, data, at, at + BlockSpan(b))
    ensures StreamSpells(data[..at + BlockSpan(b)], from, blocks + [b])
    decreases |blocks|
  {
    hide Spells;
    hide Span;
    var next := at + BlockSpan(b);
    var d := data[..next];
    if blocks == [] {
      assert blocks + [b] == [b] && d[..next] == d && d[at..next] == data[at..next];
    } else {
      var k := from + BlockSpan(blocks[0]);
      SpellsAppend(data, k, at, blocks[1..], b);
      assert (blocks + [b])[1..] == blocks[1..] + [b];
      assert data[..at][..k] == d[..k] && data[..at][from..k] == d[from..k];
    }
  }

  /** A stream that stands for data produces it, if it fits. */
  lemma {:induction false} SpelledStream(data: seq<nat>, at: nat, blocks: seq<Block>, room: nat)
    requires AllValid(blocks) && StreamSpells(data, at, blocks) && at <= room && at <= |data|
    ensures StreamEffect(data[..at], blocks, room) ==
            if |data| <= room then Outcome(BlockDone, data) else Outcome(HasMoreOutput, [])
    decreases |blocks|
  {
    hide Effect;
    hide Spells;
    hide ValidBlock;
    hide Span;
    if blocks == [] {
      assert data[..at] == data;
    } else {
      var next := at + BlockSpan(blocks[0]);
      SpelledEffect(blocks[0], data, at, next, room);
      if next <= room {
        SpelledStream(data, next, blocks[1..], room);
      }
    }
  }

  // ----- compressing

  /** The choices of a compressor that do not concern what the stream stands for: where blocks end early,
      where a literal is recorded together with the match behind it, whether the bytes of a block are
      still in the dictionary, the machine, and two flags. */
  datatype Choices = Choices(early: set<nat>, joined: set<nat>, held: set<nat>, wide: bool, forceStored: bool, forceStatic: bool)

  method Record(lz: LzBuffer, c: LzCode)
    requires lz.Valid() && ValidCode(c) && lz.codeAt <= LZ_CODE_BUF_SIZE - (if c.Literal? then 2 else 4)
    modifies lz, lz.codeBuf, lz.litCount, lz.distCount
    ensures lz.Valid() && lz.codes == old(lz.codes) + [c]
    ensures lz.codeAt <= old(lz.codeAt) + (if c.Literal? then 2 else 4)
  {
    match c
    case Literal(byte) => lz.RecordLiteral(byte);
    case Match(len, dist) => lz.RecordMatch(len, dist);
  }

  /** What has been sent stands for the data up to `start`; `bytes` and the bits pending in the writer are
      what has been sent. */
  ghost predicate Sent(blocks: seq<Block>, bytes: seq<nat>, pending: Path, data: seq<nat>, start: nat)
  {
    && AllValid(blocks) && AllBytes(bytes) && StreamBits(blocks) == BytesBits(bytes) + pending && Aligned(blocks, 0)
    && start <= |data| && StreamSpells(data[..start], 0, blocks)
  }

  lemma SentMore(blocks: seq<Block>, bytes: seq<nat>, pending: Path, data: seq<nat>, start: nat,
                 b: Block, out: seq<nat>, pending': Path, extra: Path)
    requires Sent(blocks, bytes, pending, data, start) && ValidBlock(b) && AllBytes(out)
    requires b.Stored? ==> (|pending| + 3 + b.pad) % BYTE == 0
    requires pending + BlockBits(b) + extra == BytesBits(out) + pending'
    requires BlockSpells(b, data, start, start + BlockSpan(b))
    ensures AllValid(blocks + [b]) && AllBytes(bytes + out) && Aligned(blocks + [b], 0)
    ensures StreamBits(blocks + [b]) + extra == BytesBits(bytes + out) + pending'
    ensures start + BlockSpan(b) <= |data| && StreamSpells(data[..start + BlockSpan(b)], 0, blocks + [b])
  {
    hide BlockBits;
    hide ValidBlock;
    hide BytesBits;
    hide BlockSpan;
    hide StreamSpells;
    BytesSize(bytes);
    assert |StreamBits(blocks)| == 8 * |bytes| + |pending|;
    StreamAppend(blocks, b);
    AlignedAppend(blocks, b, 0);
    hide Aligned;
    BytesConcat(bytes, out);
    SentRegroup(BytesBits(bytes), pending, BlockBits(b), extra);
    assert BytesBits(bytes) + (BytesBits(out) + pending') == BytesBits(bytes) + BytesBits(out) + pending';
    SpellsAppend(data, 0, start, blocks, b);
  }

  lemma SentRegroup(x: Path, p: Path, b: Path, e: Path)
    ensures x + p + b + e == x + (p + b + e)
  {
  }

  /** Flushes the recorded codes and hands the output on. */
  method Flush(w: BitWriter, lz: LzBuffer, data: seq<nat>, start: nat, held: bool, final: bool, c: Choices)
    returns (out: seq<nat>, ghost b: Block, ghost extra: Path)
    requires w.Valid() && w.output == [] && |w.written| < BYTE && lz.Valid() && AllBytes(data)
    requires start + lz.total <= |data| && Spells(data[..start + lz.total], start, lz.codes)
    modifies w, lz`codeAt, lz.codeBuf
    ensures w.Valid() && w.output == [] && |w.written| < BYTE && lz.Shape() && AllBytes(out)
    ensures ValidBlock(b) && b.final == final && (b.Stored? ==> (|old(w.written)| + 3 + b.pad) % BYTE == 0)
    ensures old(w.written) + BlockBits(b) + extra == BytesBits(out) + w.written
    ensures if final then w.written == [] && |extra| < BYTE else extra == []
    ensures BlockSpan(b) == lz.total && BlockSpells(b, data, start, start + lz.total)
  {
    hide Holds;
    hide Layout;
    hide Counted;
    hide BlockBits;
    hide ValidBlock;
    hide Spells;
    hide Span;
    var block := data[start..start + lz.total];
    b := FlushBlock(w, c.wide, lz, block, held && lz.total <= LZ_DICT_SIZE, final, c.forceStored, c.forceStatic);
    extra := [];
    ghost var before := w.written;
    if final {
      ghost var pad := w.Align();
      extra := Low(0, pad);
    } else {
      assert before + [] == before;
    }
    out := w.Drain();
  }

  /** Compresses codes that spell the data.  A block ends when the buffer is full, and wherever else the
      compressor sees fit. */
  method Deflate(data: seq<nat>, codes: seq<LzCode>, c: Choices)
    returns (bytes: seq<nat>, ghost blocks: seq<Block>, ghost pad: Path)
    requires ValidCodes(codes) && Spells(data, 0, codes)
    ensures AllValid(blocks) && LastMarked(blocks) && Aligned(blocks, 0) && StreamSpells(data, 0, blocks)
    ensures AllBytes(bytes) && BytesBits(bytes) == StreamBits(blocks) + pad && |pad| < BYTE
  {
    hide Holds;
    hide Layout;
    hide Counted;
    hide Sent;
    hide Span;
    hide Spells;
    hide ValidBlock;
    hide BlockSpells;
    hide BlockBits;
    hide BytesBits;
    hide StreamBits;
    hide StreamSpells;
    hide Aligned;
    hide AllValid;
    SpelledBytes(data, 0, codes);
    var w := new BitWriter();
    var lz := new LzBuffer();
    var start: nat, joined := 0, false;
    bytes, blocks := [], [];
    NothingSent(data);
    assert lz.codes + codes[0..] == codes;
    for i := 0 to |codes|
      invariant w.Valid() && w.output == [] && |w.written| < BYTE && lz.Valid()
      invariant lz.codeAt <= LZ_CODE_BUF_SIZE - (if joined then 6 else 8)
      invariant joined ==> i < |codes| && codes[i].Match?
      invariant fresh(w) && fresh(lz) && fresh(lz.codeBuf) && fresh(lz.litCount) && fresh(lz.distCount)
      invariant Sent(blocks, bytes, w.written, data, start) && Spells(data, start, lz.codes + codes[i..])
      invariant forall k :: 0 <= k < |blocks| ==> !blocks[k].final
    {
      assert ValidCode(codes[i]);
      assert lz.codes + codes[i..] == lz.codes + [codes[i]] + codes[i + 1..];
      Record(lz, codes[i]);
      joined := i in c.joined && codes[i].Literal? && i + 1 < |codes| && codes[i + 1].Match?;
      if !joined && (lz.codeAt > LZ_CODE_BUF_SIZE - 8 || i in c.early) {
        SpellsSplit(data, start, lz.codes, codes[i + 1..]);
        ghost var pending := w.written;
        var out;
        ghost var b, extra;
        out, b, extra := Flush(w, lz, data, start, i in c.held, false, c);
        SentMore(blocks, bytes, pending, data, start, b, out, w.written, extra);
        SentAgain(blocks + [b], bytes + out, w.written, data, start + lz.total);
        blocks, bytes, start := blocks + [b], bytes + out, start + lz.total;
        lz.Reset();
        assert lz.codes + codes[i + 1..] == codes[i + 1..];
      }
    }
    assert lz.codes + codes[|codes|..] == lz.codes + [];
    SpellsSplit(data, start, lz.codes, []);
    ghost var pending := w.written;
    var out;
    ghost var b;
    out, b, pad := Flush(w, lz, data, start, |codes| in c.held, true, c);
    SentMore(blocks, bytes, pending, data, start, b, out, w.written, pad);
    SpelledAll(data, start + lz.total);
    blocks, bytes := blocks + [b], bytes + out;
    assert BytesBits(bytes) + [] == BytesBits(bytes);
  }

  lemma NothingSent(data: seq<nat>)
    ensures Sent([], [], [], data, 0)
  {
  }

  lemma SentAgain(blocks: seq<Block>, bytes: seq<nat>, pending: Path, data: seq<nat>, start: nat)
    requires AllValid(blocks) && AllBytes(bytes) && Aligned(blocks, 0) && start <= |data|
    requires StreamBits(blocks) + [] == BytesBits(bytes) + pending && StreamSpells(data[..start], 0, blocks)
    ensures Sent(blocks, bytes, pending, data, start)
  {
    assert StreamBits(blocks) + [] == StreamBits(blocks);
  }

  lemma SpelledAll(data: seq<nat>, at: nat)
    requires Spells(data, at, [])
    ensures at == |data| && data[..at] == data
  {
  }

  // ----- decompressing

  /** The bytes of stored blocks are as many bits from the end as whole bytes take. */
  ghost predicate AlignedBack(blocks: seq<Block>, tail: Path)
    requires AllValid(blocks)
    decreases |blocks|
  {
    blocks == [] ||
    (&& (blocks[0].Stored? ==> (|StreamBits(blocks[1..])| + |tail|) % BYTE == 0)
     && AlignedBack(blocks[1..], tail))
  }

  lemma {:induction false} AlignedBoth(blocks: seq<Block>, at: nat, tail: Path)
    requires AllValid(blocks) && Aligned(blocks, at) && (at + |StreamBits(blocks)| + |tail|) % BYTE == 0
    ensures AlignedBack(blocks, tail)
    decreases |blocks|
  {
    hide ValidBlock;
    hide BlockBits;
    if blocks != [] {
      var b := blocks[0];
      AlignedBoth(blocks[1..], at + |BlockBits(b)|, tail);
      if b.Stored? {
        StoredBlockSize(b);
        BackToBytes(at, b.pad, |b.bytes|, |StreamBits(blocks[1..])| + |tail|);
      }
    }
  }

  lemma StoredBlockSize(b: Block)
    requires ValidBlock(b) && b.Stored?
    ensures |BlockBits(b)| == 3 + b.pad + 8 * (4 + |b.bytes|)
  {
    BytesSize(b.bytes);
  }

  lemma BackToBytes(at: nat, pad: nat, n: nat, more: nat)
    requires (at + 3 + pad) % BYTE == 0 && (at + (3 + pad + 8 * (4 + n)) + more) % BYTE == 0
    ensures more % BYTE == 0
  {
  }

  ghost predicate StreamAhead(blocks: seq<Block>, rest: Path, tail: Path)
  {
    AllValid(blocks) && LastMarked(blocks) && AlignedBack(blocks, tail) && rest == StreamBits(blocks) + tail
  }

  /** The first block is next in the stream; `more` is what follows it. */
  lemma FirstBlock(blocks: seq<Block>, rest: Path, tail: Path) returns (more: Path)
    requires StreamAhead(blocks, rest, tail)
    ensures blocks != [] && ValidBlock(blocks[0]) && rest == BlockBits(blocks[0]) + more
    ensures blocks[0].Stored? ==> |more| % BYTE == 0
    ensures if blocks[0].final then blocks[1..] == [] && more == tail else StreamAhead(blocks[1..], more, tail)
  {
    hide BlockBits;
    hide ValidBlock;
    var next := StreamBits(blocks[1..]);
    more := next + tail;
    assert BlockBits(blocks[0]) + next + tail == BlockBits(blocks[0]) + more;
    if blocks[0].final {
      assert blocks[1..] == [] && [] + tail == tail;
    } else {
      assert forall i :: 0 <= i < |blocks[1..]| ==> blocks[1..][i] == blocks[i + 1];
    }
  }

  /** The result is what the blocks stand for, and of the input just their bytes were used. */
  ghost predicate Answers(blocks: seq<Block>, end: nat, bytes: seq<nat>, tail: Path, status: Status, out: seq<nat>, used: nat)
  {
    && AllValid(blocks)
    && var goal := StreamEffect([], blocks, end);
       && status == goal.status
       && |out| <= end && (status == BlockDone ==> out == goal.out && Remaining(bytes, used, tail[|tail| % BYTE..]))
  }

  /** Where reading a stream that was sent stands: the blocks that are left do to the output so far what all
      of them do to an empty one. */
  ghost predicate Upcoming(todo: seq<Block>, p: Place, tail: Path, end: nat, goal: Outcome)
  {
    StreamAhead(todo, p.rest, tail) && AllValid(todo) && StreamEffect(p.out, todo, end) == goal && |p.out| <= end
  }

  ghost predicate Arrived(p: Place, l: Link, tail: Path, end: nat, goal: Outcome)
  {
    l.status == goal.status && |p.out| <= end && (l.status == BlockDone ==> l.last && p.out == goal.out && p.rest == tail)
  }

  lemma UpcomingNext(todo: seq<Block>, p: Place, l: Link, p': Place, tail: Path, end: nat, goal: Outcome)
    requires Upcoming(todo, p, tail, end, goal) && LinkReads(p, end, l, p')
    ensures if GoesOn(l) then todo != [] && Upcoming(todo[1..], p', tail, end, goal) else Arrived(p', l, tail, end, goal)
  {
    hide ValidBlock;
    hide BlockBits;
    hide BlockReads;
    hide StreamAhead;
    hide Effect;
    var more := FirstBlock(todo, p.rest, tail);
    BlockBack(todo[0], more, p.rest, p.out, end, l.trace, l.status, l.last, p'.rest, p'.out);
    if todo[0].final {
      EffectDone(p'.out, todo[1..], end);
    } else {
      AheadValid(todo[1..], more, tail);
    }
  }

  lemma EffectDone(out: seq<nat>, blocks: seq<Block>, end: nat)
    requires blocks == []
    ensures StreamEffect(out, blocks, end) == Outcome(BlockDone, out)
  {
  }

  lemma {:induction false} UpcomingAt(blocks: seq<Block>, c: Chain, bits: Path, tail: Path, end: nat, goal: Outcome, i: nat)
    requires ChainReads(bits, end, c) && i < |c.links| && Upcoming(blocks, c.places[0], tail, end, goal)
    ensures i <= |blocks| && Upcoming(blocks[i..], c.places[i], tail, end, goal)
    decreases i
  {
    hide LinkReads;
    hide Upcoming;
    if i == 0 {
      assert blocks[0..] == blocks;
    } else {
      UpcomingAt(blocks, c, bits, tail, end, goal, i - 1);
      var l := c.links[i - 1];
      UpcomingNext(blocks[i - 1..], c.places[i - 1], l, c.places[i], tail, end, goal);
      assert blocks[i - 1..][1..] == blocks[i..];
    }
  }

  /** A stream of valid blocks is read as what they stand for, and never overflows. */
  lemma StreamBack(blocks: seq<Block>, bytes: seq<nat>, tail: Path, end: nat, c: Chain, used: nat)
    requires StreamAhead(blocks, BytesBits(bytes), tail) && ChainReads(BytesBits(bytes), end, c) && Finished(c)
    requires var n := |c.links|;
             c.links[n - 1].status == BlockDone ==> Remaining(bytes, used, FromByte(c.places[n].rest))
    ensures var n := |c.links|; Answers(blocks, end, bytes, tail, c.links[n - 1].status, c.places[n].out, used)
    ensures !Overflows(BytesBits(bytes), end)
  {
    hide BytesBits;
    hide StreamAhead;
    hide StreamEffect;
    hide LinkReads;
    hide Remaining;
    hide Overflows;
    var bits, n := BytesBits(bytes), |c.links|;
    AheadValid(blocks, bits, tail);
    var goal := StreamEffect([], blocks, end);
    assert Upcoming(blocks, c.places[0], tail, end, goal);
    UpcomingAt(blocks, c, bits, tail, end, goal, n - 1);
    var l := c.links[n - 1];
    UpcomingNext(blocks[n - 1..], c.places[n - 1], l, c.places[n], tail, end, goal);
    ChainWithin(bits, end, c);
  }

  /** What is left behind the rest of the byte. */
  ghost function FromByte(rest: Path): Path
  {
    rest[|rest| % BYTE..]
  }

  /** Decompresses into the part of `out` before `end`; `used` bytes of the input were needed. */
  method Inflate(bytes: seq<nat>, out: array<nat>, end: nat) returns (status: Status, cur: nat, used: nat, ghost c: Chain)
    requires AllBytes(bytes) && end + 3 <= out.Length
    modifies out
    ensures cur <= end + 3 && (cur <= end <==> !Overflows(BytesBits(bytes), end))
    ensures ChainReads(BytesBits(bytes), end, c) && Finished(c)
    ensures var n := |c.links|;
            && status == c.links[n - 1].status && out[..cur] == c.places[n].out
            && (status == BlockDone ==> Remaining(bytes, used, FromByte(c.places[n].rest)))
    ensures forall k :: end + 3 <= k < out.Length ==> out[k] == old(out[k])
  {
    hide BytesBits;
    hide BlockReads;
    hide Overflows;
    hide Buffered;
    hide Remaining;
    hide StandsAt;
    var inflater := new Inflater();
    var r := new BitReader(bytes);
    ghost var bits := BytesBits(bytes);
    status, cur, used, c := BlockDone, 0, 0, Start(bits);
    assert out[..0] == [];
    StartStands(bits, end);
    var last := false;
    while !last
      invariant inflater.Shape() && fresh(inflater.Parts()) && fresh(r) && r.Valid() && r.input == bytes
      invariant cur <= end + 3 && StandsAt(bits, end, c, BlockDone, last, Place(r.rest, out[..cur]))
      invariant last ==> status == BlockDone
      invariant forall k :: end + 3 <= k < out.Length ==> out[k] == old(out[k])
      decreases if last then 0 else 1, |r.rest|
    {
      ghost var p, t := Place(r.rest, out[..cur]), Trace([], []);
      status, last, cur, t := inflater.ReadBlock(r, out, end, cur);
      ghost var q := Place(r.rest, out[..cur]);
      StandsNext(bits, end, c, p, Link(t, status, last), q);
      c := Extended(c, Link(t, status, last), q);
      if status != BlockDone {
        StandsEnd(bits, end, c, status, last, q);
        return;
      }
    }
    StandsEnd(bits, end, c, BlockDone, true, Place(r.rest, out[..cur]));
    r.PutBack();
    used := r.pos;
  }

  lemma AheadValid(blocks: seq<Block>, rest: Path, tail: Path)
    requires StreamAhead(blocks, rest, tail)
    ensures AllValid(blocks)
  {
  }

  // ----- there and back

  /** Behind the stream and the bits that fill up its last byte come other bytes. */
  lemma FollowedBy(blocks: seq<Block>, bytes: seq<nat>, pad: Path, extra: seq<nat>, tail: Path)
    requires AllValid(blocks) && LastMarked(blocks) && Aligned(blocks, 0)
    requires BytesBits(bytes) == StreamBits(blocks) + pad && tail == pad + BytesBits(extra)
    ensures StreamAhead(blocks, BytesBits(bytes + extra), tail)
  {
    hide BytesBits;
    hide StreamBits;
    hide ValidBlock;
    hide Aligned;
    hide LastMarked;
    hide AlignedBack;
    BytesConcat(bytes, extra);
    BytesSize(bytes);
    BytesSize(extra);
    assert StreamBits(blocks) + pad + BytesBits(extra) == StreamBits(blocks) + tail;
    WholeBytes(|StreamBits(blocks)| + |tail|, |bytes| + |extra|);
    AlignedBoth(blocks, 0, tail);
  }

  lemma WholeBytes(n: nat, k: nat)
    requires n == 8 * k
    ensures n % BYTE == 0
  {
  }

  lemma TailBytes(pad: Path, extra: seq<nat>, tail: Path)
    requires |pad| < BYTE && tail == pad + BytesBits(extra)
    ensures |tail| % BYTE == |pad| && tail[|pad|..] == BytesBits(extra)
  {
    BytesSize(extra);
  }

  lemma UsedAll(bytes: seq<nat>, extra: seq<nat>, used: nat)
    requires Remaining(bytes + extra, used, BytesBits(extra))
    ensures used == |bytes|
  {
    BytesSize((bytes + extra)[used..]);
    BytesSize(extra);
  }

  /** For all data, all codes that spell it, all choices of the compressor, all buffer sizes and whatever
      bytes follow: decompression gives the data back and stops behind the last byte of the stream, or
      stops for room exactly when the data does not fit; it never leaves the buffer. */
  method RoundTrip(data: seq<nat>, codes: seq<LzCode>, c: Choices, end: nat, extra: seq<nat>)
    returns (status: Status, out: array<nat>, cur: nat, used: nat, sent: nat)
    requires ValidCodes(codes) && Spells(data, 0, codes) && AllBytes(extra)
    ensures cur <= end <= out.Length
    ensures if |data| <= end then status == BlockDone && out[..cur] == data && used == sent else status == HasMoreOutput
  {
    hide BytesBits;
    hide StreamEffect;
    hide StreamBits;
    hide StreamSpells;
    hide AllValid;
    hide LastMarked;
    hide Aligned;
    hide StreamAhead;
    hide Remaining;
    hide Spells;
    hide Overflows;
    hide ChainReads;
    var bytes;
    ghost var blocks, pad, c';
    bytes, blocks, pad := Deflate(data, codes, c);
    sent := |bytes|;
    ghost var tail := pad + BytesBits(extra);
    FollowedBy(blocks, bytes, pad, extra, tail);
    TailBytes(pad, extra, tail);
    out := new nat[end + 3];
    status, cur, used, c' := Inflate(bytes + extra, out, end);
    StreamBack(blocks, bytes + extra, tail, end, c', used);
    assert data[..0] == [];
    SpelledStream(data, 0, blocks, end);
    if status == BlockDone {
      UsedAll(bytes, extra, used);
    }
  }
}
