/** A stream that makes the decompressor pass the end of its output buffer: a literal and then a length
    symbol that stands for no length. */
module LzOverrun {
  import opened Bits
  import opened BitStream
  import opened CanonicalCode
  import opened BlockDecoder
  import opened DeflateStream
  import opened LzDecoder
  import opened LzExpand
  import opened LzInflate
  import opened LzStream
  import opened LzTables
  import opened StaticCode
  import opened StreamDecoder
  import opened SymbolStream

  /** The literal 65, the length symbol 286 at distance 1 and the end of the block. */
  ghost function ShortBits(lit: seq<nat>, dist: seq<nat>, tail: Path): Path
    requires Used(lit, 65) && Used(lit, 286) && Used(lit, END_OF_BLOCK) && Used(dist, 0)
  {
    CodePath(lit, 65) + (CodePath(lit, 286) + (CodePath(dist, 0) + (CodePath(lit, END_OF_BLOCK) + tail)))
  }

  /** What comes next is read and played, if the run has got that far. */
  lemma ReadsOn(lit: seq<nat>, dist: seq<nat>, end: nat, t: Trace, i: nat, sent: Item, status: Status, rest: Path, out: seq<nat>)
    requires Run(lit, dist, end, t) && Follows(lit, dist, t, Halt(status), rest, out)
    requires i <= |t.items| && t.states[i].phase == Going && Comes(lit, dist, t.states[i].rest, sent)
    requires Fits(lit) && Fits(dist)
    ensures i < |t.items| && t.items[i] == sent
    ensures Plays(t.states[i].out, sent, end, t.states[i + 1].phase, t.states[i + 1].out)
    ensures t.states[i + 1].rest ==
            if sent.Copy? then sent.more[DistanceExtra(sent.dsym)..] else t.states[i].rest[lit[Symbol(sent)]..]
  {
    hide Taken;
    hide Plays;
    hide Comes;
    hide Fits;
    hide Unreadable;
    ComesTaken(lit, dist, t.states[i].rest, sent);
    if i < |t.items| {
      assert Step(lit, dist, end, t.states[i], t.items[i], t.states[i + 1]);
      TakenOnly(lit, dist, t.states[i].rest, t.items[i], t.states[i + 1].rest, sent);
    }
  }

  lemma Ended(lit: seq<nat>, dist: seq<nat>, end: nat, t: Trace, i: nat)
    requires Run(lit, dist, end, t) && i <= |t.items| && t.states[i].phase != Going
    ensures i == |t.items| && |t.states| == i + 1
  {
    hide Run;
    hide Step;
    RunSize(lit, dist, end, t);
    if i < |t.items| {
      GoingOn(lit, dist, end, t, i);
    }
  }

  lemma RunSize(lit: seq<nat>, dist: seq<nat>, end: nat, t: Trace)
    requires Run(lit, dist, end, t)
    ensures |t.states| == |t.items| + 1
  {
  }

  lemma GoingOn(lit: seq<nat>, dist: seq<nat>, end: nat, t: Trace, i: nat)
    requires Run(lit, dist, end, t) && i < |t.items|
    ensures t.states[i].phase == Going
  {
    var item := t.items[i];
  }

  /** Codes at the front of the bits. */
  lemma FrontCode(lens: seq<nat>, s: nat, more: Path)
    requires Used(lens, s)
    ensures var rest := CodePath(lens, s) + more;
            Begins(lens, s, rest) && rest[lens[s]..] == more
  {
    hide CodePath;
  }

  /** The length symbol 286 with the distance symbol 0 has length 0 and distance 1. */
  lemma ZeroLength(item: Item)
    requires item.Copy? && item.sym == 286 && item.dsym == 0
    ensures ValidCopy(item) && Length(item) == 0 && Distance(item) == 1
    ensures LengthExtra(29) == DistanceExtra(0) == 0
  {
    assert item.after[..0] == [] && item.more[..0] == [];
  }

  /** In a buffer of one byte every such run produces four. */
  lemma ShortRun(lit: seq<nat>, dist: seq<nat>, tail: Path, t: Trace, status: Status, rest: Path, out: seq<nat>)
    requires Used(lit, 65) && Used(lit, 286) && Used(lit, END_OF_BLOCK) && Used(dist, 0) && Fits(lit) && Fits(dist)
    requires Run(lit, dist, 1, t) && Initial(t) == State(ShortBits(lit, dist, tail), [], Going)
    requires Follows(lit, dist, t, Halt(status), rest, out)
    ensures |out| == 4 && status == BlockDone
  {
    hide CodePath;
    hide Begins;
    hide Fits;
    hide Length;
    hide Distance;
    hide Run;
    hide LengthExtra;
    hide DistanceExtra;
    var r3 := CodePath(lit, END_OF_BLOCK) + tail;
    var r2 := CodePath(dist, 0) + r3;
    var r1 := CodePath(lit, 286) + r2;
    FrontCode(lit, 65, r1);
    FrontCode(lit, 286, r2);
    FrontCode(dist, 0, r3);
    FrontCode(lit, END_OF_BLOCK, tail);
    var copy := Copy(286, r2, 0, r3);
    ZeroLength(copy);
    assert r2[0..] == r2 && r3[0..] == r3;
    ReadsOn(lit, dist, 1, t, 0, Byte(65), status, rest, out);
    ReadsOn(lit, dist, 1, t, 1, copy, status, rest, out);
    ReadsOn(lit, dist, 1, t, 2, End, status, rest, out);
    Ended(lit, dist, 1, t, 3);
  }

  /** The last block, in the static code. */
  ghost function ShortInput(tail: Path): Path
  {
    StaticHasCodes();
    [true] + Low(1, 2) + ShortBits(StaticLit(), StaticDist(), tail)
  }

  lemma StaticHasCodes()
    ensures Used(StaticLit(), 65) && Used(StaticLit(), 286) && Used(StaticLit(), END_OF_BLOCK) && Used(StaticDist(), 0)
  {
  }

  /** Any reading of it consists of one block, whose output passes the end of the buffer. */
  lemma ShortChain(tail: Path, c: Chain)
    requires ChainReads(ShortInput(tail), 1, c) && Finished(c)
    ensures |c.links| == 1 && c.links[0].status == BlockDone && |c.places[1].out| == 4 && Overflows(ShortInput(tail), 1)
  {
    hide ShortBits;
    hide CodePath;
    hide Used;
    hide Low;
    hide Run;
    hide Follows;
    hide Overflows;
    hide StaticLit;
    hide StaticDist;
    hide StoredReads;
    StaticHasCodes();
    var lit, dist, bits := StaticLit(), StaticDist(), ShortInput(tail);
    var l, p := c.links[0], c.places[1];
    KindBits(true, 1, ShortBits(lit, dist, tail));
    StaticAccepted();
    AcceptedFits(lit);
    AcceptedFits(dist);
    hide Accepted;
    hide Fits;
    ShortRun(lit, dist, tail, l.trace, l.status, p.rest, p.out);
    ChainWithin(bits, 1, c);
  }

  /** The bytes of that stream. */
  method ShortBytes() returns (bytes: seq<nat>, ghost tail: Path)
    ensures AllBytes(bytes) && BytesBits(bytes) == ShortInput(tail)
  {
    hide Holds;
    hide CodePath;
    hide BytesBits;
    hide Low;
    hide Lsb;
    hide ShortInput;
    hide Used;
    var lit, dist := StaticSizes();
    StaticHasCodes();
    StaticLengths();
    hide StaticLit;
    hide StaticDist;
    var litCodes := StaticTable(lit);
    var distCodes := StaticTable(dist);
    var w := new BitWriter();
    HeaderFits();
    w.Put(1, 1);
    w.Put(1, 2);
    PutSymbol(w, 65, lit, litCodes);
    PutSymbol(w, 286, lit, litCodes);
    PutSymbol(w, 0, dist, distCodes);
    PutSymbol(w, END_OF_BLOCK, lit, litCodes);
    ShortSize(lit, dist);
    ghost var pad := w.Align();
    bytes := w.Drain();
    tail := Low(0, pad);
    ShortStream(tail);
    assert BytesBits(bytes) + [] == BytesBits(bytes);
  }

  /** The decompressor on that stream, with a buffer of one byte. */
  method ShortBuffer() returns (status: Status, cur: nat)
    ensures status == BlockDone && cur == 4
  {
    hide BytesBits;
    hide ChainReads;
    hide Finished;
    hide Overflows;
    hide ShortInput;
    hide Remaining;
    var bytes;
    ghost var tail;
    bytes, tail := ShortBytes();
    var out := new nat[4];
    var used;
    ghost var c;
    status, cur, used, c := Inflate(bytes, out, 1);
    ShortChain(tail, c);
  }

  lemma ShortSize(lit: seq<nat>, dist: seq<nat>)
    requires Used(lit, 65) && Used(lit, 286) && Used(lit, END_OF_BLOCK) && Used(dist, 0) && Lengths(lit) && Lengths(dist)
    ensures |CodePath(lit, 65)| + |CodePath(lit, 286)| + |CodePath(dist, 0)| + |CodePath(lit, END_OF_BLOCK)| <= 60
  {
  }

  lemma HeaderFits()
    ensures 1 < Pow2(1) && 1 < Pow2(2) && Low(1, 1) == [true]
  {
  }

  lemma StaticLengths()
    ensures Lengths(StaticLit()) && Lengths(StaticDist())
  {
  }

  lemma ShortStream(tail: Path)
    requires Used(StaticLit(), 65) && Used(StaticLit(), 286) && Used(StaticLit(), END_OF_BLOCK) && Used(StaticDist(), 0)
    ensures var lit, dist := StaticLit(), StaticDist();
            [] + [true] + Low(1, 2) + CodePath(lit, 65) + CodePath(lit, 286) + CodePath(dist, 0) + CodePath(lit, END_OF_BLOCK) + tail
            == ShortInput(tail)
  {
    hide CodePath;
    hide Low;
    hide StaticLit;
    hide StaticDist;
  }
}
