/** The blocks of a compressed stream: stored, static and dynamic ones. */
module Blocks {
  import opened Bits
  import opened BitStream
  import opened CanonicalCode
  import opened DynamicHeader
  import opened LzCodes
  import opened LzExpand
  import opened LzStream
  import opened StaticCode

  /** A block as it was sent: bytes, behind the bits that fill up a byte, or codes, behind the header that
      carries the code lengths if they are not the fixed ones. */
  datatype Block =
    | Stored(final: bool, pad: nat, bytes: seq<nat>)
    | Static(final: bool, codes: seq<LzCode>)
    | Dynamic(final: bool, h: Header, lit: seq<nat>, dist: seq<nat>, codes: seq<LzCode>)

  ghost predicate ValidBlock(b: Block)
  {
    match b
    case Stored(_, pad, bytes) => pad < BYTE && |bytes| < 0x10000 && AllBytes(bytes)
    case Static(_, codes) => ValidCodes(codes) && AllUsed(StaticLit(), StaticDist(), codes)
    case Dynamic(_, h, lit, dist, codes) =>
      && HeaderFor(h, lit + dist) && |lit| == h.lit && |dist| == h.dist
      && Accepted(lit) && Accepted(dist) && AllUsed(lit, dist, codes) && ValidCodes(codes)
  }

  /** A length, its complement and the bytes. */
  ghost function StoredBits(bytes: seq<nat>): Path
    requires |bytes| < 0x10000
  {
    Low(|bytes|, 16) + Low(0xFFFF - |bytes|, 16) + BytesBits(bytes)
  }

  ghost function Content(b: Block): Path
    requires ValidBlock(b)
  {
    match b
    case Stored(_, pad, bytes) => Low(0, pad) + StoredBits(bytes)
    case Static(_, codes) => BodyBits(StaticLit(), StaticDist(), codes)
    case Dynamic(_, h, lit, dist, codes) => HeaderBits(h, lit + dist) + BodyBits(lit, dist, codes)
  }

  ghost function Kind(b: Block): (k: nat)
    ensures k <= 2
  {
    match b
    case Stored(_, _, _) => 0
    case Static(_, _) => 1
    case Dynamic(_, _, _, _, _) => 2
  }

  ghost function BlockBits(b: Block): Path
    requires ValidBlock(b)
  {
    [b.final] + Low(Kind(b), 2) + Content(b)
  }

  /** What a block makes of the output so far, in a buffer of `room` bytes. */
  ghost function Effect(out: seq<nat>, b: Block, room: nat): Outcome
    requires ValidBlock(b)
  {
    if b.Stored? then
      if b.bytes == [] || |out| + |b.bytes| <= room then Outcome(BlockDone, out + b.bytes) else Outcome(HasMoreOutput, [])
    else Expanded(out, b.codes, room)
  }

  /** The block stands for the bytes of the data from `at` to `next`. */
  ghost predicate BlockSpells(b: Block, data: seq<nat>, at: nat, next: nat)
  {
    && at <= next <= |data|
    && if b.Stored? then b.bytes == data[at..next] else Spells(data[..next], at, b.codes)
  }

  /** A block that stands for data produces it, if it fits. */
  lemma SpelledEffect(b: Block, data: seq<nat>, at: nat, next: nat, room: nat)
    requires ValidBlock(b) && BlockSpells(b, data, at, next) && at <= room
    ensures Effect(data[..at], b, room) ==
            if next <= room then Outcome(BlockDone, data[..next]) else Outcome(HasMoreOutput, [])
  {
    hide Expanded;
    hide Spells;
    if b.Stored? {
      assert data[..at] + data[at..next] == data[..next];
    } else {
      assert data[..next][..at] == data[..at];
      SpelledExpands(data[..next], at, b.codes, room);
      if b.codes == [] {
        SpelledNothing(data[..next], at, b.codes);
      }
    }
  }

  lemma SpelledNothing(data: seq<nat>, at: nat, codes: seq<LzCode>)
    requires Spells(data, at, codes) && codes == []
    ensures at == |data|
  {
  }
}
