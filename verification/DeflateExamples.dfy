/** Whole streams of DEFLATE, byte by byte: what the decompressor makes of them. */
module DeflateExamples {
  import opened Bits
  import opened BitStream
  import opened Blocks
  import opened CanonicalCode
  import opened CodeLengthRle
  import opened Common
  import opened DeflateStandard
  import opened DeflateStream
  import opened DynamicHeader
  import opened LzCodes
  import opened LzExpand
  import opened LzStream
  import opened LzTables
  import opened StaticCode
  import opened StreamDecoder

  // ----- bits as numbers

  /** The `n` low bits of `x` in opposite order. */
  function Mirror(x: nat, n: nat): nat
  {
    if n == 0 then 0 else Mirror(x / 2, n - 1) + if x % 2 == 1 then Pow2(n - 1) else 0
  }

  lemma MirrorStep(x: nat, q: nat, r: nat, n: nat, w: nat)
    requires x == 2 * q + r && r < 2 && w == Pow2(n)
    ensures Mirror(x, n + 1) == Mirror(q, n) + r * w
  {
    hide Pow2;
    assert x / 2 == q && x % 2 == r;
  }

  lemma FiveMirrored(x: nat, a: nat, b: nat, c: nat, d: nat, e: nat)
    requires a < 2 && b < 2 && c < 2 && d < 2 && e < 2 && x == 16 * a + 8 * b + 4 * c + 2 * d + e
    ensures Mirror(x, 5) == a + 2 * b + 4 * c + 8 * d + 16 * e
  {
    Powers();
    hide Pow2;
    assert Mirror(0, 0) == 0;
    hide Mirror;
    var x2 := 2 * a + b;
    var x3 := 2 * x2 + c;
    var x4 := 2 * x3 + d;
    MirrorStep(a, 0, a, 0, 1);
    MirrorStep(x2, a, b, 1, 2);
    MirrorStep(x3, x2, c, 2, 4);
    MirrorStep(x4, x3, d, 3, 8);
    MirrorStep(x, x4, e, 4, 16);
  }

  lemma SevenMirrored(x: nat, a: nat, b: nat, c: nat, d: nat, e: nat, f: nat, g: nat)
    requires a < 2 && b < 2 && c < 2 && d < 2 && e < 2 && f < 2 && g < 2
    requires x == 64 * a + 32 * b + 16 * c + 8 * d + 4 * e + 2 * f + g
    ensures Mirror(x, 7) == a + 2 * b + 4 * c + 8 * d + 16 * e + 32 * f + 64 * g
  {
    Powers();
    hide Pow2;
    hide Mirror;
    var x5 := 16 * a + 8 * b + 4 * c + 2 * d + e;
    var x6 := 2 * x5 + f;
    FiveMirrored(x5, a, b, c, d, e);
    MirrorStep(x6, x5, f, 5, 32);
    MirrorStep(x, x6, g, 6, 64);
  }

  lemma EightMirrored(x: nat, a: nat, b: nat, c: nat, d: nat, e: nat, f: nat, g: nat, h: nat)
    requires a < 2 && b < 2 && c < 2 && d < 2 && e < 2 && f < 2 && g < 2 && h < 2
    requires x == 128 * a + 64 * b + 32 * c + 16 * d + 8 * e + 4 * f + 2 * g + h
    ensures Mirror(x, 8) == a + 2 * b + 4 * c + 8 * d + 16 * e + 32 * f + 64 * g + 128 * h
  {
    Powers();
    hide Pow2;
    hide Mirror;
    var x7 := 64 * a + 32 * b + 16 * c + 8 * d + 4 * e + 2 * f + g;
    SevenMirrored(x7, a, b, c, d, e, f, g);
    MirrorStep(x, x7, h, 7, 128);
  }

  lemma OneBit(b: nat)
    requires b < 2
    ensures Low(b, 1) == [b == 1]
  {
  }

  lemma {:induction false} PathMirror(code: nat, n: nat)
    ensures PathOf(code, n) == Low(Mirror(code, n), n) && Mirror(code, n) < Pow2(n)
  {
    if n > 0 {
      PathMirror(code / 2, n - 1);
      BitBehind(Mirror(code / 2, n - 1), n - 1, code % 2);
      hide Low;
      hide Pow2;
    }
  }

  lemma BitBehind(x: nat, m: nat, b: nat)
    requires x < Pow2(m) && b < 2
    ensures var z := x + if b == 1 then Pow2(m) else 0; Low(x, m) + [b == 1] == Low(z, m + 1) && z < Pow2(m + 1)
  {
    OneBit(b);
    ShlDouble(1, m);
    hide Low;
    LowConcat(x, m, b, 1);
    ShlTimes(b, m);
  }

  /** Bits behind bits. */
  lemma Behind(p: Path, x: nat, m: nat, q: Path, y: nat, n: nat, w: nat, z: nat)
    requires p == Low(x, m) && q == Low(y, n) && w == Pow2(m) && x < w && z == x + y * w
    ensures p + q == Low(z, m + n)
  {
    LowConcat(x, m, y, n);
    ShlTimes(y, m);
  }

  lemma PowSplit(m: nat, n: nat)
    ensures Pow2(m + n) == Pow2(m) * Pow2(n)
  {
    ShlShl(1, m, n);
    ShlTimes(Pow2(m), n);
  }

  /** The number that bytes write, the first one lowest. */
  function LittleEndian(bytes: seq<nat>): nat
  {
    if bytes == [] then 0 else bytes[0] + 256 * LittleEndian(bytes[1..])
  }

  lemma {:induction false} BytesNumber(bytes: seq<nat>)
    requires AllBytes(bytes)
    ensures BytesBits(bytes) == Low(LittleEndian(bytes), 8 * |bytes|)
  {
    if bytes != [] {
      BytesNumber(bytes[1..]);
      FirstByte(bytes);
      var y := LittleEndian(bytes[1..]);
      Powers();
      hide Low;
      hide Pow2;
      hide BytesBits;
      assert LittleEndian(bytes) == bytes[0] + 256 * y;
      hide LittleEndian;
      Behind(Low(bytes[0], 8), bytes[0], 8, BytesBits(bytes[1..]), y, 8 * |bytes[1..]|, 256, bytes[0] + 256 * y);
    }
  }

  lemma FirstByte(bytes: seq<nat>)
    requires bytes != []
    ensures BytesBits(bytes) == Low(bytes[0], 8) + BytesBits(bytes[1..])
  {
    BytesConcat(bytes[..1], bytes[1..]);
    assert bytes == bytes[..1] + bytes[1..] && bytes[..1] == [bytes[0]] && [bytes[0]][..0] == [];
    assert BytesBits([bytes[0]]) == BytesBits([]) + Low(bytes[0], 8) == Low(bytes[0], 8);
  }

  /** The code of a static symbol, as the number whose low bits are sent. */
  lemma StaticBits(i: nat, n: nat, code: nat, x: nat)
    requires i < 288 && Used(StaticLit(), i) && StaticLit()[i] == n && Code(StaticLit(), i) == code && Mirror(code, n) == x
    ensures CodePath(StaticLit(), i) == Low(x, n)
  {
    PathMirror(code, n);
  }

  // ----- static blocks

  /** The body of a static block for the codes is sent as the `n` low bits of `x`. */
  ghost predicate Sends(codes: seq<LzCode>, x: nat, n: nat)
  {
    && ValidCodes(codes) && AllUsed(StaticLit(), StaticDist(), codes)
    && BodyBits(StaticLit(), StaticDist(), codes) == Low(x, n) && x < Pow2(n)
  }

  lemma SendsEnd()
    ensures Sends([], 0, 7)
  {
    StaticCodes(256);
    Powers();
    hide Pow2;
    hide Code;
    hide Low;
    hide Mirror;
    SevenMirrored(0, 0, 0, 0, 0, 0, 0, 0);
    StaticBits(256, 7, 0, 0);
  }

  lemma UsedMore(c: LzCode, codes: seq<LzCode>)
    requires ValidCodes(codes) && AllUsed(StaticLit(), StaticDist(), codes) && CodeUsed(StaticLit(), StaticDist(), c)
    ensures var all := [c] + codes;
            && ValidCodes(all) && AllUsed(StaticLit(), StaticDist(), all)
            && BodyBits(StaticLit(), StaticDist(), all)
               == LzBits(StaticLit(), StaticDist(), c) + BodyBits(StaticLit(), StaticDist(), codes)
  {
    hide LzBits;
    hide StaticLit;
    hide StaticDist;
    assert ([c] + codes)[1..] == codes;
  }

  lemma LiteralCode(byte: nat, code: nat)
    requires byte < 144 && code == Mirror(48 + byte, 8)
    ensures Used(StaticLit(), byte) && CodePath(StaticLit(), byte) == Low(code, 8) && code < 256
  {
    StaticCodes(byte);
    Powers();
    PathMirror(48 + byte, 8);
    hide Code;
    hide Low;
    hide Mirror;
    StaticBits(byte, 8, 48 + byte, code);
  }

  lemma LiteralBits(byte: nat)
    requires byte < 144
    ensures Used(StaticLit(), byte) && CodeUsed(StaticLit(), StaticDist(), Literal(byte))
    ensures LzBits(StaticLit(), StaticDist(), Literal(byte)) == CodePath(StaticLit(), byte)
  {
    StaticCodes(byte);
    hide CodePath;
    hide Code;
  }

  /** Bits in front of bits. */
  lemma InFront(p: Path, y: nat, m: nat, w: nat, q: Path, x: nat, n: nat, z: nat)
    requires p == Low(y, m) && w == Pow2(m) && y < w && q == Low(x, n) && x < Pow2(n) && z == y + x * w
    ensures p + q == Low(z, m + n) && z < Pow2(m + n)
  {
    hide Low;
    PowSplit(m, n);
    Behind(p, y, m, q, x, n, w, z);
    hide Pow2;
    assert (x + 1) * w <= Pow2(n) * w;
  }

  /** A code in front. */
  lemma SendsMore(c: LzCode, y: nat, m: nat, w: nat, codes: seq<LzCode>, x: nat, n: nat, z: nat)
    requires Sends(codes, x, n) && CodeUsed(StaticLit(), StaticDist(), c)
    requires LzBits(StaticLit(), StaticDist(), c) == Low(y, m) && w == Pow2(m) && y < w && z == y + x * w
    ensures Sends([c] + codes, z, m + n)
  {
    UsedMore(c, codes);
    InFront(LzBits(StaticLit(), StaticDist(), c), y, m, w, BodyBits(StaticLit(), StaticDist(), codes), x, n, z);
    hide CodeUsed;
    hide LzBits;
    hide ValidCodes;
    hide StaticLit;
    hide StaticDist;
    hide AllUsed;
    hide Low;
    hide Pow2;
    hide BodyBits;
  }

  /** A literal below 144 in front. */
  lemma SendsLiteral(byte: nat, codes: seq<LzCode>, x: nat, n: nat, code: nat)
    requires byte < 144 && Sends(codes, x, n) && code == Mirror(48 + byte, 8)
    ensures Sends([Literal(byte)] + codes, code + x * 256, 8 + n)
  {
    Powers();
    hide Pow2;
    hide Mirror;
    hide CodePath;
    hide CodeUsed;
    hide LzBits;
    hide Sends;
    hide Low;
    LiteralCode(byte, code);
    LiteralBits(byte);
    SendsMore(Literal(byte), code, 8, 256, codes, x, n, code + x * 256);
  }

  const ROOM := 64

  /** The bytes are the blocks, filled up to a whole byte, and stand for the data. */
  ghost predicate Example(bytes: seq<nat>, blocks: seq<Block>, pad: Path, data: seq<nat>)
  {
    && AllBytes(bytes) && AllValid(blocks) && LastMarked(blocks) && Aligned(blocks, 0)
    && BytesBits(bytes) == StreamBits(blocks) + pad && |pad| < BYTE
    && StreamEffect([], blocks, ROOM) == Outcome(BlockDone, data)
  }

  /** One block and the bits that fill up its last byte. */
  lemma OneBlock(bytes: seq<nat>, b: Block, x: nat, n: nat, pad: nat, data: seq<nat>)
    requires AllBytes(bytes) && ValidBlock(b) && b.final && (b.Stored? ==> (3 + b.pad) % BYTE == 0)
    requires BlockBits(b) == Low(x, n) && x < Pow2(n) && pad < 8 && n + pad == 8 * |bytes| && LittleEndian(bytes) == x
    requires Effect([], b, ROOM) == Outcome(BlockDone, data)
    ensures Example(bytes, [b], Low(0, pad), data)
  {
    hide ValidBlock;
    hide BlockBits;
    hide LittleEndian;
    hide Low;
    hide Effect;
    hide BytesBits;
    hide Pow2;
    BytesNumber(bytes);
    Behind(BlockBits(b), x, n, Low(0, pad), 0, pad, Pow2(n), x);
    var blocks := [b];
    assert blocks[1..] == [];
    assert StreamBits(blocks) == BlockBits(b) + StreamBits([]);
    assert BlockBits(b) + [] == BlockBits(b);
    assert Aligned([], |BlockBits(b)|) && Aligned(blocks, 0);
    EffectDone(data, [], ROOM);
    assert StreamEffect([], blocks, ROOM) == StreamEffect(data, [], ROOM);
  }

  lemma StaticBlock(codes: seq<LzCode>)
    requires ValidCodes(codes) && AllUsed(StaticLit(), StaticDist(), codes)
    ensures var b := Static(true, codes);
            ValidBlock(b) && BlockBits(b) == [true] + Low(1, 2) + BodyBits(StaticLit(), StaticDist(), codes)
  {
    hide Low;
    hide BodyBits;
    hide AllUsed;
    hide ValidCodes;
    hide StaticLit;
    hide StaticDist;
  }

  /** A static block of which the body is sent as `x`. */
  lemma StaticNumber(codes: seq<LzCode>, x: nat, n: nat)
    requires Sends(codes, x, n)
    ensures var b := Static(true, codes);
            ValidBlock(b) && BlockBits(b) == Low(3 + 8 * x, 3 + n) && 3 + 8 * x < Pow2(3 + n)
  {
    Powers();
    OneBit(1);
    hide Low;
    hide BodyBits;
    hide AllUsed;
    hide ValidCodes;
    hide ValidBlock;
    hide BlockBits;
    StaticBlock(codes);
    PowSplit(3, n);
    hide Pow2;
    Behind([true], 1, 1, Low(1, 2), 1, 2, 2, 3);
    Behind([true] + Low(1, 2), 3, 3, Low(x, n), x, n, 8, 3 + 8 * x);
  }

  lemma ExpandsOne(byte: nat)
    requires byte < 256
    ensures Expanded([], [Literal(byte)], ROOM) == Outcome(BlockDone, [byte])
  {
    var codes := [Literal(byte)];
    assert codes[1..] == [] && [] + [byte] == [byte];
    assert Expanded([byte], [], ROOM) == Outcome(BlockDone, [byte]);
  }

  lemma Three(a: nat, b: nat, c: nat)
    ensures LittleEndian([a, b, c]) == a + 256 * (b + 256 * c)
  {
    assert [a, b, c][1..] == [b, c] && [b, c][1..] == [c] && [c][1..] == [];
    assert LittleEndian([b, c]) == b + 256 * LittleEndian([c]);
  }


  lemma LiteralSends()
    ensures Sends([Literal(97)], 0x89, 15)
  {
    hide Mirror;
    hide Sends;
    EightMirrored(145, 1, 0, 0, 1, 0, 0, 0, 1);
    SendsEnd();
    SendsLiteral(97, [], 0, 7, 0x89);
    assert [Literal(97)] == [Literal(97)] + [];
  }

  lemma SmallBytes(a: nat, b: nat, c: nat)
    requires a < 256 && b < 256 && c < 256
    ensures AllBytes([a, b, c])
  {
  }

  lemma Power18()
    ensures Pow2(15) == 0x8000 && Pow2(18) == 0x4_0000
  {
    Powers();
    hide Pow2;
    PowSplit(8, 7);
    PowSplit(15, 3);
  }

  /** A static block with one literal. */
  lemma OneLiteral()
    ensures Example([0x4b, 0x04, 0x00], [Static(true, [Literal(97)])], Low(0, 6), [97])
  {
    hide Sends;
    hide Expanded;
    hide ValidBlock;
    hide BlockBits;
    hide Low;
    hide Pow2;
    hide LittleEndian;
    hide Example;
    hide AllBytes;
    LiteralSends();
    Power18();
    StaticNumber([Literal(97)], 0x89, 15);
    ExpandsOne(97);
    Three(0x4b, 0x04, 0x00);
    SmallBytes(0x4b, 0x04, 0x00);
    OneBlock([0x4b, 0x04, 0x00], Static(true, [Literal(97)]), 0x44b, 18, 6, [97]);
  }

  // ----- literals and a match

  const LETTERS: seq<LzCode> := [Literal(97), Literal(98), Literal(99), Literal(100), Literal(101), Literal(102),
      Match(12, 6)]
  const LETTER_BYTES: seq<nat> := [0x4b, 0x4c, 0x4a, 0x4e, 0x49, 0x4d, 0x43, 0x26, 0x01]
  const LETTER_DATA: seq<nat> := [97, 98, 99, 100, 101, 102, 97, 98, 99, 100, 101, 102, 97, 98, 99, 100, 101, 102]

  /** Length 12 is symbol 265 with one extra bit, distance 6 is symbol 4 with one. */
  lemma MatchParts()
    ensures CodeUsed(StaticLit(), StaticDist(), Match(12, 6)) && Used(StaticLit(), 265) && Used(StaticDist(), 4)
    ensures LzBits(StaticLit(), StaticDist(), Match(12, 6))
            == CodePath(StaticLit(), 265) + ([true] + (CodePath(StaticDist(), 4) + [true]))
  {
    StaticCodes(265);
    StaticDistances(4);
    hide Code;
    hide CodePath;
    assert Low(9, 1) == [true] && Low(5, 1) == [true];
  }

  lemma LengthCode()
    ensures Used(StaticLit(), 265) && CodePath(StaticLit(), 265) == Low(72, 7)
  {
    StaticCodes(265);
    hide Code;
    hide Low;
    hide Mirror;
    SevenMirrored(9, 0, 0, 0, 1, 0, 0, 1);
    StaticBits(265, 7, 9, 72);
  }

  lemma DistanceCode()
    ensures Used(StaticDist(), 4) && CodePath(StaticDist(), 4) == Low(4, 5)
  {
    StaticDistances(4);
    hide Code;
    hide Low;
    hide Mirror;
    FiveMirrored(4, 0, 0, 1, 0, 0);
    PathMirror(4, 5);
  }

  lemma MatchBits()
    ensures CodeUsed(StaticLit(), StaticDist(), Match(12, 6))
            && LzBits(StaticLit(), StaticDist(), Match(12, 6)) == Low(9416, 14)
  {
    MatchParts();
    LengthCode();
    DistanceCode();
    OneBit(1);
    Powers();
    hide Low;
    hide Pow2;
    hide CodePath;
    hide LzBits;
    hide CodeUsed;
    var len, dist := CodePath(StaticLit(), 265), CodePath(StaticDist(), 4);
    Behind(dist, 4, 5, [true], 1, 1, 32, 36);
    Behind([true], 1, 1, dist + [true], 36, 6, 2, 73);
    Behind(len, 72, 7, [true] + (dist + [true]), 73, 7, 128, 9416);
  }

  lemma LettersFrom(k: nat)
    requires k <= 6
    ensures LETTERS[6..] == [Match(12, 6)] && (k < 6 ==> LETTERS[k..] == [Literal(97 + k)] + LETTERS[k + 1..])
  {
  }

  lemma LettersSend()
    ensures Sends(LETTERS, 2650484555978983817, 69)
  {
    hide Sends;
    hide Mirror;
    hide Low;
    hide LzBits;
    hide CodeUsed;
    LettersFrom(6);
    Power14();
    SendsEnd();
    MatchBits();
    SendsMore(Match(12, 6), 9416, 14, 0x4000, [], 0, 7, 9416);
    assert [Match(12, 6)] + [] == LETTERS[6..];
    LettersFrom(5);
    EightMirrored(150, 1, 0, 0, 1, 0, 1, 1, 0);
    SendsLiteral(102, LETTERS[6..], 9416, 21, 105);
    LettersFrom(4);
    EightMirrored(149, 1, 0, 0, 1, 0, 1, 0, 1);
    SendsLiteral(101, LETTERS[5..], 2410601, 29, 169);
    LettersFrom(3);
    EightMirrored(148, 1, 0, 0, 1, 0, 1, 0, 0);
    SendsLiteral(100, LETTERS[4..], 617114025, 37, 41);
    LettersFrom(2);
    EightMirrored(147, 1, 0, 0, 1, 0, 0, 1, 1);
    SendsLiteral(99, LETTERS[3..], 157981190441, 45, 201);
    LettersFrom(1);
    EightMirrored(146, 1, 0, 0, 1, 0, 0, 1, 0);
    SendsLiteral(98, LETTERS[2..], 40443184753097, 53, 73);
    LettersFrom(0);
    EightMirrored(145, 1, 0, 0, 1, 0, 0, 0, 1);
    SendsLiteral(97, LETTERS[1..], 10353455296792905, 61, 137);
    assert LETTERS[0..] == LETTERS;
  }

  lemma Power14()
    ensures Pow2(14) == 0x4000
  {
    Powers();
    hide Pow2;
    PowSplit(7, 7);
  }

  lemma {:induction false} LettersSpell(k: nat)
    requires k <= 6
    ensures Spells(LETTER_DATA, k, LETTERS[k..])
    decreases 6 - k
  {
    if k < 6 {
      LettersSpell(k + 1);
      LettersFrom(k);
      hide Spells;
      SpellsLiteral(LETTER_DATA, k, LETTERS[k..], LETTERS[k + 1..]);
    } else {
      LettersFrom(6);
      assert [Match(12, 6)][1..] == [];
      assert Spells(LETTER_DATA, 18, []);
    }
  }

  lemma SpellsLiteral(data: seq<nat>, at: nat, codes: seq<LzCode>, more: seq<LzCode>)
    requires at < |data| && Spells(data, at + 1, more) && codes == [Literal(data[at])] + more
    ensures Spells(data, at, codes)
  {
    assert codes[1..] == more;
  }

  lemma LettersExpand()
    ensures ValidCodes(LETTERS) && Expanded([], LETTERS, ROOM) == Outcome(BlockDone, LETTER_DATA)
  {
    LettersSpell(0);
    hide Spells;
    hide Expanded;
    assert LETTERS[0..] == LETTERS && LETTER_DATA[..0] == [];
    SpelledExpands(LETTER_DATA, 0, LETTERS, ROOM);
  }

  lemma LetterNumber()
    ensures AllBytes(LETTER_BYTES) && LittleEndian(LETTER_BYTES) == 21203876447831870539
  {
    hide LittleEndian;
    var s := LETTER_BYTES;
    Three(s[6], s[7], s[8]);
    MoreBytes(s[5], s[6..]);
    MoreBytes(s[4], s[5..]);
    MoreBytes(s[3], s[4..]);
    MoreBytes(s[2], s[3..]);
    MoreBytes(s[1], s[2..]);
    MoreBytes(s[0], s[1..]);
    assert s[6..] == [s[6], s[7], s[8]] && s[5..] == [s[5]] + s[6..] && s[4..] == [s[4]] + s[5..];
    assert s[3..] == [s[3]] + s[4..] && s[2..] == [s[2]] + s[3..] && s[1..] == [s[1]] + s[2..] && s == [s[0]] + s[1..];
  }

  lemma MoreBytes(b: nat, bytes: seq<nat>)
    ensures LittleEndian([b] + bytes) == b + 256 * LittleEndian(bytes)
  {
    assert ([b] + bytes)[1..] == bytes;
  }

  /** A static block with six literals and a match of length 12 and distance 6. */
  lemma LettersAndMatch()
    ensures Example(LETTER_BYTES, [Static(true, LETTERS)], Low(0, 0), LETTER_DATA)
  {
    hide Sends;
    hide Expanded;
    hide ValidBlock;
    hide BlockBits;
    hide Low;
    hide Pow2;
    hide LittleEndian;
    hide Example;
    hide AllBytes;
    hide ValidCodes;
    LettersSend();
    StaticNumber(LETTERS, 2650484555978983817, 69);
    LettersExpand();
    LetterNumber();
    OneBlock(LETTER_BYTES, Static(true, LETTERS), 21203876447831870539, 72, 0, LETTER_DATA);
  }

  // ----- a stored block

  const STORED: seq<nat> := [0x01, 0x01, 0x00, 0xfe, 0xff, 0x61]

  lemma StoredParts()
    ensures ValidBlock(Stored(true, 5, [97]))
    ensures BlockBits(Stored(true, 5, [97]))
            == [true] + Low(0, 2) + (Low(0, 5) + (Low(1, 16) + (Low(0xfffe, 16) + Low(97, 8))))
  {
    hide Low;
    FirstByte([97]);
    assert [97][1..] == [] && BytesBits([97]) == Low(97, 8) + [] == Low(97, 8);
    hide BytesBits;
    var n, c, b := Low(1, 16), Low(0xfffe, 16), Low(97, 8);
    assert n + c + b == n + (c + b);
  }

  lemma StoredNumber()
    ensures ValidBlock(Stored(true, 5, [97])) && BlockBits(Stored(true, 5, [97])) == Low(0x61ff_fe00_0101, 48)
  {
    Powers();
    Power16();
    OneBit(1);
    StoredParts();
    hide ValidBlock;
    hide BlockBits;
    hide Pow2;
    hide Low;
    var n, c, b := Low(1, 16), Low(0xfffe, 16), Low(97, 8);
    InFront(c, 0xfffe, 16, 0x1_0000, b, 97, 8, 0x61_fffe);
    InFront(n, 1, 16, 0x1_0000, c + b, 0x61_fffe, 24, 0x61ff_fe00_01);
    InFront(Low(0, 5), 0, 5, 32, n + (c + b), 0x61ff_fe00_01, 40, 32 * 0x61ff_fe00_01);
    InFront([true], 1, 1, 2, Low(0, 2), 0, 2, 1);
    InFront([true] + Low(0, 2), 1, 3, 8, Low(0, 5) + (n + (c + b)), 32 * 0x61ff_fe00_01, 45, 0x61ff_fe00_0101);
  }

  lemma Power16()
    ensures Pow2(16) == 0x1_0000 && Pow2(48) == 0x1_0000_0000_0000
  {
    Powers();
    hide Pow2;
    PowSplit(8, 8);
    PowSplit(16, 16);
    PowSplit(32, 16);
  }

  lemma StoredBytesNumber()
    ensures AllBytes(STORED) && LittleEndian(STORED) == 0x61ff_fe00_0101
  {
    hide LittleEndian;
    var s := STORED;
    Three(s[3], s[4], s[5]);
    MoreBytes(s[2], s[3..]);
    MoreBytes(s[1], s[2..]);
    MoreBytes(s[0], s[1..]);
    assert s[3..] == [s[3], s[4], s[5]] && s[2..] == [s[2]] + s[3..] && s[1..] == [s[1]] + s[2..] && s == [s[0]] + s[1..];
  }

  /** One byte in a stored block. */
  lemma OneStored()
    ensures Example(STORED, [Stored(true, 5, [97])], Low(0, 0), [97])
  {
    StoredNumber();
    StoredBytesNumber();
    Power16();
    hide ValidBlock;
    hide BlockBits;
    hide Low;
    hide Pow2;
    hide LittleEndian;
    hide Example;
    hide AllBytes;
    assert [] + [97] == [97];
    OneBlock(STORED, Stored(true, 5, [97]), 0x61ff_fe00_0101, 48, 0, [97]);
  }

  // ----- a dynamic block

  /** All lengths are 0 but those of two symbols, which are 1. */
  ghost predicate Two(lens: seq<nat>, i: nat, j: nat)
  {
    i < j < |lens| && forall k: nat :: k < |lens| ==> lens[k] == if k == i || k == j then 1 else 0
  }

  lemma {:induction false} TwoCount(lens: seq<nat>, i: nat, j: nat, n: nat)
    requires Two(lens, i, j) && n <= |lens|
    ensures Count(lens[..n], 1) == (if i < n then 1 else 0) + (if j < n then 1 else 0)
  {
    hide Count;
    if n == 0 {
      CountNothing(lens[..0], 1);
    } else {
      TwoCount(lens, i, j, n - 1);
      CountStep(lens, n - 1, 1);
    }
  }

  /** Two symbols of length 1 make a complete code, in which they are 0 and 1. */
  lemma TwoCodes(lens: seq<nat>, i: nat, j: nat)
    requires Two(lens, i, j)
    ensures Complete(lens) && Used(lens, i) && Used(lens, j)
    ensures CodePath(lens, i) == [false] && CodePath(lens, j) == [true]
  {
    hide Count;
    hide Mass;
    hide FirstCode;
    TwoCount(lens, i, j, i);
    TwoCount(lens, i, j, j);
    TwoCount(lens, i, j, |lens|);
    assert lens[..|lens|] == lens;
    FirstCodeStep(lens, 1);
    assert PathOf(0, 1) == [false] && PathOf(1, 1) == [true];
    forall l | 1 < l < MAX_LENGTH + 1 ensures Count(lens, l) == 0 {
      NoneOfLength(lens, l);
    }
    FirstCodeSkips(lens, 1, MAX_LENGTH + 1);
    SixteenTimes(1);
    ShlDouble(1, MAX_LENGTH);
    TotalIsTwiceKraft(lens);
  }

  const SIZES: seq<nat> := [0, 1, 0, 0, 0, 0, 0, 0, 0, 0, 0, 0, 0, 0, 0, 0, 0, 0, 1]
  const TOKEN_LIST: seq<Token> := [Token(18, 86), Token(1, 0), Token(18, 127), Token(18, 9), Token(1, 0), Token(1, 0)]
  const DYNAMIC_BYTES: seq<nat> := [0x05, 0xc0, 0x81, 0x00, 0x00, 0x00, 0x00, 0x00, 0x90, 0x56, 0xff, 0x13, 0x08]

  /** Literal 97 and the end of the block have one bit, and so has distance symbol 0. */
  function LitSizes(): (s: seq<nat>)
    ensures |s| == 257 && forall k :: 0 <= k < 257 ==> s[k] == if k == 97 || k == 256 then 1 else 0
  {
    seq(257, k => if k == 97 || k == 256 then 1 else 0)
  }

  const HEADER := Header(257, 1, 18, SIZES, TOKEN_LIST)

  function ALetter(): Block
  {
    Dynamic(true, HEADER, LitSizes(), [1], [Literal(97)])
  }

  lemma ExpandNext(tokens: seq<Token>, t: Token, out: seq<nat>, more: seq<nat>)
    requires Expand(tokens) == Some(out) && Apply(out, t) == Some(more)
    ensures Expand(tokens + [t]) == Some(more)
  {
    assert (tokens + [t])[..|tokens|] == tokens;
  }

  lemma TokensExpand()
    ensures Expand(TOKEN_LIST) == Some(LitSizes() + [1])
  {
    var t := TOKEN_LIST;
    hide Expand;
    hide Apply;
    assert Expand([]) == Some([]) by { NothingExpands(); }
    var o1 := Repeat(0, 97);
    var o2 := o1 + [1];
    var o3 := o2 + Repeat(0, 138);
    var o4 := o3 + Repeat(0, 20);
    TokenZeros([], 86);
    ExpandNext([], t[0], [], o1);
    assert [] + [t[0]] == [t[0]];
    TokenLength(o1, 1);
    ExpandNext([t[0]], t[1], o1, o2);
    TokenZeros(o2, 127);
    ExpandNext([t[0]] + [t[1]], t[2], o2, o3);
    TokenZeros(o3, 9);
    ExpandNext([t[0]] + [t[1]] + [t[2]], t[3], o3, o4);
    TokenLength(o4, 1);
    ExpandNext([t[0]] + [t[1]] + [t[2]] + [t[3]], t[4], o4, o4 + [1]);
    TokenLength(o4 + [1], 1);
    ExpandNext([t[0]] + [t[1]] + [t[2]] + [t[3]] + [t[4]], t[5], o4 + [1], o4 + [1] + [1]);
    assert t == [t[0]] + [t[1]] + [t[2]] + [t[3]] + [t[4]] + [t[5]];
    assert o4 + [1] + [1] == LitSizes() + [1];
  }

  lemma NothingExpands()
    ensures Expand([]) == Some([])
  {
  }

  lemma TokenZeros(out: seq<nat>, e: nat)
    ensures Apply(out, Token(18, e)) == Some(out + Repeat(0, 11 + e))
            && (out == [] ==> out + Repeat(0, 11 + e) == Repeat(0, 11 + e))
  {
  }

  lemma TokenLength(out: seq<nat>, l: nat)
    requires l < 16
    ensures Apply(out, Token(l, 0)) == Some(out + [l])
  {
  }

  lemma SizesMeet()
    ensures Two(SIZES, 1, 18) && Complete(SIZES) && C.Used(SIZES, 1) && C.Used(SIZES, 18) && SIZES[Order(18)] == 0
  {
    TwoCodes(SIZES, 1, 18);
  }

  lemma TokensMeet()
    ensures Decodable(SIZES, TOKEN_LIST)
  {
    SizesMeet();
    hide Complete;
  }

  lemma HeaderMeets()
    ensures HeaderFor(HEADER, LitSizes() + [1])
  {
    TokensExpand();
    TokensMeet();
    SizesMeet();
    hide Expand;
    hide Decodable;
    hide Complete;
    hide Order;
    hide LitSizes;
  }

  lemma BlockMeets()
    ensures ValidBlock(ALetter()) && Two(LitSizes(), 97, 256)
  {
    HeaderMeets();
    hide HeaderFor;
    TwoCodes(LitSizes(), 97, 256);
    hide Complete;
    assert UsedCount([1]) <= 1 by {
      assert [1][..0] == [];
    }
  }

  lemma SizesFrom(sizes: seq<nat>, i: nat, s: nat, x: nat, n: nat, z: nat)
    requires |sizes| == TOKENS && i < 18 && s == sizes[Order(i)] && s < 8 && z == s + x * 8
    requires SizesBits(sizes, i + 1, 18) == Low(x, n) && x < Pow2(n)
    ensures SizesBits(sizes, i, 18) == Low(z, 3 + n) && z < Pow2(3 + n)
  {
    Powers();
    hide Low;
    hide Pow2;
    hide Order;
    InFront(Low(s, 3), s, 3, 8, SizesBits(sizes, i + 1, 18), x, n, z);
  }

  lemma OrderOfSizes()
    ensures SIZES[Order(17)] == 1 && SIZES[Order(2)] == 1 && SIZES[Order(1)] == 0 && SIZES[Order(0)] == 0
    ensures forall i :: 3 <= i < 17 ==> SIZES[Order(i)] == 0
  {
  }

  lemma NoSizes(sizes: seq<nat>)
    requires |sizes| == TOKENS
    ensures SizesBits(sizes, 18, 18) == Low(0, 0) && 0 < Pow2(0)
  {
  }

  lemma LateSizes(sizes: seq<nat>)
    requires sizes == SIZES
    ensures SizesBits(sizes, 9, 18) == Low(16777216, 27) && 16777216 < Pow2(27)
  {
    OrderOfSizes();
    NoSizes(sizes);
    hide Order;
    hide Low;
    hide Pow2;
    hide SizesBits;
    SizesFrom(sizes, 17, 1, 0, 0, 1);
    SizesFrom(sizes, 16, 0, 1, 3, 8);
    SizesFrom(sizes, 15, 0, 8, 6, 64);
    SizesFrom(sizes, 14, 0, 64, 9, 512);
    SizesFrom(sizes, 13, 0, 512, 12, 4096);
    SizesFrom(sizes, 12, 0, 4096, 15, 32768);
    SizesFrom(sizes, 11, 0, 32768, 18, 262144);
    SizesFrom(sizes, 10, 0, 262144, 21, 2097152);
    SizesFrom(sizes, 9, 0, 2097152, 24, 16777216);
  }

  /** The length of symbol 18 is at place 2 and that of symbol 1 at place 17. */
  lemma SizesNumber(sizes: seq<nat>)
    requires sizes == SIZES
    ensures SizesBits(sizes, 0, 18) == Low(2251799813685312, 54) && 2251799813685312 < Pow2(54)
  {
    OrderOfSizes();
    LateSizes(sizes);
    hide Order;
    hide Low;
    hide Pow2;
    hide SizesBits;
    SizesFrom(sizes, 8, 0, 16777216, 27, 134217728);
    SizesFrom(sizes, 7, 0, 134217728, 30, 1073741824);
    SizesFrom(sizes, 6, 0, 1073741824, 33, 8589934592);
    SizesFrom(sizes, 5, 0, 8589934592, 36, 68719476736);
    SizesFrom(sizes, 4, 0, 68719476736, 39, 549755813888);
    SizesFrom(sizes, 3, 0, 549755813888, 42, 4398046511104);
    SizesFrom(sizes, 2, 1, 4398046511104, 45, 35184372088833);
    SizesFrom(sizes, 1, 0, 35184372088833, 48, 281474976710664);
    SizesFrom(sizes, 0, 0, 281474976710664, 51, 2251799813685312);
  }

  lemma ZerosToken(e: nat)
    requires e < 128
    ensures C.Used(SIZES, 18) && TokenBits(SIZES, Token(18, e)) == Low(1 + 2 * e, 8)
  {
    SizesMeet();
    TwoCodes(SIZES, 1, 18);
    Powers();
    OneBit(1);
    hide Complete;
    hide Two;
    hide C.CodePath;
    hide Low;
    hide Pow2;
    InFront([true], 1, 1, 2, Low(e, 7), e, 7, 1 + 2 * e);
  }

  lemma LengthToken()
    ensures C.Used(SIZES, 1) && TokenBits(SIZES, Token(1, 0)) == Low(0, 1)
  {
    SizesMeet();
    TwoCodes(SIZES, 1, 18);
    OneBit(0);
    hide Complete;
    hide Two;
    hide C.CodePath;
    assert [false] + [] == [false];
  }

  lemma TokenNumber(k: nat, y: nat, m: nat)
    requires k < 6 && y == (if TOKEN_LIST[k].code == 18 then 1 + 2 * TOKEN_LIST[k].extra else 0)
    requires m == if TOKEN_LIST[k].code == 18 then 8 else 1
    ensures C.Used(SIZES, TOKEN_LIST[k].code) && TokenBits(SIZES, TOKEN_LIST[k]) == Low(y, m) && y < Pow2(m)
  {
    Powers();
    hide TokenBits;
    hide Low;
    hide Pow2;
    LengthToken();
    ZerosToken(86);
    ZerosToken(127);
    ZerosToken(9);
  }

  lemma TokensUnfold(k: nat)
    requires k < 6 && Decodable(SIZES, TOKEN_LIST)
    ensures C.Used(SIZES, TOKEN_LIST[k].code) && Decodable(SIZES, TOKEN_LIST[k..]) && Decodable(SIZES, TOKEN_LIST[k + 1..])
    ensures TokensBits(SIZES, TOKEN_LIST[k..]) == TokenBits(SIZES, TOKEN_LIST[k]) + TokensBits(SIZES, TOKEN_LIST[k + 1..])
  {
    hide TokenBits;
    assert TOKEN_LIST[k..][1..] == TOKEN_LIST[k + 1..];
  }

  lemma TokensFrom(k: nat, y: nat, m: nat, w: nat, x: nat, n: nat, z: nat)
    requires k < 6 && Decodable(SIZES, TOKEN_LIST) && Decodable(SIZES, TOKEN_LIST[k + 1..])
    requires TokensBits(SIZES, TOKEN_LIST[k + 1..]) == Low(x, n) && x < Pow2(n)
    requires y == (if TOKEN_LIST[k].code == 18 then 1 + 2 * TOKEN_LIST[k].extra else 0)
    requires m == (if TOKEN_LIST[k].code == 18 then 8 else 1) && w == Pow2(m) && z == y + x * w
    ensures Decodable(SIZES, TOKEN_LIST[k..]) && TokensBits(SIZES, TOKEN_LIST[k..]) == Low(z, m + n) && z < Pow2(m + n)
  {
    TokenNumber(k, y, m);
    TokensUnfold(k);
    hide TokensBits;
    hide Decodable;
    hide TokenBits;
    hide Low;
    hide Pow2;
    InFront(TokenBits(SIZES, TOKEN_LIST[k]), y, m, w, TokensBits(SIZES, TOKEN_LIST[k + 1..]), x, n, z);
  }

  lemma TokensNumber()
    requires Decodable(SIZES, TOKEN_LIST)
    ensures TokensBits(SIZES, TOKEN_LIST) == Low(2621101, 27) && 2621101 < Pow2(27)
  {
    Powers();
    assert TOKEN_LIST[6..] == [] && Low(0, 0) == [] && TokensBits(SIZES, TOKEN_LIST[6..]) == [];
    hide Low;
    hide Pow2;
    hide TokensBits;
    hide Decodable;
    TokensFrom(5, 0, 1, 2, 0, 0, 0);
    TokensFrom(4, 0, 1, 2, 0, 1, 0);
    TokensFrom(3, 19, 8, 256, 0, 2, 19);
    TokensFrom(2, 255, 8, 256, 19, 10, 5119);
    TokensFrom(1, 0, 1, 2, 5119, 18, 10238);
    TokensFrom(0, 173, 8, 256, 10238, 19, 2621101);
    assert TOKEN_LIST[0..] == TOKEN_LIST;
  }

  lemma LetterBody()
    requires AllUsed(LitSizes(), [1], [Literal(97)])
    ensures BodyBits(LitSizes(), [1], [Literal(97)]) == Low(2, 2)
  {
    TwoCodes(LitSizes(), 97, 256);
    hide CodePath;
    hide LitSizes;
    assert [Literal(97)][1..] == [];
    assert BodyBits(LitSizes(), [1], []) == [true];
    assert Low(2, 2) == [false] + [true];
  }

  lemma CountsNumber()
    ensures CountsBits(HEADER) == Low(14336, 14)
  {
    Powers();
    hide Low;
    hide Pow2;
    var l, d, s := Low(0, 5), Low(0, 5), Low(14, 4);
    InFront(l, 0, 5, 32, d, 0, 5, 0);
    PowSplit(5, 5);
    InFront(l + d, 0, 10, 1024, s, 14, 4, 14336);
  }

  lemma DynamicParts()
    ensures ValidBlock(ALetter()) && AllUsed(LitSizes(), [1], [Literal(97)]) && Decodable(SIZES, TOKEN_LIST)
    ensures BlockBits(ALetter())
            == [true] + Low(2, 2) + (CountsBits(HEADER) + (SizesBits(SIZES, 0, 18)
               + (TokensBits(SIZES, TOKEN_LIST) + BodyBits(LitSizes(), [1], [Literal(97)]))))
  {
    BlockMeets();
    TokensMeet();
    HeaderMeets();
    hide HeaderFor;
    hide Decodable;
    hide LitSizes;
    hide AllUsed;
    hide CountsBits;
    hide SizesBits;
    hide TokensBits;
    hide BodyBits;
    hide Low;
    Regroup(CountsBits(HEADER), SizesBits(SIZES, 0, 18), TokensBits(SIZES, TOKEN_LIST),
        BodyBits(LitSizes(), [1], [Literal(97)]));
  }

  lemma Regroup(a: Path, b: Path, c: Path, d: Path)
    ensures a + b + c + d == a + (b + (c + d))
  {
  }

  lemma DynamicNumber()
    ensures ValidBlock(ALetter()) && BlockBits(ALetter()) == Low(640014200164570660897344831493, 100)
    ensures 640014200164570660897344831493 < Pow2(100)
  {
    DynamicParts();
    CountsNumber();
    SizesNumber(SIZES);
    TokensNumber();
    LetterBody();
    Powers();
    LargePowers();
    OneBit(1);
    hide ValidBlock;
    hide BlockBits;
    hide CountsBits;
    hide SizesBits;
    hide TokensBits;
    hide BodyBits;
    hide Decodable;
    hide AllUsed;
    hide LitSizes;
    hide Low;
    hide Pow2;
    var c, s, t, b := CountsBits(HEADER), SizesBits(SIZES, 0, 18), TokensBits(SIZES, TOKEN_LIST),
        BodyBits(LitSizes(), [1], [Literal(97)]);
    InFront(t, 2621101, 27, 0x800_0000, b, 2, 2, 271056557);
    InFront(s, 2251799813685312, 54, 0x40_0000_0000_0000, t + b, 271056557, 29, 4882920838657918250254400);
    InFront(c, 14336, 14, 0x4000, s + (t + b), 4882920838657918250254400, 83, 80001775020571332612168103936);
    InFront([true], 1, 1, 2, Low(2, 2), 2, 2, 5);
    InFront([true] + Low(2, 2), 5, 3, 8, c + (s + (t + b)), 80001775020571332612168103936, 97,
        640014200164570660897344831493);
  }

  lemma LargePowers()
    ensures Pow2(14) == 0x4000 && Pow2(27) == 0x800_0000 && Pow2(54) == 0x40_0000_0000_0000
  {
    Powers();
    hide Pow2;
    PowSplit(7, 7);
    PowSplit(13, 14);
    PowSplit(27, 27);
  }

  lemma LateBytes(s: seq<nat>)
    requires s == DYNAMIC_BYTES
    ensures LittleEndian(s[6..]) == 2273787203551232
  {
    hide LittleEndian;
    Three(s[10], s[11], s[12]);
    assert s[10..] == [s[10], s[11], s[12]];
    MoreBytes(s[9], s[10..]);
    assert s[9..] == [s[9]] + s[10..];
    MoreBytes(s[8], s[9..]);
    assert s[8..] == [s[8]] + s[9..];
    MoreBytes(s[7], s[8..]);
    assert s[7..] == [s[7]] + s[8..];
    MoreBytes(s[6], s[7..]);
    assert s[6..] == [s[6]] + s[7..];
  }

  lemma DynamicBytesNumber()
    ensures AllBytes(DYNAMIC_BYTES) && LittleEndian(DYNAMIC_BYTES) == 640014200164570660897344831493
  {
    hide LittleEndian;
    var s := DYNAMIC_BYTES;
    LateBytes(s);
    MoreBytes(s[5], s[6..]);
    assert s[5..] == [s[5]] + s[6..];
    MoreBytes(s[4], s[5..]);
    assert s[4..] == [s[4]] + s[5..];
    MoreBytes(s[3], s[4..]);
    assert s[3..] == [s[3]] + s[4..];
    MoreBytes(s[2], s[3..]);
    assert s[2..] == [s[2]] + s[3..];
    MoreBytes(s[1], s[2..]);
    assert s[1..] == [s[1]] + s[2..];
    MoreBytes(s[0], s[1..]);
    assert s[0..] == [s[0]] + s[1..];
    assert s[0..] == s;
  }

  /** One literal in a dynamic block. */
  lemma OneDynamic()
    ensures Example(DYNAMIC_BYTES, [ALetter()], Low(0, 4), [97])
  {
    DynamicNumber();
    DynamicBytesNumber();
    ExpandsOne(97);
    hide ValidBlock;
    hide BlockBits;
    hide Low;
    hide Pow2;
    hide LittleEndian;
    hide Example;
    hide AllBytes;
    hide Expanded;
    OneBlock(DYNAMIC_BYTES, ALetter(), 640014200164570660897344831493, 100, 4, [97]);
  }

  // ----- the decompressor

  /** What the decompressor makes of the examples: a literal and a match in static blocks, a stored and a dynamic block. */
  method InflateExamples(bytes: seq<nat>) returns (status: Status, out: seq<nat>, used: nat)
    requires AllBytes(bytes)
    ensures bytes == [0x4b, 0x04, 0x00] ==> status == BlockDone && out == [97] && used == 3
    ensures bytes == LETTER_BYTES ==> status == BlockDone && out == LETTER_DATA && used == 9
    ensures bytes == STORED ==> status == BlockDone && out == [97] && used == 6
    ensures bytes == DYNAMIC_BYTES ==> status == BlockDone && out == [97] && used == 13
  {
    hide Example;
    hide ChainReads;
    hide Overflows;
    hide Remaining;
    hide BytesBits;
    hide Low;
    var buffer := new nat[ROOM + 3];
    var cur;
    ghost var c;
    status, cur, used, c := Inflate(bytes, buffer, ROOM);
    out := buffer[..cur];
    OneLiteral();
    LettersAndMatch();
    OneStored();
    OneDynamic();
    if bytes == [0x4b, 0x04, 0x00] {
      ExampleReads(bytes, [Static(true, [Literal(97)])], Low(0, 6), [97], c, used);
    } else if bytes == LETTER_BYTES {
      ExampleReads(bytes, [Static(true, LETTERS)], Low(0, 0), LETTER_DATA, c, used);
    } else if bytes == STORED {
      ExampleReads(bytes, [Stored(true, 5, [97])], Low(0, 0), [97], c, used);
    } else if bytes == DYNAMIC_BYTES {
      ExampleReads(bytes, [ALetter()], Low(0, 4), [97], c, used);
    }
  }

  lemma ExampleReads(bytes: seq<nat>, blocks: seq<Block>, pad: Path, data: seq<nat>, c: Chain, used: nat)
    requires Example(bytes, blocks, pad, data) && ChainReads(BytesBits(bytes), ROOM, c) && Finished(c)
    requires var n := |c.links|;
             c.links[n - 1].status == BlockDone ==> Remaining(bytes, used, FromByte(c.places[n].rest))
    ensures var n := |c.links|; c.links[n - 1].status == BlockDone && c.places[n].out == data && used == |bytes|
  {
    hide BytesBits;
    hide StreamBits;
    hide StreamEffect;
    hide AllValid;
    hide LastMarked;
    hide Aligned;
    hide StreamAhead;
    hide Remaining;
    hide ChainReads;
    hide Overflows;
    NoBytes(bytes, pad);
    FollowedBy(blocks, bytes, pad, [], pad);
    StreamBack(blocks, bytes, pad, ROOM, c, used);
    TailBytes(pad, [], pad);
    UsedAll(bytes, [], used);
  }

  lemma NoBytes(bytes: seq<nat>, pad: Path)
    ensures BytesBits([]) == [] && pad + BytesBits([]) == pad && bytes + [] == bytes
  {
  }
}
