/** The compressor's buffer of literals and matches: eight codes share a byte of flags, which tell
    matches from literals.  Recording a code also counts the symbols it will be sent with. */
module LzCodes {
  import opened Bits
  import opened Common
  import D = HuffmanDepth
  import opened LzTables

  const LZ_CODE_BUF_SIZE: nat := 65536
  const MIN_MATCH_LEN: nat := 3
  const MAX_MATCH_LEN: nat := 258
  const LZ_DICT_SIZE: nat := 32768

  datatype LzCode = Literal(byte: nat) | Match(len: nat, dist: nat)

  predicate ValidCode(c: LzCode)
  {
    match c
    case Literal(byte) => byte < 256
    case Match(len, dist) => MIN_MATCH_LEN <= len <= MAX_MATCH_LEN && 1 <= dist <= LZ_DICT_SIZE
  }

  ghost predicate ValidCodes(codes: seq<LzCode>)
  {
    forall i :: 0 <= i < |codes| ==> ValidCode(codes[i])
  }

  /** The literal-table symbol of a code. */
  function LitSym(c: LzCode): (s: nat)
    requires ValidCode(c)
    ensures s < 286 && s != 256 && (s < 256 <==> c.Literal?)
  {
    match c
    case Literal(byte) => byte
    case Match(len, _) => LenSym(len - MIN_MATCH_LEN)
  }

  /** How many bytes a code stands for. */
  function Stride(c: LzCode): nat
  {
    if c.Literal? then 1 else c.len
  }

  ghost function Span(codes: seq<LzCode>): nat
  {
    if codes == [] then 0 else Span(codes[..|codes| - 1]) + Stride(codes[|codes| - 1])
  }

  lemma {:induction false} SpanBound(codes: seq<LzCode>)
    requires ValidCodes(codes)
    ensures Span(codes) <= 258 * |codes|
  {
    if codes != [] {
      SpanBound(codes[..|codes| - 1]);
    }
  }

  /** The bytes of a block are counted in 32 bits without overflow. */
  lemma SpanMore(codes: seq<LzCode>, c: LzCode)
    requires ValidCodes(codes) && ValidCode(c) && |codes| < 0xFFFF
    ensures Add32(Span(codes), Stride(c)) == Span(codes + [c])
  {
    hide Wrap32;
    assert (codes + [c])[..|codes|] == codes;
    SpanBound(codes);
    WrapSmall(Span(codes) + Stride(c));
  }

  // ----- the buffer

  /** The bytes of a code behind its flag. */
  function CodeBytes(c: LzCode): (b: seq<nat>)
    requires ValidCode(c)
    ensures |b| == if c.Literal? then 1 else 3
  {
    match c
    case Literal(byte) => [byte]
    case Match(len, dist) => [len - MIN_MATCH_LEN, (dist - 1) % 256, (dist - 1) / 256]
  }

  ghost function GroupBytes(group: seq<LzCode>): seq<nat>
    requires ValidCodes(group)
  {
    if group == [] then [] else CodeBytes(group[0]) + GroupBytes(group[1..])
  }

  /** The flags of a group of codes, that of the first code first. */
  ghost function Flags(group: seq<LzCode>): (p: Path)
    ensures |p| == |group|
  {
    seq(|group|, i requires 0 <= i < |group| => group[i].Match?)
  }

  ghost function Group(group: seq<LzCode>): seq<nat>
    requires ValidCodes(group)
  {
    [Lsb(Flags(group))] + GroupBytes(group)
  }

  /** The buffer for the codes: a byte of flags before every eight of them. */
  ghost function Packed(codes: seq<LzCode>): seq<nat>
    requires ValidCodes(codes)
  {
    if codes == [] then []
    else if |codes| <= 8 then Group(codes)
    else Group(codes[..8]) + Packed(codes[8..])
  }

  lemma {:induction false} PackedAppend(full: seq<LzCode>, group: seq<LzCode>)
    requires ValidCodes(full) && ValidCodes(group) && |full| % 8 == 0 && 1 <= |group| <= 8
    ensures ValidCodes(full + group) && Packed(full + group) == Packed(full) + Group(group)
  {
    hide Group;
    if full == [] {
      assert full + group == group;
    } else {
      PackedAppend(full[8..], group);
      assert (full + group)[..8] == full[..8] && (full + group)[8..] == full[8..] + group;
      if |full| == 8 {
        assert full[..8] == full && full[8..] == [];
      }
    }
  }

  lemma {:induction false} GroupAppend(group: seq<LzCode>, c: LzCode)
    requires ValidCodes(group) && ValidCode(c)
    ensures ValidCodes(group + [c]) && GroupBytes(group + [c]) == GroupBytes(group) + CodeBytes(c)
    ensures Flags(group + [c]) == Flags(group) + [c.Match?]
  {
    hide CodeBytes;
    if group == [] {
      assert group + [c] == [c];
    } else {
      GroupAppend(group[1..], c);
      assert (group + [c])[1..] == group[1..] + [c];
    }
  }

  lemma {:induction false} GroupSize(group: seq<LzCode>)
    requires ValidCodes(group)
    ensures |GroupBytes(group)| >= |group|
  {
    if group != [] {
      GroupSize(group[1..]);
    }
  }

  lemma {:induction false} PackedSize(codes: seq<LzCode>)
    requires ValidCodes(codes)
    ensures |Packed(codes)| >= |codes| + |codes| / 8
  {
    hide GroupBytes;
    if |codes| > 8 {
      PackedSize(codes[8..]);
      GroupSize(codes[..8]);
    } else {
      GroupSize(codes);
    }
  }

  // ----- counts

  /** How often a symbol of the literal table is sent for the codes. */
  ghost function LitTimes(codes: seq<LzCode>, s: nat): nat
    requires ValidCodes(codes)
  {
    if codes == [] then 0
    else LitTimes(codes[..|codes| - 1], s) + if LitSym(codes[|codes| - 1]) == s then 1 else 0
  }

  /** How often a symbol of the distance table is. */
  ghost function DistTimes(codes: seq<LzCode>, s: nat): nat
    requires ValidCodes(codes)
  {
    if codes == [] then 0
    else
      var c := codes[|codes| - 1];
      DistTimes(codes[..|codes| - 1], s) + if c.Match? && DistSym(c.dist - 1) == s then 1 else 0
  }

  lemma {:induction false} TimesPositive(codes: seq<LzCode>, i: nat)
    requires ValidCodes(codes) && i < |codes|
    ensures LitTimes(codes, LitSym(codes[i])) > 0
    ensures codes[i].Match? ==> DistTimes(codes, DistSym(codes[i].dist - 1)) > 0
  {
    hide LitSym;
    hide DistSym;
    if i < |codes| - 1 {
      TimesPositive(codes[..|codes| - 1], i);
    }
  }

  lemma {:induction false} TimesBound(codes: seq<LzCode>, s: nat)
    requires ValidCodes(codes)
    ensures LitTimes(codes, s) <= |codes| && DistTimes(codes, s) <= |codes|
    ensures s == 256 || s >= 286 ==> LitTimes(codes, s) == 0
    ensures s >= 30 ==> DistTimes(codes, s) == 0
  {
    if codes != [] {
      TimesBound(codes[..|codes| - 1], s);
      var c := codes[|codes| - 1];
      if c.Match? {
        DistanceBack(c.dist - 1);
      }
    }
  }

  ghost predicate Counted(codes: seq<LzCode>, lit: seq<nat>, dist: seq<nat>)
  {
    && ValidCodes(codes) && |lit| == 288 && |dist| == 32
    && (forall s :: 0 <= s < 288 ==> lit[s] == LitTimes(codes, s))
    && (forall s :: 0 <= s < 32 ==> dist[s] == DistTimes(codes, s))
  }

  /** All counts together are the number of codes. */
  lemma {:induction false} CountedSums(codes: seq<LzCode>, lit: seq<nat>, dist: seq<nat>)
    requires Counted(codes, lit, dist)
    ensures D.Sum(lit) == |codes| && D.Sum(dist) <= |codes|
  {
    hide DistSym;
    hide LitSym;
    if codes == [] {
      D.SumOfZeros(lit);
      D.SumOfZeros(dist);
    } else {
      var front, c := codes[..|codes| - 1], codes[|codes| - 1];
      var s := LitSym(c);
      D.SumOfUpdate(lit, s, lit[s] - 1);
      if c.Match? {
        DistanceBack(c.dist - 1);
        var d := DistSym(c.dist - 1);
        D.SumOfUpdate(dist, d, dist[d] - 1);
        CountedSums(front, lit[s := lit[s] - 1], dist[d := dist[d] - 1]);
      } else {
        CountedSums(front, lit[s := lit[s] - 1], dist);
      }
    }
  }

  // ----- recording

  ghost function Full(codes: seq<LzCode>): seq<LzCode>
  {
    codes[..|codes| - |codes| % 8]
  }

  ghost function Open(codes: seq<LzCode>): seq<LzCode>
  {
    codes[|codes| - |codes| % 8..]
  }

  /** The buffer holds the full groups, and behind its flags the open one. */
  ghost predicate Layout(buf: seq<nat>, codeAt: nat, flagsAt: nat, flagsLeft: nat, codes: seq<LzCode>)
  {
    && ValidCodes(codes) && (forall i :: 0 <= i < |buf| ==> buf[i] < 256)
    && flagsLeft == 8 - |codes| % 8 && flagsAt < codeAt <= |buf|
    && buf[..flagsAt] == Packed(Full(codes))
    && buf[flagsAt + 1..codeAt] == GroupBytes(Open(codes))
    && Shr(buf[flagsAt], flagsLeft) == Lsb(Flags(Open(codes)))
  }

  lemma LayoutFacts(buf: seq<nat>, codeAt: nat, flagsAt: nat, flagsLeft: nat, codes: seq<LzCode>)
    requires Layout(buf, codeAt, flagsAt, flagsLeft, codes)
    ensures |codes| + |codes| / 8 < codeAt && flagsAt < codeAt <= |buf| && 1 <= flagsLeft <= 8 && ValidCodes(codes)
    ensures forall i :: 0 <= i < |buf| ==> buf[i] < 256
  {
    PackedSize(Full(codes));
    GroupSize(Open(codes));
  }

  /** A code's flag is shifted in at the top of the byte. */
  lemma FlagStep(x: nat, f: nat, p: Path, b: bool)
    requires x < 256 && 1 <= f <= 8 && |p| == 8 - f && Shr(x, f) == Lsb(p)
    ensures var y := x / 2 + (if b then 128 else 0);
            y < 256 && Shr(y, f - 1) == Lsb(p + [b])
  {
    hide Shl;
    MaskShr(x / 2, f - 1);
    LsbConcat(p, [b]);
    assert Lsb([b]) == Bit(b);
    var r, q := Mask(x / 2, f - 1), Shr(x / 2, f - 1);
    if b {
      ShlShl(1, 8 - f, f - 1);
      SevenBits();
      ShlAdd(q, Pow2(8 - f), f - 1);
      MaskShrUnique(r, q + Pow2(8 - f), f - 1);
    } else {
      ShlZero(8 - f);
    }
  }

  lemma SevenBits()
    ensures Shl(1, 7) == 128
  {
  }

  lemma {:induction false} ByteShifted(x: nat)
    requires x < 256
    ensures Shr(x, 8) == 0
  {
    ShrFits(x, 8, 8);
    assert Pow2(8) == 256 && Pow2(0) == 1;
  }

  lemma {:induction false} ShrLess(x: nat, n: nat)
    ensures Shr(x, n) <= x
  {
    if n > 0 {
      ShrLess(x / 2, n - 1);
    }
  }

  lemma OpenMore(codes: seq<LzCode>, c: LzCode)
    ensures Full(codes) + Open(codes) == codes && |Full(codes)| % 8 == 0 && |Open(codes)| == |codes| % 8
    ensures |codes| % 8 < 7 ==> Full(codes + [c]) == Full(codes) && Open(codes + [c]) == Open(codes) + [c]
    ensures |codes| % 8 == 7 ==> Full(codes + [c]) == Full(codes) + (Open(codes) + [c]) && Open(codes + [c]) == []
  {
    var n, more := |codes|, codes + [c];
    if n % 8 < 7 {
      assert (n + 1) % 8 == n % 8 + 1;
    } else {
      assert (n + 1) % 8 == 0;
      assert more[..n + 1] == more;
    }
  }

  /** Storing a code and its flag leaves the rest of the buffer. */
  lemma Stored(buf: seq<nat>, at: nat, flagsAt: nat, b: seq<nat>, buf': seq<nat>)
    requires flagsAt < at && at + |b| <= |buf| && |buf'| == |buf|
    requires forall i :: 0 <= i < |buf| && i != flagsAt ==> buf'[i] == if at <= i < at + |b| then b[i - at] else buf[i]
    ensures buf'[..flagsAt] == buf[..flagsAt] && buf'[flagsAt + 1..at] == buf[flagsAt + 1..at]
    ensures buf'[at..at + |b|] == b
  {
  }

  /** The buffer after a code was recorded in the open group. */
  lemma Recorded(buf: seq<nat>, codeAt: nat, flagsAt: nat, flagsLeft: nat, codes: seq<LzCode>, c: LzCode, buf': seq<nat>)
    requires Layout(buf, codeAt, flagsAt, flagsLeft, codes) && ValidCode(c)
    requires |buf'| == |buf| && (forall i :: 0 <= i < |buf'| ==> buf'[i] < 256)
    requires codeAt + |CodeBytes(c)| < |buf|
    requires buf'[..flagsAt] == buf[..flagsAt] && buf'[flagsAt + 1..codeAt] == buf[flagsAt + 1..codeAt]
    requires buf'[codeAt..codeAt + |CodeBytes(c)|] == CodeBytes(c)
    requires buf'[flagsAt] == buf[flagsAt] / 2 + (if c.Match? then 128 else 0)
    ensures var at := codeAt + |CodeBytes(c)|;
            if flagsLeft > 1 then Layout(buf', at, flagsAt, flagsLeft - 1, codes + [c])
            else Layout(buf', at + 1, at, 8, codes + [c])
  {
    hide GroupBytes;
    hide Packed;
    hide CodeBytes;
    hide Lsb;
    hide Shr;
    var at, open := codeAt + |CodeBytes(c)|, Open(codes);
    OpenMore(codes, c);
    GroupAppend(open, c);
    FlagStep(buf[flagsAt], flagsLeft, Flags(open), c.Match?);
    assert buf'[flagsAt + 1..at] == buf'[flagsAt + 1..codeAt] + buf'[codeAt..at];
    if flagsLeft == 1 {
      PackedAppend(Full(codes), open + [c]);
      assert Shr(buf'[flagsAt], 0) == buf'[flagsAt] by { ShrNone(buf'[flagsAt]); }
      assert buf'[..at] == buf'[..flagsAt] + ([buf'[flagsAt]] + buf'[flagsAt + 1..at]);
      assert buf'[at + 1..at + 1] == [];
      EmptyGroup();
      ByteShifted(buf'[at]);
    }
  }

  lemma ShrNone(x: nat)
    ensures Shr(x, 0) == x
  {
  }

  lemma EmptyGroup()
    ensures GroupBytes([]) == [] && Lsb(Flags([])) == 0
  {
  }

  /** Closing the buffer: the flags move down, and a flags byte without codes is dropped. */
  lemma Closed(buf: seq<nat>, codeAt: nat, flagsAt: nat, flagsLeft: nat, codes: seq<LzCode>)
    requires Layout(buf, codeAt, flagsAt, flagsLeft, codes)
    ensures flagsLeft == 8 ==> buf[..codeAt - 1] == Packed(codes)
    ensures flagsLeft < 8 ==> buf[flagsAt := Shr(buf[flagsAt], flagsLeft)][..codeAt] == Packed(codes)
  {
    hide Lsb;
    hide Shr;
    hide Packed;
    hide GroupBytes;
    hide Flags;
    var full, open := Full(codes), Open(codes);
    assert full + open == codes;
    if flagsLeft == 8 {
      assert open == [] && full == codes;
      EmptyGroup();
      assert codeAt == flagsAt + 1;
    } else {
      PackedAppend(full, open);
      var flags := Shr(buf[flagsAt], flagsLeft);
      assert buf[flagsAt := flags][..codeAt] == buf[..flagsAt] + ([flags] + buf[flagsAt + 1..codeAt]);
    }
  }

  class LzBuffer {
    const codeBuf: array<nat>
    const litCount: array<nat>
    const distCount: array<nat>
    var codeAt: nat
    var flagsAt: nat
    var flagsLeft: nat
    var total: nat
    ghost var codes: seq<LzCode>

    ghost predicate Shape()
      reads codeBuf
    {
      && codeBuf.Length == LZ_CODE_BUF_SIZE && litCount.Length == 288 && distCount.Length == 32
      && codeBuf != litCount && codeBuf != distCount && litCount != distCount
      && forall i :: 0 <= i < codeBuf.Length ==> codeBuf[i] < 256
    }

    ghost predicate Valid()
      reads this, codeBuf, litCount, distCount
    {
      && Shape() && Layout(codeBuf[..], codeAt, flagsAt, flagsLeft, codes)
      && Counted(codes, litCount[..], distCount[..]) && total == Span(codes)
    }

    constructor ()
      ensures Valid() && fresh(codeBuf) && fresh(litCount) && fresh(distCount)
      ensures codes == [] && codeAt == 1
    {
      codeBuf := new nat[LZ_CODE_BUF_SIZE](_ => 0);
      litCount := new nat[288];
      distCount := new nat[32];
      new;
      Reset();
    }

    /** Starts a block.  The buffer keeps its old bytes, the first of which takes the flags. */
    method Reset()
      requires Shape()
      modifies this, litCount, distCount
      ensures Valid() && codes == [] && codeAt == 1
    {
      forall i | 0 <= i < 288 {
        litCount[i] := 0;
      }
      forall i | 0 <= i < 32 {
        distCount[i] := 0;
      }
      codeAt, flagsAt, flagsLeft, total := 1, 0, 8, 0;
      codes := [];
      ByteShifted(codeBuf[0]);
      assert codeBuf[..0] == [] && codeBuf[1..1] == [];
    }

    method Store(b: nat)
      requires codeBuf.Length == LZ_CODE_BUF_SIZE && codeAt < LZ_CODE_BUF_SIZE && b < 256
      modifies this`codeAt, codeBuf
      ensures codeAt == old(codeAt) + 1 && codeBuf[..] == old(codeBuf[..])[old(codeAt) := b]
    {
      codeBuf[codeAt] := b;
      codeAt := codeAt + 1;
    }

    /** Shifts in the flag of the code just stored and opens the next group after eight. */
    method Mark(isMatch: bool)
      requires codeBuf.Length == LZ_CODE_BUF_SIZE && flagsAt < codeAt < LZ_CODE_BUF_SIZE && flagsLeft > 0
      modifies this`codeAt, this`flagsAt, this`flagsLeft, codeBuf
      ensures codeBuf[..] == old(codeBuf[..])[old(flagsAt) := old(codeBuf[flagsAt]) / 2 + (if isMatch then 128 else 0)]
      ensures if old(flagsLeft) > 1
              then codeAt == old(codeAt) && flagsAt == old(flagsAt) && flagsLeft == old(flagsLeft) - 1
              else codeAt == old(codeAt) + 1 && flagsAt == old(codeAt) && flagsLeft == 8
    {
      codeBuf[flagsAt] := codeBuf[flagsAt] / 2 + (if isMatch then 128 else 0);
      flagsLeft := flagsLeft - 1;
      if flagsLeft == 0 {
        flagsLeft := 8;
        flagsAt := codeAt;
        codeAt := codeAt + 1;
      }
    }

    /** Adds one to a count, which is 16 bits wide. */
    method Count(counts: array<nat>, s: nat)
      requires s < counts.Length
      modifies counts
      ensures counts[..] == old(counts[..])[s := (old(counts[s]) + 1) % 0x10000]
    {
      counts[s] := (counts[s] + 1) % 0x10000;
    }

    method RecordLiteral(lit: nat)
      requires Valid() && lit < 256 && codeAt <= LZ_CODE_BUF_SIZE - 2
      modifies this, codeBuf, litCount
      ensures Valid() && codes == old(codes) + [Literal(lit)] && codeAt <= old(codeAt) + 2
    {
      hide Layout;
      hide Counted;
      hide ValidCodes;
      hide DistSym;
      hide LenSym;
      hide Span;
      hide Add32;
      ghost var c, buf, at := Literal(lit), codeBuf[..], codeAt;
      LayoutFacts(buf, codeAt, flagsAt, flagsLeft, codes);
      Store(lit);
      ghost var flags, left := flagsAt, flagsLeft;
      Mark(false);
      Stored(buf, at, flags, CodeBytes(c), codeBuf[..]);
      Recorded(buf, at, flags, left, codes, c, codeBuf[..]);
      CountedMore(codes, litCount[..], distCount[..], c);
      Count(litCount, lit);
      SpanMore(codes, c);
      total := Add32(total, 1);
      codes := codes + [c];
    }

    method StoreMatch(len: nat, dist: nat, ghost c: LzCode)
      requires Valid() && c == Match(len, dist) && ValidCode(c) && codeAt <= LZ_CODE_BUF_SIZE - 4
      modifies this`codeAt, this`flagsAt, this`flagsLeft, codeBuf
      ensures codeAt <= old(codeAt) + 4
      ensures Shape() && Layout(codeBuf[..], codeAt, flagsAt, flagsLeft, codes + [c])
    {
      hide Layout;
      hide Counted;
      hide ValidCodes;
      ghost var buf, at := codeBuf[..], codeAt;
      LayoutFacts(buf, codeAt, flagsAt, flagsLeft, codes);
      Store(len - MIN_MATCH_LEN);
      Store((dist - 1) % 256);
      Store((dist - 1) / 256);
      ghost var flags, left := flagsAt, flagsLeft;
      Mark(true);
      Stored(buf, at, flags, CodeBytes(c), codeBuf[..]);
      Recorded(buf, at, flags, left, codes, c, codeBuf[..]);
    }

    method RecordMatch(len: nat, dist: nat)
      requires Valid() && MIN_MATCH_LEN <= len <= MAX_MATCH_LEN && 1 <= dist <= LZ_DICT_SIZE
      requires codeAt <= LZ_CODE_BUF_SIZE - 4
      modifies this, codeBuf, litCount, distCount
      ensures Valid() && codes == old(codes) + [Match(len, dist)] && codeAt <= old(codeAt) + 4
    {
      hide Layout;
      hide Counted;
      hide ValidCodes;
      hide DistSym;
      hide LenSym;
      hide Span;
      hide Add32;
      ghost var c := Match(len, dist);
      LayoutFacts(codeBuf[..], codeAt, flagsAt, flagsLeft, codes);
      StoreMatch(len, dist, c);
      CountedMore(codes, litCount[..], distCount[..], c);
      Count(distCount, DistSym(dist - 1));
      Count(litCount, LenSym(len - MIN_MATCH_LEN));
      SpanMore(codes, c);
      total := Add32(total, len);
      codes := codes + [c];
    }

    /** Ends the block: the used part of the buffer holds all codes recorded. */
    method Close()
      requires Valid()
      modifies this`codeAt, codeBuf
      ensures Shape() && codeAt <= codeBuf.Length && codeBuf[..codeAt] == Packed(codes)
    {
      ShrLess(codeBuf[flagsAt], flagsLeft);
      Closed(codeBuf[..], codeAt, flagsAt, flagsLeft, codes);
      ghost var buf := codeBuf[..];
      codeBuf[flagsAt] := Shr(codeBuf[flagsAt], flagsLeft);
      if flagsLeft == 8 {
        codeAt := codeAt - 1;
        assert codeBuf[..codeAt] == buf[..codeAt];
      } else {
        assert codeBuf[..] == buf[flagsAt := Shr(buf[flagsAt], flagsLeft)];
      }
    }
  }

  lemma CountedMore(codes: seq<LzCode>, lit: seq<nat>, dist: seq<nat>, c: LzCode)
    requires Counted(codes, lit, dist) && ValidCode(c) && |codes| < 0xFFFF
    ensures |lit| == 288 && |dist| == 32
    ensures var s := LitSym(c);
            var lit' := lit[s := (lit[s] + 1) % 0x10000];
            if c.Literal? then Counted(codes + [c], lit', dist)
            else var d := DistSym(c.dist - 1);
                 d < 32 && Counted(codes + [c], lit', dist[d := (dist[d] + 1) % 0x10000])
  {
    hide DistSym;
    hide LitSym;
    assert (codes + [c])[..|codes|] == codes;
    TimesBound(codes, LitSym(c));
    if c.Match? {
      DistanceBack(c.dist - 1);
      TimesBound(codes, DistSym(c.dist - 1));
    }
  }
}
