/** What the decompressor does with any bits at all, block by block: everything but the bytes of a copy
    at distance 0 is decided by the bits and the size of the output buffer. */
module BlockDecoder {
  import opened Bits
  import opened BitStream
  import opened Blocks
  import opened CanonicalCode
  import opened Common
  import opened DynamicBlock
  import opened DynamicHeader
  import opened LzCodes
  import opened LzDecoder
  import opened LzExpand
  import opened LzInflate
  import opened LzStream
  import opened StaticCode

  // ----- stored blocks

  lemma {:induction false} BytesPrefix(a: seq<nat>, tail: Path, b: seq<nat>)
    requires AllBytes(a) && AllBytes(b) && BytesBits(a) + tail == BytesBits(b)
    ensures |a| <= |b| && a == b[..|a|] && tail == BytesBits(b[|a|..])
  {
    hide BytesBits;
    hide Low;
    BytesSize(a);
    BytesSize(b);
    if a == [] {
      NoBytes();
      assert b[0..] == b && [] + tail == tail;
    } else {
      BytesFirst(a);
      BytesFirst(b);
      var x, y := Low(a[0], BYTE), Low(b[0], BYTE);
      FirstByte(x, BytesBits(a[1..]), tail, y, BytesBits(b[1..]));
      LowByteOnce(a[0], b[0]);
      BytesPrefix(a[1..], tail, b[1..]);
      assert a == [a[0]] + a[1..] && b[..|a|] == [b[0]] + b[1..][..|a| - 1];
      assert b[1..][|a| - 1..] == b[|a|..];
    }
  }

  lemma FirstByte(x: Path, a: Path, tail: Path, y: Path, b: Path)
    requires |x| == |y| && x + a + tail == y + b
    ensures x == y && a + tail == b
  {
    assert x == (x + a + tail)[..|x|] && y == (y + b)[..|y|];
    assert a + tail == (x + a + tail)[|x|..] && b == (y + b)[|y|..];
  }

  lemma LowByteOnce(a: nat, b: nat)
    requires a < 256 && b < 256 && Low(a, BYTE) == Low(b, BYTE)
    ensures a == b
  {
    hide Low;
    ByteFits(a);
    ByteFits(b);
    LsbLow(a, BYTE);
    LsbLow(b, BYTE);
    MaskSmall(a, BYTE);
    MaskSmall(b, BYTE);
  }

  /** Bits are those of one sequence of bytes at most. */
  lemma BytesOnce(a: seq<nat>, b: seq<nat>)
    requires AllBytes(a) && AllBytes(b) && BytesBits(a) == BytesBits(b)
    ensures a == b
  {
    hide BytesBits;
    assert BytesBits(a) + [] == BytesBits(b);
    BytesPrefix(a, [], b);
    BytesSize(a);
    BytesSize(b);
  }

  ghost function Word(data: seq<nat>, i: nat): nat
    requires i + 2 <= |data|
  {
    data[i] + 256 * data[i + 1]
  }

  ghost predicate GoodLength(data: seq<nat>)
  {
    |data| >= 4 && Word(data, 0) + Word(data, 2) == 0xFFFF
  }

  /** As many bytes as are wanted, are there and have room. */
  ghost function Copyable(data: seq<nat>, out: seq<nat>, end: nat): (k: nat)
    requires GoodLength(data)
    ensures k <= Word(data, 0) && k <= |data| - 4
    ensures k > 0 ==> |out| + k <= end
    ensures k < Word(data, 0) && k < |data| - 4 ==> |out| + k >= end
  {
    var n, there := Word(data, 0), |data| - 4;
    var room := if |out| < end then end - |out| else 0;
    if n <= there && n <= room then n else if there <= room then there else room
  }

  /** The bytes of a stored block, length and complement first, are played. */
  ghost predicate StoredPlays(data: seq<nat>, out: seq<nat>, end: nat, status: Status, rest': Path, out': seq<nat>)
  {
    if !GoodLength(data) then status == Failed && out' == out
    else
      var n, k := Word(data, 0), Copyable(data, out, end);
      && out' == out + data[4..4 + k]
      && status == (if k == n then BlockDone else if |out'| >= end then HasMoreOutput else Failed)
      && (status == BlockDone ==> rest' == BytesBits(data[4 + n..]))
  }

  /** Behind the rest of the byte come the bytes of a stored block. */
  ghost predicate StoredReads(rest: Path, out: seq<nat>, end: nat, status: Status, rest': Path, out': seq<nat>)
  {
    exists data :: AllBytes(data) && rest[|rest| % BYTE..] == BytesBits(data) && StoredPlays(data, out, end, status, rest', out')
  }

  lemma StoredOnce(rest: Path, out: seq<nat>, u: seq<nat>, end: nat, status: Status, rest': Path, out': seq<nat>,
                   status': Status, rest'': Path, u': seq<nat>)
    requires |out| == |u| && StoredReads(rest, out, end, status, rest', out') && StoredReads(rest, u, end, status', rest'', u')
    ensures status == status' && |out'| == |u'| && (status == BlockDone ==> rest' == rest'')
  {
    hide BytesBits;
    var a :| AllBytes(a) && rest[|rest| % BYTE..] == BytesBits(a) && StoredPlays(a, out, end, status, rest', out');
    var b :| AllBytes(b) && rest[|rest| % BYTE..] == BytesBits(b) && StoredPlays(b, u, end, status', rest'', u');
    BytesOnce(a, b);
  }

  // ----- blocks of all kinds

  ghost function KindOf(rest: Path): nat
    requires |rest| >= 3
  {
    Lsb(rest[1..3])
  }

  /** The code lengths of a block, the fixed ones or those in its header. */
  ghost function TablesOf(kind: nat, rest: Path): Option<Tables>
  {
    if kind == 1 then Some(Tables(StaticLit(), StaticDist(), rest))
    else if kind == 2 && HeaderOf(rest).Some? && Accepted(HeaderOf(rest).value.lit) && Accepted(HeaderOf(rest).value.dist) then
      HeaderOf(rest)
    else None
  }

  ghost predicate Refused(out: seq<nat>, t: Trace, status: Status, out': seq<nat>)
  {
    t.items == [] && status == Failed && out' == out
  }

  /** One block behind the output so far: `t` is the run that decodes its body, if it has one. */
  ghost predicate BlockReads(rest: Path, out: seq<nat>, end: nat, t: Trace, status: Status, last: bool, rest': Path, out': seq<nat>)
  {
    if |rest| < 3 then Refused(out, t, status, out')
    else last == rest[0] && ContentReads(KindOf(rest), rest[3..], out, end, t, status, rest', out')
  }

  ghost predicate ContentReads(kind: nat, rest: Path, out: seq<nat>, end: nat, t: Trace, status: Status, rest': Path, out': seq<nat>)
  {
    if kind == 0 then t.items == [] && StoredReads(rest, out, end, status, rest', out')
    else
      match TablesOf(kind, rest)
      case None => Refused(out, t, status, out')
      case Some(tables) =>
        && Running(tables.lit, tables.dist, end, t, State(tables.rest, out, Going))
        && Follows(tables.lit, tables.dist, t, Halt(status), rest', out')
  }

  /** An item of the run passes the end of the buffer. */
  ghost predicate TraceOverruns(t: Trace, end: nat)
  {
    |t.states| == |t.items| + 1 &&
    exists k: nat {:trigger t.items[k]} :: k < |t.items| && Overruns(t.items[k], |t.states[k].out|, end)
  }

  lemma NoOverruns(t: Trace, end: nat)
    requires |t.states| == |t.items| + 1
    ensures !TraceOverruns(t, end) <==>
              forall k: nat {:trigger t.items[k]} :: k < |t.items| ==> !Overruns(t.items[k], |t.states[k].out|, end)
  {
    hide Overruns;
  }

  lemma StoredInside(rest: Path, out: seq<nat>, end: nat, status: Status, rest': Path, out': seq<nat>)
    requires StoredReads(rest, out, end, status, rest', out')
    ensures |out| <= |out'| && (|out'| <= end || out' == out)
  {
    hide BytesBits;
    var data :| AllBytes(data) && rest[|rest| % BYTE..] == BytesBits(data) && StoredPlays(data, out, end, status, rest', out');
  }

  /** A block stays within the buffer if and only if no item of its body overruns it. */
  lemma BlockInside(rest: Path, out: seq<nat>, end: nat, t: Trace, status: Status, last: bool, rest': Path, out': seq<nat>)
    requires BlockReads(rest, out, end, t, status, last, rest', out') && |out| <= end + 3
    ensures |out'| <= end + 3 && (|out'| <= end <==> |out| <= end && !TraceOverruns(t, end))
  {
    hide StoredReads;
    hide TablesOf;
    hide Run;
    hide Follows;
    hide TraceOverruns;
    if |rest| < 3 || KindOf(rest) == 0 || TablesOf(KindOf(rest), rest[3..]).None? {
      NoItemsOverrun(t, end);
      if |rest| >= 3 && KindOf(rest) == 0 {
        StoredInside(rest[3..], out, end, status, rest', out');
      }
    } else {
      var tables := TablesOf(KindOf(rest), rest[3..]).value;
      BodyWithin(tables.lit, tables.dist, end, t, status, rest', out');
    }
  }

  lemma NoItemsOverrun(t: Trace, end: nat)
    requires t.items == []
    ensures !TraceOverruns(t, end)
  {
  }

  lemma BodyWithin(lit: seq<nat>, dist: seq<nat>, end: nat, t: Trace, status: Status, rest: Path, out: seq<nat>)
    requires Run(lit, dist, end, t) && Follows(lit, dist, t, Halt(status), rest, out) && |Initial(t).out| <= end + 3
    ensures |out| <= end + 3 && (|out| <= end <==> |Initial(t).out| <= end && !TraceOverruns(t, end))
    ensures |Initial(t).out| <= end && !Used(lit, 286) && !Used(lit, 287) ==> |out| <= end
  {
    hide Step;
    hide Overruns;
    hide Follows;
    BodyInside(lit, dist, end, t, status, rest, out);
    NoOverruns(t, end);
  }

  /** The bits decide how a block is read. */
  lemma BlockOnce(rest: Path, end: nat, out: seq<nat>, t: Trace, status: Status, last: bool, rest': Path, out': seq<nat>,
                  u: seq<nat>, t': Trace, status': Status, last': bool, rest'': Path, u': seq<nat>)
    requires |out| == |u|
    requires BlockReads(rest, out, end, t, status, last, rest', out') && BlockReads(rest, u, end, t', status', last', rest'', u')
    ensures status == status' && |out'| == |u'| && (status == BlockDone ==> last == last' && rest' == rest'')
    ensures TraceOverruns(t, end) <==> TraceOverruns(t', end)
  {
    hide StoredReads;
    hide TablesOf;
    hide Run;
    hide Follows;
    hide TraceOverruns;
    if |rest| < 3 || KindOf(rest) == 0 || TablesOf(KindOf(rest), rest[3..]).None? {
      NoItemsOverrun(t, end);
      NoItemsOverrun(t', end);
      if |rest| >= 3 && KindOf(rest) == 0 {
        StoredOnce(rest[3..], out, u, end, status, rest', out', status', rest'', u');
      }
    } else {
      var tables := TablesOf(KindOf(rest), rest[3..]).value;
      BodyOnce(tables.lit, tables.dist, end, t, status, rest', out', t', status', rest'', u');
      SameOverruns(tables.lit, tables.dist, end, t, t');
    }
  }

  lemma SameOverruns(lit: seq<nat>, dist: seq<nat>, end: nat, t: Trace, u: Trace)
    requires Run(lit, dist, end, t) && Run(lit, dist, end, u) && t.items == u.items
    requires forall k: nat {:trigger t.states[k]} :: k <= |t.items| ==> |t.states[k].out| == |u.states[k].out|
    ensures TraceOverruns(t, end) <==> TraceOverruns(u, end)
  {
    hide Step;
    hide Overruns;
    NoOverruns(t, end);
    NoOverruns(u, end);
  }

  /** A table without codes for the length symbols 286 and 287 keeps a block within the buffer. */
  lemma BlockPlain(rest: Path, out: seq<nat>, end: nat, t: Trace, status: Status, last: bool, rest': Path, out': seq<nat>)
    requires BlockReads(rest, out, end, t, status, last, rest', out') && |out| <= end && Plain(rest)
    ensures |out'| <= end
  {
    hide StoredReads;
    hide TablesOf;
    hide Run;
    hide Follows;
    hide TraceOverruns;
    hide Used;
    if |rest| >= 3 {
      if KindOf(rest) == 0 {
        StoredInside(rest[3..], out, end, status, rest', out');
      } else if TablesOf(KindOf(rest), rest[3..]).Some? {
        var tables := TablesOf(KindOf(rest), rest[3..]).value;
        BodyWithin(tables.lit, tables.dist, end, t, status, rest', out');
      }
    }
  }

  /** The block that the bits begin with has no codes for the length symbols 286 and 287. */
  ghost predicate Plain(rest: Path)
  {
    |rest| >= 3 && TablesOf(KindOf(rest), rest[3..]).Some? ==>
      var lit := TablesOf(KindOf(rest), rest[3..]).value.lit;
      !Used(lit, 286) && !Used(lit, 287)
  }

  // ----- blocks that were sent

  lemma SixteenAsBytes(n: nat)
    requires n < 0x10000
    ensures Low(n, 16) == BytesBits([n % 256, n / 256])
  {
    hide Low;
    ByteFits(n % 256);
    Shl8(n / 256);
    LowConcat(n % 256, BYTE, n / 256, BYTE);
    NoBytes();
    BytesAdd([], n % 256);
    BytesAdd([n % 256], n / 256);
    assert [] + [n % 256] == [n % 256] && [n % 256] + [n / 256] == [n % 256, n / 256];
    assert [] + Low(n % 256, BYTE) == Low(n % 256, BYTE);
  }

  /** What is left once the rest of the byte is dropped. */
  lemma StoredAhead(b: Block, tail: Path, rest: Path)
    requires b.Stored? && ValidBlock(b) && |tail| % BYTE == 0 && rest == Content(b) + tail
    ensures var n := |b.bytes|;
            rest[|rest| % BYTE..] == Low(n, 16) + Low(0xFFFF - n, 16) + BytesBits(b.bytes) + tail
  {
    hide Low;
    hide BytesBits;
    var n := |b.bytes|;
    BytesSize(b.bytes);
    var p, l, m, body := Low(0, b.pad), Low(n, 16), Low(0xFFFF - n, 16), BytesBits(b.bytes);
    assert rest == p + (l + m + body + tail);
    assert |rest| == b.pad + 8 * (4 + n) + |tail|;
    assert |rest| % BYTE == b.pad;
  }

  /** The bytes of a stored block, length and complement first. */
  ghost function StoredBytes(bytes: seq<nat>): (data: seq<nat>)
    requires |bytes| < 0x10000
  {
    var n := |bytes|;
    var m := 0xFFFF - n;
    [n % 256, n / 256] + [m % 256, m / 256] + bytes
  }

  lemma StoredBytesBits(bytes: seq<nat>)
    requires |bytes| < 0x10000 && AllBytes(bytes)
    ensures AllBytes(StoredBytes(bytes)) && BytesBits(StoredBytes(bytes)) == StoredBits(bytes)
  {
    hide Low;
    hide BytesBits;
    var n := |bytes|;
    var m := 0xFFFF - n;
    SixteenAsBytes(n);
    SixteenAsBytes(m);
    BytesConcat([n % 256, n / 256], [m % 256, m / 256]);
    BytesConcat([n % 256, n / 256] + [m % 256, m / 256], bytes);
  }

  /** A stored block gives its bytes, or stops for room exactly when they do not fit. */
  lemma StoredBack(b: Block, tail: Path, rest: Path, out: seq<nat>, end: nat, status: Status, rest': Path, out': seq<nat>)
    requires b.Stored? && ValidBlock(b) && |tail| % BYTE == 0 && rest == Content(b) + tail
    requires StoredReads(rest, out, end, status, rest', out')
    ensures var goal := Effect(out, b, end);
            status == goal.status && (status == BlockDone ==> out' == goal.out && rest' == tail)
  {
    hide Low;
    hide BytesBits;
    var data :| AllBytes(data) && rest[|rest| % BYTE..] == BytesBits(data) && StoredPlays(data, out, end, status, rest', out');
    var sent, n := StoredBytes(b.bytes), |b.bytes|;
    StoredAhead(b, tail, rest);
    StoredBytesBits(b.bytes);
    BytesPrefix(sent, tail, data);
    StoredPrefix(b.bytes, data);
  }

  lemma StoredPrefix(bytes: seq<nat>, data: seq<nat>)
    requires |bytes| < 0x10000 && StoredBytes(bytes) <= data
    ensures GoodLength(data) && Word(data, 0) == |bytes| && data[4..4 + |bytes|] == bytes && |data| >= 4 + |bytes|
  {
    var n, sent := |bytes|, StoredBytes(bytes);
    assert forall i :: 0 <= i < |sent| ==> data[i] == sent[i];
  }

  lemma KindBits(final: bool, k: nat, more: Path)
    requires k < 4
    ensures var rest := [final] + Low(k, 2) + more;
            |rest| >= 3 && rest[0] == final && KindOf(rest) == k && rest[3..] == more
  {
    var rest := [final] + Low(k, 2) + more;
    assert Pow2(2) == 4;
    assert rest[1..3] == Low(k, 2);
    LsbLow(k, 2);
    MaskSmall(k, 2);
  }

  lemma StaticAccepted()
    ensures Accepted(StaticLit()) && Accepted(StaticDist()) && Lengths(StaticLit()) && Lengths(StaticDist())
  {
    hide Kraft;
    StaticComplete();
  }

  /** The code lengths of a block that was sent are read back, and its codes are next. */
  lemma TablesBack(b: Block, tail: Path)
    requires ValidBlock(b) && !b.Stored?
    ensures var tables := TablesOf(Kind(b), Content(b) + tail);
            && tables.Some? && Accepted(tables.value.lit) && Accepted(tables.value.dist)
            && Sends(tables.value.lit, tables.value.dist, b.codes, tables.value.rest, tail)
  {
    hide Accepted;
    hide HeaderFor;
    hide HeaderBits;
    hide HeaderOf;
    hide BodyBits;
    hide AllUsed;
    if b.Static? {
      StaticAccepted();
    } else {
      var lens, body := b.lit + b.dist, BodyBits(b.lit, b.dist, b.codes);
      assert HeaderBits(b.h, lens) + body + tail == HeaderBits(b.h, lens) + (body + tail);
      HeaderBack(b.h, lens, body + tail);
      assert lens[..b.h.lit] == b.lit && lens[b.h.lit..] == b.dist;
    }
  }

  /** Any valid block is read as what it stands for. */
  lemma BlockBack(b: Block, tail: Path, rest: Path, out: seq<nat>, end: nat,
                  t: Trace, status: Status, last: bool, rest': Path, out': seq<nat>)
    requires ValidBlock(b) && (b.Stored? ==> |tail| % BYTE == 0) && rest == BlockBits(b) + tail
    requires BlockReads(rest, out, end, t, status, last, rest', out')
    ensures var goal := Effect(out, b, end);
            && last == b.final && status == goal.status && (status == BlockDone ==> out' == goal.out && rest' == tail)
    ensures |out| <= end ==> |out'| <= end
  {
    hide ValidBlock;
    hide Content;
    hide StoredReads;
    hide TablesOf;
    hide Run;
    hide Follows;
    hide Accepted;
    hide Sends;
    hide KindOf;
    hide Low;
    hide Expanded;
    var more := Content(b) + tail;
    assert [b.final] + Low(Kind(b), 2) + Content(b) + tail == [b.final] + Low(Kind(b), 2) + more;
    KindBits(b.final, Kind(b), more);
    if b.Stored? {
      StoredBack(b, tail, more, out, end, status, rest', out');
      StoredInside(more, out, end, status, rest', out');
    } else {
      TablesBack(b, tail);
      var tables := TablesOf(Kind(b), more).value;
      AcceptedFits(tables.lit);
      AcceptedFits(tables.dist);
      BlockCodes(b);
      BodyExpands(tables.lit, tables.dist, end, t, status, rest', out', b.codes, tail);
    }
  }

  lemma BlockCodes(b: Block)
    requires ValidBlock(b) && !b.Stored?
    ensures ValidCodes(b.codes)
  {
  }
}
