/** The body of a compressed block: literals and matches as Huffman codes with extra bits, closed by
    the end-of-block symbol, and the bytes they stand for. */
module LzStream {
  import opened Bits
  import opened BitStream
  import opened CanonicalCode
  import opened LzCodes
  import opened LzTables
  import opened SymbolStream

  const END_OF_BLOCK: nat := 256

  ghost predicate CodeUsed(lit: seq<nat>, dist: seq<nat>, c: LzCode)
  {
    ValidCode(c) && Used(lit, LitSym(c)) && (c.Match? ==> Used(dist, DistSym(c.dist - 1)))
  }

  /** Both tables have a code for everything that is sent. */
  ghost predicate AllUsed(lit: seq<nat>, dist: seq<nat>, codes: seq<LzCode>)
  {
    Used(lit, END_OF_BLOCK) && forall i :: 0 <= i < |codes| ==> CodeUsed(lit, dist, codes[i])
  }

  ghost function DistanceBits(dist: seq<nat>, d: nat): Path
    requires d < LZ_DICT_SIZE && Used(dist, DistSym(d))
  {
    CodePath(dist, DistSym(d)) + Low(d, DistExtra(d))
  }

  ghost function LzBits(lit: seq<nat>, dist: seq<nat>, c: LzCode): Path
    requires CodeUsed(lit, dist, c)
  {
    if c.Literal? then CodePath(lit, LitSym(c))
    else
      var m := c.len - MIN_MATCH_LEN;
      CodePath(lit, LitSym(c)) + (Low(m, LenExtra(m)) + DistanceBits(dist, c.dist - 1))
  }

  /** The body of a block. */
  ghost function BodyBits(lit: seq<nat>, dist: seq<nat>, codes: seq<LzCode>): Path
    requires AllUsed(lit, dist, codes)
  {
    if codes == [] then CodePath(lit, END_OF_BLOCK)
    else LzBits(lit, dist, codes[0]) + BodyBits(lit, dist, codes[1..])
  }

  // ----- writing

  method PutExtra(w: BitWriter, x: nat, n: nat)
    requires w.Valid() && n <= 16
    modifies w
    ensures w.Valid() && w.written == old(w.written) + Low(x, n)
  {
    MaskShr(x, n);
    LowMask(x, n);
    w.Put(Mask(x, n), n);
  }

  method PutMatch(w: BitWriter, m: nat, d: nat, lit: seq<nat>, litCodes: seq<nat>, dist: seq<nat>, distCodes: seq<nat>)
    requires w.Valid() && m < 256 && d < LZ_DICT_SIZE && CodesFor(lit, litCodes) && CodesFor(dist, distCodes)
    requires CodeUsed(lit, dist, Match(m + 3, d + 1))
    modifies w
    ensures w.Valid() && w.written == old(w.written) + LzBits(lit, dist, Match(m + 3, d + 1))
  {
    hide BytesBits;
    hide CodePath;
    hide Low;
    ghost var before := w.written;
    PutSymbol(w, LenSym(m), lit, litCodes);
    PutExtra(w, m, LenExtra(m));
    var sym, extra;
    if d < 512 {
      sym, extra := SmallDistSym(d), SmallDistExtra(d);
    } else {
      sym, extra := LargeDistSym(d / 256), LargeDistExtra(d / 256);
    }
    PutSymbol(w, sym, dist, distCodes);
    PutExtra(w, d, extra);
    ghost var a, b, c, e := CodePath(lit, LenSym(m)), Low(m, LenExtra(m)), CodePath(dist, sym), Low(d, extra);
    assert before + a + b + c + e == before + (a + (b + (c + e)));
  }

  method PutLiteral(w: BitWriter, byte: nat, lit: seq<nat>, litCodes: seq<nat>, ghost dist: seq<nat>)
    requires w.Valid() && CodesFor(lit, litCodes) && CodeUsed(lit, dist, Literal(byte))
    modifies w
    ensures w.Valid() && w.written == old(w.written) + LzBits(lit, dist, Literal(byte))
  {
    PutSymbol(w, byte, lit, litCodes);
  }

  /** Where the walk over the buffer stands: the unread bytes hold the rest of a group, whose flags are
      followed by a marker bit, and the groups behind it. */
  ghost predicate Unread(bytes: seq<nat>, flags: nat, left: nat, group: seq<LzCode>, more: seq<LzCode>)
  {
    && ValidCodes(group) && ValidCodes(more) && |group| <= left <= 8
    && (more != [] ==> |group| == left)
    && bytes == GroupBytes(group) + Packed(more)
    && flags == Lsb(Flags(group)) + Pow2(left)
  }

  lemma UnreadEmpty(bytes: seq<nat>, flags: nat, left: nat, group: seq<LzCode>, more: seq<LzCode>)
    requires Unread(bytes, flags, left, group, more)
    ensures bytes == [] <==> group + more == []
    ensures flags == 1 ==> group == [] && left == 0
    ensures group == [] && more != [] ==> flags == 1
  {
    GroupSize(group);
    PackedSize(more);
    if left > 0 {
      Pow2Mono(1, left);
    }
    assert Pow2(0) == 1 && Pow2(1) == 2;
  }

  /** A new group starts with its flags. */
  lemma UnreadGroup(bytes: seq<nat>, more: seq<LzCode>)
    requires Unread(bytes, 1, 0, [], more) && more != []
    ensures var n := if |more| <= 8 then |more| else 8;
            bytes != [] && more[..n] + more[n..] == more && Unread(bytes[1..], bytes[0] + 256, 8, more[..n], more[n..])
  {
    hide Packed;
    hide Group;
    EmptyGroup();
    PackedFirst(more);
    var n := if |more| <= 8 then |more| else 8;
    assert bytes == Packed(more);
    assert Pow2(8) == 256;
    GroupSplit(more[..n]);
  }

  lemma PackedFirst(codes: seq<LzCode>)
    requires ValidCodes(codes) && codes != []
    ensures var n := if |codes| <= 8 then |codes| else 8;
            codes[..n] + codes[n..] == codes && Packed(codes) == Group(codes[..n]) + Packed(codes[n..])
  {
    hide Group;
    if |codes| <= 8 {
      assert codes[..|codes|] == codes && codes[|codes|..] == [];
    }
  }

  lemma GroupSplit(group: seq<LzCode>)
    requires ValidCodes(group)
    ensures |Group(group)| >= 1 && Group(group)[0] == Lsb(Flags(group)) && Group(group)[1..] == GroupBytes(group)
  {
    hide GroupBytes;
  }

  /** The lowest flag tells what the next code is. */
  lemma UnreadCode(bytes: seq<nat>, flags: nat, left: nat, group: seq<LzCode>, more: seq<LzCode>)
    requires Unread(bytes, flags, left, group, more) && group != []
    ensures var c, n := group[0], |CodeBytes(group[0])|;
            && left >= 1 && (flags % 2 == 1 <==> c.Match?)
            && 1 <= n <= |bytes| && bytes[..n] == CodeBytes(c)
            && Unread(bytes[n..], flags / 2, left - 1, group[1..], more)
  {
    hide CodeBytes;
    hide Packed;
    hide Lsb;
    hide Flags;
    var c, n := group[0], |CodeBytes(group[0])|;
    LsbHead(group);
    assert bytes == CodeBytes(c) + (GroupBytes(group[1..]) + Packed(more));
    ShlDouble(1, left - 1);
  }

  lemma LsbHead(group: seq<LzCode>)
    requires group != []
    ensures Lsb(Flags(group)) == Bit(group[0].Match?) + 2 * Lsb(Flags(group[1..]))
  {
    assert Flags(group)[1..] == Flags(group[1..]);
  }

  /** Sends the code at `pos`. */
  method PutNext(w: BitWriter, buf: seq<nat>, pos: nat, isMatch: bool,
                 lit: seq<nat>, litCodes: seq<nat>, dist: seq<nat>, distCodes: seq<nat>, ghost c: LzCode) returns (next: nat)
    requires w.Valid() && CodesFor(lit, litCodes) && CodesFor(dist, distCodes)
    requires CodeUsed(lit, dist, c) && isMatch == c.Match? && pos + |CodeBytes(c)| <= |buf|
    requires buf[pos..][..|CodeBytes(c)|] == CodeBytes(c)
    modifies w
    ensures w.Valid() && w.written == old(w.written) + LzBits(lit, dist, c)
    ensures next == pos + |CodeBytes(c)| && buf[pos..][|CodeBytes(c)|..] == buf[next..]
  {
    hide LzBits;
    hide BytesBits;
    CodeRead(buf, pos, c);
    if isMatch {
      PutMatch(w, buf[pos], buf[pos + 1] + 256 * buf[pos + 2], lit, litCodes, dist, distCodes);
      next := pos + 3;
    } else {
      PutLiteral(w, buf[pos], lit, litCodes, dist);
      next := pos + 1;
    }
  }

  /** Where the walk over the code buffer stands, with what is still to be sent. */
  ghost predicate Walk(buf: seq<nat>, pos: nat, flags: nat, left: nat, group: seq<LzCode>, more: seq<LzCode>,
                       lit: seq<nat>, dist: seq<nat>, written: Path, total: Path)
  {
    && pos <= |buf| && Unread(buf[pos..], flags, left, group, more) && AllUsed(lit, dist, group + more)
    && written + BodyBits(lit, dist, group + more) == total
  }

  /** The next code of a group has been sent. */
  lemma WalkCode(buf: seq<nat>, pos: nat, flags: nat, left: nat, group: seq<LzCode>, more: seq<LzCode>,
                 lit: seq<nat>, dist: seq<nat>, written: Path, total: Path)
    requires Walk(buf, pos, flags, left, group, more, lit, dist, written, total) && group != []
    ensures left >= 1 && ValidCode(group[0]) && CodeUsed(lit, dist, group[0]) && (flags % 2 == 1 <==> group[0].Match?)
    ensures pos + |CodeBytes(group[0])| <= |buf| && buf[pos..][..|CodeBytes(group[0])|] == CodeBytes(group[0])
    ensures Walk(buf, pos + |CodeBytes(group[0])|, flags / 2, left - 1, group[1..], more, lit, dist,
                 written + LzBits(lit, dist, group[0]), total)
  {
    hide Unread;
    hide CodeBytes;
    hide LzBits;
    hide CodePath;
    UnreadCode(buf[pos..], flags, left, group, more);
    NextCode(lit, dist, group, more);
    var code, after := LzBits(lit, dist, group[0]), BodyBits(lit, dist, group[1..] + more);
    assert written + (code + after) == written + code + after;
    CodeRead(buf, pos, group[0]);
  }

  /** A flags byte has been read. */
  lemma WalkGroup(buf: seq<nat>, pos: nat, left: nat, group: seq<LzCode>, more: seq<LzCode>,
                  lit: seq<nat>, dist: seq<nat>, written: Path, total: Path)
    requires Walk(buf, pos, 1, left, group, more, lit, dist, written, total) && pos < |buf|
    ensures group == [] && more != []
    ensures var n := if |more| <= 8 then |more| else 8;
            Walk(buf, pos + 1, buf[pos] + 256, 8, more[..n], more[n..], lit, dist, written, total) && more[..n] != []
  {
    hide Unread;
    UnreadEmpty(buf[pos..], 1, left, group, more);
    UnreadGroup(buf[pos..], more);
    assert buf[pos..][1..] == buf[pos + 1..] && group + more == more;
  }

  /** A literal is next in the same group if its flag is 0 and there are bytes left. */
  lemma WalkMore(buf: seq<nat>, pos: nat, flags: nat, left: nat, group: seq<LzCode>, more: seq<LzCode>,
                 lit: seq<nat>, dist: seq<nat>, written: Path, total: Path)
    requires Walk(buf, pos, flags, left, group, more, lit, dist, written, total) && pos < |buf| && flags != 1
    ensures group != []
  {
    UnreadEmpty(buf[pos..], flags, left, group, more);
  }

  lemma WalkStart(buf: seq<nat>, codes: seq<LzCode>, lit: seq<nat>, dist: seq<nat>, written: Path, total: Path)
    requires ValidCodes(codes) && AllUsed(lit, dist, codes) && buf == Packed(codes)
    requires written + BodyBits(lit, dist, codes) == total
    ensures Walk(buf, 0, 1, 0, [], codes, lit, dist, written, total)
  {
    hide Unread;
    UnreadStart(buf, codes);
  }

  lemma WalkEnd(buf: seq<nat>, pos: nat, flags: nat, left: nat, group: seq<LzCode>, more: seq<LzCode>,
                lit: seq<nat>, dist: seq<nat>, written: Path, total: Path)
    requires Walk(buf, pos, flags, left, group, more, lit, dist, written, total) && pos >= |buf|
    ensures Used(lit, END_OF_BLOCK) && written + CodePath(lit, END_OF_BLOCK) == total
  {
    hide CodePath;
    UnreadEmpty(buf[pos..], flags, left, group, more);
    assert group + more == [];
  }

  /** Sends the codes in the buffer and the end of the block; tells whether the output holds them. */
  method PutBody(w: BitWriter, buf: seq<nat>, lit: seq<nat>, litCodes: seq<nat>, dist: seq<nat>, distCodes: seq<nat>,
                 ghost codes: seq<LzCode>) returns (ok: bool)
    requires w.Valid() && CodesFor(lit, litCodes) && CodesFor(dist, distCodes)
    requires ValidCodes(codes) && AllUsed(lit, dist, codes) && buf == Packed(codes)
    modifies w
    ensures w.Valid() && w.written == old(w.written) + BodyBits(lit, dist, codes)
    ensures ok == (|w.written| < 8 * OUT_LIMIT)
  {
    hide Holds;
    hide Walk;
    hide BodyBits;
    hide CodesFor;
    hide Packed;
    hide LzBits;
    hide CodeBytes;
    hide CodeUsed;
    ghost var total := w.written + BodyBits(lit, dist, codes);
    ghost var left: nat, group, more := 0, [], codes;
    var flags, pos := 1, 0;
    WalkStart(buf, codes, lit, dist, w.written, total);
    while pos < |buf|
      invariant w.Valid() && pos <= |buf| && Walk(buf, pos, flags, left, group, more, lit, dist, w.written, total)
      decreases |buf| - pos
    {
      if flags == 1 {
        WalkGroup(buf, pos, left, group, more, lit, dist, w.written, total);
        flags, pos := buf[pos] + 256, pos + 1;
        ghost var n := if |more| <= 8 then |more| else 8;
        left, group, more := 8, more[..n], more[n..];
      } else {
        WalkMore(buf, pos, flags, left, group, more, lit, dist, w.written, total);
      }
      WalkCode(buf, pos, flags, left, group, more, lit, dist, w.written, total);
      pos := PutNext(w, buf, pos, flags % 2 == 1, lit, litCodes, dist, distCodes, group[0]);
      flags, left, group := flags / 2, left - 1, group[1..];
    }
    WalkEnd(buf, pos, flags, left, group, more, lit, dist, w.written, total);
    PutSymbol(w, END_OF_BLOCK, lit, litCodes);
    ok := w.Fits();
  }

  lemma NextCode(lit: seq<nat>, dist: seq<nat>, group: seq<LzCode>, more: seq<LzCode>)
    requires group != [] && AllUsed(lit, dist, group + more)
    ensures CodeUsed(lit, dist, group[0]) && AllUsed(lit, dist, group[1..] + more)
    ensures BodyBits(lit, dist, group + more) == LzBits(lit, dist, group[0]) + BodyBits(lit, dist, group[1..] + more)
  {
    hide LzBits;
    hide CodeUsed;
    assert (group + more)[0] == group[0] && (group + more)[1..] == group[1..] + more;
    assert forall i :: 0 <= i < |group[1..] + more| ==> (group[1..] + more)[i] == (group + more)[i + 1];
  }

  lemma CodeRead(buf: seq<nat>, pos: nat, c: LzCode)
    requires ValidCode(c) && pos + |CodeBytes(c)| <= |buf| && buf[pos..][..|CodeBytes(c)|] == CodeBytes(c)
    ensures c.Literal? ==> |CodeBytes(c)| == 1 && buf[pos] == c.byte
    ensures c.Match? ==> |CodeBytes(c)| == 3 && c == Match(buf[pos] + 3, buf[pos + 1] + 256 * buf[pos + 2] + 1)
    ensures buf[pos..][|CodeBytes(c)|..] == buf[pos + |CodeBytes(c)|..]
  {
    var b := buf[pos..][..|CodeBytes(c)|];
    assert b[0] == buf[pos];
    if c.Match? {
      assert b[1] == buf[pos + 1] && b[2] == buf[pos + 2];
    }
  }

  lemma UnreadStart(buf: seq<nat>, codes: seq<LzCode>)
    requires ValidCodes(codes) && buf == Packed(codes)
    ensures Unread(buf[0..], 1, 0, [], codes) && [] + codes == codes
  {
    EmptyGroup();
    assert buf[0..] == [] + buf && Pow2(0) == 1;
  }
}
