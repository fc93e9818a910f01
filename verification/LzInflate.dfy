/** Decoding the body of a block into an output buffer that does not wrap around.  The buffer ends at
    `end`; the model keeps three more bytes behind it. */
module LzInflate {
  import opened Bits
  import opened BitStream
  import opened CanonicalCode
  import opened InflateTable
  import opened InflateTrie
  import opened LzCodes
  import opened LzDecoder
  import opened LzExpand
  import opened LzStream
  import opened LzTables
  import opened SymbolStream

  // ----- copying

  /** Copies a byte; what was copied so far started at `from`. */
  method CopyOne(out: array<nat>, cur: nat, dist: nat, ghost from: nat, ghost base: seq<nat>)
    requires dist <= from <= cur < out.Length && |base| == from && Extends(base, cur - from, dist, out[..cur])
    modifies out
    ensures Extends(base, cur + 1 - from, dist, out[..cur + 1])
    ensures forall k :: cur + 1 <= k < out.Length ==> out[k] == old(out[k])
  {
    hide Extends;
    ExtendsOne(base, cur - from, dist, out[..cur], out[cur - dist]);
    ghost var b := out[cur - dist];
    out[cur] := out[cur - dist];
    assert out[..cur + 1] == old(out[..cur]) + [b];
  }

  /** Loads four bytes and stores them, as one 32-bit word. */
  method CopyWord(out: array<nat>, cur: nat, dist: nat, ghost from: nat, ghost base: seq<nat>)
    requires 4 <= dist <= from <= cur && cur + 4 <= out.Length
    requires |base| == from && Extends(base, cur - from, dist, out[..cur])
    modifies out
    ensures Extends(base, cur + 4 - from, dist, out[..cur + 4])
    ensures forall k :: cur + 4 <= k < out.Length ==> out[k] == old(out[k])
  {
    hide Extends;
    ghost var s, n := out[..cur], cur - from;
    var src := cur - dist;
    var a, b, c, d := out[src], out[src + 1], out[src + 2], out[src + 3];
    ExtendsOne(base, n, dist, s, a);
    ExtendsOne(base, n + 1, dist, s + [a], b);
    ExtendsOne(base, n + 2, dist, s + [a] + [b], c);
    ExtendsOne(base, n + 3, dist, s + [a] + [b] + [c], d);
    out[cur], out[cur + 1], out[cur + 2], out[cur + 3] := a, b, c, d;
    assert out[..cur + 4] == s + [a] + [b] + [c] + [d];
  }

  /** Copies byte by byte until the buffer is full. */
  method CopyBytes(out: array<nat>, end: nat, from: nat, len: nat, dist: nat) returns (done: bool, cur: nat)
    requires dist <= from <= out.Length && end <= out.Length
    modifies out
    ensures done == (from + len <= end || len == 0) && from <= cur <= out.Length
    ensures cur == if done then from + len else if from < end then end else from
    ensures Extends(old(out[..from]), cur - from, dist, out[..cur])
    ensures forall k :: cur <= k < out.Length ==> out[k] == old(out[k])
  {
    hide Extends;
    ghost var base := out[..from];
    ExtendsNone(base, dist);
    cur := from;
    var counter := len;
    while counter > 0
      invariant from <= cur <= out.Length && cur + counter == from + len && (cur > from ==> cur <= end)
      invariant Extends(base, cur - from, dist, out[..cur])
      invariant forall k :: cur <= k < out.Length ==> out[k] == old(out[k])
    {
      if cur >= end {
        return false, cur;
      }
      CopyOne(out, cur, dist, from, base);
      cur, counter := cur + 1, counter - 1;
    }
    done := true;
  }

  lemma ExtendsNone(out: seq<nat>, dist: nat)
    requires dist <= |out|
    ensures Extends(out, 0, dist, out)
  {
  }

  /** Copies three bytes at a time, and so never less than three. */
  method CopyThrees(out: array<nat>, from: nat, len: nat, dist: nat, ghost start: nat, ghost base: seq<nat>) returns (cur: nat)
    requires dist <= start <= from && from + Produced(len) <= out.Length
    requires |base| == start && Extends(base, from - start, dist, out[..from])
    modifies out
    ensures cur == from + Produced(len)
    ensures Extends(base, cur - start, dist, out[..cur])
    ensures forall k :: cur <= k < out.Length ==> out[k] == old(out[k])
  {
    hide Extends;
    cur := from;
    var counter: int := len;
    while true
      invariant from <= cur && cur + counter == from + len && (counter >= 3 || cur == from)
      invariant Extends(base, cur - start, dist, out[..cur])
      invariant forall k :: cur <= k < out.Length ==> out[k] == old(out[k])
      decreases counter
    {
      CopyOne(out, cur, dist, start, base);
      CopyOne(out, cur + 1, dist, start, base);
      CopyOne(out, cur + 2, dist, start, base);
      cur, counter := cur + 3, counter - 3;
      if counter <= 2 {
        break;
      }
    }
    if counter > 0 {
      CopyOne(out, cur, dist, start, base);
      if counter > 1 {
        CopyOne(out, cur + 1, dist, start, base);
      }
      cur := cur + counter;
    }
  }

  /** Copies eight bytes at a time, for matches that do not overlap themselves. */
  method CopyWide(out: array<nat>, from: nat, len: nat, dist: nat) returns (cur: nat)
    requires 9 <= len <= dist <= from && from + len <= out.Length
    modifies out
    ensures cur == from + len
    ensures Extends(old(out[..from]), len, dist, out[..cur])
    ensures forall k :: cur <= k < out.Length ==> out[k] == old(out[k])
  {
    hide Extends;
    ghost var base := out[..from];
    ExtendsNone(base, dist);
    cur := from;
    var src, srcEnd := from - dist, from - dist + len / 8 * 8;
    while true
      invariant from <= cur && cur - from == src - (from - dist) && (cur - from) % 8 == 0 && src < srcEnd
      invariant Extends(base, cur - from, dist, out[..cur])
      invariant forall k :: cur <= k < out.Length ==> out[k] == old(out[k])
      decreases srcEnd - src
    {
      CopyWord(out, cur, dist, from, base);
      CopyWord(out, cur + 4, dist, from, base);
      cur, src := cur + 8, src + 8;
      if src >= srcEnd {
        break;
      }
    }
    var counter := len % 8;
    if counter < 3 {
      if counter > 0 {
        CopyOne(out, cur, dist, from, base);
        if counter > 1 {
          CopyOne(out, cur + 1, dist, from, base);
        }
        cur := cur + counter;
      }
    } else {
      cur := CopyThrees(out, cur, counter, dist, from, base);
    }
  }

  /** Copies a match.  One of length 0 that seems to fit produces three bytes. */
  method CopyMatch(out: array<nat>, end: nat, from: nat, len: nat, dist: nat) returns (done: bool, cur: nat)
    requires dist <= from <= end + 3 <= out.Length
    modifies out
    ensures done == (from + len <= end || len == 0) && from <= cur <= end + 3
    ensures cur - from == if from + len <= end then Produced(len) else if from < end then end - from else 0
    ensures Extends(old(out[..from]), cur - from, dist, out[..cur])
    ensures forall k :: end + 3 <= k < out.Length ==> out[k] == old(out[k])
    ensures from <= end && (len == 0 || len >= 3) ==> (cur <= end <==> !(len == 0 && from + 3 > end))
  {
    hide Extends;
    if from + len > end {
      done, cur := CopyBytes(out, end, from, len, dist);
      return;
    }
    if len >= 9 && len <= dist {
      cur := CopyWide(out, from, len, dist);
    } else {
      ghost var base := out[..from];
      ExtendsNone(base, dist);
      cur := CopyThrees(out, from, len, dist, from, base);
    }
    done := true;
  }

  // ----- decoding

  /** Decodes a distance symbol and its extra bits. */
  method GetDistance(table: HuffTable, r: BitReader) returns (ok: bool, dist: nat, ghost sym: nat, ghost more: Path)
    requires table.Valid() && |table.lens| <= 32 && r.Valid()
    modifies r
    ensures r.Valid() && |r.rest| <= |old(r.rest)|
    ensures ok ==> sym < 32 && Takes(table.lens, sym, old(r.rest), more) && DistanceExtra(sym) <= |more| &&
                   dist == DIST_BASE[sym] + Lsb(more[..DistanceExtra(sym)]) && r.rest == more[DistanceExtra(sym)..]
    ensures !ok ==> NoDistance(table.lens, old(r.rest))
  {
    hide Built;
    hide Buffered;
    hide CodePath;
    hide Lsb;
    hide Misses;
    hide DistanceExtra;
    sym, more, dist := 0, [], 0;
    var got, extra;
    ok, got := GetSymbol(table, r);
    if !ok {
      return;
    }
    sym, more := got, r.rest;
    ExtraSmall(got);
    ok, extra := r.GetBits(DistanceExtra(got));
    if !ok {
      OnlyDistance(table.lens, old(r.rest), sym, more);
    }
    dist := DIST_BASE[got] + extra;
  }

  /** The bits end before a distance can be read. */
  ghost predicate NoDistance(dist: seq<nat>, rest: Path)
  {
    forall sym: nat, more :: Takes(dist, sym, rest, more) ==> sym >= 32 || DistanceExtra(sym) > |more|
  }

  lemma OnlyDistance(dist: seq<nat>, rest: Path, sym: nat, more: Path)
    requires Takes(dist, sym, rest, more) && (sym >= 32 || DistanceExtra(sym) > |more|)
    ensures NoDistance(dist, rest)
  {
    hide Takes;
    forall sym': nat, more' | Takes(dist, sym', rest, more') ensures sym' == sym && more' == more {
      TakesOnce(dist, rest, sym, more, sym', more');
    }
  }

  lemma ExtraSmall(sym: nat)
    requires sym < 32
    ensures DistanceExtra(sym) <= 13
  {
  }

  /** Decodes what follows the length symbol of a match; `before` is what the symbol was read from. */
  method GetMatch(table: HuffTable, r: BitReader, sym: nat, ghost lit: seq<nat>, ghost before: Path)
    returns (ok: bool, len: nat, dist: nat, ghost item: Item)
    requires table.Valid() && |table.lens| <= 32 && r.Valid() && 257 <= sym < 288 && Takes(lit, sym, before, r.rest)
    modifies r
    ensures r.Valid() && |r.rest| <= |old(r.rest)|
    ensures ok ==> ValidCopy(item) && Taken(lit, table.lens, before, item, r.rest) && len == Length(item) && dist == Distance(item)
    ensures ok ==> item.sym == sym
    ensures !ok ==> Unreadable(lit, table.lens, before)
  {
    hide Built;
    hide Buffered;
    hide Takes;
    hide Begins;
    hide Lsb;
    hide DistanceExtra;
    ghost var after, n := r.rest, LengthExtra(sym - 257);
    hide LengthExtra;
    hide NoDistance;
    item, dist := End, 0;
    len := LENGTH_BASE[sym - 257];
    var extra;
    LengthExtraSmall(sym - 257);
    ok, extra := r.GetBits(LengthExtra(sym - 257));
    if !ok {
      NoLengthBits(lit, table.lens, before, sym, after);
      return;
    }
    len := len + extra;
    ghost var dsym, more;
    ok, dist, dsym, more := GetDistance(table, r);
    if ok {
      item := Copy(sym, after, dsym, more);
    } else {
      NoDistanceBits(lit, table.lens, before, sym, after);
    }
  }

  lemma LengthExtraSmall(c: nat)
    requires c < 31
    ensures LengthExtra(c) <= 5
  {
  }

  lemma NoLengthBits(lit: seq<nat>, dist: seq<nat>, before: Path, sym: nat, after: Path)
    requires Takes(lit, sym, before, after) && 257 <= sym < 288 && LengthExtra(sym - 257) > |after|
    ensures Unreadable(lit, dist, before)
  {
    hide Takes;
    hide LengthExtra;
    hide DistanceExtra;
    forall item, rest' ensures !Taken(lit, dist, before, item, rest') {
      if Taken(lit, dist, before, item, rest') {
        TakesOnce(lit, before, sym, after, Symbol(item), Behind(item, rest'));
      }
    }
  }

  lemma NoDistanceBits(lit: seq<nat>, dist: seq<nat>, before: Path, sym: nat, after: Path)
    requires Takes(lit, sym, before, after) && 257 <= sym < 288 && LengthExtra(sym - 257) <= |after|
    requires NoDistance(dist, after[LengthExtra(sym - 257)..])
    ensures Unreadable(lit, dist, before)
  {
    hide Takes;
    hide LengthExtra;
    hide DistanceExtra;
    forall item, rest' ensures !Taken(lit, dist, before, item, rest') {
      if Taken(lit, dist, before, item, rest') {
        TakesOnce(lit, before, sym, after, Symbol(item), Behind(item, rest'));
      }
    }
  }

  /** What a turn of the decoding loop ends with: another turn, a symbol that is no literal, or a result. */
  datatype Turn = Again | Found(sym: nat) | Halt(status: Status)

  ghost predicate Running(lit: seq<nat>, dist: seq<nat>, end: nat, t: Trace, s: State)
  {
    Run(lit, dist, end, t) && Initial(t) == s
  }

  /** The trace ends where the turn does. */
  ghost predicate Follows(lit: seq<nat>, dist: seq<nat>, t: Trace, turn: Turn, rest: Path, out: seq<nat>)
  {
    && t.states != [] && Now(t).out == out
    && match turn
       case Again => Now(t).phase == Going && Now(t).rest == rest
       case Found(sym) => Now(t).phase == Going && END_OF_BLOCK <= sym < 288 && Takes(lit, sym, Now(t).rest, rest)
       case Halt(status) =>
         || (Now(t).phase == Stopped(status) && (status == BlockDone ==> Now(t).rest == rest))
         || (Now(t).phase == Going && status == Failed && Unreadable(lit, dist, Now(t).rest))
  }

  /** A literal is played. */
  lemma PlayByte(lit: seq<nat>, dist: seq<nat>, end: nat, t: Trace, s: State, byte: nat, rest: Path) returns (t': Trace)
    requires Running(lit, dist, end, t, s) && Now(t).phase == Going && byte < END_OF_BLOCK
    requires Takes(lit, byte, Now(t).rest, rest)
    ensures Running(lit, dist, end, t', s) && t'.states != []
    ensures if |Now(t).out| >= end then Now(t') == State(rest, Now(t).out, Stopped(HasMoreOutput))
            else Now(t') == State(rest, Now(t).out + [byte], Going)
  {
    hide Takes;
    hide Run;
    RunNonempty(lit, dist, end, t);
    var out := Now(t).out;
    var next := if |out| >= end then State(rest, out, Stopped(HasMoreOutput)) else State(rest, out + [byte], Going);
    RunMore(lit, dist, end, t, Byte(byte), next);
    t' := More(t, Byte(byte), next);
  }

  lemma RunNonempty(lit: seq<nat>, dist: seq<nat>, end: nat, t: Trace)
    requires Run(lit, dist, end, t)
    ensures t.states != []
  {
  }

  lemma NotReadable(lit: seq<nat>, dist: seq<nat>, rest: Path)
    requires Starved(lit, rest)
    ensures Unreadable(lit, dist, rest)
  {
    hide Takes;
    hide LengthExtra;
    hide DistanceExtra;
    forall item, rest' ensures !Taken(lit, dist, rest, item, rest') {
      assert !Takes(lit, Symbol(item), rest, Behind(item, rest'));
    }
  }

  /** A turn at the ends of the buffers: one symbol, read with care. */
  method GetOne(table: HuffTable, r: BitReader, out: array<nat>, end: nat, from: nat,
                ghost dist: seq<nat>, ghost t: Trace, ghost s: State)
    returns (turn: Turn, cur: nat, ghost t': Trace)
    requires table.Valid() && |table.lens| <= 288 && r.Valid() && from <= out.Length && end <= out.Length
    requires out as object !in {table.lookUp as object, table.tree}
    requires Running(table.lens, dist, end, t, s) && Follows(table.lens, dist, t, Again, r.rest, out[..from])
    modifies r, out
    ensures r.Valid() && |r.rest| <= |old(r.rest)| && from <= cur <= out.Length
    ensures if turn == Again then from < cur <= end else cur == from
    ensures turn.Found? ==> |r.rest| < |old(r.rest)|
    ensures turn != Halt(BlockDone) && forall k :: cur <= k < out.Length ==> out[k] == old(out[k])
    ensures Running(table.lens, dist, end, t', s) && Follows(table.lens, dist, t', turn, r.rest, out[..cur])
  {
    hide Built;
    hide Buffered;
    hide CodePath;
    hide Run;
    hide Unreadable;
    t', cur := t, from;
    var ok, sym := GetSymbol(table, r);
    if !ok {
      NotReadable(table.lens, dist, Now(t).rest);
      return Halt(Failed), from, t;
    }
    if sym >= END_OF_BLOCK {
      return Found(sym), from, t;
    }
    t' := PlayByte(table.lens, dist, end, t, s, sym, r.rest);
    if from >= end {
      return Halt(HasMoreOutput), from, t';
    }
    out[from] := sym;
    assert out[..from + 1] == old(out[..from]) + [sym];
    return Again, from + 1, t';
  }

  lemma EnoughAlways(t: InflateTrie.Trie, w: Path, n: nat)
    requires WellFormed(t) && |w| == MAX_LENGTH && n >= MAX_LENGTH
    ensures Enough(t, w, n)
  {
  }

  /** A turn with four bytes of input and room for two: two symbols from one refill of the bit buffer. */
  method GetTwo(table: HuffTable, r: BitReader, out: array<nat>, end: nat, from: nat,
                ghost dist: seq<nat>, ghost t: Trace, ghost s: State)
    returns (turn: Turn, cur: nat, ghost t': Trace)
    requires table.Valid() && |table.lens| <= 288 && r.Valid() && |r.input| - r.pos >= 4
    requires from + 2 <= end <= out.Length && out as object !in {table.lookUp as object, table.tree}
    requires Running(table.lens, dist, end, t, s) && Follows(table.lens, dist, t, Again, r.rest, out[..from])
    modifies r, out
    ensures r.Valid() && |r.rest| <= |old(r.rest)| && from <= cur <= end
    ensures !turn.Halt? && (turn == Again ==> from < cur)
    ensures turn.Found? ==> |r.rest| < |old(r.rest)|
    ensures forall k :: cur <= k < out.Length ==> out[k] == old(out[k])
    ensures Running(table.lens, dist, end, t', s) && Follows(table.lens, dist, t', turn, r.rest, out[..cur])
  {
    hide Built;
    hide Buffered;
    hide CodePath;
    hide Run;
    hide Enough;
    hide Unreadable;
    BuiltForm(table.Abs(), table.lens);
    t', cur := t, from;
    r.NeedWord();
    EnoughAlways(table.Abs(), Low(r.bitBuf, MAX_LENGTH), r.numBits);
    var sym := TakeSymbol(table, r);
    if sym >= END_OF_BLOCK {
      return Found(sym), from, t;
    }
    t' := PlayByte(table.lens, dist, end, t, s, sym, r.rest);
    EnoughAlways(table.Abs(), Low(r.bitBuf, MAX_LENGTH), r.numBits);
    var sym2 := TakeSymbol(table, r);
    out[from] := sym;
    assert out[..from + 1] == old(out[..from]) + [sym];
    if sym2 >= END_OF_BLOCK {
      return Found(sym2), from + 1, t';
    }
    t' := PlayByte(table.lens, dist, end, t', s, sym2, r.rest);
    out[from + 1] := sym2;
    assert out[..from + 2] == old(out[..from]) + [sym] + [sym2];
    return Again, from + 2, t';
  }

  /** Decodes literals up to the next symbol that is none. */
  method GetLiterals(table: HuffTable, r: BitReader, out: array<nat>, end: nat, from: nat,
                     ghost dist: seq<nat>, ghost t: Trace, ghost s: State)
    returns (turn: Turn, cur: nat, ghost t': Trace)
    requires table.Valid() && |table.lens| <= 288 && r.Valid() && from <= out.Length && end <= out.Length
    requires out as object !in {table.lookUp as object, table.tree}
    requires Running(table.lens, dist, end, t, s) && Follows(table.lens, dist, t, Again, r.rest, out[..from])
    modifies r, out
    ensures r.Valid() && |r.rest| <= |old(r.rest)| && from <= cur <= out.Length && (cur <= end || cur == from)
    ensures !turn.Again? && turn != Halt(BlockDone) && (turn.Found? ==> |r.rest| < |old(r.rest)|)
    ensures Running(table.lens, dist, end, t', s) && Follows(table.lens, dist, t', turn, r.rest, out[..cur])
    ensures forall k :: cur <= k < out.Length ==> out[k] == old(out[k])
  {
    hide Built;
    hide Buffered;
    hide Running;
    hide Follows;
    cur, t' := from, t;
    while true
      invariant table.Valid() && r.Valid() && |r.rest| <= |old(r.rest)|
      invariant from <= cur <= out.Length && (cur <= end || cur == from)
      invariant Running(table.lens, dist, end, t', s) && Follows(table.lens, dist, t', Again, r.rest, out[..cur])
      invariant forall k :: cur <= k < out.Length ==> out[k] == old(out[k])
      decreases end - cur
    {
      if |r.input| - r.pos < 4 || end - cur < 2 {
        turn, cur, t' := GetOne(table, r, out, end, cur, dist, t', s);
      } else {
        turn, cur, t' := GetTwo(table, r, out, end, cur, dist, t', s);
      }
      if turn != Again {
        return;
      }
    }
  }

  /** A match is played. */
  lemma PlayCopy(lit: seq<nat>, dist: seq<nat>, end: nat, t: Trace, s: State, item: Item, rest: Path,
                 phase: Phase, out: seq<nat>) returns (t': Trace)
    requires Running(lit, dist, end, t, s) && t.states != [] && Now(t).phase == Going
    requires Taken(lit, dist, Now(t).rest, item, rest) && Plays(Now(t).out, item, end, phase, out)
    ensures Running(lit, dist, end, t', s) && t'.states != [] && Now(t') == State(rest, out, phase)
  {
    hide Taken;
    hide Plays;
    hide Run;
    RunMore(lit, dist, end, t, item, State(rest, out, phase));
    t' := More(t, item, State(rest, out, phase));
  }

  /** Decodes the body of a block behind the `from` bytes already in the buffer, for all bits. */
  method GetBody(litTable: HuffTable, distTable: HuffTable, r: BitReader, out: array<nat>, end: nat, from: nat)
    returns (status: Status, cur: nat, ghost t: Trace)
    requires litTable.Valid() && distTable.Valid() && r.Valid() && from <= end + 3 <= out.Length
    requires |litTable.lens| <= 288 && |distTable.lens| <= 32
    requires out as object !in {litTable.lookUp as object, litTable.tree, distTable.lookUp, distTable.tree}
    modifies r, out
    ensures r.Valid() && from <= cur <= end + 3 && |r.rest| <= |old(r.rest)|
    ensures status == BlockDone ==> |r.rest| < |old(r.rest)|
    ensures Running(litTable.lens, distTable.lens, end, t, State(old(r.rest), old(out[..from]), Going))
    ensures Follows(litTable.lens, distTable.lens, t, Halt(status), r.rest, out[..cur])
    ensures forall k :: end + 3 <= k < out.Length ==> out[k] == old(out[k])
  {
    hide Built;
    hide Buffered;
    hide Running;
    hide Follows;
    ghost var s := State(r.rest, out[..from], Going);
    t := NoItems(r.rest, out[..from]);
    Started(litTable.lens, distTable.lens, end, r.rest, out[..from]);
    cur := from;
    while true
      invariant litTable.Valid() && distTable.Valid() && r.Valid() && |r.rest| <= |old(r.rest)|
      invariant from <= cur <= end + 3
      invariant Running(litTable.lens, distTable.lens, end, t, s)
      invariant Follows(litTable.lens, distTable.lens, t, Again, r.rest, out[..cur])
      invariant forall k :: end + 3 <= k < out.Length ==> out[k] == old(out[k])
      decreases |r.rest|
    {
      var turn;
      turn, cur, t := GetLiterals(litTable, r, out, end, cur, distTable.lens, t, s);
      if turn.Halt? {
        status := turn.status;
        return;
      }
      turn, cur, t := FinishItem(litTable.lens, distTable, r, out, end, cur, turn.sym, t, s);
      if turn.Halt? {
        status := turn.status;
        return;
      }
    }
  }

  lemma Started(lit: seq<nat>, dist: seq<nat>, end: nat, rest: Path, out: seq<nat>)
    ensures Running(lit, dist, end, NoItems(rest, out), State(rest, out, Going))
    ensures Follows(lit, dist, NoItems(rest, out), Again, rest, out)
  {
  }

  /** Ends the block, or decodes and copies the match that `sym` begins. */
  method FinishItem(ghost lit: seq<nat>, table: HuffTable, r: BitReader, out: array<nat>, end: nat, from: nat, sym: nat,
                    ghost t: Trace, ghost s: State)
    returns (turn: Turn, cur: nat, ghost t': Trace)
    requires table.Valid() && |table.lens| <= 32 && r.Valid() && from <= end + 3 <= out.Length
    requires out as object !in {table.lookUp as object, table.tree}
    requires Running(lit, table.lens, end, t, s) && Follows(lit, table.lens, t, Found(sym), r.rest, out[..from])
    modifies r, out
    ensures r.Valid() && |r.rest| <= |old(r.rest)| && from <= cur <= end + 3 && !turn.Found?
    ensures Running(lit, table.lens, end, t', s) && Follows(lit, table.lens, t', turn, r.rest, out[..cur])
    ensures forall k :: end + 3 <= k < out.Length ==> out[k] == old(out[k])
  {
    hide Built;
    hide Buffered;
    hide Run;
    hide Takes;
    hide Length;
    hide Distance;
    hide Unreadable;
    cur, t' := from, t;
    if sym == END_OF_BLOCK {
      t' := PlayCopy(lit, table.lens, end, t, s, End, r.rest, Stopped(BlockDone), Now(t).out);
      return Halt(BlockDone), from, t';
    }
    ghost var before := Now(t).rest;
    var ok, len, dist;
    ghost var item;
    ok, len, dist, item := GetMatch(table, r, sym, lit, before);
    if !ok {
      return Halt(Failed), from, t;
    }
    if dist > from {
      t' := PlayCopy(lit, table.lens, end, t, s, item, r.rest, Stopped(Failed), Now(t).out);
      return Halt(Failed), from, t';
    }
    var done;
    done, cur := CopyMatch(out, end, from, len, dist);
    ghost var phase := if done then Going else Stopped(HasMoreOutput);
    assert Plays(Now(t).out, item, end, phase, out[..cur]);
    t' := PlayCopy(lit, table.lens, end, t, s, item, r.rest, phase, out[..cur]);
    turn := if done then Again else Halt(HasMoreOutput);
  }

  /** On codes that were sent, decoding does what they stand for. */
  lemma BodyExpands(lit: seq<nat>, dist: seq<nat>, end: nat, t: Trace, status: Status, rest: Path, out: seq<nat>,
                    codes: seq<LzCode>, tail: Path)
    requires Run(lit, dist, end, t) && Initial(t).phase == Going && Follows(lit, dist, t, Halt(status), rest, out)
    requires ValidCodes(codes) && Sends(lit, dist, codes, Initial(t).rest, tail) && Fits(lit) && Fits(dist)
    ensures var goal := Expanded(Initial(t).out, codes, end);
            status == goal.status && (status == BlockDone ==> out == goal.out && rest == tail)
    ensures |Initial(t).out| <= end ==> |out| <= end
  {
    hide Sends;
    hide Expanded;
    hide Step;
    hide Overruns;
    hide Unreadable;
    hide Fits;
    var goal := Expanded(Initial(t).out, codes, end);
    RunFollows(lit, dist, end, t, codes, tail, goal, |t.items|);
    if |Initial(t).out| <= end {
      RunInside(lit, dist, end, t, |t.items|);
    }
    if Now(t).phase == Going {
      SentReadable(lit, dist, codes[|t.items|..], Now(t).rest, tail);
    }
  }

  /** For all bits: the decoded bytes stay within the buffer if and only if they were within it before and
      no item overruns it. */
  lemma BodyInside(lit: seq<nat>, dist: seq<nat>, end: nat, t: Trace, status: Status, rest: Path, out: seq<nat>)
    requires Run(lit, dist, end, t) && Follows(lit, dist, t, Halt(status), rest, out) && |Initial(t).out| <= end + 3
    ensures |out| <= end + 3
    ensures |out| <= end <==>
              && |Initial(t).out| <= end
              && forall k: nat {:trigger t.items[k]} :: k < |t.items| ==> !Overruns(t.items[k], |t.states[k].out|, end)
    ensures |Initial(t).out| <= end && !Used(lit, 286) && !Used(lit, 287) ==> |out| <= end
  {
    hide Step;
    hide Overruns;
    hide Unreadable;
    RunInside(lit, dist, end, t, |t.items|);
    if |Initial(t).out| <= end && !Used(lit, 286) && !Used(lit, 287) {
      PlainInside(lit, dist, end, t);
    }
  }

  /** The bits decide how decoding goes: which items are read, where it ends and how. */
  lemma BodyOnce(lit: seq<nat>, dist: seq<nat>, end: nat, t: Trace, status: Status, rest: Path, out: seq<nat>,
                 u: Trace, status': Status, rest': Path, out': seq<nat>)
    requires Run(lit, dist, end, t) && Follows(lit, dist, t, Halt(status), rest, out)
    requires Run(lit, dist, end, u) && Follows(lit, dist, u, Halt(status'), rest', out')
    requires Alike(Initial(t), Initial(u)) && Initial(t).phase == Going
    ensures t.items == u.items && status == status' && |out| == |out'| && (status == BlockDone ==> rest == rest')
    ensures forall k: nat {:trigger t.states[k]} :: k <= |t.items| ==> |t.states[k].out| == |u.states[k].out|
  {
    hide Step;
    hide Unreadable;
    var n := if |t.items| < |u.items| then |t.items| else |u.items|;
    RunsAlike(lit, dist, end, t, u, n);
    if n < |u.items| {
      StepReads(lit, dist, end, u.states[n], u.items[n], u.states[n + 1]);
    } else if n < |t.items| {
      StepReads(lit, dist, end, t.states[n], t.items[n], t.states[n + 1]);
    }
    assert t.items[..n] == t.items && u.items[..n] == u.items;
  }
}
