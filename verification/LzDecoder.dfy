/** What the decompressor does with any bits at all: a machine that reads literals and matches one
    after the other and plays them into an output buffer.  Every call of the decoding loop is a run of
    this machine. */
module LzDecoder {
  import opened Bits
  import opened CanonicalCode
  import opened LzCodes
  import opened LzExpand
  import opened LzStream
  import opened LzTables
  import opened SymbolStream

  /** What is read next: a literal, the end of the block, or a match with the bits behind its length
      symbol and behind its distance symbol. */
  datatype Item = Byte(byte: nat) | End | Copy(sym: nat, after: Path, dsym: nat, more: Path)

  ghost predicate ValidCopy(item: Item)
  {
    && item.Copy? && 257 <= item.sym < 288 && item.dsym < 32
    && LengthExtra(item.sym - 257) <= |item.after| && DistanceExtra(item.dsym) <= |item.more|
  }

  ghost function Length(item: Item): nat
    requires ValidCopy(item)
  {
    LENGTH_BASE[item.sym - 257] + Lsb(item.after[..LengthExtra(item.sym - 257)])
  }

  ghost function Distance(item: Item): nat
    requires ValidCopy(item)
  {
    DIST_BASE[item.dsym] + Lsb(item.more[..DistanceExtra(item.dsym)])
  }

  /** The item is read from `rest` and leaves `rest'`. */
  ghost predicate Taken(lit: seq<nat>, dist: seq<nat>, rest: Path, item: Item, rest': Path)
  {
    match item
    case Byte(byte) => byte < END_OF_BLOCK && Takes(lit, byte, rest, rest')
    case End => Takes(lit, END_OF_BLOCK, rest, rest')
    case Copy(sym, after, dsym, more) =>
      && ValidCopy(item) && Takes(lit, sym, rest, after)
      && Takes(dist, dsym, after[LengthExtra(sym - 257)..], more) && rest' == more[DistanceExtra(dsym)..]
  }

  ghost function Symbol(item: Item): nat
  {
    match item
    case Byte(byte) => byte
    case End => END_OF_BLOCK
    case Copy(sym, _, _, _) => sym
  }

  /** The bits begin with the codes of an item. */
  ghost predicate Comes(lit: seq<nat>, dist: seq<nat>, rest: Path, item: Item)
  {
    && Begins(lit, Symbol(item), rest)
    && (item.Byte? ==> item.byte < END_OF_BLOCK)
    && (item.Copy? ==>
          && ValidCopy(item) && item.after == rest[lit[item.sym]..]
          && var d := item.after[LengthExtra(item.sym - 257)..];
             Begins(dist, item.dsym, d) && item.more == d[dist[item.dsym]..])
  }

  /** The bits end before an item can be read. */
  ghost predicate Unreadable(lit: seq<nat>, dist: seq<nat>, rest: Path)
  {
    forall item, rest' :: !Taken(lit, dist, rest, item, rest')
  }

  lemma TakenOnce(lit: seq<nat>, dist: seq<nat>, rest: Path, item: Item, after: Path, item': Item, after': Path)
    requires Taken(lit, dist, rest, item, after) && Taken(lit, dist, rest, item', after')
    ensures item == item' && after == after'
  {
    hide Takes;
    hide LengthExtra;
    hide DistanceExtra;
    TakesOnce(lit, rest, Symbol(item), Behind(item, after), Symbol(item'), Behind(item', after'));
    if item.Copy? {
      TakesOnce(dist, item.after[LengthExtra(item.sym - 257)..], item.dsym, item.more, item'.dsym, item'.more);
    }
  }

  /** The bits behind the first symbol of an item. */
  ghost function Behind(item: Item, rest: Path): Path
  {
    if item.Copy? then item.after else rest
  }

  /** What comes next can be read. */
  lemma ComesTaken(lit: seq<nat>, dist: seq<nat>, rest: Path, item: Item)
    requires Fits(lit) && Fits(dist) && Comes(lit, dist, rest, item)
    ensures !Unreadable(lit, dist, rest)
  {
    hide LengthExtra;
    hide DistanceExtra;
    hide CodePath;
    hide Kraft;
    hide Takes;
    OnlyBegins(lit, Symbol(item), rest);
    if item.Copy? {
      OnlyBegins(dist, item.dsym, item.after[LengthExtra(item.sym - 257)..]);
      assert Taken(lit, dist, rest, item, item.more[DistanceExtra(item.dsym)..]);
    } else {
      assert Taken(lit, dist, rest, item, rest[lit[Symbol(item)]..]);
    }
  }

  // ----- playing

  datatype Phase = Going | Stopped(status: Status)

  /** `n` more bytes from `dist` before the end.  At distance 0 the buffer is copied onto itself. */
  ghost predicate Extends(out: seq<nat>, n: nat, dist: nat, out': seq<nat>)
    requires dist <= |out|
  {
    |out'| == |out| + n && out <= out' && (dist >= 1 ==> out' == Copied(out, n, dist))
  }

  lemma {:induction false} CopiedLast(out: seq<nat>, n: nat, dist: nat)
    requires 1 <= dist <= |out|
    ensures Copied(out, n + 1, dist) == Next(Copied(out, n, dist), dist)
    decreases n
  {
    if n > 0 {
      CopiedLast(Next(out, dist), n - 1, dist);
    }
  }

  lemma ExtendsOne(out: seq<nat>, n: nat, dist: nat, out': seq<nat>, b: nat)
    requires dist <= |out| && Extends(out, n, dist, out') && (dist >= 1 ==> b == out'[|out'| - dist])
    ensures Extends(out, n + 1, dist, out' + [b])
  {
    if dist >= 1 {
      CopiedLast(out, n, dist);
    }
  }

  /** The number of bytes a copy that seems to fit produces: never less than three. */
  ghost function Produced(len: nat): nat
  {
    if len < 3 then 3 else len
  }

  ghost predicate Plays(out: seq<nat>, item: Item, end: nat, phase: Phase, out': seq<nat>)
  {
    match item
    case Byte(byte) =>
      if |out| >= end then phase == Stopped(HasMoreOutput) && out' == out
      else phase == Going && out' == out + [byte]
    case End => phase == Stopped(BlockDone) && out' == out
    case Copy(_, _, _, _) =>
      && ValidCopy(item)
      && var len, dist := Length(item), Distance(item);
         if dist > |out| then phase == Stopped(Failed) && out' == out
         else if |out| + len <= end then phase == Going && Extends(out, Produced(len), dist, out')
         else if len == 0 then phase == Going && out' == out
         else phase == Stopped(HasMoreOutput) && Extends(out, if |out| < end then end - |out| else 0, dist, out')
  }

  // ----- runs

  datatype State = State(rest: Path, out: seq<nat>, phase: Phase)

  ghost predicate Step(lit: seq<nat>, dist: seq<nat>, end: nat, s: State, item: Item, s': State)
  {
    s.phase == Going && Taken(lit, dist, s.rest, item, s'.rest) && Plays(s.out, item, end, s'.phase, s'.out)
  }

  datatype Trace = Trace(states: seq<State>, items: seq<Item>)

  ghost predicate Run(lit: seq<nat>, dist: seq<nat>, end: nat, t: Trace)
  {
    && |t.states| == |t.items| + 1
    && forall i: nat {:trigger t.items[i]} :: i < |t.items| ==>
         Step(lit, dist, end, t.states[i], t.items[i], t.states[i + 1])
  }

  ghost function Initial(t: Trace): State
    requires t.states != []
  {
    t.states[0]
  }

  ghost function Now(t: Trace): State
    requires t.states != []
  {
    t.states[|t.states| - 1]
  }

  ghost function NoItems(rest: Path, out: seq<nat>): Trace
  {
    Trace([State(rest, out, Going)], [])
  }

  ghost function More(t: Trace, item: Item, s: State): Trace
  {
    Trace(t.states + [s], t.items + [item])
  }

  lemma RunMore(lit: seq<nat>, dist: seq<nat>, end: nat, t: Trace, item: Item, s: State)
    requires Run(lit, dist, end, t) && Step(lit, dist, end, Now(t), item, s)
    ensures Run(lit, dist, end, More(t, item, s)) && Now(More(t, item, s)) == s && Initial(More(t, item, s)) == Initial(t)
  {
    hide Step;
    var m := More(t, item, s);
    forall i: nat | i < |m.items| ensures Step(lit, dist, end, m.states[i], m.items[i], m.states[i + 1]) {
      if i < |t.items| {
        assert m.items[i] == t.items[i];
      }
    }
  }

  // ----- where a run stays

  // ----- the bits decide

  /** The same place in the input and in the output.  The bytes may differ, because a copy at distance 0
      leaves what the buffer held. */
  ghost predicate Alike(s: State, u: State)
  {
    s.rest == u.rest && |s.out| == |u.out| && s.phase == u.phase
  }

  lemma StepOnce(lit: seq<nat>, dist: seq<nat>, end: nat, s: State, item: Item, s': State, u: State, item': Item, u': State)
    requires Alike(s, u) && Step(lit, dist, end, s, item, s') && Step(lit, dist, end, u, item', u')
    ensures item == item' && Alike(s', u')
  {
    hide Taken;
    hide Length;
    hide Distance;
    hide Copied;
    TakenOnce(lit, dist, s.rest, item, s'.rest, item', u'.rest);
  }

  lemma StepReads(lit: seq<nat>, dist: seq<nat>, end: nat, s: State, item: Item, s': State)
    requires Step(lit, dist, end, s, item, s')
    ensures s.phase == Going && !Unreadable(lit, dist, s.rest)
  {
    hide Taken;
  }

  lemma {:induction false} RunsAlike(lit: seq<nat>, dist: seq<nat>, end: nat, t: Trace, u: Trace, i: nat)
    requires Run(lit, dist, end, t) && Run(lit, dist, end, u) && i <= |t.items| && i <= |u.items|
    requires Alike(t.states[0], u.states[0])
    ensures Alike(t.states[i], u.states[i]) && t.items[..i] == u.items[..i]
    ensures forall k: nat {:trigger t.states[k]} :: k <= i ==> |t.states[k].out| == |u.states[k].out|
  {
    hide Step;
    if i > 0 {
      RunsAlike(lit, dist, end, t, u, i - 1);
      var j := i - 1;
      var a, b := t.items[j], u.items[j];
      StepOnce(lit, dist, end, t.states[j], a, t.states[i], u.states[j], b, u.states[i]);
      assert t.items[..i] == t.items[..j] + [a] && u.items[..i] == u.items[..j] + [b];
    }
  }

  /** A length symbol that stands for no length, taken where fewer than three bytes are left. */
  ghost predicate Overruns(item: Item, at: nat, end: nat)
  {
    ValidCopy(item) && item.sym >= 286 && Distance(item) <= at <= end < at + 3
  }

  /** A length is 0 or at least 3, and 0 exactly for the symbols 286 and 287. */
  lemma LengthIs(item: Item)
    requires ValidCopy(item)
    ensures if item.sym >= 286 then Length(item) == 0 else 3 <= Length(item) <= 258
  {
    hide Lsb;
    var n := LengthExtra(item.sym - 257);
    LsbBound(item.after[..n]);
    LengthRange(item.sym - 257, Lsb(item.after[..n]));
  }

  /** One step keeps the end within reach, and passes it only by an overrun. */
  lemma StepInside(lit: seq<nat>, dist: seq<nat>, end: nat, s: State, item: Item, s': State)
    requires Step(lit, dist, end, s, item, s')
    ensures |s.out| <= |s'.out| && (|s.out| <= end + 3 ==> |s'.out| <= end + 3)
    ensures |s'.out| <= end <==> |s.out| <= end && !Overruns(item, |s.out|, end)
  {
    hide Taken;
    hide Length;
    hide Distance;
    hide Copied;
    if item.Copy? {
      LengthIs(item);
    }
  }

  /** For all bits: no run gets further than three bytes past the end, and it stays within if and only
      if no length symbol above 285 is taken, at an accepted distance, with fewer than three bytes left. */
  lemma {:induction false} RunInside(lit: seq<nat>, dist: seq<nat>, end: nat, t: Trace, i: nat)
    requires Run(lit, dist, end, t) && i <= |t.items| && |Initial(t).out| <= end + 3
    ensures |Initial(t).out| <= |t.states[i].out| <= end + 3
    ensures |t.states[i].out| <= end <==>
              && |Initial(t).out| <= end
              && forall k: nat {:trigger t.items[k]} :: k < i ==> !Overruns(t.items[k], |t.states[k].out|, end)
  {
    hide Step;
    hide Overruns;
    if i > 0 {
      RunInside(lit, dist, end, t, i - 1);
      assert Step(lit, dist, end, t.states[i - 1], t.items[i - 1], t.states[i]);
      StepInside(lit, dist, end, t.states[i - 1], t.items[i - 1], t.states[i]);
    }
  }

  /** A table without codes for those two symbols keeps every run within the buffer. */
  lemma PlainInside(lit: seq<nat>, dist: seq<nat>, end: nat, t: Trace)
    requires Run(lit, dist, end, t) && |Initial(t).out| <= end
    requires !Used(lit, 286) && !Used(lit, 287)
    ensures |Now(t).out| <= end
  {
    forall k: nat | k < |t.items| ensures !Overruns(t.items[k], |t.states[k].out|, end) {
      assert Step(lit, dist, end, t.states[k], t.items[k], t.states[k + 1]);
    }
    RunInside(lit, dist, end, t, |t.items|);
  }

  // ----- runs over what a compressor sent

  /** The codes are next in the stream, and `tail` follows. */
  ghost predicate Sends(lit: seq<nat>, dist: seq<nat>, codes: seq<LzCode>, rest: Path, tail: Path)
  {
    AllUsed(lit, dist, codes) && rest == BodyBits(lit, dist, codes) + tail
  }

  lemma BodyStep(lit: seq<nat>, dist: seq<nat>, codes: seq<LzCode>)
    requires AllUsed(lit, dist, codes) && codes != []
    ensures CodeUsed(lit, dist, codes[0]) && AllUsed(lit, dist, codes[1..])
    ensures BodyBits(lit, dist, codes) == LzBits(lit, dist, codes[0]) + BodyBits(lit, dist, codes[1..])
  {
    hide LzBits;
  }

  lemma Regroup(p: Path, a: Path, b: Path, body: Path, tail: Path)
    ensures (p + (a + b)) + body + tail == p + (a + b + (body + tail))
  {
  }

  lemma SendsEnd(lit: seq<nat>, dist: seq<nat>, rest: Path, tail: Path)
    requires Sends(lit, dist, [], rest, tail)
    ensures Begins(lit, END_OF_BLOCK, rest) && rest[lit[END_OF_BLOCK]..] == tail
  {
    hide CodePath;
  }

  lemma SendsLiteral(lit: seq<nat>, dist: seq<nat>, codes: seq<LzCode>, rest: Path, tail: Path)
    requires Sends(lit, dist, codes, rest, tail) && codes != [] && codes[0].Literal?
    ensures codes[0].byte < END_OF_BLOCK && Begins(lit, codes[0].byte, rest)
    ensures Sends(lit, dist, codes[1..], rest[lit[codes[0].byte]..], tail)
  {
    hide CodePath;
    hide BodyBits;
    BodyStep(lit, dist, codes);
    var p, body := CodePath(lit, codes[0].byte), BodyBits(lit, dist, codes[1..]);
    assert p + body + tail == p + (body + tail);
  }

  /** Reading a match that was sent gives back its length and distance. */
  lemma SendsMatch(lit: seq<nat>, dist: seq<nat>, codes: seq<LzCode>, rest: Path, tail: Path) returns (item: Item)
    requires Sends(lit, dist, codes, rest, tail) && codes != [] && codes[0].Match?
    ensures item.Copy? && Comes(lit, dist, rest, item) && ValidCopy(item)
    ensures Length(item) == codes[0].len && Distance(item) == codes[0].dist && item.sym < 286
    ensures Sends(lit, dist, codes[1..], item.more[DistanceExtra(item.dsym)..], tail)
  {
    hide CodePath;
    hide BodyBits;
    hide Low;
    hide LenExtra;
    hide DistSym;
    hide DistExtra;
    BodyStep(lit, dist, codes);
    var c := codes[0];
    var m, d, sym, dsym := c.len - MIN_MATCH_LEN, c.dist - 1, LitSym(c), DistSym(c.dist - 1);
    LengthBack(m);
    DistanceBack(d);
    var p, a := CodePath(lit, sym), Low(m, LenExtra(m));
    var q, x := CodePath(dist, dsym), Low(d, DistExtra(d));
    var next := BodyBits(lit, dist, codes[1..]) + tail;
    Regroup(p, a, q + x, BodyBits(lit, dist, codes[1..]), tail);
    MatchRegroup(p, a, q, x, next);
    var after, more := a + (q + (x + next)), x + next;
    assert rest[..|p|] == p && rest[|p|..] == after;
    assert after[..|a|] == a && after[|a|..] == q + more;
    assert (q + more)[..|q|] == q && (q + more)[|q|..] == more;
    assert more[..|x|] == x && more[|x|..] == next;
    LsbLow(m, LenExtra(m));
    LsbLow(d, DistExtra(d));
    item := Copy(sym, after, dsym, more);
  }

  lemma MatchRegroup(p: Path, a: Path, q: Path, x: Path, next: Path)
    ensures p + (a + (q + x) + next) == p + (a + (q + (x + next)))
  {
  }

  /** What comes next is what is read. */
  lemma TakenOnly(lit: seq<nat>, dist: seq<nat>, rest: Path, item: Item, rest': Path, sent: Item)
    requires Comes(lit, dist, rest, sent) && Taken(lit, dist, rest, item, rest')
    ensures item == sent
    ensures if sent.Copy? then rest' == sent.more[DistanceExtra(sent.dsym)..] else rest' == rest[lit[Symbol(sent)]..]
  {
    hide Begins;
    hide LengthExtra;
    hide DistanceExtra;
  }

  /** Where decoding stands: the codes next in the stream do to the output so far what all of them do
      to the output at the start. */
  ghost predicate Midway(lit: seq<nat>, dist: seq<nat>, end: nat, s: State, codes: seq<LzCode>, tail: Path, goal: Outcome)
  {
    ValidCodes(codes) && Sends(lit, dist, codes, s.rest, tail) && Expanded(s.out, codes, end) == goal
  }

  ghost predicate Reached(s: State, tail: Path, goal: Outcome)
  {
    s.phase == Stopped(goal.status) && (goal.status == BlockDone ==> s.out == goal.out && s.rest == tail)
  }

  lemma FollowCode(lit: seq<nat>, dist: seq<nat>, end: nat, s: State, item: Item, s': State,
                   codes: seq<LzCode>, tail: Path, goal: Outcome)
    requires Midway(lit, dist, end, s, codes, tail, goal) && Step(lit, dist, end, s, item, s')
    ensures if s'.phase == Going then codes != [] && Midway(lit, dist, end, s', codes[1..], tail, goal)
            else Reached(s', tail, goal)
    ensures !Overruns(item, |s.out|, end)
  {
    hide Begins;
    hide Sends;
    hide Expanded;
    hide Copied;
    hide Length;
    hide Distance;
    hide Taken;
    if codes == [] {
      SendsEnd(lit, dist, s.rest, tail);
      TakenOnly(lit, dist, s.rest, item, s'.rest, End);
      ExpandedNone(s.out, end);
    } else if codes[0].Literal? {
      SendsLiteral(lit, dist, codes, s.rest, tail);
      TakenOnly(lit, dist, s.rest, item, s'.rest, Byte(codes[0].byte));
      ExpandedLiteral(s.out, codes, end);
    } else {
      var sent := SendsMatch(lit, dist, codes, s.rest, tail);
      TakenOnly(lit, dist, s.rest, item, s'.rest, sent);
      ExpandedMatch(s.out, codes, end);
    }
  }

  /** A run over codes that were sent follows them. */
  lemma {:induction false} RunFollows(lit: seq<nat>, dist: seq<nat>, end: nat, t: Trace, codes: seq<LzCode>, tail: Path,
                                      goal: Outcome, i: nat)
    requires Run(lit, dist, end, t) && Midway(lit, dist, end, Initial(t), codes, tail, goal) && i <= |t.items|
    requires Initial(t).phase == Going
    ensures if t.states[i].phase == Going then i <= |codes| && Midway(lit, dist, end, t.states[i], codes[i..], tail, goal)
            else Reached(t.states[i], tail, goal)
    ensures forall k: nat {:trigger t.items[k]} :: k < i ==> !Overruns(t.items[k], |t.states[k].out|, end)
  {
    hide Step;
    hide Overruns;
    hide Midway;
    if i == 0 {
      assert codes[0..] == codes;
    } else {
      RunFollows(lit, dist, end, t, codes, tail, goal, i - 1);
      assert Step(lit, dist, end, t.states[i - 1], t.items[i - 1], t.states[i]);
      StillGoing(lit, dist, end, t.states[i - 1], t.items[i - 1], t.states[i]);
      FollowCode(lit, dist, end, t.states[i - 1], t.items[i - 1], t.states[i], codes[i - 1..], tail, goal);
      if t.states[i].phase == Going {
        assert codes[i - 1..][1..] == codes[i..];
      }
    }
  }

  lemma StillGoing(lit: seq<nat>, dist: seq<nat>, end: nat, s: State, item: Item, s': State)
    requires Step(lit, dist, end, s, item, s')
    ensures s.phase == Going
  {
  }

  /** Codes that were sent can be read. */
  lemma SentReadable(lit: seq<nat>, dist: seq<nat>, codes: seq<LzCode>, rest: Path, tail: Path)
    requires Sends(lit, dist, codes, rest, tail) && Fits(lit) && Fits(dist)
    ensures !Unreadable(lit, dist, rest)
  {
    hide Sends;
    hide Comes;
    hide Unreadable;
    hide Fits;
    if codes == [] {
      SendsEnd(lit, dist, rest, tail);
      ComesPlain(lit, dist, rest, End);
      ComesTaken(lit, dist, rest, End);
    } else if codes[0].Literal? {
      SendsLiteral(lit, dist, codes, rest, tail);
      ComesPlain(lit, dist, rest, Byte(codes[0].byte));
      ComesTaken(lit, dist, rest, Byte(codes[0].byte));
    } else {
      var item := SendsMatch(lit, dist, codes, rest, tail);
      ComesTaken(lit, dist, rest, item);
    }
  }

  lemma ComesPlain(lit: seq<nat>, dist: seq<nat>, rest: Path, item: Item)
    requires !item.Copy? && (item.Byte? ==> item.byte < END_OF_BLOCK) && Begins(lit, Symbol(item), rest)
    ensures Comes(lit, dist, rest, item)
  {
  }
}
