/** Dynamic blocks end to end: whatever the counts, the decompressor rebuilds from the header the
    very code the compressor used, and reads back the symbols written with it. */
module DynamicBlock {
  import opened Bits
  import opened BitStream
  import opened CanonicalCode
  import R = CodeLengthRle
  import opened Common
  import opened DynamicHeader
  import opened InflateTable
  import opened InflateTrie
  import opened LzCodes
  import opened LzStream
  import opened LzTables
  import opened SymbolStream

  // ----- reading the packed lengths

  /** The code-length symbol with its extra bits that any bits begin with, and the bits behind it. */
  ghost predicate ReadsToken(sizes: seq<nat>, rest: Path, t: R.Token, rest': Path)
  {
    exists after :: Takes(sizes, t.code, rest, after) && R.ExtraBits(t.code) <= |after| &&
                    t.extra == Lsb(after[..R.ExtraBits(t.code)]) && rest' == after[R.ExtraBits(t.code)..]
  }

  lemma TokenOnce(sizes: seq<nat>, rest: Path, t: R.Token, rest': Path, u: R.Token, rest'': Path)
    requires ReadsToken(sizes, rest, t, rest') && ReadsToken(sizes, rest, u, rest'')
    ensures t == u && rest' == rest''
  {
    hide Takes;
    hide Lsb;
    var a :| Takes(sizes, t.code, rest, a) && R.ExtraBits(t.code) <= |a| &&
             t.extra == Lsb(a[..R.ExtraBits(t.code)]) && rest' == a[R.ExtraBits(t.code)..];
    var b :| Takes(sizes, u.code, rest, b) && R.ExtraBits(u.code) <= |b| &&
             u.extra == Lsb(b[..R.ExtraBits(u.code)]) && rest'' == b[R.ExtraBits(u.code)..];
    TakesOnce(sizes, rest, t.code, a, u.code, b);
  }

  /** Reads one code-length symbol and its extra bits. */
  method GetToken(table: HuffTable, r: BitReader, counter: nat) returns (ok: bool, t: R.Token)
    requires table.Valid() && |table.lens| == TOKENS && r.Valid()
    modifies r
    ensures r.Valid() && |r.rest| <= |old(r.rest)| && (ok ==> R.ValidToken(t) && (t.code == 16 ==> counter > 0))
    ensures ok ==> ReadsToken(table.lens, old(r.rest), t, r.rest)
    ensures !ok ==> forall u, rest :: ReadsToken(table.lens, old(r.rest), u, rest) ==> u.code == 16 && counter == 0
  {
    hide Buffered;
    hide Built;
    hide Lsb;
    hide Begins;
    ghost var before, lens := r.rest, table.lens;
    t := R.Token(0, 0);
    var sym;
    ok, sym := GetSymbol(table, r);
    if !ok {
      return;
    }
    SymbolRange(lens, sym, before, r.rest);
    ghost var after := r.rest;
    hide Takes;
    if sym == 16 && counter == 0 {
      NextOnly(lens, before, sym, after);
      return false, t;
    }
    var extra;
    ExtraRange(r.rest, sym);
    ok, extra := r.GetBits(R.ExtraBits(sym));
    if ok {
      t := R.Token(sym, extra);
    } else {
      NextOnly(lens, before, sym, after);
    }
  }

  lemma SymbolRange(lens: seq<nat>, sym: nat, rest: Path, after: Path)
    requires Takes(lens, sym, rest, after)
    ensures sym < |lens| || sym == 0
  {
  }

  /** Whatever token comes next has the symbol that was read. */
  lemma NextOnly(lens: seq<nat>, rest: Path, sym: nat, after: Path)
    requires Takes(lens, sym, rest, after)
    ensures forall u, rest' :: ReadsToken(lens, rest, u, rest') ==> u.code == sym && R.ExtraBits(sym) <= |after|
  {
    hide Takes;
    hide Lsb;
    forall u, rest' | ReadsToken(lens, rest, u, rest') ensures u.code == sym && R.ExtraBits(sym) <= |after| {
      var b :| Takes(lens, u.code, rest, b) && R.ExtraBits(u.code) <= |b| &&
               u.extra == Lsb(b[..R.ExtraBits(u.code)]) && rest' == b[R.ExtraBits(u.code)..];
      TakesOnce(lens, rest, sym, after, u.code, b);
    }
  }

  lemma ExtraRange(rest: Path, sym: nat)
    requires sym <= 18
    ensures var n := R.ExtraBits(sym);
            n <= |rest| ==> R.ValidToken(R.Token(sym, Lsb(rest[..n])))
  {
    var n := R.ExtraBits(sym);
    assert Pow2(0) == 1 && Pow2(2) == 4 && Pow2(3) == 8 && Pow2(7) == 128;
    if n <= |rest| {
      LsbBound(rest[..n]);
    }
  }

  /** Where the reader stands after `k` of the tokens that were sent. */
  ghost predicate At(lens: seq<nat>, sent: seq<R.Token>, k: nat, got: seq<nat>, rest: Path, tail: Path)
  {
    && k <= |sent| && Decodable(lens, sent) && R.Expand(sent).Some?
    && R.Expand(sent[..k]) == Some(got)
    && rest == TokensBits(lens, sent[k..]) + tail
  }

  lemma AtNext(lens: seq<nat>, sent: seq<R.Token>, k: nat, got: seq<nat>, rest: Path, tail: Path)
    requires At(lens, sent, k, got, rest, tail) && |got| < |R.Expand(sent).value|
    ensures k < |sent| && R.ValidToken(sent[k]) && Used(lens, sent[k].code)
    ensures sent[k].code == 16 ==> got != []
    ensures R.Apply(got, sent[k]).Some?
    ensures |R.Apply(got, sent[k]).value| <= |R.Expand(sent).value|
    ensures var more := TokensBits(lens, sent[k + 1..]) + tail;
            rest == TokenBits(lens, sent[k]) + more &&
            At(lens, sent, k + 1, R.Apply(got, sent[k]).value, more, tail)
  {
    hide TokenBits;
    assert sent[..|sent|] == sent;
    R.ExpandPrefix(sent, k + 1);
    assert sent[..k + 1][..k] == sent[..k];
    assert sent[k..][1..] == sent[k + 1..];
  }

  /** A token that was sent is read. */
  lemma SentReads(lens: seq<nat>, t: R.Token, more: Path)
    requires R.ValidToken(t) && Used(lens, t.code) && Fits(lens)
    ensures ReadsToken(lens, TokenBits(lens, t) + more, t, more)
  {
    hide CodePath;
    hide Low;
    hide Lsb;
    var n := R.ExtraBits(t.code);
    var code, after := CodePath(lens, t.code), Low(t.extra, n) + more;
    var rest := TokenBits(lens, t) + more;
    assert rest == code + after;
    assert Begins(lens, t.code, rest) && rest[lens[t.code]..] == after;
    OnlyBegins(lens, t.code, rest);
    ExtraFits(t);
    ReadLow(t.extra, n, more);
  }

  lemma ApplyGrows(got: seq<nat>, t: R.Token)
    ensures R.Apply(got, t).Some? ==> |R.Apply(got, t).value| > |got|
  {
  }

  /** What any bits say about the `total` lengths, after those in `got`; tokens that do not end there, or
      repeat nothing, are refused. */
  ghost function LengthsOf(sizes: seq<nat>, total: nat, got: seq<nat>, rest: Path): Option<(seq<nat>, Path)>
    decreases if |got| < total then total - |got| else 0
  {
    if |got| >= total then
      if |got| == total then Some((got, rest)) else None
    else if exists t, more :: ReadsToken(sizes, rest, t, more) && R.Apply(got, t).Some? then
      var t, more :| ReadsToken(sizes, rest, t, more) && R.Apply(got, t).Some?;
      ApplyGrows(got, t);
      LengthsOf(sizes, total, R.Apply(got, t).value, more)
    else None
  }

  lemma LengthsStep(sizes: seq<nat>, total: nat, got: seq<nat>, rest: Path, t: R.Token, more: Path)
    requires |got| < total && ReadsToken(sizes, rest, t, more) && R.Apply(got, t).Some?
    ensures LengthsOf(sizes, total, got, rest) == LengthsOf(sizes, total, R.Apply(got, t).value, more)
  {
    hide ReadsToken;
    hide R.Apply;
    var u, after :| ReadsToken(sizes, rest, u, after) && R.Apply(got, u).Some? &&
                    LengthsOf(sizes, total, got, rest) == LengthsOf(sizes, total, R.Apply(got, u).value, after);
    TokenOnce(sizes, rest, t, more, u, after);
  }

  lemma LengthsStop(sizes: seq<nat>, total: nat, got: seq<nat>, rest: Path)
    requires |got| < total && forall u, more :: ReadsToken(sizes, rest, u, more) ==> u.code == 16 && got == []
    ensures LengthsOf(sizes, total, got, rest) == None
  {
    hide ReadsToken;
  }

  lemma LengthsDone(sizes: seq<nat>, total: nat, got: seq<nat>, rest: Path)
    requires |got| >= total
    ensures LengthsOf(sizes, total, got, rest) == if |got| == total then Some((got, rest)) else None
  {
  }

  /** Packed lengths that were sent are read back. */
  lemma {:induction false} LengthsBack(lens: seq<nat>, sent: seq<R.Token>, k: nat, got: seq<nat>, rest: Path, tail: Path)
    requires Fits(lens) && At(lens, sent, k, got, rest, tail) && |got| <= |R.Expand(sent).value|
    ensures LengthsOf(lens, |R.Expand(sent).value|, got, rest) == Some((R.Expand(sent).value, tail))
    decreases |R.Expand(sent).value| - |got|
  {
    hide TokensBits;
    hide TokenBits;
    hide R.Expand;
    hide R.Apply;
    hide ReadsToken;
    hide Fits;
    var total := |R.Expand(sent).value|;
    if |got| == total {
      AtEnd(lens, sent, k, got, rest, tail);
    } else {
      AtNext(lens, sent, k, got, rest, tail);
      var t, more := sent[k], TokensBits(lens, sent[k + 1..]) + tail;
      SentReads(lens, t, more);
      LengthsStep(lens, total, got, rest, t, more);
      ApplyGrows(got, t);
      LengthsBack(lens, sent, k + 1, R.Apply(got, t).value, more, tail);
    }
  }

  /** Expands the packed lengths of a block into the 457-entry buffer. */
  method GetLengths(table: HuffTable, r: BitReader, total: nat, lenCodes: array<nat>) returns (ok: bool, ghost got: seq<R.Token>)
    requires table.Valid() && |table.lens| == TOKENS && r.Valid() && total <= 320
    requires lenCodes.Length == 457 && lenCodes as object != table.lookUp && lenCodes as object != table.tree
    modifies r, lenCodes
    ensures r.Valid() && |r.rest| <= |old(r.rest)|
    ensures ok ==> Lengths(lenCodes[..total])
    ensures (forall k :: 0 <= k < |got| ==> R.ValidToken(got[k])) && (ok ==> R.Expand(got) == Some(lenCodes[..total]))
    ensures LengthsOf(table.lens, total, [], old(r.rest)) == if ok then Some((lenCodes[..total], r.rest)) else None
  {
    hide Buffered;
    hide Built;
    hide R.Expand;
    hide R.Apply;
    hide ReadsToken;
    hide LengthsOf;
    ghost var lens, before := table.lens, r.rest;
    var counter := 0;
    got := [];
    NoTokens();
    assert lenCodes[..0] == [];
    while counter < total
      invariant table.Valid() && table.lens == lens && r.Valid() && counter <= 457
      invariant |r.rest| <= |old(r.rest)| && Lengths(lenCodes[..counter])
      invariant LengthsOf(lens, total, lenCodes[..counter], r.rest) == LengthsOf(lens, total, [], before)
      invariant forall i :: 0 <= i < |got| ==> R.ValidToken(got[i])
      invariant R.Expand(got) == Some(lenCodes[..counter])
      decreases 457 - counter
    {
      ghost var rest, have := r.rest, lenCodes[..counter];
      var t;
      ok, t := GetToken(table, r, counter);
      if !ok {
        LengthsStop(lens, total, have, rest);
        return;
      }
      ApplyLengths(have, t);
      ExpandMore(got, t);
      got := got + [t];
      counter := R.Store(lenCodes, counter, t);
      LengthsStep(lens, total, have, rest, t, r.rest);
    }
    LengthsDone(lens, total, lenCodes[..counter], r.rest);
    ok := counter == total;
  }

  lemma NoTokens()
    ensures R.Expand([]) == Some([])
  {
  }

  lemma ExpandMore(tokens: seq<R.Token>, t: R.Token)
    requires R.Expand(tokens).Some?
    ensures R.Expand(tokens + [t]) == R.Apply(R.Expand(tokens).value, t)
  {
    assert (tokens + [t])[..|tokens|] == tokens;
  }

  lemma ApplyLengths(out: seq<nat>, t: R.Token)
    requires Lengths(out)
    ensures R.Apply(out, t).Some? ==> Lengths(R.Apply(out, t).value)
  {
  }

  lemma AtStart(lens: seq<nat>, sent: seq<R.Token>, tail: Path)
    requires Decodable(lens, sent) && R.Expand(sent).Some?
    ensures At(lens, sent, 0, [], TokensBits(lens, sent) + tail, tail)
  {
    assert sent[..0] == [] && sent[0..] == sent;
  }

  lemma AtEnd(lens: seq<nat>, sent: seq<R.Token>, k: nat, got: seq<nat>, rest: Path, tail: Path)
    requires At(lens, sent, k, got, rest, tail) && |got| == |R.Expand(sent).value|
    ensures k == |sent| && got == R.Expand(sent).value && rest == tail
  {
    R.ExpandPrefix(sent, k);
    assert sent[..|sent|] == sent;
    assert sent[|sent|..] == [] && [] + tail == tail;
  }

  /** The code lengths of both tables, and the bits behind the header. */
  datatype Tables = Tables(lit: seq<nat>, dist: seq<nat>, rest: Path)

  /** What any bits say as the header of a dynamic block. */
  ghost function HeaderOf(rest: Path): Option<Tables>
  {
    match CountsOf(rest)
    case None => None
    case Some(c) => CountedOf(c)
  }

  ghost function CountedOf(c: Counts): Option<Tables>
  {
    if c.sent > TOKENS || |c.rest| < 3 * c.sent || !Accepted(SizesOf(c.rest, c.sent)) then None
    else
      match LengthsOf(SizesOf(c.rest, c.sent), c.lit + c.dist, [], c.rest[3 * c.sent..])
      case None => None
      case Some(got) => if |got.0| < c.lit then None else Some(Tables(got.0[..c.lit], got.0[c.lit..], got.1))
  }

  /** Any header the compressor can write is read back exactly. */
  lemma HeaderBack(h: Header, lens: seq<nat>, tail: Path)
    requires HeaderFor(h, lens)
    ensures HeaderOf(HeaderBits(h, lens) + tail) == Some(Tables(lens[..h.lit], lens[h.lit..], tail))
  {
    hide TokensBits;
    hide SizesBits;
    hide CountsBits;
    hide CountsOf;
    hide SizesOf;
    hide R.Expand;
    hide LengthsOf;
    hide Order;
    hide Kraft;
    var r2 := TokensBits(h.sizes, h.tokens) + tail;
    var r1 := SizesBits(h.sizes, 0, h.sent) + r2;
    CountsRegroup(CountsBits(h), SizesBits(h.sizes, 0, h.sent), TokensBits(h.sizes, h.tokens), tail);
    CountsBack(h, r1);
    SizesBack(h.sizes, h.sent, r2);
    SmallLengths(h.sizes);
    AtStart(h.sizes, h.tokens, tail);
    AcceptedFits(h.sizes);
    LengthsBack(h.sizes, h.tokens, 0, [], r2, tail);
  }

  lemma SmallLengths(sizes: seq<nat>)
    requires forall c :: 0 <= c < |sizes| ==> sizes[c] <= 7
    ensures Lengths(sizes)
  {
  }

  /** Reads the header of a dynamic block; `table` becomes the code-length table and the lengths go to
      `lenCodes`. */
  method ReadHeader(table: HuffTable, r: BitReader, lenCodes: array<nat>) returns (ok: bool, lit: nat, dist: nat)
    requires table.Sized() && r.Valid()
    requires lenCodes.Length == 457 && lenCodes as object != table.lookUp && lenCodes as object != table.tree
    modifies table, table.lookUp, table.tree, r, lenCodes
    ensures r.Valid() && |r.rest| <= |old(r.rest)|
    ensures ok ==> 257 <= lit <= 288 && 1 <= dist <= 32 && Lengths(lenCodes[..lit + dist])
    ensures HeaderOf(old(r.rest)) ==
            if ok then Some(Tables(lenCodes[..lit], lenCodes[lit..lit + dist], r.rest)) else None
  {
    hide Buffered;
    hide Built;
    hide SizesOf;
    hide R.Expand;
    hide LengthsOf;
    hide Complete;
    var sent, sizes;
    ghost var before := r.rest;
    ok, lit, dist, sent := GetCounts(r);
    if !ok {
      return;
    }
    hide CountsOf;
    ghost var rest := r.rest;
    ok, sizes := GetSizes(r, sent);
    if !ok {
      return;
    }
    SizesSmall(rest, sent);
    SmallLengths(sizes);
    ok := table.Build(sizes);
    if !ok {
      return;
    }
    ghost var got;
    ok, got := GetLengths(table, r, lit + dist, lenCodes);
    if ok {
      assert lenCodes[..lit + dist][..lit] == lenCodes[..lit] && lenCodes[..lit + dist][lit..] == lenCodes[lit..lit + dist];
    }
  }

  // ----- trailing zeros do not change a code

  lemma {:induction false} CountTrimmed(lens: seq<nat>, n: nat, l: nat)
    requires n <= |lens| && l >= 1 && forall i :: n <= i < |lens| ==> lens[i] == 0
    ensures Count(lens, l) == Count(lens[..n], l)
    decreases |lens|
  {
    if n < |lens| {
      var m := |lens| - 1;
      CountTrimmed(lens[..m], n, l);
      assert lens[..m][..n] == lens[..n];
    } else {
      assert lens[..n] == lens;
    }
  }

  lemma {:induction false} FirstCodeTrimmed(lens: seq<nat>, n: nat, l: nat)
    requires n <= |lens| && l >= 1 && forall i :: n <= i < |lens| ==> lens[i] == 0
    ensures FirstCode(lens, l) == FirstCode(lens[..n], l)
  {
    if l > 1 {
      FirstCodeTrimmed(lens, n, l - 1);
      CountTrimmed(lens, n, l - 1);
    }
  }

  lemma PathTrimmed(lens: seq<nat>, n: nat, s: nat)
    requires n <= |lens| && Used(lens, s) && forall i :: n <= i < |lens| ==> lens[i] == 0
    ensures Used(lens[..n], s) && CodePath(lens[..n], s) == CodePath(lens, s)
  {
    FirstCodeTrimmed(lens, n, lens[s]);
    assert lens[..n][..s] == lens[..s];
  }

  /** The body of a block reads the same with the trimmed lengths. */
  lemma {:induction false} BodyTrimmed(lit: seq<nat>, dist: seq<nat>, m: nat, n: nat, codes: seq<LzCode>)
    requires m <= |lit| && n <= |dist| && AllUsed(lit, dist, codes)
    requires (forall i :: m <= i < |lit| ==> lit[i] == 0) && (forall i :: n <= i < |dist| ==> dist[i] == 0)
    ensures AllUsed(lit[..m], dist[..n], codes) && BodyBits(lit[..m], dist[..n], codes) == BodyBits(lit, dist, codes)
  {
    hide LzBits;
    hide CodeUsed;
    hide CodePath;
    PathTrimmed(lit, m, END_OF_BLOCK);
    forall i | 0 <= i < |codes| ensures CodeUsed(lit[..m], dist[..n], codes[i]) {
      CodeTrimmed(lit, dist, m, n, codes[i]);
    }
    if codes != [] {
      BodyTrimmed(lit, dist, m, n, codes[1..]);
      CodeTrimmed(lit, dist, m, n, codes[0]);
    }
  }

  lemma CodeTrimmed(lit: seq<nat>, dist: seq<nat>, m: nat, n: nat, c: LzCode)
    requires m <= |lit| && n <= |dist| && CodeUsed(lit, dist, c)
    requires (forall i :: m <= i < |lit| ==> lit[i] == 0) && (forall i :: n <= i < |dist| ==> dist[i] == 0)
    ensures CodeUsed(lit[..m], dist[..n], c) && LzBits(lit[..m], dist[..n], c) == LzBits(lit, dist, c)
  {
    hide CodePath;
    hide LitSym;
    hide DistSym;
    PathTrimmed(lit, m, LitSym(c));
    if c.Match? {
      PathTrimmed(dist, n, DistSym(c.dist - 1));
    }
  }

  lemma {:induction false} MassTrimmed(lens: seq<nat>, n: nat, m: nat)
    requires n <= |lens| && 1 <= m <= MAX_LENGTH + 1 && forall i :: n <= i < |lens| ==> lens[i] == 0
    ensures Mass(lens, m) == Mass(lens[..n], m)
  {
    if m > 1 {
      MassTrimmed(lens, n, m - 1);
      CountTrimmed(lens, n, m - 1);
    }
  }

  lemma {:induction false} UsedTrimmed(lens: seq<nat>, n: nat)
    requires n <= |lens| && forall i :: n <= i < |lens| ==> lens[i] == 0
    ensures UsedCount(lens) == UsedCount(lens[..n])
    decreases |lens|
  {
    if n < |lens| {
      var m := |lens| - 1;
      UsedTrimmed(lens[..m], n);
      assert lens[..m][..n] == lens[..n];
    } else {
      assert lens[..n] == lens;
    }
  }

  /** The trimmed lengths pass the decompressor's test if the full ones do. */
  lemma AcceptedTrimmed(lens: seq<nat>, n: nat)
    requires n <= |lens| && Lengths(lens) && forall i :: n <= i < |lens| ==> lens[i] == 0
    requires UsedCount(lens) >= 2 ==> Complete(lens)
    ensures Lengths(lens[..n]) && (Complete(lens[..n]) || UsedCount(lens[..n]) <= 1)
  {
    UsedTrimmed(lens, n);
    MassTrimmed(lens, n, MAX_LENGTH + 1);
  }
}
