/** The header of a dynamic block: the code lengths of both tables, packed, Huffman-coded and
    preceded by the lengths of that code (section 3.2.7 of RFC 1951). */
module DynamicHeader {
  import opened Bits
  import opened BitStream
  import C = CanonicalCode
  import opened CodeLengthRle
  import opened Common
  import opened DeflateTable
  import D = HuffmanDepth
  import opened SymbolStream

  const TOKENS: nat := 19

  /** The order in which the lengths of the code-length code are sent. */
  function Order(i: nat): (c: nat)
    requires i < TOKENS
    ensures c < TOKENS && PlaceOf(c) == i
  {
    [16, 17, 18, 0, 8, 7, 9, 6, 10, 5, 11, 4, 12, 3, 13, 2, 14, 1, 15][i]
  }

  /** The place of each symbol in that order. */
  function PlaceOf(c: nat): (i: nat)
    requires c < TOKENS
    ensures i < TOKENS
  {
    [3, 17, 15, 13, 11, 9, 7, 5, 4, 6, 8, 10, 12, 14, 16, 18, 0, 1, 2][c]
  }

  lemma OrderOfPlace(c: nat)
    requires c < TOKENS
    ensures Order(PlaceOf(c)) == c
  {
  }

  /** The contents of a header: how many lengths of each kind are sent, the code-length code and
      the packed lengths. */
  datatype Header = Header(lit: nat, dist: nat, sent: nat, sizes: seq<nat>, tokens: seq<Token>)

  ghost predicate Decodable(sizes: seq<nat>, tokens: seq<Token>)
  {
    forall k :: 0 <= k < |tokens| ==> ValidToken(tokens[k]) && C.Used(sizes, tokens[k].code)
  }

  ghost predicate HeaderFor(h: Header, lens: seq<nat>)
  {
    && 257 <= h.lit <= 286 && 1 <= h.dist <= 30 && |lens| == h.lit + h.dist
    && 4 <= h.sent <= TOKENS && |h.sizes| == TOKENS
    && (forall c :: 0 <= c < TOKENS ==> h.sizes[c] <= 7)
    && (forall i :: h.sent <= i < TOKENS ==> h.sizes[Order(i)] == 0)
    && (C.Complete(h.sizes) || C.UsedCount(h.sizes) <= 1)
    && Decodable(h.sizes, h.tokens) && Expand(h.tokens) == Some(lens)
  }

  /** The lengths of the code-length code from the `i`-th to the last one sent. */
  ghost function SizesBits(sizes: seq<nat>, i: nat, n: nat): Path
    requires |sizes| == TOKENS && i <= n <= TOKENS
    decreases n - i
  {
    if i == n then [] else Low(sizes[Order(i)], 3) + SizesBits(sizes, i + 1, n)
  }

  ghost function TokenBits(sizes: seq<nat>, t: Token): Path
    requires C.Used(sizes, t.code)
  {
    C.CodePath(sizes, t.code) + Low(t.extra, ExtraBits(t.code))
  }

  ghost function TokensBits(sizes: seq<nat>, tokens: seq<Token>): Path
    requires Decodable(sizes, tokens)
  {
    if tokens == [] then [] else TokenBits(sizes, tokens[0]) + TokensBits(sizes, tokens[1..])
  }

  ghost function CountsBits(h: Header): Path
    requires h.lit >= 257 && h.dist >= 1 && h.sent >= 4
  {
    Low(h.lit - 257, 5) + Low(h.dist - 1, 5) + Low(h.sent - 4, 4)
  }

  ghost function HeaderBits(h: Header, lens: seq<nat>): Path
    requires HeaderFor(h, lens)
  {
    CountsBits(h) + SizesBits(h.sizes, 0, h.sent) + TokensBits(h.sizes, h.tokens)
  }

  // ----- the counts of the code-length symbols

  lemma {:induction false} SumOfCounts(tokens: seq<Token>, counts: seq<nat>)
    requires |counts| == TOKENS && forall c :: 0 <= c < TOKENS ==> counts[c] == Occurrences(tokens, c)
    requires forall k :: 0 <= k < |tokens| ==> tokens[k].code < TOKENS
    ensures D.Sum(counts) == |tokens|
  {
    if tokens == [] {
      D.SumOfZeros(counts);
    } else {
      var n := |tokens| - 1;
      var c := tokens[n].code;
      SumOfCounts(tokens[..n], counts[c := counts[c] - 1]);
      D.SumOfUpdate(counts, c, counts[c] - 1);
    }
  }

  lemma {:induction false} FewTokens(tokens: seq<Token>)
    ensures |tokens| <= |Bytes(tokens)|
  {
    if tokens != [] {
      FewTokens(tokens[..|tokens| - 1]);
    }
  }

  lemma {:induction false} TokenOccurs(tokens: seq<Token>, k: nat)
    requires k < |tokens|
    ensures Occurrences(tokens, tokens[k].code) >= 1
  {
    if k < |tokens| - 1 {
      TokenOccurs(tokens[..|tokens| - 1], k);
    }
  }

  // ----- writing

  /** The number of lengths left after dropping trailing zeros, but at least `least`. */
  method Trim(sizes: seq<nat>, most: nat, least: nat) returns (n: nat)
    requires least <= most <= |sizes|
    ensures least <= n <= most && forall i :: n <= i < most ==> sizes[i] == 0
  {
    n := most;
    while n > least && sizes[n - 1] == 0
      invariant least <= n <= most
      invariant forall i :: n <= i < most ==> sizes[i] == 0
    {
      n := n - 1;
    }
  }

  /** How many lengths of the code-length code have to be sent. */
  method SentSizes(sizes: seq<nat>) returns (n: nat)
    requires |sizes| == TOKENS
    ensures 4 <= n <= TOKENS
    ensures forall i :: n <= i < TOKENS ==> sizes[Order(i)] == 0
  {
    hide Order;
    hide PlaceOf;
    var i := TOKENS - 1;
    while i >= 0 && sizes[Order(i)] == 0
      invariant -1 <= i < TOKENS
      invariant forall j :: i < j < TOKENS ==> sizes[Order(j)] == 0
    {
      i := i - 1;
    }
    n := if i + 1 < 4 then 4 else i + 1;
  }

  method PutSizes(w: BitWriter, sizes: seq<nat>, n: nat)
    requires w.Valid() && |sizes| == TOKENS && n <= TOKENS
    requires forall c :: 0 <= c < TOKENS ==> sizes[c] <= 7
    modifies w
    ensures w.Valid() && w.written == old(w.written) + SizesBits(sizes, 0, n)
  {
    hide Order;
    hide PlaceOf;
    hide Low;
    hide BytesBits;
    ghost var all := w.written + SizesBits(sizes, 0, n);
    for i := 0 to n
      invariant w.Valid() && w.written + SizesBits(sizes, i, n) == all
    {
      ghost var now, more := w.written, SizesBits(sizes, i + 1, n);
      w.Put(sizes[Order(i)], 3);
      assert now + (Low(sizes[Order(i)], 3) + more) == now + Low(sizes[Order(i)], 3) + more;
    }
    assert w.written + [] == w.written;
  }

  lemma {:induction false} BytesAt(tokens: seq<Token>, k: nat)
    requires k < |tokens|
    ensures var at, t := |Bytes(tokens[..k])|, tokens[k];
            && |Bytes(tokens[..k + 1])| == at + (if t.code < 16 then 1 else 2) <= |Bytes(tokens)|
            && Bytes(tokens)[at] == t.code
            && (t.code >= 16 ==> Bytes(tokens)[at + 1] == t.extra)
    decreases |tokens|
  {
    var n := |tokens| - 1;
    if k < n {
      BytesAt(tokens[..n], k);
      assert tokens[..n][..k] == tokens[..k] && tokens[..n][..k + 1] == tokens[..k + 1];
    } else {
      assert tokens[..k + 1] == tokens;
    }
  }

  lemma ExtraFits(t: Token)
    requires ValidToken(t)
    ensures t.extra < Pow2(ExtraBits(t.code))
  {
    assert Pow2(0) == 1 && Pow2(2) == 4 && Pow2(3) == 8 && Pow2(7) == 128;
  }

  method PutToken(w: BitWriter, code: nat, extra: nat, sizes: seq<nat>, codes: seq<nat>)
    requires w.Valid() && CodesFor(sizes, codes) && C.Used(sizes, code) && ValidToken(Token(code, extra))
    modifies w
    ensures w.Valid() && w.written == old(w.written) + TokenBits(sizes, Token(code, extra))
  {
    hide Low;
    hide BytesBits;
    hide C.CodePath;
    ghost var before := w.written;
    PutSymbol(w, code, sizes, codes);
    ExtraFits(Token(code, extra));
    w.Put(extra, ExtraBits(code));
    assert before + (C.CodePath(sizes, code) + Low(extra, ExtraBits(code))) ==
           before + C.CodePath(sizes, code) + Low(extra, ExtraBits(code));
  }

  method PutTokens(w: BitWriter, packed: seq<nat>, ghost tokens: seq<Token>, sizes: seq<nat>, codes: seq<nat>)
    requires w.Valid() && CodesFor(sizes, codes) && Decodable(sizes, tokens) && packed == Bytes(tokens)
    modifies w
    ensures w.Valid() && w.written == old(w.written) + TokensBits(sizes, tokens)
  {
    hide BytesBits;
    hide TokenBits;
    hide CodesFor;
    ghost var all := w.written + TokensBits(sizes, tokens);
    ghost var k := 0;
    var i := 0;
    assert tokens[0..] == tokens && tokens[..|tokens|] == tokens;
    while i < |packed|
      invariant k <= |tokens| && i == |Bytes(tokens[..k])|
      invariant w.Valid() && w.written + TokensBits(sizes, tokens[k..]) == all
      decreases |tokens| - k
    {
      BytesAt(tokens, k);
      assert tokens[k..][1..] == tokens[k + 1..];
      ghost var now, more := w.written, TokensBits(sizes, tokens[k + 1..]);
      var code, extra := packed[i], 0;
      i := i + 1;
      if code >= 16 {
        extra := packed[i];
        i := i + 1;
      }
      PutToken(w, code, extra, sizes, codes);
      assert now + (TokenBits(sizes, tokens[k]) + more) == now + TokenBits(sizes, tokens[k]) + more;
      k := k + 1;
    }
    if k < |tokens| {
      BytesAt(tokens, k);
    }
    assert w.written + [] == w.written;
  }

  method PutCounts(w: BitWriter, lit: nat, dist: nat, sent: nat, ghost h: Header)
    requires w.Valid() && 257 <= lit <= 286 && 1 <= dist <= 30 && 4 <= sent <= TOKENS
    requires h.lit == lit && h.dist == dist && h.sent == sent
    modifies w
    ensures w.Valid() && w.written == old(w.written) + CountsBits(h)
  {
    hide Low;
    hide BytesBits;
    assert Pow2(5) == 32 && Pow2(4) == 16;
    ghost var before := w.written;
    w.Put(lit - 257, 5);
    w.Put(dist - 1, 5);
    w.Put(sent - 4, 4);
    assert before + Low(lit - 257, 5) + Low(dist - 1, 5) + Low(sent - 4, 4) == before + CountsBits(h);
  }

  /** Builds and writes the header for the given code lengths. */
  method WriteHeader(w: BitWriter, lit: seq<nat>, dist: seq<nat>) returns (ghost h: Header)
    requires w.Valid() && |lit| == 288 && |dist| == 32 && C.Lengths(lit) && C.Lengths(dist)
    requires lit[286] == lit[287] == 0 && dist[30] == dist[31] == 0
    modifies w
    ensures h.lit <= 288 && (forall i :: h.lit <= i < 288 ==> lit[i] == 0)
    ensures h.dist <= 32 && (forall i :: h.dist <= i < 32 ==> dist[i] == 0)
    ensures HeaderFor(h, lit[..h.lit] + dist[..h.dist])
    ensures w.Valid() && w.written == old(w.written) + HeaderBits(h, lit[..h.lit] + dist[..h.dist])
  {
    hide BytesBits;
    hide SizedFor;
    hide TreeSized;
    hide Bytes;
    hide Occurrences;
    hide CountsBits;
    hide SizesBits;
    hide TokensBits;
    hide Expand;
    ghost var before := w.written;
    var numLit := Trim(lit, 286, 257);
    var numDist := Trim(dist, 30, 1);
    var lens := lit[..numLit] + dist[..numDist];
    var packed, counts, tokens := Pack(lens);
    FewTokens(tokens);
    SumOfCounts(tokens, counts);
    SmallSumShallow(counts);
    var sizes, codes := new nat[TOKENS], new nat[TOKENS];
    assert Pow2(7) == 128;
    OptimizeTable(counts, 7, sizes, codes);
    CodeForTokens(counts, sizes[..], tokens);
    var sent := SentSizes(sizes[..]);
    h := Header(numLit, numDist, sent, sizes[..], tokens);
    PutCounts(w, numLit, numDist, sent, h);
    PutSizes(w, sizes[..], sent);
    PutTokens(w, packed, tokens, sizes[..], codes[..]);
    assert before + (CountsBits(h) + SizesBits(h.sizes, 0, h.sent) + TokensBits(h.sizes, h.tokens)) ==
           before + CountsBits(h) + SizesBits(h.sizes, 0, h.sent) + TokensBits(h.sizes, h.tokens);
  }

  /** Every token used gets a code. */
  lemma CodeForTokens(counts: seq<nat>, sizes: seq<nat>, tokens: seq<Token>)
    requires |counts| == TOKENS && SizedFor(sizes, counts, 7)
    requires forall c :: 0 <= c < TOKENS ==> counts[c] == Occurrences(tokens, c)
    requires forall k :: 0 <= k < |tokens| ==> ValidToken(tokens[k])
    ensures |sizes| == TOKENS && Decodable(sizes, tokens)
    ensures forall c :: 0 <= c < TOKENS ==> sizes[c] <= 7
    ensures C.Complete(sizes) || C.UsedCount(sizes) <= 1
  {
    forall k | 0 <= k < |tokens| ensures C.Used(sizes, tokens[k].code) {
      TokenOccurs(tokens, k);
    }
  }

  // ----- reading

  lemma ReadLow(x: nat, n: nat, more: Path)
    requires x < Pow2(n)
    ensures var rest := Low(x, n) + more;
            n <= |rest| && Lsb(rest[..n]) == x && rest[n..] == more
  {
    var rest := Low(x, n) + more;
    assert rest[..n] == Low(x, n);
    LsbLow(x, n);
    MaskSmall(x, n);
  }

  // ----- what any bits say

  /** The three counts, and the bits behind them. */
  datatype Counts = Counts(lit: nat, dist: nat, sent: nat, rest: Path)

  ghost function CountsOf(rest: Path): Option<Counts>
  {
    if |rest| < 14 then None
    else Some(Counts(Lsb(rest[..5]) + 257, Lsb(rest[5..10]) + 1, Lsb(rest[10..14]) + 4, rest[14..]))
  }

  lemma CountsRange(rest: Path)
    requires |rest| >= 14
    ensures var c := CountsOf(rest).value; 257 <= c.lit <= 288 && 1 <= c.dist <= 32 && 4 <= c.sent <= TOKENS
  {
    assert Pow2(5) == 32 && Pow2(4) == 16;
    LsbBound(rest[..5]);
    LsbBound(rest[5..10]);
    LsbBound(rest[10..14]);
  }

  /** Reads the three counts. */
  method GetCounts(r: BitReader) returns (ok: bool, lit: nat, dist: nat, sent: nat)
    requires r.Valid()
    modifies r
    ensures r.Valid() && |r.rest| <= |old(r.rest)|
    ensures ok ==> 257 <= lit <= 288 && 1 <= dist <= 32 && 4 <= sent <= TOKENS
    ensures CountsOf(old(r.rest)) == if ok then Some(Counts(lit, dist, sent, r.rest)) else None
  {
    hide Buffered;
    hide Lsb;
    lit, dist, sent := 0, 0, 0;
    ghost var rest := r.rest;
    ok, lit := r.GetBits(5);
    if !ok {
      return;
    }
    assert |rest| >= 10 ==> rest[5..][..5] == rest[5..10] && rest[5..][5..] == rest[10..];
    ok, dist := r.GetBits(5);
    if !ok {
      return;
    }
    assert |rest| >= 14 ==> rest[10..][..4] == rest[10..14] && rest[10..][4..] == rest[14..];
    ok, sent := r.GetBits(4);
    if ok {
      CountsRange(rest);
    }
    lit, dist, sent := lit + 257, dist + 1, sent + 4;
  }

  /** The counts of a header are read back. */
  lemma CountsBack(h: Header, more: Path)
    requires 257 <= h.lit <= 286 && 1 <= h.dist <= 30 && 4 <= h.sent <= TOKENS
    ensures CountsOf(CountsBits(h) + more) == Some(Counts(h.lit, h.dist, h.sent, more))
  {
    hide Low;
    hide Lsb;
    assert Pow2(5) == 32 && Pow2(4) == 16;
    var rest := CountsBits(h) + more;
    var r3 := Low(h.sent - 4, 4) + more;
    var r2 := Low(h.dist - 1, 5) + r3;
    CountsRegroup(Low(h.lit - 257, 5), Low(h.dist - 1, 5), Low(h.sent - 4, 4), more);
    ReadLow(h.lit - 257, 5, r2);
    ReadLow(h.dist - 1, 5, r3);
    ReadLow(h.sent - 4, 4, more);
    assert rest[5..10] == rest[5..][..5] && rest[10..] == rest[5..][5..];
    assert rest[10..14] == rest[10..][..4] && rest[14..] == rest[10..][4..];
  }

  lemma CountsRegroup(l: Path, d: Path, s: Path, more: Path)
    ensures l + d + s + more == l + (d + (s + more))
  {
  }

  /** The lengths of the code-length code, of which the first `n` in sending order are given. */
  ghost function SizesOf(rest: Path, n: nat): (sizes: seq<nat>)
    requires n <= TOKENS && 3 * n <= |rest|
    ensures |sizes| == TOKENS
  {
    seq(TOKENS, c requires 0 <= c < TOKENS => if PlaceOf(c) < n then Lsb(rest[3 * PlaceOf(c)..][..3]) else 0)
  }

  lemma SizesNext(rest: Path, n: nat)
    requires n < TOKENS && 3 * n + 3 <= |rest|
    ensures SizesOf(rest, n + 1) == SizesOf(rest, n)[Order(n) := Lsb(rest[3 * n..][..3])]
  {
    hide Order;
    hide PlaceOf;
    hide Lsb;
    forall c | 0 <= c < TOKENS && PlaceOf(c) == n ensures c == Order(n) {
      OrderOfPlace(c);
    }
  }

  lemma SizesSmall(rest: Path, n: nat)
    requires n <= TOKENS && 3 * n <= |rest|
    ensures forall c :: 0 <= c < TOKENS ==> SizesOf(rest, n)[c] <= 7
  {
    assert Pow2(3) == 8;
    forall c | 0 <= c < TOKENS ensures SizesOf(rest, n)[c] <= 7 {
      if PlaceOf(c) < n {
        LsbBound(rest[3 * PlaceOf(c)..][..3]);
      }
    }
  }

  /** Reads the lengths of the code-length code. */
  method GetSizes(r: BitReader, n: nat) returns (ok: bool, got: seq<nat>)
    requires r.Valid() && n <= TOKENS
    modifies r
    ensures r.Valid() && ok == (3 * n <= |old(r.rest)|) && |r.rest| <= |old(r.rest)|
    ensures ok ==> got == SizesOf(old(r.rest), n) && r.rest == old(r.rest)[3 * n..]
  {
    hide Buffered;
    hide Order;
    hide PlaceOf;
    hide Lsb;
    ghost var rest := r.rest;
    got := Repeat(0, TOKENS);
    for i := 0 to n
      invariant r.Valid() && 3 * i <= |rest| && r.rest == rest[3 * i..] && got == SizesOf(rest, i)
    {
      var v;
      ok, v := r.GetBits(3);
      if !ok {
        return;
      }
      SizesNext(rest, i);
      got := got[Order(i) := v];
    }
    ok := true;
  }

  lemma {:induction false} SizesAt(sizes: seq<nat>, i: nat, n: nat, more: Path, j: nat)
    requires |sizes| == TOKENS && i <= j < n <= TOKENS && forall c :: 0 <= c < TOKENS ==> sizes[c] <= 7
    ensures var rest := SizesBits(sizes, i, n) + more;
            3 * (j - i) + 3 <= |rest| && Lsb(rest[3 * (j - i)..][..3]) == sizes[Order(j)]
    decreases n - i
  {
    hide Low;
    hide Lsb;
    hide Order;
    assert Pow2(3) == 8;
    var rest, next := SizesBits(sizes, i, n) + more, SizesBits(sizes, i + 1, n) + more;
    assert rest == Low(sizes[Order(i)], 3) + next;
    ReadLow(sizes[Order(i)], 3, next);
    if i < j {
      SizesAt(sizes, i + 1, n, more, j);
      assert rest[3 * (j - i)..] == next[3 * (j - i - 1)..];
    } else {
      assert rest[0..] == rest;
    }
  }

  lemma {:induction false} SizesLength(sizes: seq<nat>, i: nat, n: nat)
    requires |sizes| == TOKENS && i <= n <= TOKENS
    ensures |SizesBits(sizes, i, n)| == 3 * (n - i)
    decreases n - i
  {
    hide Low;
    if i < n {
      SizesLength(sizes, i + 1, n);
    }
  }

  /** The lengths that were sent are read back. */
  lemma SizesBack(sizes: seq<nat>, n: nat, more: Path)
    requires Expected(sizes, n)
    ensures var rest := SizesBits(sizes, 0, n) + more;
            3 * n <= |rest| && SizesOf(rest, n) == sizes && rest[3 * n..] == more
  {
    hide Order;
    hide PlaceOf;
    hide Lsb;
    hide SizesBits;
    SizesLength(sizes, 0, n);
    var rest := SizesBits(sizes, 0, n) + more;
    forall c | 0 <= c < TOKENS ensures SizesOf(rest, n)[c] == sizes[c] {
      OrderOfPlace(c);
      if PlaceOf(c) < n {
        SizesAt(sizes, 0, n, more, PlaceOf(c));
      }
    }
  }

  /** Only the first `n` of the lengths, in sending order, are used. */
  ghost predicate Expected(sizes: seq<nat>, n: nat)
  {
    && |sizes| == TOKENS && n <= TOKENS
    && (forall c :: 0 <= c < TOKENS ==> sizes[c] <= 7)
    && (forall i :: n <= i < TOKENS ==> sizes[Order(i)] == 0)
  }
}
