/** Huffman-coded symbols on the bit stream: what the compressor writes, the decompressor reads. */
module SymbolStream {
  import opened Bits
  import opened BitStream
  import opened CanonicalCode
  import opened InflateTable
  import opened InflateTrie

  /** `codes` holds the reversed canonical codes of the lengths. */
  ghost predicate CodesFor(lens: seq<nat>, codes: seq<nat>)
  {
    Lengths(lens) && |codes| == |lens| && forall i :: Used(lens, i) ==> codes[i] == Lsb(CodePath(lens, i))
  }

  method PutSymbol(w: BitWriter, sym: nat, sizes: seq<nat>, codes: seq<nat>)
    requires w.Valid() && Used(sizes, sym) && CodesFor(sizes, codes)
    modifies w
    ensures w.Valid() && w.written == old(w.written) + CodePath(sizes, sym) && old(w.output) <= w.output
  {
    LsbBound(CodePath(sizes, sym));
    LowLsb(CodePath(sizes, sym));
    w.Put(codes[sym], sizes[sym]);
  }

  /** The buffered bits are the next bits of the stream. */
  ghost predicate Shows(w: Path, n: nat, rest: Path)
  {
    |w| == MAX_LENGTH && (n <= |rest| || MAX_LENGTH <= |rest|) &&
    if n < MAX_LENGTH then w[..n] == rest[..n] else w == rest[..MAX_LENGTH]
  }

  lemma WindowOf(buf: nat, n: nat, input: seq<nat>)
    requires buf < Pow2(n)
    ensures Shows(Low(buf, MAX_LENGTH), n, Ahead(buf, n, input))
  {
    var m := if n < MAX_LENGTH then n else MAX_LENGTH;
    LowTake(buf, m, MAX_LENGTH);
    LowTake(buf, m, n);
    assert Ahead(buf, n, input)[..m] == Low(buf, n)[..m];
  }

  /** A code within the buffered bits is in the window exactly when it is next in the stream. */
  lemma BeginsWindow(lens: seq<nat>, s: nat, w: Path, n: nat, rest: Path)
    requires Lengths(lens) && Shows(w, n, rest) && Used(lens, s) && lens[s] <= n
    ensures Begins(lens, s, w) == Begins(lens, s, rest)
  {
    hide CodePath;
    var l := lens[s];
    if n < MAX_LENGTH {
      assert w[..l] == w[..n][..l] == rest[..n][..l] == rest[..l];
    } else {
      assert w[..l] == rest[..MAX_LENGTH][..l] == rest[..l];
    }
  }

  /** `n` buffered bits are enough to decode: any code fits into them, or the next one does. */
  ghost predicate Enough(t: Trie, w: Path, n: nat)
    requires WellFormed(t) && |w| == MAX_LENGTH
  {
    n >= MAX_LENGTH || exists sym: nat, codeLen: nat :: Decodes(t, w, sym, codeLen) && 0 < codeLen <= n
  }

  lemma EnoughBits(t: Trie, lens: seq<nat>, w: Path, n: nat, sym: nat, codeLen: nat)
    requires Built(t, lens, |lens|, |lens|) && |w| == MAX_LENGTH && Enough(t, w, n)
    requires Decodes(t, w, sym, codeLen)
    ensures codeLen <= n
  {
    hide Decodes;
    DecodesNone(t, lens, w, sym, codeLen);
    if n < MAX_LENGTH {
      var sym': nat, codeLen': nat :| Decodes(t, w, sym', codeLen') && 0 < codeLen' <= n;
      DecodesOnce(t, w, sym, codeLen, sym', codeLen');
    }
  }

  /** With enough bits the window begins with the code the stream begins with. */
  lemma EnoughWindow(t: Trie, lens: seq<nat>, w: Path, n: nat, rest: Path, s: nat)
    requires Built(t, lens, |lens|, |lens|) && Shows(w, n, rest) && Enough(t, w, n) && Begins(lens, s, rest)
    ensures Begins(lens, s, w)
  {
    hide Decodes;
    hide CodePath;
    var p := CodePath(lens, s);
    if n < MAX_LENGTH {
      var sym: nat, codeLen: nat :| Decodes(t, w, sym, codeLen) && 0 < codeLen <= n;
      if lens[s] > n {
        assert w[..n] == rest[..n] == rest[..lens[s]][..n] == p[..n];
      }
      FoundWhole(t, lens, w, n, sym, codeLen, s);
    }
    BeginsWindow(lens, s, w, n, rest);
  }

  /** Bits that begin with no code are given up after `n` of them: none if the first ten lead to no
      longer code, and otherwise those up to the first that leads away from all codes. */
  ghost predicate Misses(lens: seq<nat>, rest: Path, n: nat)
  {
    || (n == 0 && MAX_LENGTH <= |rest| && !OnTheWay(lens, rest[..LOOKUP_BITS], |lens|))
    || (&& LOOKUP_BITS < n <= MAX_LENGTH && n <= |rest| && !OnTheWay(lens, rest[..n], |lens|)
        && forall j: nat {:trigger rest[..j]} :: LOOKUP_BITS <= j < n ==> OnTheWay(lens, rest[..j], |lens|))
  }

  lemma MissesLast(lens: seq<nat>, rest: Path, m: nat, n: nat)
    requires m < n && Misses(lens, rest, n)
    ensures !Misses(lens, rest, m)
  {
    hide OnTheWay;
    var p := rest[..if m < LOOKUP_BITS then LOOKUP_BITS else m];
  }

  lemma MissesOnce(lens: seq<nat>, rest: Path, m: nat, n: nat)
    requires Misses(lens, rest, m) && Misses(lens, rest, n)
    ensures m == n
  {
    hide Misses;
    if m < n {
      MissesLast(lens, rest, m, n);
    } else if n < m {
      MissesLast(lens, rest, n, m);
    }
  }

  /** `sym` is read from `rest` and leaves `after`: it is the symbol whose code comes next, or symbol 0 for
      bits that begin with no code. */
  ghost predicate Takes(lens: seq<nat>, sym: nat, rest: Path, after: Path)
  {
    && (forall s: nat :: Begins(lens, s, rest) ==> sym == s && after == rest[lens[s]..])
    && (Begins(lens, sym, rest) || (sym == 0 && exists n: nat :: Misses(lens, rest, n) && after == rest[n..]))
  }

  /** There is only one way to go on. */
  lemma TakesOnce(lens: seq<nat>, rest: Path, sym: nat, after: Path, sym': nat, after': Path)
    requires Takes(lens, sym, rest, after) && Takes(lens, sym', rest, after')
    ensures sym == sym' && after == after' && |after| <= |rest|
  {
    hide CodePath;
    hide OnTheWay;
    if forall s: nat :: !Begins(lens, s, rest) {
      var m: nat :| Misses(lens, rest, m) && after == rest[m..];
      var n: nat :| Misses(lens, rest, n) && after' == rest[n..];
      MissesOnce(lens, rest, m, n);
    }
  }

  lemma TakesLess(lens: seq<nat>, rest: Path, sym: nat, after: Path)
    requires Takes(lens, sym, rest, after)
    ensures |after| <= |rest|
  {
    TakesOnce(lens, rest, sym, after, sym, after);
  }

  /** A code that comes next is the one that is read. */
  lemma OnlyBegins(lens: seq<nat>, s: nat, rest: Path)
    requires Fits(lens) && Begins(lens, s, rest)
    ensures Takes(lens, s, rest, rest[lens[s]..])
  {
    hide CodePath;
    hide Misses;
    forall i: nat | Begins(lens, i, rest) ensures i == s {
      if i != s {
        PrefixFree(lens, i, s);
        PrefixFree(lens, s, i);
      }
    }
  }

  /** The bits end before a symbol can be read. */
  ghost predicate Starved(lens: seq<nat>, rest: Path)
  {
    forall sym: nat, after :: !Takes(lens, sym, rest, after)
  }

  /** When all that is left holds no whole code, no symbol can be read. */
  lemma NoneLeft(t: Trie, lens: seq<nat>, w: Path, n: nat, rest: Path)
    requires Built(t, lens, |lens|, |lens|) && Shows(w, n, rest) && n == |rest| < MAX_LENGTH
    requires forall sym: nat, codeLen: nat :: Decodes(t, w, sym, codeLen) ==> codeLen == 0 || codeLen > n
    ensures Starved(lens, rest)
  {
    hide CodePath;
    hide Decodes;
    hide OnTheWay;
    forall s: nat ensures !Begins(lens, s, rest) {
      if Begins(lens, s, rest) {
        BeginsWindow(lens, s, w, n, rest);
        DecodesOf(t, lens, w, s);
      }
    }
    forall m: nat ensures !Misses(lens, rest, m) {
      if Misses(lens, rest, m) {
        assert forall j: nat :: j <= m ==> w[..j] == rest[..j] by {
          assert forall j: nat :: j <= m ==> w[..j] == w[..n][..j] && rest[..j] == rest[..n][..j];
        }
        var _ := DecodesAway(t, lens, w, m);
      }
    }
  }

  /** Reads bytes until the next code is in the bit buffer: two at once, or at the end of the input one
      at a time and no more than needed.  Fails when the input ends first. */
  method FillBuffer(table: HuffTable, r: BitReader) returns (ok: bool)
    requires table.Valid() && r.Valid()
    modifies r`pos, r`bitBuf, r`numBits
    ensures r.Valid()
    ensures ok ==> Enough(table.Abs(), Low(r.bitBuf, MAX_LENGTH), r.numBits)
    ensures !ok ==> Starved(table.lens, r.rest)
  {
    hide Decodes;
    hide Ahead;
    hide Low;
    hide CodePath;
    hide Starved;
    ok := true;
    if r.numBits >= MAX_LENGTH {
    } else if |r.input| - r.pos >= 2 {
      ok := r.NeedByte();
      ok := r.NeedByte();
    } else {
      while true
        invariant table.Valid() && r.Valid() && r.numBits < MAX_LENGTH && ok
        decreases MAX_LENGTH - r.numBits
      {
        WindowOf(r.bitBuf, r.numBits, r.input[r.pos..]);
        ghost var buf, n := r.bitBuf, r.numBits;
        var found := table.Peek(r.bitBuf, r.numBits);
        if found {
          break;
        }
        ok := r.NeedByte();
        if !ok {
          NoneLeft(table.Abs(), table.lens, Low(buf, MAX_LENGTH), n, r.rest);
          break;
        }
        if r.numBits >= MAX_LENGTH {
          break;
        }
      }
    }
  }

  /** The tables give up such bits in the same place. */
  lemma MissedSame(t: Trie, lens: seq<nat>, w: Path, n: nat, rest: Path, sym: nat, codeLen: nat)
    requires Built(t, lens, |lens|, |lens|) && Shows(w, n, rest) && Enough(t, w, n) && Decodes(t, w, sym, codeLen)
    requires forall s: nat :: !Begins(lens, s, rest)
    ensures sym == 0 && Misses(lens, rest, codeLen)
  {
    hide CodePath;
    hide Decodes;
    hide OnTheWay;
    EnoughBits(t, lens, w, n, sym, codeLen);
    forall s: nat ensures !Begins(lens, s, w) {
      if Begins(lens, s, w) {
        DecodesOf(t, lens, w, s);
        DecodesOnce(t, w, sym, codeLen, s, lens[s]);
        BeginsWindow(lens, s, w, n, rest);
      }
    }
    DecodesNone(t, lens, w, sym, codeLen);
    if n < MAX_LENGTH {
      var sym': nat, codeLen': nat :| Decodes(t, w, sym', codeLen') && 0 < codeLen' <= n;
      DecodesOnce(t, w, sym, codeLen, sym', codeLen');
      assert forall j: nat :: j <= n ==> w[..j] == w[..n][..j] && rest[..j] == rest[..n][..j];
    } else {
      assert forall j: nat :: j <= MAX_LENGTH ==> w[..j] == rest[..MAX_LENGTH][..j] == rest[..j];
    }
    DecodesMiss(t, lens, w, sym, codeLen);
  }

  /** Decodes a symbol from a buffer with enough bits. */
  method TakeSymbol(table: HuffTable, r: BitReader) returns (sym: nat)
    requires table.Valid() && r.Valid() && Enough(table.Abs(), Low(r.bitBuf, MAX_LENGTH), r.numBits)
    modifies r`bitBuf, r`numBits, r`rest
    ensures r.Valid() && Takes(table.lens, sym, old(r.rest), r.rest)
    ensures r.numBits + MAX_LENGTH >= old(r.numBits)
  {
    hide Decodes;
    hide Enough;
    hide Shows;
    hide Ahead;
    hide Low;
    hide CodePath;
    hide Buffered;
    hide Pow2;
    ghost var w, n, t, lens := Low(r.bitBuf, MAX_LENGTH), r.numBits, table.Abs(), table.lens;
    BufferedFacts(r.input, r.pos, r.bitBuf, n, r.rest);
    WindowOf(r.bitBuf, n, r.input[r.pos..]);
    forall s: nat | Begins(lens, s, r.rest) ensures Begins(lens, s, w) {
      EnoughWindow(t, lens, w, n, r.rest, s);
    }
    var codeLen;
    sym, codeLen := table.Decode(r.bitBuf);
    EnoughBits(t, lens, w, n, sym, codeLen);
    hide Begins;
    if forall s: nat :: !Begins(lens, s, r.rest) {
      MissedSame(t, lens, w, n, r.rest, sym, codeLen);
    }
    var _ := r.Take(codeLen);
  }

  /** Decodes one symbol: the one whose code the stream begins with. */
  method GetSymbol(table: HuffTable, r: BitReader) returns (ok: bool, sym: nat)
    requires table.Valid() && r.Valid()
    modifies r
    ensures r.Valid() && |r.rest| <= |old(r.rest)|
    ensures if ok then Takes(table.lens, sym, old(r.rest), r.rest) else Starved(table.lens, old(r.rest))
  {
    hide Enough;
    hide Takes;
    sym := 0;
    ok := FillBuffer(table, r);
    if ok {
      sym := TakeSymbol(table, r);
      TakesLess(table.lens, old(r.rest), sym, r.rest);
    }
  }
}
