/** The compressor's Huffman tables: from symbol counts to code lengths and bit-reversed codes. */
module DeflateTable {
  import opened Bits
  import opened CanonicalCode
  import opened CodeLoops
  import opened Common
  import opened HuffmanDepth
  import opened HuffmanMerge
  import opened HuffmanOptimal
  import opened LengthLimiter
  import opened MinRedundancy
  import R = RadixSort

  // ----- the symbols in use

  /** The symbols with non-zero counts, in order. */
  function UsedSyms(counts: seq<nat>): (s: seq<R.Sym>)
    ensures |s| <= |counts|
  {
    if counts == [] then []
    else
      var n := |counts| - 1;
      UsedSyms(counts[..n]) + if counts[n] > 0 then [R.Sym(counts[n], n)] else []
  }

  function Keys(s: seq<R.Sym>): (k: seq<nat>)
    ensures |k| == |s| && forall i :: 0 <= i < |s| ==> k[i] == s[i].key
  {
    seq(|s|, i requires 0 <= i < |s| => s[i].key)
  }

  lemma {:induction false} UsedSymsAre(counts: seq<nat>)
    ensures forall x :: x in UsedSyms(counts) <==> x.index < |counts| && counts[x.index] == x.key > 0
    ensures R.Increasing(UsedSyms(counts), R.ByIndex())
  {
    if counts != [] {
      var n := |counts| - 1;
      UsedSymsAre(counts[..n]);
      forall y | y in UsedSyms(counts[..n]) ensures y.index < n {
      }
    }
  }

  function KeySum(s: seq<R.Sym>): nat
  {
    if s == [] then 0 else s[0].key + KeySum(s[1..])
  }

  lemma {:induction false} KeySumIs(s: seq<R.Sym>)
    ensures KeySum(s) == Sum(Keys(s))
  {
    if s != [] {
      KeySumIs(s[1..]);
      assert Keys(s)[1..] == Keys(s[1..]);
    }
  }

  lemma {:induction false} KeySumAdd(s: seq<R.Sym>, x: R.Sym)
    ensures KeySum(s + [x]) == KeySum(s) + x.key
  {
    if s == [] {
      assert s + [x] == [x];
    } else {
      KeySumAdd(s[1..], x);
      assert (s + [x])[1..] == s[1..] + [x];
    }
  }

  lemma {:induction false} UsedSymsSum(counts: seq<nat>)
    ensures KeySum(UsedSyms(counts)) == Sum(counts)
  {
    if counts != [] {
      var n := |counts| - 1;
      UsedSymsSum(counts[..n]);
      assert counts == counts[..n] + [counts[n]];
      SumAdd(counts[..n], counts[n]);
      if counts[n] > 0 {
        KeySumAdd(UsedSyms(counts[..n]), R.Sym(counts[n], n));
      } else {
        assert UsedSyms(counts) == UsedSyms(counts[..n]);
      }
    }
  }

  lemma {:induction false} KeySumRemove(s: seq<R.Sym>, i: nat)
    requires i < |s|
    ensures KeySum(s) == s[i].key + KeySum(s[..i] + s[i + 1..])
  {
    if i == 0 {
      assert s[..0] + s[1..] == s[1..];
    } else {
      KeySumRemove(s[1..], i - 1);
      assert (s[..i] + s[i + 1..])[1..] == s[1..][..i - 1] + s[1..][i..];
    }
  }

  /** The sum of the counts does not depend on their order. */
  lemma {:induction false} SumPermutation(s: seq<R.Sym>, t: seq<R.Sym>)
    requires multiset(s) == multiset(t)
    ensures KeySum(s) == KeySum(t)
  {
    if s == [] {
      assert |multiset(t)| == 0;
    } else {
      var i := Find(s, t);
      SumPermutation(s[1..], t[..i] + t[i + 1..]);
      KeySumRemove(t, i);
    }
  }

  lemma Find(s: seq<R.Sym>, t: seq<R.Sym>) returns (i: nat)
    requires s != [] && multiset(s) == multiset(t)
    ensures i < |t| && t[i] == s[0] && multiset(s[1..]) == multiset(t[..i] + t[i + 1..])
  {
    assert s[0] in multiset(t);
    i :| 0 <= i < |t| && t[i] == s[0];
    assert s == [s[0]] + s[1..];
    assert t == t[..i] + [t[i]] + t[i + 1..];
    assert multiset(s[1..]) == multiset(s) - multiset{s[0]};
    assert multiset(t[..i] + t[i + 1..]) == multiset(t) - multiset{s[0]};
  }

  method CollectUsed(counts: seq<nat>) returns (syms: array<R.Sym>)
    ensures fresh(syms) && syms[..] == UsedSyms(counts)
  {
    var buf := new R.Sym[|counts|](_ => R.Sym(0, 0));
    var n := 0;
    for i := 0 to |counts|
      invariant n == |UsedSyms(counts[..i])| <= i
      invariant buf[..n] == UsedSyms(counts[..i])
    {
      assert counts[..i + 1][..i] == counts[..i];
      if counts[i] != 0 {
        buf[n] := R.Sym(counts[i], i);
        n := n + 1;
      }
    }
    assert counts[..|counts|] == counts;
    syms := new R.Sym[n](i requires 0 <= i < n <= buf.Length reads buf => buf[i]);
  }

  // ----- histograms of lengths

  lemma {:induction false} CountOfUpdate(s: seq<nat>, k: nat, v: nat, l: nat)
    requires k < |s|
    ensures Count(s[k := v], l) + (if s[k] == l then 1 else 0) == Count(s, l) + if v == l then 1 else 0
  {
    var n := |s| - 1;
    if k < n {
      CountOfUpdate(s[..n], k, v, l);
      assert s[k := v][..n] == s[..n][k := v];
    } else {
      assert s[k := v][..n] == s[..n];
    }
  }

  lemma {:induction false} CountOfMember(s: seq<nat>, i: nat)
    requires i < |s|
    ensures Count(s, s[i]) >= 1
  {
    if i < |s| - 1 {
      CountOfMember(s[..|s| - 1], i);
    }
  }

  lemma {:induction false} CountOfNone(s: seq<nat>, l: nat)
    requires forall i :: 0 <= i < |s| ==> s[i] != l
    ensures Count(s, l) == 0
  {
    if s != [] {
      CountOfNone(s[..|s| - 1], l);
    }
  }

  /** `h` counts the lengths `1..D` of `lens`. */
  ghost predicate Tallies(h: seq<nat>, lens: seq<nat>, D: nat)
  {
    D < |h| && forall l :: 1 <= l <= D ==> h[l] == Count(lens, l)
  }

  lemma {:induction false} CodesAre(h: seq<nat>, lens: seq<nat>, D: nat)
    requires Tallies(h, lens, D)
    ensures Codes(h, D) == UsedUpTo(lens, D)
  {
    if D > 0 {
      CodesAre(h, lens, D - 1);
    }
  }

  lemma {:induction false} MassIs(h: seq<nat>, lens: seq<nat>, D: nat, N: nat)
    requires Tallies(h, lens, D) && D <= N
    ensures CodeMass(h, D, N) == LevelMass(lens, D, N)
  {
    if D > 0 {
      MassIs(h, lens, D - 1, N);
    }
  }

  lemma {:induction false} UsedUpToAll(lens: seq<nat>, D: nat)
    requires forall i :: 0 <= i < |lens| ==> 1 <= lens[i] <= D
    ensures UsedUpTo(lens, D) == |lens|
  {
    if lens == [] {
      UsedUpToNone(D);
    } else {
      UsedUpToAll(lens[..|lens| - 1], D);
      UsedUpToOfLast(lens, D);
    }
  }

  /** No code of the minimum-redundancy tree is longer than the histogram has room for. */
  ghost predicate Shallow(w: seq<nat>)
  {
    |w| >= 2 ==> forall k :: 0 <= k < |w| ==> LeafDepths(w)[k] <= MAX_SUPPORTED
  }

  /** No code of the tree over two or more weights is longer than the limit. */
  ghost predicate NotTooDeep(w: seq<nat>, limit: nat)
  {
    |w| >= 2 && forall k :: 0 <= k < |w| ==> LeafDepths(w)[k] <= limit
  }

  /** The limiter has nothing to do then. */
  lemma AllWithin(h: seq<nat>, lens: seq<nat>, limit: nat)
    requires |h| == MAX_SUPPORTED + 1 && (forall l :: 0 <= l <= MAX_SUPPORTED ==> h[l] == Count(lens, l))
    requires limit <= MAX_LENGTH && forall i :: 0 <= i < |lens| ==> 1 <= lens[i] <= limit
    ensures Tallies(h, lens, limit) && Codes(h, limit) == |lens|
  {
    hide Count;
    CodesAre(h, lens, limit);
    UsedUpToAll(lens, limit);
  }

  /** What the minimum-redundancy pass leaves for the limiter. */
  lemma ReadyForLimit(w: seq<nat>, keys: seq<nat>)
    requires |w| == |keys| >= 2 && Shallow(w) && keys == LeafDepths(w)
    ensures forall i :: 0 <= i < |keys| ==> 1 <= keys[i] <= MAX_SUPPORTED
    ensures LevelMass(keys, MAX_SUPPORTED, MAX_SUPPORTED) == Pow2(MAX_SUPPORTED)
  {
    hide LeafDepths;
    hide LevelMass;
    hide Pow2;
    var depths := keys;
    TreeBalanced(w);
    forall d: nat | d > MAX_SUPPORTED ensures Count(depths, d) == 0 {
      CountOfNone(depths, d);
    }
    forall i | 0 <= i < |keys| ensures 1 <= keys[i] <= MAX_SUPPORTED {
      CountOfMember(keys, i);
    }
    TreeComplete(w, MAX_SUPPORTED);
  }

  /** Lengths counted by a complete limited histogram are complete. */
  lemma CompleteByHistogram(h: seq<nat>, lens: seq<nat>, limit: nat)
    requires 1 <= limit <= MAX_LENGTH && Tallies(h, lens, limit)
    requires CodeMass(h, limit, limit) == Pow2(limit)
    requires forall i :: 0 <= i < |lens| ==> lens[i] <= limit
    ensures Complete(lens)
  {
    MassRescaled(h, limit, limit, MAX_LENGTH);
    ShlShl(1, limit, MAX_LENGTH - limit);
    AllWindows();
    MassUpTo(h, lens, limit, limit);
    MassBeyond(lens, limit, MAX_LENGTH + 1);
  }

  lemma {:induction false} MassUpTo(h: seq<nat>, lens: seq<nat>, limit: nat, m: nat)
    requires limit <= MAX_LENGTH && m <= limit && Tallies(h, lens, limit)
    ensures Mass(lens, m + 1) == CodeMass(h, m, MAX_LENGTH)
  {
    if m > 0 {
      MassUpTo(h, lens, limit, m - 1);
    }
  }

  lemma {:induction false} MassBeyond(lens: seq<nat>, limit: nat, m: nat)
    requires limit < m <= MAX_LENGTH + 1 && forall i :: 0 <= i < |lens| ==> lens[i] <= limit
    ensures Mass(lens, m) == Mass(lens, limit + 1)
  {
    if m > limit + 1 {
      MassBeyond(lens, limit, m - 1);
      CountOfNone(lens, m - 1);
      ShlZero(MAX_LENGTH + 1 - m);
    }
  }

  // ----- handing out the lengths

  ghost predicate Distinct(sorted: seq<R.Sym>, n: nat)
  {
    && (forall p :: 0 <= p < |sorted| ==> sorted[p].index < n)
    && (forall p, q :: 0 <= p < q < |sorted| ==> sorted[p].index != sorted[q].index)
  }

  /** The symbols from position `j` on have their lengths: all codes shorter than `i` have been
      handed out, and `done` of length `i`. */
  ghost predicate HandedOut(sizes: seq<nat>, sorted: seq<R.Sym>, h: seq<nat>, j: nat, i: nat, done: nat)
  {
    && Distinct(sorted, |sizes|) && j <= |sorted|
    && (forall p :: 0 <= p < j ==> sizes[sorted[p].index] == 0)
    && (forall p :: j <= p < |sorted| ==> 1 <= sizes[sorted[p].index] <= i)
    && (forall p, q :: j <= p < q < |sorted| ==> sizes[sorted[p].index] >= sizes[sorted[q].index])
    && (forall k :: 0 <= k < |sizes| && sizes[k] > 0 ==> exists p :: 0 <= p < |sorted| && sorted[p].index == k)
    && (forall m {:trigger Count(sizes, m)} ::
          1 <= m < |h| ==> Count(sizes, m) == if m < i then h[m] else if m == i then done else 0)
  }

  lemma HandOutOne(sizes: seq<nat>, sorted: seq<R.Sym>, h: seq<nat>, j: nat, i: nat, done: nat)
    requires 0 < j && 1 <= i < |h| && HandedOut(sizes, sorted, h, j, i, done)
    ensures HandedOut(sizes[sorted[j - 1].index := i], sorted, h, j - 1, i, done + 1)
  {
    hide Count;
    var k := sorted[j - 1].index;
    var sizes' := sizes[k := i];
    forall m | 1 <= m < |h|
      ensures Count(sizes', m) == if m < i then h[m] else if m == i then done + 1 else 0
    {
      CountOfUpdate(sizes, k, i, m);
    }
    forall q | 0 <= q < |sizes'| && sizes'[q] > 0 ensures exists p :: 0 <= p < |sorted| && sorted[p].index == q {
      if q == k {
        assert sorted[j - 1].index == q;
      } else {
        assert sizes[q] > 0;
      }
    }
  }

  lemma NextLength(sizes: seq<nat>, sorted: seq<R.Sym>, h: seq<nat>, j: nat, i: nat)
    requires 1 <= i < |h| && HandedOut(sizes, sorted, h, j, i, h[i])
    ensures HandedOut(sizes, sorted, h, j, i + 1, 0)
  {
    hide Count;
  }

  /** Gives the shortest codes to the symbols that come last in the sorted order. */
  method AssignSizes(sizes: array<nat>, sorted: seq<R.Sym>, num: array<nat>, limit: nat)
    requires sizes != num && 1 <= limit < num.Length
    requires Distinct(sorted, sizes.Length) && Codes(num[..], limit) == |sorted|
    requires forall k :: 0 <= k < sizes.Length ==> sizes[k] == 0
    modifies sizes
    ensures HandedOut(sizes[..], sorted, num[..], 0, limit + 1, 0)
    ensures forall k :: 0 <= k < sizes.Length ==> sizes[k] <= limit
  {
    hide HandedOut;
    hide Count;
    ghost var h := num[..];
    NothingHandedOut(sizes[..], sorted, h);
    var j := |sorted|;
    for i := 1 to limit + 1
      invariant num[..] == h
      invariant 0 <= j == |sorted| - Codes(h, i - 1) && HandedOut(sizes[..], sorted, h, j, i, 0)
      invariant forall k :: 0 <= k < sizes.Length ==> sizes[k] < i
    {
      var l := num[i];
      CodesMono(h, i, limit);
      while l > 0
        invariant num[..] == h && l <= h[i]
        invariant j == |sorted| - Codes(h, i - 1) - (h[i] - l)
        invariant HandedOut(sizes[..], sorted, h, j, i, h[i] - l)
        invariant forall k :: 0 <= k < sizes.Length ==> sizes[k] <= i
      {
        HandOutOne(sizes[..], sorted, h, j, i, h[i] - l);
        j := j - 1;
        sizes[sorted[j].index] := i;
        l := l - 1;
      }
      NextLength(sizes[..], sorted, h, j, i);
    }
  }

  lemma NothingHandedOut(sizes: seq<nat>, sorted: seq<R.Sym>, h: seq<nat>)
    requires Distinct(sorted, |sizes|) && forall k :: 0 <= k < |sizes| ==> sizes[k] == 0
    ensures HandedOut(sizes, sorted, h, |sorted|, 1, 0)
  {
    forall m: nat | m >= 1 ensures Count(sizes, m) == 0 {
      CountOfNone(sizes, m);
    }
  }

  // ----- the codes

  /** The compressor's code counters: `next[l]` is the first code of length `l`. */
  method StartCodes(num: array<nat>, ghost sizes: seq<nat>, limit: nat) returns (next: array<nat>)
    requires 1 <= limit < num.Length && limit <= MAX_LENGTH && |sizes| <= 0x4000 && Tallies(num[..], sizes, limit)
    ensures fresh(next) && next.Length == num.Length
    ensures forall l :: 1 <= l <= limit ==> next[l] == FirstCode(sizes, l)
  {
    hide FirstCode;
    hide Count;
    hide Wrap32;
    next := new nat[num.Length](_ => 0);
    var j := 0;
    ghost var h := num[..];
    FirstCodeStep(sizes, 1);
    for i := 2 to limit + 1
      invariant num[..] == h
      invariant j == FirstCode(sizes, i - 1)
      invariant forall l :: 1 <= l < i ==> next[l] == FirstCode(sizes, l)
    {
      FirstCodeStep(sizes, i - 1);
      FirstCodeFits(sizes, i);
      WrapSmall(j + num[i - 1]);
      WrapSmall(2 * (j + num[i - 1]));
      j := Wrap32(2 * Add32(j, num[i - 1]));
      next[i] := j;
    }
  }

  /** Codes in symbol order, with their bits reversed. */
  method AssignCodes(codes: array<nat>, sizes: array<nat>, num: array<nat>, limit: nat)
    requires codes != sizes && codes != num && codes.Length == sizes.Length
    requires 1 <= limit < num.Length && limit <= MAX_LENGTH && sizes.Length <= 0x4000
    requires Tallies(num[..], sizes[..], limit)
    requires forall k :: 0 <= k < sizes.Length ==> sizes[k] <= limit
    modifies codes
    ensures forall k :: Used(sizes[..], k) ==> codes[k] == Lsb(CodePath(sizes[..], k))
  {
    hide FirstCode;
    hide PathOf;
    hide Lsb;
    ghost var lens := sizes[..];
    var next := StartCodes(num, lens, limit);
    for i := 0 to sizes.Length
      invariant sizes[..] == lens
      invariant forall l :: 1 <= l <= limit ==> next[l] == FirstCode(lens, l) + Count(lens[..i], l)
      invariant forall k :: 0 <= k < i && Used(lens, k) ==> codes[k] == Lsb(CodePath(lens, k))
    {
      assert lens[..i + 1][..i] == lens[..i];
      var size := sizes[i];
      if size != 0 {
        var code := next[size];
        next[size] := code + 1;
        assert code == Code(lens, i);
        var rev := ReverseBits(code, size);
        codes[i] := rev;
      }
    }
  }

  // ----- the whole table

  /** `sorted` lists the used symbols by count. */
  ghost predicate SortedUsed(sorted: seq<R.Sym>, counts: seq<nat>)
  {
    multiset(sorted) == multiset(UsedSyms(counts)) && R.Increasing(sorted, R.ByCount())
  }

  lemma SortedFacts(sorted: seq<R.Sym>, counts: seq<nat>)
    requires SortedUsed(sorted, counts) && forall i :: 0 <= i < |counts| ==> counts[i] < 0x10000
    ensures |sorted| == |UsedSyms(counts)|
    ensures forall p :: 0 <= p < |sorted| ==>
                          sorted[p].index < |counts| && counts[sorted[p].index] == sorted[p].key > 0
    ensures forall i :: 0 <= i < |counts| && counts[i] > 0 ==> R.Sym(counts[i], i) in sorted
    ensures Distinct(sorted, |counts|)
    ensures Sum(Keys(sorted)) == Sum(counts)
  {
    UsedSymsAre(counts);
    assert |multiset(sorted)| == |multiset(UsedSyms(counts))|;
    forall p | 0 <= p < |sorted|
      ensures sorted[p].index < |counts| && counts[sorted[p].index] == sorted[p].key > 0
    {
      assert sorted[p] in multiset(sorted);
    }
    forall p, q | 0 <= p < q < |sorted| ensures sorted[p].index != sorted[q].index {
      assert R.ByCount()(sorted[p]) < R.ByCount()(sorted[q]);
    }
    forall i | 0 <= i < |counts| && counts[i] > 0 ensures R.Sym(counts[i], i) in sorted {
      assert R.Sym(counts[i], i) in UsedSyms(counts);
      assert R.Sym(counts[i], i) in multiset(sorted);
    }
    SumPermutation(sorted, UsedSyms(counts));
    UsedSymsSum(counts);
    KeySumIs(sorted);
  }

  lemma KeysAscending(sorted: seq<R.Sym>)
    requires R.Increasing(sorted, R.ByCount()) && forall p :: 0 <= p < |sorted| ==> sorted[p].index < 0x10000
    ensures Ascending(Keys(sorted))
  {
    forall p, q | 0 <= p < q < |sorted| ensures sorted[p].key <= sorted[q].key {
      assert R.ByCount()(sorted[p]) < R.ByCount()(sorted[q]);
    }
  }

  /** The lengths of the codes by minimum redundancy, limited to `limit` and counted. */
  method LimitedHistogram(sorted: array<R.Sym>, limit: nat) returns (num: array<nat>)
    requires sorted.Length <= 0x10000 && 1 <= limit <= MAX_LENGTH && sorted.Length <= Pow2(limit)
    requires Shallow(Keys(sorted[..]))
    ensures fresh(num) && num.Length == MAX_SUPPORTED + 1
    ensures Codes(num[..], limit) == sorted.Length
    ensures sorted.Length >= 2 ==> CodeMass(num[..], limit, limit) == Pow2(limit)
    ensures NotTooDeep(Keys(sorted[..]), limit) ==> Tallies(num[..], LeafDepths(Keys(sorted[..])), limit)
  {
    hide Count;
    hide LevelMass;
    hide CodeMass;
    hide Sum;
    var n := sorted.Length;
    var keys := new nat[n](p requires 0 <= p < n <= sorted.Length reads sorted => sorted[p].key);
    ghost var w := keys[..];
    assert w == Keys(sorted[..]);
    CalculateMinimumRedundancy(keys);
    var lens := keys[..];
    if n >= 2 {
      ReadyForLimit(w, lens);
    }
    num := CountLengths(lens, MAX_SUPPORTED + 1);
    HistogramReady(num[..], lens);
    if NotTooDeep(w, limit) {
      AllWithin(num[..], lens, limit);
    }
    EnforceMaxCodeSize(num, n, limit);
    if n <= 1 {
      FewCodes(num[..], lens, limit);
    }
  }

  lemma HistogramReady(h: seq<nat>, lens: seq<nat>)
    requires |h| == MAX_SUPPORTED + 1 && forall l :: 0 <= l <= MAX_SUPPORTED ==> h[l] == Count(lens, l)
    requires forall i :: 0 <= i < |lens| ==> 1 <= lens[i] <= MAX_SUPPORTED
    ensures Codes(h, MAX_SUPPORTED) == |lens|
    ensures CodeMass(h, MAX_SUPPORTED, MAX_SUPPORTED) == LevelMass(lens, MAX_SUPPORTED, MAX_SUPPORTED)
  {
    hide Count;
    var D := MAX_SUPPORTED;
    assert Tallies(h, lens, D);
    CodesAre(h, lens, D);
    UsedUpToAll(lens, D);
    MassIs(h, lens, D, D);
  }

  lemma FewCodes(h: seq<nat>, lens: seq<nat>, limit: nat)
    requires |h| == MAX_SUPPORTED + 1 && forall l :: 0 <= l <= MAX_SUPPORTED ==> h[l] == Count(lens, l)
    requires |lens| <= 1 && (forall i :: 0 <= i < |lens| ==> lens[i] == 1) && 1 <= limit <= MAX_LENGTH
    ensures Codes(h, limit) == |lens|
  {
    assert Tallies(h, lens, limit);
    CodesAre(h, lens, limit);
    UsedUpToAll(lens, limit);
  }

  /** What the lengths say about the counts. */
  ghost predicate SizedFor(sizes: seq<nat>, counts: seq<nat>, limit: nat)
  {
    && |sizes| == |counts|
    && (forall i :: 0 <= i < |counts| ==> sizes[i] <= limit && (sizes[i] > 0 <==> counts[i] > 0))
    && (forall i, j :: 0 <= i < |counts| && 0 <= j < |counts| && 0 < counts[i] < counts[j] ==>
                         sizes[j] <= sizes[i])
    && UsedCount(sizes) == |UsedSyms(counts)|
    && (UsedCount(sizes) >= 2 ==> Complete(sizes))
  }

  /** The lengths of the symbols in the given order. */
  ghost function Picked(order: seq<R.Sym>, sizes: seq<nat>): (l: seq<nat>)
    requires forall p :: 0 <= p < |order| ==> order[p].index < |sizes|
    ensures |l| == |order| && forall p :: 0 <= p < |order| ==> l[p] == sizes[order[p].index]
  {
    seq(|order|, p requires 0 <= p < |order| => sizes[order[p].index])
  }

  /** As long as no code of the tree is longer than the limit, the lengths are those of the tree. */
  ghost predicate TreeSized(sizes: seq<nat>, counts: seq<nat>, limit: nat)
  {
    exists order: seq<R.Sym> :: SortedUsed(order, counts) && (forall p :: 0 <= p < |order| ==> order[p].index < |sizes|)
                    && (NotTooDeep(Keys(order), limit) ==> Picked(order, sizes) == LeafDepths(Keys(order)))
  }

  lemma PickedLast(order: seq<R.Sym>, sizes: seq<nat>)
    requires order != [] && Distinct(order, |sizes|)
    requires forall k :: 0 <= k < |sizes| && sizes[k] > 0 ==> exists p :: 0 <= p < |order| && order[p].index == k
    ensures var n := |order| - 1;
            var k, before := order[n].index, order[..n];
            var rest := sizes[k := 0];
            && Distinct(before, |sizes|) && Picked(order, sizes) == Picked(before, rest) + [sizes[k]]
            && forall i :: 0 <= i < |rest| && rest[i] > 0 ==> exists p :: 0 <= p < |before| && before[p].index == i
  {
    var n := |order| - 1;
    var k, before := order[n].index, order[..n];
    var rest := sizes[k := 0];
    forall i | 0 <= i < |rest| && rest[i] > 0 ensures exists p :: 0 <= p < |before| && before[p].index == i {
      var p :| 0 <= p < |order| && order[p].index == i;
      assert before[p].index == i;
    }
    assert Picked(order, sizes) == Picked(before, rest) + [sizes[k]];
  }

  lemma {:induction false} PickedCount(order: seq<R.Sym>, sizes: seq<nat>, m: nat)
    requires Distinct(order, |sizes|) && m >= 1
    requires forall k :: 0 <= k < |sizes| && sizes[k] > 0 ==> exists p :: 0 <= p < |order| && order[p].index == k
    ensures Count(Picked(order, sizes), m) == Count(sizes, m)
    decreases |order|
  {
    if order == [] {
      CountOfNone(sizes, m);
    } else {
      hide Count;
      var n := |order| - 1;
      var k := order[n].index;
      PickedLast(order, sizes);
      hide Picked;
      PickedCount(order[..n], sizes[k := 0], m);
      CountOfUpdate(sizes, k, 0, m);
      CountMore(Picked(order[..n], sizes[k := 0]), sizes[k], m);
    }
  }

  lemma CountMore(s: seq<nat>, x: nat, m: nat)
    ensures Count(s + [x], m) == Count(s, m) + if x == m then 1 else 0
  {
    assert (s + [x])[..|s|] == s;
  }

  lemma PickedIsTree(order: seq<R.Sym>, sizes: seq<nat>, h: seq<nat>, limit: nat)
    requires HandedOut(sizes, order, h, 0, limit + 1, 0) && 1 <= limit && limit + 1 < |h|
    requires (forall k :: 0 <= k < |sizes| ==> sizes[k] <= limit) && NotTooDeep(Keys(order), limit)
    requires Tallies(h, LeafDepths(Keys(order)), limit)
    ensures Picked(order, sizes) == LeafDepths(Keys(order))
  {
    hide Count;
    hide LeafDepths;
    var l, t := Picked(order, sizes), LeafDepths(Keys(order));
    TreeBalanced(Keys(order));
    DepthsDescend(Keys(order));
    forall d: nat ensures Count(l, d) == Count(t, d) {
      if d == 0 {
        CountOfNone(l, 0);
      } else if d <= limit {
        PickedCount(order, sizes, d);
      } else {
        CountOfNone(l, d);
        CountOfNone(t, d);
      }
    }
    SameLengths(l, t);
  }

  /** The counts of a table whose codes fit the histogram of code lengths, which the code indexes
      without a test. */
  ghost predicate ShallowCounts(counts: seq<nat>)
  {
    forall order :: SortedUsed(order, counts) ==> Shallow(Keys(order))
  }

  /** Counts that sum to less than 2^16 are such. */
  lemma SmallSumShallow(counts: seq<nat>)
    requires |counts| <= 0x10000 && Sum(counts) < 0x10000
    ensures ShallowCounts(counts) && forall i :: 0 <= i < |counts| ==> counts[i] < 0x10000
  {
    hide LeafDepths;
    hide Sum;
    SumBounds(counts);
    forall order | SortedUsed(order, counts) ensures Shallow(Keys(order)) {
      SortedFacts(order, counts);
      KeysAscending(order);
      if |order| >= 2 {
        DepthBound(Keys(order));
      }
    }
  }

  /** From counts to code lengths of at most `limit` bits and their reversed codes. */
  method OptimizeTable(counts: seq<nat>, limit: nat, sizes: array<nat>, codes: array<nat>)
    requires |counts| <= 288 && sizes.Length == codes.Length == |counts| && sizes != codes
    requires 1 <= limit <= MAX_LENGTH && |counts| <= Pow2(limit)
    requires (forall i :: 0 <= i < |counts| ==> counts[i] < 0x10000) && ShallowCounts(counts)
    modifies sizes, codes
    ensures SizedFor(sizes[..], counts, limit) && TreeSized(sizes[..], counts, limit)
    ensures forall i :: Used(sizes[..], i) ==> codes[i] == Lsb(CodePath(sizes[..], i))
  {
    hide UsedSyms;
    hide Shallow;
    hide SizedFor;
    hide TreeSized;
    hide NotTooDeep;
    hide LeafDepths;
    hide Keys;
    hide HandedOut;
    hide Codes;
    hide CodeMass;
    UsedSymsAre(counts);
    var syms0 := CollectUsed(counts);
    var syms1 := new R.Sym[syms0.Length](_ => R.Sym(0, 0));
    var sorted := R.Sort(syms0, syms1);
    ghost var order := sorted[..];
    SortedFacts(order, counts);
    var num := LimitedHistogram(sorted, limit);
    ghost var h := num[..];
    for i := 0 to |counts|
      invariant sorted[..] == order && num[..] == h
      invariant forall k :: 0 <= k < i ==> sizes[k] == 0
    {
      sizes[i] := 0;
    }
    AssignSizes(sizes, sorted[..], num, limit);
    TableSized(sizes[..], order, counts, num[..], limit);
    TableTree(sizes[..], order, counts, num[..], limit);
    AssignCodes(codes, sizes, num, limit);
  }

  lemma TableTree(sizes: seq<nat>, order: seq<R.Sym>, counts: seq<nat>, h: seq<nat>, limit: nat)
    requires SortedUsed(order, counts) && HandedOut(sizes, order, h, 0, limit + 1, 0) && 1 <= limit && limit + 1 < |h|
    requires forall k :: 0 <= k < |sizes| ==> sizes[k] <= limit
    requires NotTooDeep(Keys(order), limit) ==> Tallies(h, LeafDepths(Keys(order)), limit)
    ensures TreeSized(sizes, counts, limit)
  {
    hide SortedUsed;
    hide NotTooDeep;
    hide Picked;
    if NotTooDeep(Keys(order), limit) {
      PickedIsTree(order, sizes, h, limit);
    }
  }

  lemma TableSized(sizes: seq<nat>, order: seq<R.Sym>, counts: seq<nat>, h: seq<nat>, limit: nat)
    requires |sizes| == |counts| <= 0x10000 && 1 <= limit <= MAX_LENGTH < |h|
    requires SortedUsed(order, counts) && forall i :: 0 <= i < |counts| ==> counts[i] < 0x10000
    requires HandedOut(sizes, order, h, 0, limit + 1, 0) && forall k :: 0 <= k < |sizes| ==> sizes[k] <= limit
    requires Codes(h, limit) == |order|
    requires |order| >= 2 ==> CodeMass(h, limit, limit) == Pow2(limit)
    ensures Tallies(h, sizes, limit) && SizedFor(sizes, counts, limit)
  {
    hide Count;
    SortedFacts(order, counts);
    assert Tallies(h, sizes, limit);
    CodesAre(h, sizes, limit);
    UsedUpToLimit(sizes, limit, MAX_LENGTH);
    UsedByLength(sizes);
    if |order| >= 2 {
      CompleteByHistogram(h, sizes, limit);
    }
    AllSized(sizes, order, counts);
    MoreOftenShorter(sizes, order, counts);
  }

  lemma AllSized(sizes: seq<nat>, order: seq<R.Sym>, counts: seq<nat>)
    requires |sizes| == |counts| && Distinct(order, |counts|)
    requires forall p :: 0 <= p < |order| ==> counts[order[p].index] > 0 && sizes[order[p].index] > 0
    requires forall i :: 0 <= i < |counts| && counts[i] > 0 ==> R.Sym(counts[i], i) in order
    requires forall k :: 0 <= k < |sizes| && sizes[k] > 0 ==> exists p :: 0 <= p < |order| && order[p].index == k
    ensures forall i :: 0 <= i < |counts| ==> (sizes[i] > 0 <==> counts[i] > 0)
  {
    forall i | 0 <= i < |counts| ensures sizes[i] > 0 <==> counts[i] > 0 {
      if counts[i] > 0 {
        var p := Position(order, counts, i);
      }
    }
  }

  lemma MoreOftenShorter(sizes: seq<nat>, order: seq<R.Sym>, counts: seq<nat>)
    requires |sizes| == |counts| <= 0x10000 && Distinct(order, |counts|) && R.Increasing(order, R.ByCount())
    requires forall i :: 0 <= i < |counts| && counts[i] > 0 ==> R.Sym(counts[i], i) in order
    requires forall p, q :: 0 <= p < q < |order| ==> sizes[order[p].index] >= sizes[order[q].index]
    ensures forall i, j :: 0 <= i < |counts| && 0 <= j < |counts| && 0 < counts[i] < counts[j] ==>
                             sizes[j] <= sizes[i]
  {
    forall i, j | 0 <= i < |counts| && 0 <= j < |counts| && 0 < counts[i] < counts[j]
      ensures sizes[j] <= sizes[i]
    {
      var p := Position(order, counts, i);
      var q := Position(order, counts, j);
      InCountOrder(order, p, q);
    }
  }

  /** A smaller count comes first. */
  lemma InCountOrder(order: seq<R.Sym>, p: nat, q: nat)
    requires R.Increasing(order, R.ByCount()) && p < |order| && q < |order| && order[p].key < order[q].key
    requires order[p].index < 0x10000 && order[q].index < 0x10000
    ensures p < q
  {
    assert R.ByCount()(order[p]) < R.ByCount()(order[q]);
  }

  lemma Position(order: seq<R.Sym>, counts: seq<nat>, i: nat) returns (p: nat)
    requires i < |counts| && R.Sym(counts[i], i) in order
    ensures p < |order| && order[p] == R.Sym(counts[i], i)
  {
    p :| 0 <= p < |order| && order[p] == R.Sym(counts[i], i);
  }

  lemma {:induction false} UsedUpToLimit(lens: seq<nat>, limit: nat, m: nat)
    requires limit <= m && forall i :: 0 <= i < |lens| ==> lens[i] <= limit
    ensures UsedUpTo(lens, m) == UsedUpTo(lens, limit)
  {
    if m > limit {
      UsedUpToLimit(lens, limit, m - 1);
      CountOfNone(lens, m);
    }
  }

  lemma {:induction false} SumBounds(s: seq<nat>)
    ensures forall i :: 0 <= i < |s| ==> s[i] <= Sum(s)
  {
    if s != [] {
      SumBounds(s[1..]);
      forall i | 0 <= i < |s| ensures s[i] <= Sum(s) {
        if i > 0 {
          assert s[i] == s[1..][i - 1];
        }
      }
    }
  }
}
