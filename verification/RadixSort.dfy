/** The compressor's radix sort of used symbols by their 16-bit counts. */
module RadixSort {

  const RADIX: nat := 256

  datatype Sym = Sym(key: nat, index: nat)

  predicate Bounded(s: seq<Sym>)
  {
    forall i :: 0 <= i < |s| ==> s[i].key < 0x10000 && s[i].index < 0x10000
  }

  /** The byte of the key that pass `pass` looks at. */
  function Digit(x: Sym, pass: nat): nat
  {
    if pass == 0 then x.key % 256 else x.key / 256
  }

  /** The entries of `s` with digit `b`, in their order. */
  function Bucket(s: seq<Sym>, pass: nat, b: nat): (r: seq<Sym>)
    ensures |r| <= |s|
  {
    if s == [] then []
    else
      var n := |s| - 1;
      Bucket(s[..n], pass, b) + if Digit(s[n], pass) == b then [s[n]] else []
  }

  /** The entries with digits below `b`, bucket after bucket. */
  function Buckets(s: seq<Sym>, pass: nat, b: nat): seq<Sym>
  {
    if b == 0 then [] else Buckets(s, pass, b - 1) + Bucket(s, pass, b - 1)
  }

  // ----- distributing into buckets permutes, and refines the order

  lemma BucketOfMore(s: seq<Sym>, x: Sym, pass: nat, b: nat)
    ensures Bucket(s + [x], pass, b) == Bucket(s, pass, b) + if Digit(x, pass) == b then [x] else []
  {
    assert (s + [x])[..|s|] == s;
  }

  lemma {:induction false} BucketsOfMore(s: seq<Sym>, x: Sym, pass: nat, b: nat)
    ensures multiset(Buckets(s + [x], pass, b)) ==
            multiset(Buckets(s, pass, b)) + if Digit(x, pass) < b then multiset{x} else multiset{}
  {
    hide Bucket;
    if b > 0 {
      BucketsOfMore(s, x, pass, b - 1);
      BucketOfMore(s, x, pass, b - 1);
    }
  }

  lemma {:induction false} BucketsOfNone(pass: nat, b: nat)
    ensures Buckets([], pass, b) == []
  {
    if b > 0 {
      BucketsOfNone(pass, b - 1);
    }
  }

  lemma {:induction false} BucketsPermute(s: seq<Sym>, pass: nat, b: nat)
    requires forall i :: 0 <= i < |s| ==> Digit(s[i], pass) < b
    ensures multiset(Buckets(s, pass, b)) == multiset(s)
    ensures |Buckets(s, pass, b)| == |s|
  {
    if s == [] {
      BucketsOfNone(pass, b);
    } else {
      var n := |s| - 1;
      BucketsPermute(s[..n], pass, b);
      assert s == s[..n] + [s[n]];
      BucketsOfMore(s[..n], s[n], pass, b);
    }
    assert |multiset(Buckets(s, pass, b))| == |multiset(s)|;
  }

  /** Strictly increasing ranks. */
  ghost predicate Increasing(s: seq<Sym>, rank: Sym -> nat)
  {
    forall i, j :: 0 <= i < j < |s| ==> rank(s[i]) < rank(s[j])
  }

  lemma {:induction false} BucketIncreasing(s: seq<Sym>, pass: nat, b: nat, rank: Sym -> nat)
    requires Increasing(s, rank)
    ensures Increasing(Bucket(s, pass, b), rank)
    ensures forall x :: x in Bucket(s, pass, b) ==> x in s && Digit(x, pass) == b
  {
    if s != [] {
      var n := |s| - 1;
      BucketIncreasing(s[..n], pass, b, rank);
      forall x | x in s[..n] ensures rank(x) < rank(s[n]) {
        var i :| 0 <= i < n && s[i] == x;
      }
    }
  }

  /** Later ranks, for entries with digits of pass `pass` compared first. */
  ghost predicate Refines(s: seq<Sym>, pass: nat, rank: Sym -> nat, more: Sym -> nat)
  {
    && (forall x, y :: x in s && y in s && Digit(x, pass) < Digit(y, pass) ==> more(x) < more(y))
    && (forall x, y :: x in s && y in s && Digit(x, pass) == Digit(y, pass) && rank(x) < rank(y) ==>
                         more(x) < more(y))
  }

  lemma IncreasingConcat(s: seq<Sym>, t: seq<Sym>, rank: Sym -> nat)
    requires Increasing(s, rank) && Increasing(t, rank)
    requires forall x, y :: x in s && y in t ==> rank(x) < rank(y)
    ensures Increasing(s + t, rank)
  {
    var u := s + t;
    forall i, j | 0 <= i < j < |u| ensures rank(u[i]) < rank(u[j]) {
      if i < |s| <= j {
        assert u[i] in s && u[j] in t;
      }
    }
  }

  /** One pass sorts by digit first and keeps the order within a digit. */
  lemma {:induction false} BucketsIncreasing(s: seq<Sym>, pass: nat, b: nat, rank: Sym -> nat, more: Sym -> nat)
    requires Increasing(s, rank) && Refines(s, pass, rank, more)
    ensures Increasing(Buckets(s, pass, b), more)
    ensures forall x :: x in Buckets(s, pass, b) ==> x in s && Digit(x, pass) < b
  {
    if b > 0 {
      var before, here := Buckets(s, pass, b - 1), Bucket(s, pass, b - 1);
      BucketsIncreasing(s, pass, b - 1, rank, more);
      BucketIncreasing(s, pass, b - 1, rank);
      forall i, j | 0 <= i < j < |here| ensures more(here[i]) < more(here[j]) {
        assert here[i] in here && here[j] in here;
      }
      IncreasingConcat(before, here, more);
    }
  }

  // ----- where the buckets lie

  lemma {:induction false} BucketsMono(s: seq<Sym>, pass: nat, b: nat, c: nat)
    requires b <= c
    ensures |Buckets(s, pass, b)| <= |Buckets(s, pass, c)|
    ensures b < c ==> |Buckets(s, pass, b)| + |Bucket(s, pass, b)| <= |Buckets(s, pass, c)|
  {
    if b < c {
      BucketsMono(s, pass, b, c - 1);
    }
  }

  lemma {:induction false} BucketMono(s: seq<Sym>, pass: nat, b: nat, i: nat)
    requires i <= |s|
    ensures |Bucket(s[..i], pass, b)| <= |Bucket(s, pass, b)|
    ensures i < |s| && Digit(s[i], pass) == b ==> |Bucket(s[..i], pass, b)| < |Bucket(s, pass, b)|
    decreases |s|
  {
    if i < |s| {
      var n := |s| - 1;
      BucketMono(s[..n], pass, b, i);
      assert s[..n][..i] == s[..i];
    } else {
      assert s[..i] == s;
    }
  }

  lemma {:induction false} BucketsContain(s: seq<Sym>, pass: nat, b: nat, c: nat)
    requires b < c
    ensures |Buckets(s, pass, b)| + |Bucket(s, pass, b)| <= |Buckets(s, pass, c)|
    ensures forall k :: 0 <= k < |Bucket(s, pass, b)| ==>
                          Buckets(s, pass, c)[|Buckets(s, pass, b)| + k] == Bucket(s, pass, b)[k]
  {
    hide Bucket;
    if b < c - 1 {
      BucketsContain(s, pass, b, c - 1);
    }
  }

  lemma {:induction false} WhichBucket(s: seq<Sym>, pass: nat, c: nat, k: nat) returns (b: nat)
    requires k < |Buckets(s, pass, c)|
    ensures b < c && |Buckets(s, pass, b)| <= k < |Buckets(s, pass, b)| + |Bucket(s, pass, b)|
  {
    if k < |Buckets(s, pass, c - 1)| {
      b := WhichBucket(s, pass, c - 1, k);
    } else {
      b := c - 1;
    }
  }

  // ----- the sort

  /** `h` holds the sizes of the buckets of both passes. */
  ghost predicate Counted(h: seq<nat>, s: seq<Sym>)
  {
    && |h| == 512
    && (forall b :: 0 <= b < RADIX ==> h[b] == |Bucket(s, 0, b)|)
    && (forall b :: 0 <= b < RADIX ==> h[256 + b] == |Bucket(s, 1, b)|)
  }

  /** Counts the digits of both bytes at once. */
  method Histograms(syms: array<Sym>) returns (hist: array<nat>)
    requires Bounded(syms[..])
    ensures fresh(hist) && Counted(hist[..], syms[..])
  {
    hist := new nat[512](_ => 0);
    ghost var s := syms[..];
    for i := 0 to syms.Length
      invariant syms[..] == s
      invariant forall b :: 0 <= b < RADIX ==> hist[b] == |Bucket(s[..i], 0, b)|
      invariant forall b :: 0 <= b < RADIX ==> hist[256 + b] == |Bucket(s[..i], 1, b)|
    {
      assert s[..i + 1] == s[..i] + [s[i]];
      forall b: nat ensures |Bucket(s[..i + 1], 0, b)| == |Bucket(s[..i], 0, b)| + if Digit(s[i], 0) == b then 1 else 0 {
        BucketOfMore(s[..i], s[i], 0, b);
      }
      forall b: nat ensures |Bucket(s[..i + 1], 1, b)| == |Bucket(s[..i], 1, b)| + if Digit(s[i], 1) == b then 1 else 0 {
        BucketOfMore(s[..i], s[i], 1, b);
      }
      var key := syms[i].key;
      hist[key % 256] := hist[key % 256] + 1;
      hist[256 + key / 256] := hist[256 + key / 256] + 1;
    }
    assert s[..syms.Length] == s;
  }

  /** Where the counts for pass `pass` begin. */
  function Base(pass: nat): nat
  {
    if pass == 0 then 0 else RADIX
  }

  /** Where each bucket begins. */
  method Offsets(hist: array<nat>, ghost s: seq<Sym>, pass: nat) returns (offsets: array<nat>)
    requires hist.Length == 512 && Base(pass) + RADIX <= 512
    requires forall b :: 0 <= b < RADIX ==> hist[Base(pass) + b] == |Bucket(s, pass, b)|
    ensures fresh(offsets) && offsets.Length == RADIX
    ensures forall b :: 0 <= b < RADIX ==> offsets[b] == |Buckets(s, pass, b)|
  {
    hide Bucket;
    hide Base;
    offsets := new nat[RADIX](_ => 0);
    var curOfs := 0;
    for b := 0 to RADIX
      invariant curOfs == |Buckets(s, pass, b)|
      invariant forall c :: 0 <= c < b ==> offsets[c] == |Buckets(s, pass, c)|
    {
      offsets[b] := curOfs;
      assert Buckets(s, pass, b + 1) == Buckets(s, pass, b) + Bucket(s, pass, b);
      curOfs := curOfs + hist[Base(pass) + b];
    }
  }

  /** Bucket `b` of the first `i` entries of `s` stands where bucket `b` of `s` belongs. */
  ghost predicate PlacedIn(t: seq<Sym>, s: seq<Sym>, pass: nat, i: nat, b: nat)
    requires i <= |s|
  {
    var start, bucket := |Buckets(s, pass, b)|, Bucket(s[..i], pass, b);
    start + |bucket| <= |t| && t[start..start + |bucket|] == bucket
  }

  /** The first `i` entries of `s` have been put in their buckets. */
  ghost predicate Placed(t: seq<Sym>, offsets: seq<nat>, s: seq<Sym>, pass: nat, i: nat)
    requires i <= |s|
  {
    && |t| == |s| && |offsets| == RADIX
    && (forall b: nat :: b < RADIX ==> offsets[b] == |Buckets(s, pass, b)| + |Bucket(s[..i], pass, b)|)
    && (forall b: nat :: b < RADIX ==> PlacedIn(t, s, pass, i, b))
  }

  method Distribute(cur: array<Sym>, target: array<Sym>, offsets: array<nat>, pass: nat)
    requires pass <= 1 && Bounded(cur[..]) && cur != target && cur.Length == target.Length
    requires offsets.Length == RADIX
    requires forall b :: 0 <= b < RADIX ==> offsets[b] == |Buckets(cur[..], pass, b)|
    modifies target, offsets
    ensures target[..] == Buckets(cur[..], pass, RADIX)
  {
    hide Bucket;
    hide Buckets;
    ghost var s := cur[..];
    BucketsPermute(s, pass, RADIX);
    NonePlaced(target[..], offsets[..], s, pass);
    for i := 0 to cur.Length
      invariant cur[..] == s
      invariant Placed(target[..], offsets[..], s, pass, i)
    {
      var d := if pass == 0 then cur[i].key % 256 else cur[i].key / 256;
      ghost var t, o := target[..], offsets[..];
      PlaceFits(s, pass, i);
      target[offsets[d]] := cur[i];
      offsets[d] := offsets[d] + 1;
      PlaceOne(t, o, s, pass, i);
    }
    AllPlaced(target[..], offsets[..], s, pass);
  }

  lemma NonePlaced(t: seq<Sym>, o: seq<nat>, s: seq<Sym>, pass: nat)
    requires |t| == |s| == |Buckets(s, pass, RADIX)| && |o| == RADIX
    requires forall b :: 0 <= b < RADIX ==> o[b] == |Buckets(s, pass, b)|
    ensures Placed(t, o, s, pass, 0)
  {
    hide Buckets;
    forall b: nat | b < RADIX ensures Bucket(s[..0], pass, b) == [] && PlacedIn(t, s, pass, 0, b) {
      BucketsMono(s, pass, b, RADIX);
    }
  }

  lemma PlaceFits(s: seq<Sym>, pass: nat, i: nat)
    requires i < |s| && pass <= 1 && Bounded(s) && |Buckets(s, pass, RADIX)| == |s|
    ensures var d := Digit(s[i], pass);
            d < RADIX && |Buckets(s, pass, d)| + |Bucket(s[..i], pass, d)| < |s|
  {
    var d := Digit(s[i], pass);
    BucketMono(s, pass, d, i);
    BucketsMono(s, pass, d, RADIX);
  }

  lemma PlaceOne(t: seq<Sym>, o: seq<nat>, s: seq<Sym>, pass: nat, i: nat)
    requires i < |s| && pass <= 1 && Bounded(s) && |Buckets(s, pass, RADIX)| == |s|
    requires Placed(t, o, s, pass, i)
    ensures var d := Digit(s[i], pass);
            d < RADIX && o[d] < |t| && Placed(t[o[d] := s[i]], o[d := o[d] + 1], s, pass, i + 1)
  {
    hide Bucket;
    hide Buckets;
    hide Digit;
    var d := Digit(s[i], pass);
    PlaceFits(s, pass, i);
    var t', o' := t[o[d] := s[i]], o[d := o[d] + 1];
    assert s[..i + 1] == s[..i] + [s[i]];
    forall b: nat | b < RADIX
      ensures o'[b] == |Buckets(s, pass, b)| + |Bucket(s[..i + 1], pass, b)|
      ensures PlacedIn(t', s, pass, i + 1, b)
    {
      BucketOfMore(s[..i], s[i], pass, b);
      PlaceOther(s, pass, i, b, d);
      assert PlacedIn(t, s, pass, i, b);
      PlaceInBucket(t, s, pass, i, b, d, o[d]);
    }
  }

  lemma PlaceInBucket(t: seq<Sym>, s: seq<Sym>, pass: nat, i: nat, b: nat, d: nat, at: nat)
    requires i < |s| && d == Digit(s[i], pass) && PlacedIn(t, s, pass, i, b)
    requires at == |Buckets(s, pass, d)| + |Bucket(s[..i], pass, d)| < |t|
    requires b < d ==> |Buckets(s, pass, b)| + |Bucket(s[..i], pass, b)| <= |Buckets(s, pass, d)|
    requires d < b ==> at < |Buckets(s, pass, b)|
    requires Bucket(s[..i + 1], pass, b) == Bucket(s[..i], pass, b) + if d == b then [s[i]] else []
    ensures PlacedIn(t[at := s[i]], s, pass, i + 1, b)
  {
    hide Buckets;
    hide Bucket;
    hide Digit;
    var start, bucket, t' := |Buckets(s, pass, b)|, Bucket(s[..i], pass, b), t[at := s[i]];
    if b == d {
      assert t'[start..start + |bucket| + 1] == t[start..start + |bucket|] + [s[i]];
    } else {
      assert t'[start..start + |bucket|] == t[start..start + |bucket|];
    }
  }

  lemma PlaceOther(s: seq<Sym>, pass: nat, i: nat, b: nat, d: nat)
    requires i < |s| && d == Digit(s[i], pass)
    ensures b < d ==> |Buckets(s, pass, b)| + |Bucket(s[..i], pass, b)| <= |Buckets(s, pass, d)|
    ensures d < b ==> |Buckets(s, pass, d)| + |Bucket(s[..i], pass, d)| < |Buckets(s, pass, b)|
  {
    BucketMono(s, pass, b, i);
    BucketMono(s, pass, d, i);
    if b < d {
      BucketsMono(s, pass, b, d);
    } else if d < b {
      BucketsMono(s, pass, d, b);
    }
  }

  lemma AllPlaced(t: seq<Sym>, o: seq<nat>, s: seq<Sym>, pass: nat)
    requires Placed(t, o, s, pass, |s|) && |Buckets(s, pass, RADIX)| == |s|
    ensures t == Buckets(s, pass, RADIX)
  {
    hide Buckets;
    hide Bucket;
    var all := Buckets(s, pass, RADIX);
    forall j | 0 <= j < |s| ensures t[j] == all[j] {
      var b := WhichBucket(s, pass, RADIX, j);
      assert PlacedIn(t, s, pass, |s|, b);
      AllInBucket(t, s, pass, b, j);
    }
  }

  lemma AllInBucket(t: seq<Sym>, s: seq<Sym>, pass: nat, b: nat, j: nat)
    requires b < RADIX && PlacedIn(t, s, pass, |s|, b)
    requires |Buckets(s, pass, b)| <= j < |Buckets(s, pass, b)| + |Bucket(s, pass, b)|
    ensures j < |t| && j < |Buckets(s, pass, RADIX)| && t[j] == Buckets(s, pass, RADIX)[j]
  {
    hide Buckets;
    hide Bucket;
    assert s[..|s|] == s;
    BucketsContain(s, pass, b, RADIX);
    var start, bucket := |Buckets(s, pass, b)|, Bucket(s, pass, b);
    assert t[start..start + |bucket|][j - start] == t[j];
    assert bucket[j - start] == Buckets(s, pass, RADIX)[start + (j - start)];
  }

  // ----- both passes

  function ByIndex(): Sym -> nat
  {
    (x: Sym) => x.index
  }

  function ByLowByte(): Sym -> nat
  {
    (x: Sym) => (x.key % 256) * 0x10000 + x.index
  }

  /** Symbols by count, and by index where the counts are equal. */
  function ByCount(): Sym -> nat
  {
    (x: Sym) => x.key * 0x10000 + x.index
  }

  lemma {:induction false} BucketCounts(s: seq<Sym>, pass: nat, b: nat, x: Sym)
    ensures multiset(Bucket(s, pass, b))[x] == if Digit(x, pass) == b then multiset(s)[x] else 0
  {
    if s != [] {
      var n := |s| - 1;
      BucketCounts(s[..n], pass, b, x);
      assert s == s[..n] + [s[n]];
    }
  }

  /** How many entries have a given digit does not depend on their order. */
  lemma BucketSize(s: seq<Sym>, t: seq<Sym>, pass: nat, b: nat)
    requires multiset(s) == multiset(t)
    ensures |Bucket(s, pass, b)| == |Bucket(t, pass, b)|
  {
    hide Bucket;
    var ms, mt := multiset(Bucket(s, pass, b)), multiset(Bucket(t, pass, b));
    forall x: Sym ensures ms[x] == mt[x] {
      BucketCounts(s, pass, b, x);
      BucketCounts(t, pass, b, x);
    }
    assert ms == mt;
    assert |ms| == |Bucket(s, pass, b)|;
    assert |mt| == |Bucket(t, pass, b)|;
  }

  lemma {:induction false} BucketFull(s: seq<Sym>, pass: nat, b: nat)
    requires |Bucket(s, pass, b)| == |s|
    ensures forall i :: 0 <= i < |s| ==> Digit(s[i], pass) == b
  {
    if s != [] {
      BucketFull(s[..|s| - 1], pass, b);
    }
  }

  /** One pass over a permutation of `first`, whose digits have been counted in `hist`. */
  method Pass(cur: array<Sym>, target: array<Sym>, hist: array<nat>, pass: nat, ghost first: seq<Sym>)
    requires pass <= 1 && Bounded(cur[..]) && cur != target && cur.Length == target.Length
    requires multiset(cur[..]) == multiset(first) && Counted(hist[..], first)
    modifies target
    ensures target[..] == Buckets(cur[..], pass, RADIX)
    ensures multiset(target[..]) == multiset(first) && Bounded(target[..])
  {
    hide Bucket;
    hide Buckets;
    forall b: nat | b < RADIX ensures hist[Base(pass) + b] == |Bucket(cur[..], pass, b)| {
      BucketSize(cur[..], first, pass, b);
    }
    var offsets := Offsets(hist, cur[..], pass);
    Distribute(cur, target, offsets, pass);
    BucketsPermute(cur[..], pass, RADIX);
    BoundedPermutation(cur[..], target[..]);
  }

  lemma BoundedPermutation(s: seq<Sym>, t: seq<Sym>)
    requires multiset(s) == multiset(t) && Bounded(s)
    ensures Bounded(t)
  {
    forall i | 0 <= i < |t| ensures t[i].key < 0x10000 && t[i].index < 0x10000 {
      assert t[i] in multiset(t);
    }
  }

  method Sort(syms0: array<Sym>, syms1: array<Sym>) returns (sorted: array<Sym>)
    requires syms0 != syms1 && syms0.Length == syms1.Length
    requires Bounded(syms0[..]) && Increasing(syms0[..], ByIndex())
    modifies syms0, syms1
    ensures sorted == syms0 || sorted == syms1
    ensures multiset(sorted[..]) == multiset(old(syms0[..]))
    ensures Increasing(sorted[..], ByCount())
  {
    hide Bucket;
    hide Buckets;
    ghost var s := syms0[..];
    var hist := Histograms(syms0);
    var totalPasses := 2;
    while totalPasses > 1 && syms0.Length == hist[(totalPasses - 1) * 256]
      invariant 1 <= totalPasses <= 2
      invariant totalPasses == 1 ==> forall i :: 0 <= i < |s| ==> Digit(s[i], 1) == 0
      modifies {}
    {
      assert hist[256 + 0] == |Bucket(s, 1, 0)|;
      BucketFull(s, 1, 0);
      totalPasses := totalPasses - 1;
    }
    var cur, target := syms0, syms1;
    assert cur[..] == s;
    for pass := 0 to totalPasses
      invariant {cur, target} == {syms0, syms1} && cur != target
      invariant multiset(cur[..]) == multiset(s) && Bounded(cur[..])
      invariant Increasing(cur[..], RankAfter(pass))
      invariant Counted(hist[..], s)
    {
      ghost var t := cur[..];
      Pass(cur, target, hist, pass, s);
      PassRefines(t, pass);
      BucketsIncreasing(t, pass, RADIX, RankAfter(pass), RankAfter(pass + 1));
      cur, target := target, cur;
    }
    if totalPasses == 1 {
      SmallKeys(s, cur[..]);
    }
    return cur;
  }

  /** What the entries are sorted by after `passes` passes. */
  function RankAfter(passes: nat): Sym -> nat
  {
    if passes == 0 then ByIndex() else if passes == 1 then ByLowByte() else ByCount()
  }

  lemma PassRefines(s: seq<Sym>, pass: nat)
    requires pass <= 1 && Bounded(s)
    ensures Refines(s, pass, RankAfter(pass), RankAfter(pass + 1))
  {
  }

  lemma SmallKeys(s: seq<Sym>, t: seq<Sym>)
    requires multiset(s) == multiset(t) && Increasing(t, ByLowByte())
    requires forall i :: 0 <= i < |s| ==> Digit(s[i], 1) == 0
    ensures Increasing(t, ByCount())
  {
    forall i | 0 <= i < |t| ensures ByLowByte()(t[i]) == ByCount()(t[i]) {
      assert t[i] in multiset(t);
      assert t[i].key < 256;
    }
  }
}
