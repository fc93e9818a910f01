/** The merging pass of `compact_queue` on the sorted window, and exactly when it loses no page. */
module Compaction {
  import opened Common
  import opened PageEntry
  import opened PageSort

  /** The guard of a merge: the first entry ends where the second starts, and both fit in one. */
  predicate Mergeable(a: nat, b: nat)
  {
    First(a) + PgCnt(a) == First(b) && PgCnt(a) + PgCnt(b) < MAX_ENTRIES
  }

  function Join(a: nat, b: nat): nat
  {
    BuildEntry(GetAddr(a), PgCnt(a) + PgCnt(b))
  }

  ghost function MergeAt(v: seq<nat>, k: nat): (w: seq<nat>)
    requires k + 1 < |v|
    ensures |w| == |v|
  {
    v[k + 1 := Join(v[k], v[k + 1])][k := 0]
  }

  /** The merging pass from place `k` on; the last pair is not looked at. */
  ghost function Pass(v: seq<nat>, k: nat): (w: seq<nat>)
    ensures |w| == |v|
    decreases |v| - k
  {
    if k + 2 >= |v| then v
    else if Mergeable(v[k], v[k + 1]) then Pass(MergeAt(v, k), k + 1)
    else Pass(v, k + 1)
  }

  /** The number of merges, by which the head advances. */
  ghost function Merges(v: seq<nat>, k: nat): (m: nat)
    ensures k + m + 2 <= |v| || m == 0
    decreases |v| - k
  {
    if k + 2 >= |v| then 0
    else if Mergeable(v[k], v[k + 1]) then 1 + Merges(MergeAt(v, k), k + 1)
    else Merges(v, k + 1)
  }

  /** What is left in the queue. */
  ghost function Kept(v: seq<nat>): seq<nat>
  {
    Pass(v, 0)[Merges(v, 0)..]
  }

  // ----- pages

  lemma JoinHolds(a: nat, b: nat, p: nat)
    requires InRange(a) && InRange(b) && Mergeable(a, b)
    ensures Once(Holds(Join(a, b), p)) == Once(Holds(a, p)) + Once(Holds(b, p))
    ensures InRange(Join(a, b)) && First(Join(a, b)) == First(a) && PgCnt(Join(a, b)) == PgCnt(a) + PgCnt(b)
  {
    AddrFits(a);
    BuildFields(GetAddr(a), PgCnt(a) + PgCnt(b));
  }

  lemma ZeroHolds(p: nat)
    ensures Holds(0, p) <==> p == 0
    ensures PgCnt(0) == 1 && First(0) == 0
  {
  }

  lemma MergeAtTimes(v: seq<nat>, k: nat, p: nat)
    requires k + 1 < |v| && AllInRange(v) && Mergeable(v[k], v[k + 1])
    ensures Times(MergeAt(v, k), p) == Times(v, p) + Once(p == 0)
    ensures Total(MergeAt(v, k)) == Total(v) + 1
    ensures AllInRange(MergeAt(v, k))
  {
    hide First;
    hide PgCnt;
    hide Holds;
    hide Join;
    var j := Join(v[k], v[k + 1]);
    JoinHolds(v[k], v[k + 1], p);
    TimesUpdate(v, k + 1, j, p);
    TimesUpdate(v[k + 1 := j], k, 0, p);
    ZeroHolds(p);
  }

  /** Each merge leaves one zero word behind, which reads as page 0. */
  lemma {:induction false} PassTimes(v: seq<nat>, k: nat, p: nat)
    requires AllInRange(v)
    ensures Times(Pass(v, k), p) == Times(v, p) + (if p == 0 then Merges(v, k) else 0)
    ensures Total(Pass(v, k)) == Total(v) + Merges(v, k)
    ensures AllInRange(Pass(v, k))
    decreases |v| - k
  {
    hide MergeAt;
    hide Mergeable;
    hide Times;
    hide Total;
    if k + 2 < |v| {
      if Mergeable(v[k], v[k + 1]) {
        MergeAtTimes(v, k, p);
        PassTimes(MergeAt(v, k), k + 1, p);
      } else {
        PassTimes(v, k + 1, p);
      }
    }
  }

  ghost predicate Zeros(c: seq<nat>)
  {
    forall i :: 0 <= i < |c| ==> c[i] == 0
  }

  ghost predicate ZerosIn(c: seq<nat>, a: nat, b: nat)
  {
    b <= |c| && forall i :: a <= i < b ==> c[i] == 0
  }

  lemma {:induction false} ZerosTimes(c: seq<nat>, p: nat)
    requires Zeros(c)
    ensures Times(c, p) == (if p == 0 then |c| else 0) && Total(c) == |c|
    decreases |c|
  {
    if c != [] {
      ZerosTimes(c[..|c| - 1], p);
      ZeroHolds(p);
    }
  }

  /** Entries that hold nothing but page 0 are zero. */
  lemma OnlyPageZero(c: seq<nat>)
    requires forall p :: p > 0 ==> Times(c, p) == 0
    ensures Zeros(c)
  {
    forall i | 0 <= i < |c| ensures c[i] == 0 {
      var p := First(c[i]) + PgCnt(c[i]) - 1;
      TimesSplit(c, i, p);
      assert Holds(c[i], p);
      assert p == 0;
    }
  }

  /** No page but page 0 ever appears. */
  lemma KeptTimes(v: seq<nat>, p: nat)
    requires AllInRange(v)
    ensures Times(v, p) + (if p == 0 then Merges(v, 0) else 0) == Times(Pass(v, 0)[..Merges(v, 0)], p) + Times(Kept(v), p)
  {
    var w, m := Pass(v, 0), Merges(v, 0);
    assert w == w[..m] + w[m..];
    PassTimes(v, 0, p);
    TimesAppend(w[..m], w[m..], p);
  }

  /** Compaction keeps the pages exactly when the words it drops are all zero. */
  lemma KeptIff(v: seq<nat>)
    requires AllInRange(v)
    ensures SamePages(Kept(v), v) <==> Zeros(Pass(v, 0)[..Merges(v, 0)])
  {
    var w, m := Pass(v, 0), Merges(v, 0);
    forall p ensures Times(w[m..], p) + Times(w[..m], p) == Times(v, p) + (if p == 0 then m else 0) {
      KeptTimes(v, p);
    }
    PassTimes(v, 0, 0);
    assert w == w[..m] + w[m..];
    TimesAppend(w[..m], w[m..], 0);
    if Zeros(w[..m]) {
      forall p ensures Times(w[m..], p) == Times(v, p) {
        ZerosTimes(w[..m], p);
      }
      ZerosTimes(w[..m], 0);
    } else if SamePages(Kept(v), v) {
      OnlyPageZero(w[..m]);
    }
  }

  // ----- when that is

  /** How many merges are made in a row from place `k` on, before the first pair that does not merge. */
  ghost function Run(v: seq<nat>, k: nat): (r: nat)
    ensures k + r + 2 <= |v| || r == 0
    decreases |v| - k
  {
    if k + 2 < |v| && Mergeable(v[k], v[k + 1]) then 1 + Run(MergeAt(v, k), k + 1) else 0
  }

  lemma {:induction false} PassPrefix(v: seq<nat>, k: nat)
    requires k <= |v|
    ensures Pass(v, k)[..k] == v[..k]
    decreases |v| - k
  {
    if k + 2 < |v| {
      var next := if Mergeable(v[k], v[k + 1]) then MergeAt(v, k) else v;
      PassPrefix(next, k + 1);
      assert next[..k + 1][..k] == v[..k];
      assert Pass(v, k)[..k + 1][..k] == Pass(v, k)[..k];
    }
  }

  /** The place `k` keeps its word when its pair does not merge, and becomes zero when it does. */
  lemma PassHere(v: seq<nat>, k: nat)
    requires k < |v|
    ensures Pass(v, k)[k] == if k + 2 < |v| && Mergeable(v[k], v[k + 1]) then 0 else v[k]
  {
    if k + 2 < |v| {
      var next := if Mergeable(v[k], v[k + 1]) then MergeAt(v, k) else v;
      PassPrefix(next, k + 1);
      assert Pass(v, k)[k] == Pass(next, k + 1)[..k + 1][k] == next[k];
    }
  }

  ghost predicate NonzeroFrom(v: seq<nat>, k: nat)
  {
    forall i :: k <= i < |v| ==> v[i] != 0
  }

  lemma MergeNonzero(v: seq<nat>, k: nat)
    requires k + 1 < |v| && AllInRange(v) && NonzeroFrom(v, k + 1) && Mergeable(v[k], v[k + 1])
    ensures NonzeroFrom(MergeAt(v, k), k + 1) && AllInRange(MergeAt(v, k))
  {
    JoinHolds(v[k], v[k + 1], 0);
    ZeroHolds(0);
  }

  /** The run is where the zero words end. */
  lemma {:induction false} RunZeros(v: seq<nat>, k: nat)
    requires k < |v| && AllInRange(v) && NonzeroFrom(v, k)
    ensures ZerosIn(Pass(v, k), k, k + Run(v, k)) && Pass(v, k)[k + Run(v, k)] != 0
    decreases |v| - k
  {
    hide MergeAt;
    hide Mergeable;
    PassHere(v, k);
    if k + 2 < |v| && Mergeable(v[k], v[k + 1]) {
      MergeNonzero(v, k);
      RunZeros(MergeAt(v, k), k + 1);
    }
  }

  /** Where the zero words of the whole pass end. */
  ghost function ZerosEnd(v: seq<nat>): nat
  {
    if 2 < |v| && v[0] == 0 && !Mergeable(v[0], v[1]) then 1 + Run(v, 1) else Run(v, 0)
  }

  lemma {:induction false} RunZerosIn(v: seq<nat>, k: nat)
    requires k <= |v|
    ensures ZerosIn(Pass(v, k), k, k + Run(v, k))
    decreases |v| - k
  {
    hide MergeAt;
    hide Mergeable;
    if k + 2 < |v| && Mergeable(v[k], v[k + 1]) {
      PassHere(v, k);
      RunZerosIn(MergeAt(v, k), k + 1);
    }
  }

  /** The words that a compaction drops are all among the first zero words of the pass. */
  ghost predicate Conserves(v: seq<nat>)
  {
    Merges(v, 0) <= ZerosEnd(v)
  }

  lemma PassUnfold(v: seq<nat>, k: nat)
    requires k + 2 < |v|
    ensures Mergeable(v[k], v[k + 1]) ==> Pass(v, k) == Pass(MergeAt(v, k), k + 1)
    ensures Mergeable(v[k], v[k + 1]) ==> Run(v, k) == 1 + Run(MergeAt(v, k), k + 1)
    ensures !Mergeable(v[k], v[k + 1]) ==> Pass(v, k) == Pass(v, k + 1)
  {
  }

  lemma ZerosEndHere(v: seq<nat>)
    requires 2 < |v| && AllInRange(v) && NonzeroFrom(v, 1)
    ensures ZerosEnd(v) < |v| && ZerosIn(Pass(v, 0), 0, ZerosEnd(v)) && Pass(v, 0)[ZerosEnd(v)] != 0
  {
    hide MergeAt;
    hide Mergeable;
    hide Pass;
    hide Run;
    hide AllInRange;
    PassUnfold(v, 0);
    if v[0] != 0 {
      RunZeros(v, 0);
    } else if Mergeable(v[0], v[1]) {
      PassHere(v, 0);
      MergeNonzero(v, 0);
      RunZeros(MergeAt(v, 0), 1);
    } else {
      PassHere(v, 0);
      RunZeros(v, 1);
    }
  }

  /** Sorted and disjoint entries: only the first one can be the word zero. */
  lemma LaterNonzero(v: seq<nat>)
    requires Sorted(v) && Disjoint(v)
    ensures NonzeroFrom(v, 1)
  {
    forall i | 1 <= i < |v| ensures v[i] != 0 {
      if v[i] == 0 {
        ZeroHolds(0);
        assert GetAddr(v[0]) <= GetAddr(v[i]);
        assert Holds(v[0], 0) && Holds(v[i], 0);
        HeldTwice(v, 0, i, 0);
      }
    }
  }

  lemma HeldTwice(v: seq<nat>, i: nat, j: nat, p: nat)
    requires i < j < |v| && Holds(v[i], p) && Holds(v[j], p)
    ensures Times(v, p) >= 2
  {
    TimesSplit(v, j, p);
    TimesSplit(v[..j], i, p);
    assert v[..j][i] == v[i];
  }

  /** Compacting a queue of disjoint entries keeps exactly its pages if and only if the merges are one
      run at the front of the sorted window; where the first entry is page 0 alone and does not merge,
      the run starts behind it and may be followed by one more merge. */
  lemma CompactionConserves(v: seq<nat>)
    requires AllInRange(v) && Sorted(v) && Disjoint(v)
    ensures SamePages(Kept(v), v) <==> Conserves(v)
  {
    hide Pass;
    hide Kept;
    hide Sorted;
    hide Disjoint;
    hide SamePages;
    KeptIff(v);
    if 2 < |v| {
      LaterNonzero(v);
      ZerosEndHere(v);
      var w, m, r := Pass(v, 0), Merges(v, 0), ZerosEnd(v);
      if m > r {
        assert w[..m][r] == w[r];
      }
    }
  }

  lemma ZerosAhead(v: seq<nat>)
    requires Conserves(v)
    ensures ZerosIn(Pass(v, 0), 0, Merges(v, 0))
  {
    hide Pass;
    hide Run;
    hide Merges;
    hide Mergeable;
    RunZerosIn(v, 0);
    if 2 < |v| && v[0] == 0 && !Mergeable(v[0], v[1]) {
      PassHere(v, 0);
      PassUnfold(v, 0);
      RunZerosIn(v, 1);
    }
  }

  lemma ConservesSame(v: seq<nat>)
    requires AllInRange(v) && Conserves(v)
    ensures SamePages(Kept(v), v)
  {
    ZerosAhead(v);
    KeptIff(v);
  }

  /** Any other compaction loses a page for good. */
  lemma CompactionLoses(v: seq<nat>) returns (p: nat)
    requires AllInRange(v) && Sorted(v) && Disjoint(v) && !Conserves(v)
    ensures p > 0 && Times(v, p) == 1 && Times(Kept(v), p) == 0
  {
    hide Pass;
    hide Merges;
    hide Times;
    hide Sorted;
    CompactionConserves(v);
    KeptIff(v);
    var dropped := Pass(v, 0)[..Merges(v, 0)];
    if forall q :: q > 0 ==> Times(dropped, q) == 0 {
      OnlyPageZero(dropped);
    }
    p :| p > 0 && Times(dropped, p) != 0;
    KeptTimes(v, p);
    assert Times(v, p) <= 1;
  }

  /** A merge behind a gap, on pages 1, 3, 4 and 9: page 1 is lost and page 0 appears. */
  lemma MergeBehindGap()
    ensures var v := [0x10_0000, 0x30_0000, 0x40_0000, 0x90_0000];
            && Sorted(v) && Times(v, 1) == 1 && Times(v, 0) == 0
            && Kept(v) == [0, 0x30_0001, 0x90_0000]
            && Times(Kept(v), 1) == 0 && Times(Kept(v), 0) == 1
  {
    var a, b, c, d := 0x10_0000, 0x30_0000, 0x40_0000, 0x90_0000;
    var v: seq<nat> := [a, b, c, d];
    GapWords();
    assert Sorted(v);
    GapPass(v);
    var w := Kept(v);
    assert v == [a] + [b] + [c] + [d] && w == [0] + [0x30_0001] + [d];
    GapTimes(a, b, c, d, 0);
    GapTimes(a, b, c, d, 1);
  }

  lemma GapWords()
    ensures First(0x10_0000) == 1 && First(0x30_0000) == 3 && First(0x40_0000) == 4 && First(0x90_0000) == 9
    ensures PgCnt(0x10_0000) == 1 && PgCnt(0x30_0000) == 1 && PgCnt(0x40_0000) == 1 && PgCnt(0x90_0000) == 1
    ensures First(0x30_0001) == 3 && PgCnt(0x30_0001) == 2 && Join(0x30_0000, 0x40_0000) == 0x30_0001
    ensures First(0) == 0 && PgCnt(0) == 1
  {
  }

  lemma GapPass(v: seq<nat>)
    requires v == [0x10_0000, 0x30_0000, 0x40_0000, 0x90_0000]
    ensures Kept(v) == [0, 0x30_0001, 0x90_0000]
  {
    GapWords();
    hide First;
    hide PgCnt;
    hide Join;
    var w := MergeAt(v, 1);
    assert w == [0x10_0000, 0, 0x30_0001, 0x90_0000];
    assert Pass(w, 2) == w && Merges(w, 2) == 0;
    assert Pass(v, 1) == w && Merges(v, 1) == 1;
    assert Pass(v, 0) == w && Merges(v, 0) == 1;
  }

  lemma GapTimes(a: nat, b: nat, c: nat, d: nat, p: nat)
    requires p <= 1 && First(a) == 1 && First(b) == 3 && First(c) == 4 && First(d) == 9
    requires PgCnt(a) == 1
    ensures Times([a] + [b] + [c] + [d], p) == p && Times([0] + [0x30_0001] + [d], p) == 1 - p
  {
    GapWords();
    hide First;
    hide PgCnt;
    hide Times;
    Snoc([a] + [b] + [c], d, p);
    Snoc([a] + [b], c, p);
    Snoc([a], b, p);
    TimesOne(a, p);
    Snoc([0] + [0x30_0001], d, p);
    Snoc([0], 0x30_0001, p);
    TimesOne(0, p);
  }

  // ----- after a leading run

  /** No pair that the pass looks at merges. */
  ghost predicate Quiet(v: seq<nat>, k: nat)
  {
    forall i :: k <= i && i + 2 < |v| ==> !Mergeable(v[i], v[i + 1])
  }

  lemma {:induction false} QuietPass(v: seq<nat>, k: nat)
    ensures Quiet(v, k) <==> Merges(v, k) == 0
    ensures Quiet(v, k) ==> Pass(v, k) == v
    decreases |v| - k
  {
    hide Mergeable;
    hide MergeAt;
    if k + 2 < |v| {
      QuietPass(v, k + 1);
    }
  }

  lemma MergeFirst(v: seq<nat>, k: nat)
    requires k + 1 < |v| && AllInRange(v) && Mergeable(v[k], v[k + 1])
    ensures AllInRange(MergeAt(v, k)) && First(MergeAt(v, k)[k + 1]) == First(v[k])
  {
    JoinHolds(v[k], v[k + 1], 0);
    ZeroHolds(0);
  }

  lemma {:induction false} RunAtMost(v: seq<nat>, k: nat)
    ensures Run(v, k) <= Merges(v, k)
    decreases |v| - k
  {
    if k + 2 < |v| && Mergeable(v[k], v[k + 1]) {
      RunAtMost(MergeAt(v, k), k + 1);
    }
  }

  lemma {:induction false} LeadingQuiet(v: seq<nat>, k: nat)
    requires k < |v| && AllInRange(v) && Merges(v, k) == Run(v, k)
    ensures var w, r := Pass(v, k), Run(v, k);
            && Quiet(w, k + r) && First(w[k + r]) == First(v[k])
            && w[k + r + 1..] == v[k + r + 1..] && ZerosIn(w, k, k + r)
    decreases |v| - k
  {
    hide Mergeable;
    hide First;
    hide AllInRange;
    if k + 2 < |v| && Mergeable(v[k], v[k + 1]) {
      MergeFirst(v, k);
      LeadingQuiet(MergeAt(v, k), k + 1);
      var w, r := Pass(v, k), Run(v, k);
      assert w[k + r + 1..] == MergeAt(v, k)[k + r + 1..] == v[k + r + 1..];
      PassHere(v, k);
    } else {
      QuietPass(v, k);
    }
  }

  ghost predicate Increasing(v: seq<nat>)
  {
    forall a, b :: 0 <= a < b < |v| ==> First(v[a]) < First(v[b])
  }

  lemma DisjointIncreasing(v: seq<nat>)
    requires Sorted(v) && Disjoint(v)
    ensures Increasing(v)
  {
    forall a, b | 0 <= a < b < |v| ensures First(v[a]) < First(v[b]) {
      assert GetAddr(v[a]) <= GetAddr(v[b]);
      if First(v[a]) == First(v[b]) {
        HeldTwice(v, a, b, First(v[a]));
      }
    }
  }

  lemma LastLargest(v: seq<nat>, i: nat)
    requires Increasing(v) && i < |v|
    ensures First(v[i]) <= First(v[|v| - 1]) && (First(v[i]) == First(v[|v| - 1]) ==> i == |v| - 1)
  {
  }

  lemma LastSame(u: seq<nat>, s: seq<nat>)
    requires Increasing(u) && Increasing(s) && multiset(u) == multiset(s) && 0 < |u| == |s|
    ensures u[|u| - 1] == s[|u| - 1]
  {
    hide First;
    var n := |u| - 1;
    assert u[n] in multiset(s);
    assert s[n] in multiset(u);
    var i :| 0 <= i < |s| && s[i] == u[n];
    var j :| 0 <= j < |u| && u[j] == s[n];
    LastLargest(s, i);
    LastLargest(u, j);
  }

  lemma {:induction false} SortedOnce(u: seq<nat>, s: seq<nat>)
    requires Increasing(u) && Increasing(s) && multiset(u) == multiset(s)
    ensures u == s
    decreases |u|
  {
    hide First;
    assert |u| == |multiset(u)| == |multiset(s)| == |s|;
    if u != [] {
      var n := |u| - 1;
      LastSame(u, s);
      assert u == u[..n] + [u[n]];
      WithoutOne(u[..n], u[n], s, n);
      assert s[..n] + s[n + 1..] == s[..n];
      SortedOnce(u[..n], s[..n]);
      assert s == s[..n] + [s[n]];
    }
  }

  /** Strictly increasing words have only one sorted order. */
  lemma SortedWhole(s: seq<nat>, u: seq<nat>)
    requires Sorted(s) && Increasing(u) && multiset(s) == multiset(u) && |s| == |u|
    ensures s == u
  {
    IncreasingTimes(s, u);
    SortedOnce(u, s);
  }

  lemma OnceOnly(u: seq<nat>, i: nat)
    requires Increasing(u) && i < |u|
    ensures multiset(u)[u[i]] == 1
  {
    hide First;
    assert u == u[..i] + [u[i]] + u[i + 1..];
    assert u[i] !in u[..i] && u[i] !in u[i + 1..];
  }

  lemma TwiceAtLeast(s: seq<nat>, a: nat, b: nat)
    requires a < b < |s| && s[a] == s[b]
    ensures multiset(s)[s[a]] >= 2
  {
    assert s == s[..b] + [s[b]] + s[b + 1..];
    assert s[..b][a] == s[b];
    assert s[b] in multiset(s[..b]);
  }

  lemma SameFirst(s: seq<nat>, u: seq<nat>, a: nat, b: nat)
    requires Increasing(u) && multiset(s) == multiset(u) && a < b < |s|
    ensures First(s[a]) != First(s[b])
  {
    hide First;
    assert s[a] in multiset(u) && s[b] in multiset(u) by {
      assert s[a] in multiset(s) && s[b] in multiset(s);
    }
    var i :| 0 <= i < |u| && u[i] == s[a];
    var j :| 0 <= j < |u| && u[j] == s[b];
    OnceOnly(u, i);
    if s[a] == s[b] {
      TwiceAtLeast(s, a, b);
    }
  }

  /** A sorted permutation of strictly increasing words is strictly increasing. */
  lemma IncreasingTimes(s: seq<nat>, u: seq<nat>)
    requires Sorted(s) && Increasing(u) && multiset(s) == multiset(u) && |s| == |u|
    ensures Increasing(s)
  {
    forall a, b | 0 <= a < b < |s| ensures First(s[a]) < First(s[b]) {
      assert GetAddr(s[a]) <= GetAddr(s[b]);
      SameFirst(s, u, a, b);
    }
  }

  lemma KeptIncreasing(v: seq<nat>)
    requires v != [] && AllInRange(v) && Increasing(v) && Merges(v, 0) == Run(v, 0)
    ensures Increasing(Kept(v)) && Quiet(Kept(v), 0)
  {
    hide Pass;
    hide Mergeable;
    hide First;
    var w, r, u := Pass(v, 0), Run(v, 0), Kept(v);
    LeadingQuiet(v, 0);
    forall a, b | 0 <= a < b < |u| ensures First(u[a]) < First(u[b]) {
      assert u[b] == w[r + 1..][b - 1] == v[r + b];
      assert a > 0 ==> u[a] == w[r + 1..][a - 1] == v[r + a];
    }
    forall i | 0 <= i && i + 2 < |u| ensures !Mergeable(u[i], u[i + 1]) {
      assert u[i] == w[r + i] && u[i + 1] == w[r + i + 1];
    }
  }

  /** After a leading run the queue is sorted and a second compaction finds nothing to merge. */
  lemma LeadingOnce(v: seq<nat>, s: seq<nat>)
    requires v != [] && AllInRange(v) && Sorted(v) && Disjoint(v) && Merges(v, 0) == Run(v, 0)
    requires Sorted(s) && multiset(s) == multiset(Kept(v))
    ensures s == Kept(v) && Merges(s, 0) == Run(s, 0) == 0 && Kept(s) == s
  {
    hide Pass;
    hide Sorted;
    hide Disjoint;
    hide Increasing;
    hide Quiet;
    hide AllInRange;
    LeadingConserves(v);
    KeptDisjoint(v, s);
    DisjointIncreasing(v);
    DisjointIncreasing(s);
    KeptIncreasing(v);
    SortedOnce(Kept(v), s);
    QuietPass(s, 0);
    RunAtMost(s, 0);
  }

  lemma LeadingConserves(v: seq<nat>)
    requires Merges(v, 0) == Run(v, 0)
    ensures Conserves(v)
  {
  }

  lemma KeptDisjoint(v: seq<nat>, s: seq<nat>)
    requires AllInRange(v) && Disjoint(v) && Conserves(v) && multiset(s) == multiset(Kept(v))
    ensures Disjoint(s) && SamePages(s, v)
  {
    ConservesSame(v);
    PermutedSame(s, Kept(v));
  }

  // ----- a second compaction

  /** Only neighbours from place `k` on can merge, and nothing with a zero word; the last word is the
      largest and does not take part. */
  ghost predicate OnlyFrom(v: seq<nat>, k: nat)
  {
    && (forall a, b :: 0 <= a < |v| && 0 <= b < |v| - 1 && Mergeable(v[a], v[b]) ==> k <= a && b == a + 1)
    && (forall b :: 0 <= b < |v| - 1 ==> !Mergeable(0, v[b]))
    && (forall a :: 0 <= a < |v| ==> First(v[a]) <= First(v[|v| - 1]))
  }

  lemma OnlyFromMerge(v: seq<nat>, k: nat)
    requires k + 2 < |v| && AllInRange(v) && OnlyFrom(v, k) && Mergeable(v[k], v[k + 1])
    ensures OnlyFrom(MergeAt(v, k), k + 1) && AllInRange(MergeAt(v, k))
  {
    hide First;
    hide PgCnt;
    hide Join;
    hide InRange;
    JoinHolds(v[k], v[k + 1], 0);
    ZeroHolds(0);
    MergeAtTimes(v, k, 0);
    var w := MergeAt(v, k);
    forall a, b | 0 <= a < |w| && 0 <= b < |w| - 1 && Mergeable(w[a], w[b]) ensures k + 1 <= a && b == a + 1 {
      if a == k + 1 && b != k + 1 {
        assert Mergeable(v[k + 1], v[b]);
      }
    }
  }

  lemma {:induction false} OnlyFromPass(v: seq<nat>, k: nat)
    requires AllInRange(v) && OnlyFrom(v, k)
    ensures OnlyFrom(Pass(v, k), |v|)
    decreases |v| - k
  {
    hide MergeAt;
    hide Mergeable;
    hide First;
    hide AllInRange;
    if k + 2 < |v| {
      if Mergeable(v[k], v[k + 1]) {
        OnlyFromMerge(v, k);
        OnlyFromPass(MergeAt(v, k), k + 1);
      } else {
        OnlyFromPass(v, k + 1);
      }
    }
  }

  /** Words of which no two merge have nothing to merge in sorted order either. */
  lemma NothingLeft(w: seq<nat>, m: nat, s: seq<nat>)
    requires m < |w| && OnlyFrom(w, |w|) && Increasing(s) && multiset(s) == multiset(w[m..])
    ensures Quiet(s, 0)
  {
    hide First;
    hide Mergeable;
    var n := |s| - 1;
    assert |s| == |multiset(s)| == |w[m..]|;
    forall i | 0 <= i && i + 2 < |s| ensures !Mergeable(s[i], s[i + 1]) {
      var a := PlaceOf(w, m, s, i);
      var b := PlaceOf(w, m, s, i + 1);
      var c := PlaceOf(w, m, s, n);
      assert First(s[i + 1]) < First(s[n]);
    }
  }

  lemma PlaceOf(w: seq<nat>, m: nat, s: seq<nat>, i: nat) returns (a: nat)
    requires m <= |w| && i < |s| && multiset(s) == multiset(w[m..])
    ensures a < |w| && w[a] == s[i]
  {
    assert s[i] in multiset(s);
    assert s[i] in w[m..];
    var j :| 0 <= j < |w[m..]| && w[m..][j] == s[i];
    a := m + j;
  }

  /** After a first entry that is page 0 alone and merges with nothing, only neighbours can merge. */
  lemma LonePageZero(v: seq<nat>)
    requires 2 < |v| && Increasing(v) && Disjoint(v) && v[0] == 0 && !Mergeable(v[0], v[1])
    ensures OnlyFrom(v, 1)
  {
    hide Times;
    ZeroHolds(0);
    forall a, b | 0 <= a < |v| && 0 <= b < |v| - 1 && Mergeable(v[a], v[b]) ensures b == a + 1 {
      if a + 1 < b {
        HeldTwice(v, a, a + 1, First(v[a + 1]));
      }
    }
  }

  /** Once a compaction has kept all pages, another one changes nothing. */
  lemma ConservesOnce(v: seq<nat>, s: seq<nat>)
    requires v != [] && AllInRange(v) && Sorted(v) && Disjoint(v) && Conserves(v)
    requires Sorted(s) && multiset(s) == multiset(Kept(v))
    ensures Merges(s, 0) == 0 && Kept(s) == s && Conserves(s)
  {
    hide Pass;
    hide Sorted;
    hide Disjoint;
    hide Increasing;
    hide Quiet;
    hide AllInRange;
    hide OnlyFrom;
    hide Mergeable;
    if 2 < |v| && v[0] == 0 && !Mergeable(v[0], v[1]) {
      KeptDisjoint(v, s);
      DisjointIncreasing(v);
      DisjointIncreasing(s);
      LonePageZero(v);
      OnlyFromPass(v, 1);
      PassUnfold(v, 0);
      NothingLeft(Pass(v, 0), Merges(v, 0), s);
      QuietPass(s, 0);
    } else {
      RunAtMost(v, 0);
      LeadingOnce(v, s);
    }
  }
}
