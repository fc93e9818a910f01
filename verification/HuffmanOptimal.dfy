/** Why the minimum-redundancy pass deserves its name: no prefix code for the same weights is shorter.

    A code is given by its lengths, which exist if and only if their Kraft sum is at most one.  Joining the two lightest
    nodes never makes the best code worse, so the two-queue tree of `HuffmanMerge` is the best one. */
module HuffmanOptimal {
  import opened Bits
  import opened CanonicalCode
  import opened HuffmanDepth
  import opened HuffmanMerge

  /** The number of bits that lengths `l` spend on weights `w`. */
  ghost function Cost(w: seq<nat>, l: seq<nat>): nat
    requires |w| == |l|
  {
    if w == [] then 0 else Cost(w[..|w| - 1], l[..|l| - 1]) + w[|w| - 1] * l[|l| - 1]
  }

  /** The Kraft sum of lengths up to `n`, in units of 2^-n. */
  ghost function KraftSum(l: seq<nat>, n: nat): nat
    requires forall i :: 0 <= i < |l| ==> l[i] <= n
  {
    if l == [] then 0 else KraftSum(l[..|l| - 1], n) + Pow2(n - l[|l| - 1])
  }

  /** Lengths of a prefix code. */
  ghost predicate Feasible(l: seq<nat>, n: nat)
  {
    (forall i :: 0 <= i < |l| ==> l[i] <= n) && KraftSum(l, n) <= Pow2(n)
  }

  function Without(s: seq<nat>, i: nat): (r: seq<nat>)
    requires i < |s|
    ensures |r| == |s| - 1
    ensures forall k :: 0 <= k < |r| ==> r[k] == if k < i then s[k] else s[k + 1]
  {
    s[..i] + s[i + 1..]
  }

  // ----- one place more or less

  lemma WithoutFront(s: seq<nat>, i: nat)
    requires i < |s| - 1
    ensures Without(s, i)[..|s| - 2] == Without(s[..|s| - 1], i) && Without(s, i)[|s| - 2] == s[|s| - 1]
  {
  }

  lemma {:induction false} CostWithout(w: seq<nat>, l: seq<nat>, i: nat)
    requires i < |w| == |l|
    ensures Cost(w, l) == Cost(Without(w, i), Without(l, i)) + w[i] * l[i]
  {
    var n := |w| - 1;
    if i < n {
      CostWithout(w[..n], l[..n], i);
      WithoutFront(w, i);
      WithoutFront(l, i);
      hide Without;
    } else {
      assert Without(w, i) == w[..n] && Without(l, i) == l[..n];
    }
  }

  lemma {:induction false} KraftWithout(l: seq<nat>, i: nat, n: nat)
    requires i < |l| && forall k :: 0 <= k < |l| ==> l[k] <= n
    ensures KraftSum(l, n) == KraftSum(Without(l, i), n) + Pow2(n - l[i])
  {
    var m := |l| - 1;
    if i < m {
      KraftWithout(l[..m], i, n);
      WithoutFront(l, i);
      hide Without;
      hide Pow2;
    } else {
      assert Without(l, i) == l[..m];
    }
  }

  lemma CostMore(w: seq<nat>, l: seq<nat>, x: nat, k: nat)
    requires |w| == |l|
    ensures Cost(w + [x], l + [k]) == Cost(w, l) + x * k
  {
    assert (w + [x])[..|w|] == w && (l + [k])[..|l|] == l;
  }

  lemma KraftMore(l: seq<nat>, k: nat, n: nat)
    requires k <= n && forall i :: 0 <= i < |l| ==> l[i] <= n
    ensures KraftSum(l + [k], n) == KraftSum(l, n) + Pow2(n - k)
  {
    assert (l + [k])[..|l|] == l;
  }

  // ----- exchanging lengths

  lemma {:induction false} CostUpdate(w: seq<nat>, l: seq<nat>, i: nat, v: nat)
    requires i < |w| == |l|
    ensures Cost(w, l[i := v]) + w[i] * l[i] == Cost(w, l) + w[i] * v
  {
    var n := |w| - 1;
    if i < n {
      CostUpdate(w[..n], l[..n], i, v);
      assert l[i := v][..n] == l[..n][i := v];
    } else {
      assert l[i := v][..n] == l[..n];
    }
  }

  lemma {:induction false} KraftUpdate(l: seq<nat>, i: nat, v: nat, n: nat)
    requires i < |l| && v <= n && forall k :: 0 <= k < |l| ==> l[k] <= n
    ensures KraftSum(l[i := v], n) + Pow2(n - l[i]) == KraftSum(l, n) + Pow2(n - v)
  {
    var m := |l| - 1;
    if i < m {
      KraftUpdate(l[..m], i, v, n);
      assert l[i := v][..m] == l[..m][i := v];
    } else {
      assert l[i := v][..m] == l[..m];
    }
  }

  lemma Exchange(a: nat, b: nat, x: nat, y: nat)
    requires a <= b && x <= y
    ensures a * y + b * x <= a * x + b * y
  {
    assert (b - a) * (y - x) >= 0;
  }

  /** A light weight may have the longer length. */
  lemma Swap(w: seq<nat>, l: seq<nat>, i: nat, j: nat, n: nat) returns (s: seq<nat>)
    requires i < |w| == |l| && j < |w| && w[i] <= w[j] && l[i] <= l[j] && forall k :: 0 <= k < |l| ==> l[k] <= n
    ensures s == l[i := l[j]][j := l[i]] && (forall k :: 0 <= k < |s| ==> s[k] <= n)
    ensures Cost(w, s) <= Cost(w, l) && KraftSum(s, n) == KraftSum(l, n)
  {
    hide Cost;
    hide KraftSum;
    hide Pow2;
    var x, y := l[i], l[j];
    var t := l[i := y];
    s := t[j := x];
    CostUpdate(w, l, i, y);
    CostUpdate(w, t, j, x);
    KraftUpdate(l, i, y, n);
    KraftUpdate(t, j, x, n);
    Exchange(w[i], w[j], x, y);
    if i == j {
      assert s == l;
    }
  }

  /** The lightest weight gets the longest length, and the code is no longer for it. */
  lemma LongestTo(w: seq<nat>, l: seq<nat>, i: nat, n: nat) returns (s: seq<nat>)
    requires i < |w| == |l| && (forall k :: 0 <= k < |w| ==> w[i] <= w[k]) && forall k :: 0 <= k < |l| ==> l[k] <= n
    ensures |s| == |l| && (forall k :: 0 <= k < |s| ==> s[k] <= s[i] <= n)
    ensures Cost(w, s) <= Cost(w, l) && KraftSum(s, n) == KraftSum(l, n)
  {
    hide Cost;
    hide KraftSum;
    var j := Longest(l);
    s := Swap(w, l, i, j, n);
  }

  lemma {:induction false} Longest(l: seq<nat>) returns (j: nat)
    requires l != []
    ensures j < |l| && forall k :: 0 <= k < |l| ==> l[k] <= l[j]
  {
    if |l| == 1 {
      j := 0;
    } else {
      j := Longest(l[..|l| - 1]);
      if l[|l| - 1] > l[j] {
        j := |l| - 1;
      }
    }
  }

  // ----- joining two places

  lemma {:induction false} KraftScale(l: seq<nat>, m: nat, n: nat)
    requires m <= n && forall i :: 0 <= i < |l| ==> l[i] <= m
    ensures (forall i :: 0 <= i < |l| ==> l[i] <= n) && KraftSum(l, n) == Shl(KraftSum(l, m), n - m)
  {
    if l == [] {
      ShlZero(n - m);
    } else {
      var k := |l| - 1;
      KraftScale(l[..k], m, n);
      ShlAdd(KraftSum(l[..k], m), Pow2(m - l[k]), n - m);
      ShlShl(1, m - l[k], n - m);
    }
  }

  lemma Rescaled(l: seq<nat>, m: nat, n: nat)
    requires m <= n && (forall i :: 0 <= i < |l| ==> l[i] <= m) && KraftSum(l, n) <= Pow2(n)
    ensures KraftSum(l, m) <= Pow2(m)
  {
    hide KraftSum;
    KraftScale(l, m, n);
    ShlShl(1, m, n - m);
    Pow2Positive(n - m);
    if KraftSum(l, m) > Pow2(m) {
      ShlStep(Pow2(m), KraftSum(l, m), n - m);
    }
  }

  /** Next to a longer code there is always room for one more code of the longest other length. */
  lemma RoomLeft(l: seq<nat>, m: nat, n: nat)
    requires m <= n && (forall i :: 0 <= i < |l| ==> l[i] <= m) && KraftSum(l, n) < Pow2(n)
    ensures KraftSum(l, m) + 1 <= Pow2(m)
  {
    hide KraftSum;
    KraftScale(l, m, n);
    ShlShl(1, m, n - m);
    if KraftSum(l, m) > Pow2(m) {
      ShlStep(Pow2(m), KraftSum(l, m), n - m);
    }
  }

  /** From any code over two or more weights, one over the weights with the two lightest joined, which is shorter
      by at least their sum. */
  lemma JoinShortens(w: seq<nat>, l: seq<nat>, n: nat, p: nat, q: nat) returns (l': seq<nat>, n': nat)
    requires |w| == |l| >= 2 && Feasible(l, n) && p < |w| && q < |w| - 1
    requires (forall k :: 0 <= k < |w| ==> w[p] <= w[k])
    requires (forall k :: 0 <= k < |w| - 1 ==> Without(w, p)[q] <= Without(w, p)[k])
    ensures var v := Without(w, p);
            var x, y, u := w[p], v[q], Without(v, q);
            |l'| == |u| + 1 && Feasible(l', n') && Cost(u + [x + y], l') + (x + y) <= Cost(w, l)
  {
    hide Cost;
    hide KraftSum;
    hide Pow2;
    var v := Without(w, p);
    var x, y, u := w[p], v[q], Without(v, q);
    var s := LongestTo(w, l, p, n);
    var a, m := s[p], Without(s, p);
    Rescaled(s, a, n);
    CostWithout(w, s, p);
    KraftWithout(s, p, a);
    PowersHere();
    var t := LongestTo(v, m, q, a);
    var r, k := Without(t, q), t[q];
    CostWithout(v, t, q);
    RoomLeft(t, k, a);
    KraftWithout(t, q, k);
    NotZero(t, k);
    l', n' := r + [k - 1], k;
    CostMore(u, r, x + y, k - 1);
    KraftMore(r, k - 1, k);
    Shorter(x, y, a, k);
  }

  lemma PowersHere()
    ensures Pow2(0) == 1 && Pow2(1) == 2
  {
  }

  lemma Shorter(x: nat, y: nat, a: nat, k: nat)
    requires 1 <= k <= a
    ensures (x + y) * (k - 1) + (x + y) <= x * a + y * k
  {
    assert x * k <= x * a;
    assert (x + y) * (k - 1) + (x + y) == (x + y) * k == x * k + y * k;
  }

  lemma ZeroFills(t: seq<nat>, k: nat)
    requires t != [] && forall i :: 0 <= i < |t| ==> t[i] <= k
    ensures k == 0 ==> KraftSum(t, k) >= Pow2(k)
  {
    if k == 0 {
      PowersHere();
      KraftWithout(t, 0, 0);
    }
  }

  /** A code with room left has no code of length zero. */
  lemma NotZero(t: seq<nat>, k: nat)
    requires t != [] && (forall i :: 0 <= i < |t| ==> t[i] <= k) && KraftSum(t, k) + 1 <= Pow2(k)
    ensures k >= 1
  {
    ZeroFills(t, k);
  }

  // ----- no code is shorter than the tree

  ghost function Total(s: seq<nat>): nat
  {
    if s == [] then 0 else Total(s[..|s| - 1]) + s[|s| - 1]
  }

  lemma TotalMore(s: seq<nat>, x: nat)
    ensures Total(s + [x]) == Total(s) + x
  {
    assert (s + [x])[..|s|] == s;
  }

  /** The weights that have not been joined yet. */
  ghost function Unjoined(w: seq<nat>, m: Merge): seq<nat>
    requires |m.leafUp| <= |w| && |m.up| <= |m.inner|
  {
    w[|m.leafUp|..] + m.inner[|m.up|..]
  }

  /** The node taken is the lightest one that waits. */
  lemma TakePlace(w: seq<nat>, m: Merge, extra: nat) returns (p: nat)
    requires extra <= 1 && Sound(m, |w|, extra) && |m.inner| + 1 < |w| && Ascending(w) && Ascending(m.inner)
    ensures |Take(w, m).leafUp| <= |w| && |Take(w, m).up| <= |m.inner|
    ensures p < |Unjoined(w, m)| && Unjoined(w, m)[p] == Lightest(w, m)
            && Unjoined(w, Take(w, m)) == Without(Unjoined(w, m), p)
    ensures forall k :: 0 <= k < |Unjoined(w, m)| ==> Lightest(w, m) <= Unjoined(w, m)[k]
  {
    p := if TakesInner(w, m) then |w| - |m.leafUp| else 0;
    assert Unjoined(w, Take(w, m)) == Without(Unjoined(w, m), p);
  }

  lemma TakeKeeps(w: seq<nat>, m: Merge)
    ensures Take(w, m).inner == m.inner
  {
  }

  lemma MergedNext(w: seq<nat>, k: nat)
    requires k + 1 < |w|
    ensures Merged(w, k + 1) == Join(w, Merged(w, k))
  {
    hide Join;
  }

  /** What a join does to the weights that wait. */
  lemma JoinPlaces(w: seq<nat>, m: Merge) returns (p: nat, q: nat)
    requires Sound(m, |w|, 0) && |m.inner| + 1 < |w| && Ascending(w) && Ascending(m.inner) && Remaining(w, m) < 0x10000
    ensures var all := Unjoined(w, m);
            && |all| >= 2 && p < |all| && q < |all| - 1
            && (forall k :: 0 <= k < |all| ==> all[p] <= all[k])
            && (forall k :: 0 <= k < |all| - 1 ==> Without(all, p)[q] <= Without(all, p)[k])
            && var v := Without(all, p);
               var x, y := all[p], v[q];
               && Join(w, m).inner == m.inner + [x + y] && |Join(w, m).leafUp| <= |w| && |Join(w, m).up| <= |m.inner|
               && Unjoined(w, Join(w, m)) == Without(v, q) + [x + y]
  {
    hide Without;
    hide Lightest;
    hide Remaining;
    hide Unjoined;
    hide Take;
    TakeSound(w, m, 0);
    var m1 := Take(w, m);
    TakeKeeps(w, m);
    TakeKeeps(w, m1);
    TakeSound(w, m1, 1);
    JoinRemaining(w, m);
    p := TakePlace(w, m, 0);
    q := TakePlace(w, m1, 1);
    JoinedWaits(w, m, Take(w, m1), Lightest(w, m) + Lightest(w, m1));
  }

  lemma JoinedWaits(w: seq<nat>, m: Merge, m2: Merge, z: nat)
    requires |m2.leafUp| <= |w| && |m2.up| <= |m.inner| && m2.inner == m.inner
    ensures Unjoined(w, m2.(inner := m.inner + [z])) == Unjoined(w, m2) + [z]
  {
  }

  /** From any code for the weights that wait, joining goes on below it. */
  lemma {:induction false} LowerBound(w: seq<nat>, k: nat, l: seq<nat>, n: nat)
    requires k < |w| && Ascending(w) && Sum(w) < 0x10000 && (forall i :: 0 <= i < |w| ==> w[i] >= 1)
    requires var m := Merged(w, k);
             |m.leafUp| <= |w| && |m.up| <= |m.inner| && |l| == |Unjoined(w, m)| && Feasible(l, n)
    ensures Total(Merged(w, |w| - 1).inner) <= Total(Merged(w, k).inner) + Cost(Unjoined(w, Merged(w, k)), l)
    decreases |w| - k
  {
    hide Merged;
    hide Sum;
    hide Total;
    hide Cost;
    hide Feasible;
    hide Unjoined;
    hide Join;
    hide Ascending;
    hide Remaining;
    hide Without;
    if k + 1 < |w| {
      var m := Merged(w, k);
      var p, q := MergedPlaces(w, k);
      var all := Unjoined(w, m);
      var l', n' := JoinShortens(all, l, n, p, q);
      TotalMore(m.inner, all[p] + Without(all, p)[q]);
      MergedNext(w, k);
      LowerBound(w, k + 1, l', n');
    }
  }

  lemma MergedPlaces(w: seq<nat>, k: nat) returns (p: nat, q: nat)
    requires k + 1 < |w| && Ascending(w) && Sum(w) < 0x10000 && (forall i :: 0 <= i < |w| ==> w[i] >= 1)
    ensures var m := Merged(w, k);
            && Sound(m, |w|, 0) && |m.leafUp| <= |w| && |m.up| <= |m.inner|
            && var all := Unjoined(w, m);
               && |all| >= 2 && p < |all| && q < |all| - 1
               && (forall k :: 0 <= k < |all| ==> all[p] <= all[k])
               && (forall k :: 0 <= k < |all| - 1 ==> Without(all, p)[q] <= Without(all, p)[k])
               && var v := Without(all, p);
                  var x, y := all[p], v[q];
                  && Join(w, m).inner == m.inner + [x + y] && |Join(w, m).leafUp| <= |w| && |Join(w, m).up| <= |m.inner|
                  && Unjoined(w, Join(w, m)) == Without(v, q) + [x + y]
  {
    hide Sum;
    hide Unjoined;
    hide Join;
    hide Remaining;
    hide Without;
    var m := Merged(w, k);
    var least := Climbs(w, k);
    ClimbingAscends(w, m, Heights(w, k), least);
    hide Merged;
    hide Climbing;
    p, q := JoinPlaces(w, m);
  }

  lemma ClimbingAscends(w: seq<nat>, m: Merge, heights: seq<nat>, least: nat)
    requires Climbing(w, m, heights, least)
    ensures Ascending(w) && Ascending(m.inner)
  {
  }

  // ----- the tree is as short as that

  /** A weight below a node at depth `d`. */
  ghost function Weighed(x: nat, d: nat): nat
  {
    x * (1 + d)
  }

  /** What the leaves that have parents weigh below them, one level counted as `1 + depth(parent)`. */
  ghost function LeafPart(w: seq<nat>, leafUp: seq<nat>, depth: nat -> nat): nat
    requires |leafUp| <= |w|
  {
    if leafUp == [] then 0
    else var n := |leafUp| - 1; LeafPart(w, leafUp[..n], depth) + Weighed(w[n], depth(leafUp[n]))
  }

  /** The nodes `0..|up|` with the depths below their parents. */
  ghost function NodePart(inner: seq<nat>, depth: nat -> nat): nat
  {
    if inner == [] then 0 else var n := |inner| - 1; NodePart(inner[..n], depth) + Weighed(inner[n], depth(n))
  }

  lemma LeafPartMore(w: seq<nat>, up: seq<nat>, v: nat, depth: nat -> nat)
    requires |up| < |w|
    ensures LeafPart(w, up + [v], depth) == LeafPart(w, up, depth) + Weighed(w[|up|], depth(v))
  {
    hide Weighed;
    assert (up + [v])[..|up|] == up;
  }

  lemma {:induction false} LeafPartSame(w: seq<nat>, w': seq<nat>, up: seq<nat>, depth: nat -> nat)
    requires |up| <= |w| && |up| <= |w'| && forall i :: 0 <= i < |up| ==> w[i] == w'[i]
    ensures LeafPart(w, up, depth) == LeafPart(w', up, depth)
  {
    if up != [] {
      LeafPartSame(w, w', up[..|up| - 1], depth);
    }
  }

  lemma NodePartMore(inner: seq<nat>, z: nat, depth: nat -> nat)
    ensures NodePart(inner + [z], depth) == NodePart(inner, depth) + Weighed(z, depth(|inner|))
  {
    hide Weighed;
    assert (inner + [z])[..|inner|] == inner;
  }

  /** All nodes that have a parent. */
  ghost function Below(w: seq<nat>, m: Merge, depth: nat -> nat): nat
    requires |m.leafUp| <= |w| && |m.up| <= |m.inner|
  {
    LeafPart(w, m.leafUp, depth) + LeafPart(m.inner, m.up, depth)
  }

  lemma TakeBelow(w: seq<nat>, m: Merge, extra: nat, depth: nat -> nat)
    requires extra <= 1 && Sound(m, |w|, extra) && |m.inner| + 1 < |w|
    ensures |Take(w, m).leafUp| <= |w| && |Take(w, m).up| <= |m.inner|
    ensures Below(w, Take(w, m), depth) == Below(w, m, depth) + Weighed(Lightest(w, m), depth(|m.inner|))
  {
    hide Weighed;
    hide LeafPart;
    if TakesInner(w, m) {
      LeafPartMore(m.inner, m.up, |m.inner|, depth);
    } else {
      LeafPartMore(w, m.leafUp, |m.inner|, depth);
    }
  }

  /** Every inner node weighs what its two children weigh, at whatever depths. */
  lemma JoinBelow(w: seq<nat>, m: Merge, depth: nat -> nat)
    requires Sound(m, |w|, 0) && |m.inner| + 1 < |w| && Remaining(w, m) < 0x10000
    requires Below(w, m, depth) == NodePart(m.inner, depth)
    ensures |Join(w, m).leafUp| <= |w| && |Join(w, m).up| <= |Join(w, m).inner|
    ensures Below(w, Join(w, m), depth) == NodePart(Join(w, m).inner, depth)
  {
    hide LeafPart;
    hide NodePart;
    hide Weighed;
    hide Remaining;
    hide Lightest;
    TakeSound(w, m, 0);
    var m1 := Take(w, m);
    TakeSound(w, m1, 1);
    var m2, x, y := Take(w, m1), Lightest(w, m), Lightest(w, m1);
    JoinRemaining(w, m);
    TakeBelow(w, m, 0, depth);
    TakeBelow(w, m1, 1, depth);
    hide Take;
    NodePartMore(m.inner, x + y, depth);
    LeafPartSame(m.inner, m.inner + [x + y], m2.up, depth);
    WeighedSum(x, y, depth(|m.inner|));
  }

  lemma WeighedSum(x: nat, y: nat, d: nat)
    ensures Weighed(x + y, d) == Weighed(x, d) + Weighed(y, d)
  {
  }

  lemma {:induction false} MergedBelow(w: seq<nat>, k: nat, depth: nat -> nat)
    requires k < |w| && Ascending(w) && Sum(w) < 0x10000 && (forall i :: 0 <= i < |w| ==> w[i] >= 1)
    ensures var m := Merged(w, k);
            |m.leafUp| <= |w| && |m.up| <= |m.inner| && Below(w, m, depth) == NodePart(m.inner, depth)
  {
    hide Merged;
    hide Sum;
    hide Join;
    hide Below;
    hide NodePart;
    hide Remaining;
    hide Climbing;
    hide Ascending;
    if k == 0 {
      MergedStart(w);
      NothingBelow(w, depth);
    } else {
      MergedBelow(w, k - 1, depth);
      var _ := Climbs(w, k - 1);
      MergedNext(w, k - 1);
      JoinBelow(w, Merged(w, k - 1), depth);
    }
  }

  lemma MergedStart(w: seq<nat>)
    requires w != []
    ensures Merged(w, 0) == Merge([], [], [])
  {
  }

  lemma NothingBelow(w: seq<nat>, depth: nat -> nat)
    ensures Below(w, Merge([], [], []), depth) == NodePart([], depth)
  {
  }

  ghost function DepthIn(up: seq<nat>): nat -> nat
    requires Upward(up)
  {
    (v: nat) => if v <= |up| then Depth(up, v) else 0
  }

  lemma {:induction false} LeavesCost(w: seq<nat>, m: Merge, depths: seq<nat>, k: nat)
    requires Upward(m.up) && Within(m.up, m) && LeavesOf(m, depths) && k <= |depths| == |w|
    ensures LeafPart(w, m.leafUp[..k], DepthIn(m.up)) == Cost(w[..k], depths[..k])
  {
    if k > 0 {
      LeavesCost(w, m, depths, k - 1);
      assert m.leafUp[..k][..k - 1] == m.leafUp[..k - 1] && w[..k][..k - 1] == w[..k - 1];
      assert depths[..k][..k - 1] == depths[..k - 1];
    }
  }

  /** Below the root every node is one deeper than its parent. */
  lemma {:induction false} NodesCost(inner: seq<nat>, up: seq<nat>, k: nat)
    requires Upward(up) && |up| <= |inner| && k <= |up|
    ensures NodePart(inner[..k], DepthIn(up)) == Total(inner[..k]) + LeafPart(inner, up[..k], DepthIn(up))
  {
    if k > 0 {
      NodesCost(inner, up, k - 1);
      assert inner[..k][..k - 1] == inner[..k - 1] && up[..k][..k - 1] == up[..k - 1];
      assert Depth(up, k - 1) == 1 + Depth(up, up[k - 1]);
      OneDeeper(inner[k - 1], Depth(up, up[k - 1]));
    }
  }

  lemma OneDeeper(x: nat, d: nat)
    ensures Weighed(x, 1 + d) == x + Weighed(x, d) && Weighed(x, 0) == x
  {
  }

  /** The bits that the tree spends are the weights of its inner nodes. */
  lemma TreeCost(w: seq<nat>)
    requires |w| >= 2 && Ascending(w) && Sum(w) < 0x10000 && (forall i :: 0 <= i < |w| ==> w[i] >= 1)
    ensures Cost(w, LeafDepths(w)) == Total(Merged(w, |w| - 1).inner)
  {
    var n := |w| - 1;
    TreeLeaves(w);
    TreeUpward(w);
    var m, depths := Tree(w), LeafDepths(w);
    assert m == Merged(w, n);
    hide Merged;
    hide Sum;
    hide LeafDepths;
    var depth := DepthIn(m.up);
    MergedBelow(w, n, depth);
    CostOfTree(w, m, depths);
  }

  lemma CostOfTree(w: seq<nat>, m: Merge, depths: seq<nat>)
    requires Upward(m.up) && Within(m.up, m) && LeavesOf(m, depths) && |depths| == |w| && |m.inner| == |m.up| + 1
    requires Below(w, m, DepthIn(m.up)) == NodePart(m.inner, DepthIn(m.up))
    ensures Cost(w, depths) == Total(m.inner)
  {
    hide Cost;
    hide LeafPart;
    hide Weighed;
    var depth, k := DepthIn(m.up), |m.up|;
    LeavesCost(w, m, depths, |w|);
    assert m.leafUp[..|w|] == m.leafUp && w[..|w|] == w && depths[..|w|] == depths;
    NodesCost(m.inner, m.up, k);
    assert m.up[..k] == m.up && m.inner[..k] + [m.inner[k]] == m.inner;
    TotalMore(m.inner[..k], m.inner[k]);
    NodePartMore(m.inner[..k], m.inner[k], depth);
    OneDeeper(m.inner[k], 0);
  }

  /** No prefix code spends fewer bits than the leaf depths of the two-queue tree. */
  lemma TreeOptimal(w: seq<nat>, l: seq<nat>, n: nat)
    requires |w| == |l| >= 2 && Ascending(w) && Sum(w) < 0x10000 && (forall i :: 0 <= i < |w| ==> w[i] >= 1)
    requires Feasible(l, n)
    ensures Cost(w, LeafDepths(w)) <= Cost(w, l)
  {
    hide Feasible;
    hide Cost;
    hide Sum;
    hide LeafDepths;
    hide Total;
    TreeCost(w);
    MergedStart(w);
    hide Merged;
    AllUnjoined(w);
    LowerBound(w, 0, l, n);
    NoTotal();
  }

  lemma AllUnjoined(w: seq<nat>)
    ensures Unjoined(w, Merge([], [], [])) == w
  {
  }

  lemma NoTotal()
    ensures Total([]) == 0
  {
  }

  // ----- the depths in order

  ghost predicate NonIncreasing(s: seq<nat>)
  {
    forall i, j :: 0 <= i < j < |s| ==> s[i] >= s[j]
  }

  lemma {:induction false} LeavesInOrder(w: seq<nat>, k: nat)
    requires k < |w|
    ensures Ascending(Merged(w, k).leafUp)
  {
    hide Join;
    if k > 0 {
      LeavesInOrder(w, k - 1);
      MergedNext(w, k - 1);
      JoinInOrder(w, Merged(w, k - 1));
    }
  }

  lemma JoinInOrder(w: seq<nat>, m: Merge)
    requires Sound(m, |w|, 0) && |m.inner| + 1 < |w| && Ascending(m.leafUp)
    ensures Ascending(Join(w, m).leafUp)
  {
    TakeSound(w, m, 0);
  }

  /** Heavier leaves are no deeper. */
  lemma DepthsDescend(w: seq<nat>)
    requires |w| >= 2
    ensures NonIncreasing(LeafDepths(w))
  {
    LeavesInOrder(w, |w| - 1);
    TreeUpward(w);
    var m := Tree(w);
    forall i, j | 0 <= i < j < |w| ensures LeafDepths(w)[i] >= LeafDepths(w)[j] {
      DepthMono(m.up, m.leafUp[i], m.leafUp[j]);
    }
  }

  lemma {:induction false} CountFinds(s: seq<nat>, l: nat) returns (i: nat)
    requires Count(s, l) >= 1
    ensures i < |s| && s[i] == l
  {
    if s[|s| - 1] == l {
      i := |s| - 1;
    } else {
      i := CountFinds(s[..|s| - 1], l);
    }
  }

  /** Lengths in order are determined by how many there are of each. */
  lemma {:induction false} SameLengths(s: seq<nat>, t: seq<nat>)
    requires |s| == |t| && NonIncreasing(s) && NonIncreasing(t) && forall d: nat :: Count(s, d) == Count(t, d)
    ensures s == t
  {
    if s != [] {
      var n := |s| - 1;
      var i := CountFinds(t, s[n]);
      var j := CountFinds(s, t[n]);
      assert s[n] == t[n];
      forall d: nat ensures Count(s[..n], d) == Count(t[..n], d) {
        assert Count(s, d) == Count(t, d);
      }
      SameLengths(s[..n], t[..n]);
      assert s == s[..n] + [s[n]] && t == t[..n] + [t[n]];
    }
  }
}
