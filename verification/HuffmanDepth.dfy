/** How deep the tree of `HuffmanMerge` can get.

    Sums of counts are kept in 16 bits.  When all counts together fit 16 bits and are merged in
    increasing order, an inner node of height `h` weighs at least the Fibonacci number of `h + 2`,
    so no code is longer than 22 bits and the 33-entry histogram of code lengths is never
    overrun. */
module HuffmanDepth {
  import opened HuffmanMerge

  function Fib(n: nat): nat
  {
    if n < 2 then n else Fib(n - 1) + Fib(n - 2)
  }

  function Sum(s: seq<nat>): nat
  {
    if s == [] then 0 else s[0] + Sum(s[1..])
  }

  lemma {:induction false} SumOfUpdate(s: seq<nat>, i: nat, v: nat)
    requires i < |s|
    ensures Sum(s[i := v]) + s[i] == Sum(s) + v
  {
    if i == 0 {
      assert s[i := v][1..] == s[1..];
    } else {
      SumOfUpdate(s[1..], i - 1, v);
      assert s[i := v][1..] == s[1..][i - 1 := v];
    }
  }

  lemma {:induction false} SumOfZeros(s: seq<nat>)
    requires forall i :: 0 <= i < |s| ==> s[i] == 0
    ensures Sum(s) == 0
  {
    if s != [] {
      SumOfZeros(s[1..]);
    }
  }

  predicate Ascending(s: seq<nat>)
  {
    forall i, j :: 0 <= i < j < |s| ==> s[i] <= s[j]
  }

  // ----- weights are conserved, so nothing wraps around

  /** The weight of everything still waiting. */
  function Remaining(w: seq<nat>, m: Merge): nat
    requires |m.leafUp| <= |w| && |m.up| <= |m.inner|
  {
    Sum(w[|m.leafUp|..]) + Sum(m.inner[|m.up|..])
  }

  lemma SumRest(s: seq<nat>, i: nat)
    requires i < |s|
    ensures Sum(s[i..]) == s[i] + Sum(s[i + 1..])
  {
    assert s[i..][1..] == s[i + 1..];
  }

  lemma {:induction false} SumAdd(s: seq<nat>, x: nat)
    ensures Sum(s + [x]) == Sum(s) + x
  {
    if s == [] {
      assert s + [x] == [x];
    } else {
      assert (s + [x])[1..] == s[1..] + [x];
      SumAdd(s[1..], x);
    }
  }

  lemma TakeRemaining(w: seq<nat>, m: Merge, extra: nat)
    requires extra <= 1 && Sound(m, |w|, extra) && |m.inner| + 1 < |w|
    ensures |Take(w, m).leafUp| <= |w| && |Take(w, m).up| <= |m.inner|
    ensures Remaining(w, Take(w, m)) + Lightest(w, m) == Remaining(w, m)
  {
    if TakesInner(w, m) {
      SumRest(m.inner, |m.up|);
    } else {
      SumRest(w, |m.leafUp|);
    }
  }

  lemma JoinRemaining(w: seq<nat>, m: Merge)
    requires Sound(m, |w|, 0) && |m.inner| + 1 < |w| && Remaining(w, m) < 0x10000
    ensures var m1 := Take(w, m);
            Sound(m1, |w|, 1) && m1.inner == m.inner &&
            Join(w, m).inner == m.inner + [Lightest(w, m) + Lightest(w, m1)] &&
            Remaining(w, Join(w, m)) == Remaining(w, m)
  {
    hide Sum;
    TakeSound(w, m, 0);
    TakeRemaining(w, m, 0);
    var m1 := Take(w, m);
    TakeSound(w, m1, 1);
    TakeRemaining(w, m1, 1);
    var m2, x := Take(w, m1), Lightest(w, m) + Lightest(w, m1);
    assert (m.inner + [x])[|m2.up|..] == m.inner[|m2.up|..] + [x];
    SumAdd(m.inner[|m2.up|..], x);
  }

  // ----- the lightest node is always taken

  ghost predicate AllWaiting(w: seq<nat>, m: Merge, least: nat)
  {
    && (forall v :: |m.up| <= v < |m.inner| ==> m.inner[v] >= least)
    && (forall k :: |m.leafUp| <= k < |w| ==> w[k] >= least)
  }

  lemma TakeLightest(w: seq<nat>, m: Merge, extra: nat, least: nat)
    requires extra <= 1 && Sound(m, |w|, extra) && |m.inner| + 1 < |w|
    requires Ascending(w) && Ascending(m.inner) && AllWaiting(w, m, least)
    ensures Lightest(w, m) >= least && AllWaiting(w, Take(w, m), Lightest(w, m))
  {
  }

  // ----- heights grow like Fibonacci numbers

  /** The height of the node taken next. */
  function TakenHeight(w: seq<nat>, m: Merge, heights: seq<nat>): nat
    requires |heights| == |m.inner|
  {
    if TakesInner(w, m) && |m.up| < |heights| then heights[|m.up|] else 0
  }

  function Max(a: nat, b: nat): nat
  {
    if a < b then b else a
  }

  /** The heights of the inner nodes after `k` joins. */
  function Heights(w: seq<nat>, k: nat): (h: seq<nat>)
    requires k < |w|
    ensures |h| == k
  {
    if k == 0 then []
    else
      var m, h := Merged(w, k - 1), Heights(w, k - 1);
      h + [1 + Max(TakenHeight(w, m, h), TakenHeight(w, Take(w, m), h))]
  }

  /** The inner nodes are heavy for their heights; `least` is the weight taken last. */
  ghost predicate Heavy(inner: seq<nat>, heights: seq<nat>, least: nat)
  {
    && |heights| == |inner|
    && (forall v :: 0 <= v < |heights| ==> heights[v] >= 1)
    && (forall v :: 0 <= v < |heights| ==> Fib(heights[v] + 2) <= inner[v] <= 2 * least)
    && (forall v :: 0 <= v < |heights| ==> Fib(heights[v] + 1) <= least)
  }

  ghost predicate ParentsHigher(up: seq<nat>, heights: seq<nat>)
  {
    forall i :: 0 <= i < |up| ==> i < up[i] < |heights| && heights[i] < heights[up[i]]
  }

  ghost predicate Climbing(w: seq<nat>, m: Merge, heights: seq<nat>, least: nat)
  {
    && Sound(m, |w|, 0) && least >= 1
    && Ascending(w) && Ascending(m.inner)
    && AllWaiting(w, m, least)
    && Heavy(m.inner, heights, least)
    && ParentsHigher(m.up, heights)
  }

  /** Two nodes of heights `hx` and `hy` give one that is heavy for its height. */
  lemma FibJoin(hx: nat, hy: nat, x: nat, y: nat, least: nat)
    requires least <= x <= y
    requires Fib(hx + 2) <= x && Fib(hx + 1) <= least && Fib(hy + 2) <= y && Fib(hy + 1) <= least
    ensures Fib(1 + Max(hx, hy) + 2) <= x + y
    ensures Fib(1 + Max(hx, hy) + 1) <= y
  {
    var h := 1 + Max(hx, hy);
    assert Fib(h + 2) == Fib(h + 1) + Fib(h);
  }

  lemma TakenHeavy(w: seq<nat>, m: Merge, heights: seq<nat>, extra: nat, least: nat)
    requires extra <= 1 && Sound(m, |w|, extra) && |m.inner| + 1 < |w|
    requires Heavy(m.inner, heights, least) && 1 <= least <= Lightest(w, m)
    ensures Fib(TakenHeight(w, m, heights) + 2) <= Lightest(w, m)
    ensures Fib(TakenHeight(w, m, heights) + 1) <= least
  {
    assert Fib(1) == 1 && Fib(2) == 1;
  }

  lemma ClimbJoin(w: seq<nat>, m: Merge, heights: seq<nat>, least: nat)
    requires Climbing(w, m, heights, least) && |m.inner| + 1 < |w| && Remaining(w, m) < 0x10000
    ensures var m1 := Take(w, m);
            Sound(m1, |w|, 1) && m1.inner == m.inner &&
            var h := 1 + Max(TakenHeight(w, m, heights), TakenHeight(w, m1, heights));
            Climbing(w, Join(w, m), heights + [h], Lightest(w, m1))
  {
    hide Fib;
    hide Sum;
    hide Lightest;
    hide Remaining;
    hide TakenHeight;
    hide Join;
    hide Take;
    assert |heights| == |m.inner|;
    JoinRemaining(w, m);
    var m1, x := Take(w, m), Lightest(w, m);
    TakeLightest(w, m, 0, least);
    TakeLightest(w, m1, 1, x);
    var hx, hy, y := TakenHeight(w, m, heights), TakenHeight(w, m1, heights), Lightest(w, m1);
    JoinWaiting(w, m, x, y);
    JoinParents(w, m, heights, 1 + Max(hx, hy));
    TakenHeavy(w, m, heights, 0, least);
    TakenHeavy(w, m1, heights, 1, least);
    FibJoin(hx, hy, x, y, least);
    JoinHeavy(m.inner, heights, 1 + Max(hx, hy), x, y, least);
  }

  lemma JoinWaiting(w: seq<nat>, m: Merge, x: nat, y: nat)
    requires Sound(m, |w|, 0) && |m.inner| + 1 < |w|
    requires AllWaiting(w, Take(w, Take(w, m)), y)
    requires Join(w, m).inner == m.inner + [x + y]
    ensures AllWaiting(w, Join(w, m), y)
  {
    TakeSound(w, m, 0);
  }

  lemma JoinParents(w: seq<nat>, m: Merge, heights: seq<nat>, h: nat)
    requires Sound(m, |w|, 0) && |m.inner| + 1 < |w| && |heights| == |m.inner|
    requires h == 1 + Max(TakenHeight(w, m, heights), TakenHeight(w, Take(w, m), heights))
    requires ParentsHigher(m.up, heights)
    ensures ParentsHigher(Join(w, m).up, heights + [h])
  {
    TakeSound(w, m, 0);
    TakeSound(w, Take(w, m), 1);
  }

  lemma JoinHeavy(inner: seq<nat>, heights: seq<nat>, h: nat, x: nat, y: nat, least: nat)
    requires Heavy(inner, heights, least) && Ascending(inner) && h >= 1 && least <= x <= y
    requires Fib(h + 2) <= x + y && Fib(h + 1) <= y
    ensures Heavy(inner + [x + y], heights + [h], y) && Ascending(inner + [x + y])
  {
    hide Fib;
  }

  lemma {:induction false} Climbs(w: seq<nat>, k: nat) returns (least: nat)
    requires k < |w| && Ascending(w) && Sum(w) < 0x10000 && (forall i :: 0 <= i < |w| ==> w[i] >= 1)
    ensures Climbing(w, Merged(w, k), Heights(w, k), least)
    ensures Remaining(w, Merged(w, k)) == Sum(w)
  {
    hide Max;
    hide TakenHeight;
    hide Sound;
    hide Join;
    hide Climbing;
    hide Remaining;
    hide Lightest;
    hide Take;
    hide Sum;
    if k == 0 {
      least := 1;
      ClimbStart(w);
    } else {
      least := Climbs(w, k - 1);
      var m, h := Merged(w, k - 1), Heights(w, k - 1);
      ClimbJoin(w, m, h, least);
      JoinRemaining(w, m);
      least := Lightest(w, Take(w, m));
    }
  }

  lemma ClimbStart(w: seq<nat>)
    requires |w| >= 1 && Ascending(w) && (forall i :: 0 <= i < |w| ==> w[i] >= 1)
    ensures Climbing(w, Merge([], [], []), [], 1)
    ensures Remaining(w, Merge([], [], [])) == Sum(w)
  {
    hide Fib;
    hide Sum;
    hide Remaining;
    RemainingStart(w, Merge([], [], []));
  }

  lemma RemainingStart(w: seq<nat>, m: Merge)
    requires m == Merge([], [], [])
    ensures Remaining(w, m) == Sum(w)
  {
    assert w[|m.leafUp|..] == w;
    assert m.inner[|m.up|..] == [];
  }

  // ----- so codes are short

  lemma {:induction false} FibMono(a: nat, b: nat)
    requires a <= b
    ensures Fib(a) <= Fib(b)
  {
    if a < b {
      FibMono(a, b - 1);
    }
  }

  /** Depth and height add up to no more than the height of the root. */
  lemma {:induction false} DepthHeight(up: seq<nat>, heights: seq<nat>, v: nat)
    requires Upward(up) && |heights| == |up| + 1 && v <= |up| && ParentsHigher(up, heights)
    ensures Depth(up, v) + heights[v] <= heights[|up|]
    decreases |up| - v
  {
    if v < |up| {
      DepthHeight(up, heights, up[v]);
    }
  }

  const MAX_DEPTH: nat := 22

  /** No leaf lies deeper than 22. */
  lemma DepthBound(w: seq<nat>)
    requires |w| >= 2 && Ascending(w) && Sum(w) < 0x10000 && (forall i :: 0 <= i < |w| ==> w[i] >= 1)
    ensures forall k :: 0 <= k < |w| ==> LeafDepths(w)[k] <= MAX_DEPTH
  {
    hide Merged;
    hide Heights;
    hide Climbing;
    var n := |w| - 1;
    var least := Climbs(w, n);
    TreeLeaves(w);
    DepthBoundBy(w, Tree(w), Heights(w, n), least, LeafDepths(w));
  }

  lemma DepthBoundBy(w: seq<nat>, m: Merge, heights: seq<nat>, least: nat, depths: seq<nat>)
    requires Climbing(w, m, heights, least) && |m.up| + 1 == |m.inner| && |m.leafUp| == |w|
    requires Remaining(w, m) < 0x10000
    requires Upward(m.up) && Within(m.up, m) && LeavesOf(m, depths)
    ensures forall k :: 0 <= k < |w| ==> depths[k] <= MAX_DEPTH
  {
    RootHeight(w, m, heights, least);
    forall k | 0 <= k < |w| ensures depths[k] <= MAX_DEPTH {
      DepthHeight(m.up, heights, m.leafUp[k]);
    }
  }

  lemma RootHeight(w: seq<nat>, m: Merge, heights: seq<nat>, least: nat)
    requires Climbing(w, m, heights, least) && |m.up| + 1 == |m.inner| && |m.leafUp| == |w|
    requires Remaining(w, m) < 0x10000
    ensures heights[|m.up|] <= MAX_DEPTH
  {
    var root := |m.up|;
    assert w[|w|..] == [] && m.inner[root..] == [] + [m.inner[root]];
    SumAdd([], m.inner[root]);
    if heights[root] > MAX_DEPTH {
      FibAtLeast(heights[root] + 2);
    }
  }

  lemma FibFive(n: nat)
    ensures Fib(n + 5) == 5 * Fib(n + 1) + 3 * Fib(n)
    ensures Fib(n + 6) == 8 * Fib(n + 1) + 5 * Fib(n)
  {
    assert Fib(n + 2) == Fib(n + 1) + Fib(n);
    assert Fib(n + 3) == 2 * Fib(n + 1) + Fib(n);
    assert Fib(n + 4) == 3 * Fib(n + 1) + 2 * Fib(n);
  }

  lemma FibAtLeast(n: nat)
    requires n >= 25
    ensures Fib(n) >= 75025
  {
    var k := 0;
    FibFive(k);
    FibFive(k + 5);
    FibFive(k + 10);
    FibFive(k + 15);
    FibFive(k + 20);
    FibMono(k + 25, n);
  }
}
