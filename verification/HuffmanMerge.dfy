/** The reference for the compressor's minimum-redundancy pass: the two-queue construction of a
    Huffman tree, kept out of place.

    Leaves wait in the order of `w`; inner nodes wait in the order in which they were made.  Each
    step joins the two lightest waiting nodes, a leaf first on ties, under a new inner node whose
    weight is their sum in 16-bit arithmetic.  No order and no bound on the weights is assumed. */
module HuffmanMerge {
  import opened Bits
  import opened CanonicalCode

  /** `inner` are the weights of the inner nodes, `up[i]` the parent of the `i`-th inner node and
      `leafUp[k]` the parent of the `k`-th leaf, for the nodes that have been joined already. */
  datatype Merge = Merge(inner: seq<nat>, up: seq<nat>, leafUp: seq<nat>)

  /** A tree under construction over `n` leaves; `extra` nodes have been taken for the next one. */
  ghost predicate Sound(m: Merge, n: nat, extra: nat)
  {
    && |m.inner| + 1 <= n
    && |m.leafUp| <= n
    && |m.up| + |m.leafUp| == 2 * |m.inner| + extra
    && (|m.up| < |m.inner| + extra || |m.inner| == 0 == |m.up|)
    && (forall i :: 0 <= i < |m.up| ==> i < m.up[i] < |m.inner| + if extra > 0 then 1 else 0)
    && (forall i, j :: 0 <= i < j < |m.up| ==> m.up[i] <= m.up[j])
    && (forall k :: 0 <= k < |m.leafUp| ==> m.leafUp[k] < |m.inner| + if extra > 0 then 1 else 0)
  }

  predicate TakesInner(w: seq<nat>, m: Merge)
  {
    |m.leafUp| >= |w| || (|m.up| < |m.inner| && m.inner[|m.up|] < w[|m.leafUp|])
  }

  /** The weight of the node taken next. */
  function Lightest(w: seq<nat>, m: Merge): nat
    requires Sound(m, |w|, 0) || Sound(m, |w|, 1)
    requires |m.inner| + 1 < |w|
  {
    if TakesInner(w, m) then m.inner[|m.up|] else w[|m.leafUp|]
  }

  function Take(w: seq<nat>, m: Merge): Merge
  {
    if TakesInner(w, m) then m.(up := m.up + [|m.inner|]) else m.(leafUp := m.leafUp + [|m.inner|])
  }

  lemma TakeSound(w: seq<nat>, m: Merge, extra: nat)
    requires extra <= 1 && Sound(m, |w|, extra) && |m.inner| + 1 < |w|
    ensures Sound(Take(w, m), |w|, extra + 1)
  {
  }

  function Join(w: seq<nat>, m: Merge): (r: Merge)
    requires Sound(m, |w|, 0) && |m.inner| + 1 < |w|
    ensures Sound(r, |w|, 0) && |r.inner| == |m.inner| + 1
  {
    TakeSound(w, m, 0);
    var m1 := Take(w, m);
    TakeSound(w, m1, 1);
    var m2 := Take(w, m1);
    m2.(inner := m.inner + [(Lightest(w, m) + Lightest(w, m1)) % 0x10000])
  }

  /** The state after making `k` inner nodes. */
  function Merged(w: seq<nat>, k: nat): (m: Merge)
    requires k < |w|
    ensures Sound(m, |w|, 0) && |m.inner| == k
  {
    if k == 0 then Merge([], [], []) else Join(w, Merged(w, k - 1))
  }

  /** The whole tree over two or more leaves; inner node `|w| - 2` is its root. */
  function Tree(w: seq<nat>): (m: Merge)
    requires |w| >= 2
    ensures |m.up| == |w| - 2 && |m.leafUp| == |w|
    ensures forall i :: 0 <= i < |m.up| ==> i < m.up[i] <= |m.up|
  {
    Merged(w, |w| - 1)
  }

  ghost predicate Upward(up: seq<nat>)
  {
    && (forall i :: 0 <= i < |up| ==> i < up[i] <= |up|)
    && (forall i, j :: 0 <= i < j < |up| ==> up[i] <= up[j])
  }

  /** The depth of inner node `v`; node `|up|` is the root. */
  function Depth(up: seq<nat>, v: nat): (d: nat)
    requires v <= |up| && forall i :: 0 <= i < |up| ==> i < up[i] <= |up|
    ensures d <= |up| - v && (d == 0 <==> v == |up|)
    decreases |up| - v
  {
    if v == |up| then 0 else 1 + Depth(up, up[v])
  }

  /** Inner nodes made later are no deeper. */
  lemma {:induction false} DepthMono(up: seq<nat>, v: nat, u: nat)
    requires Upward(up) && v <= u <= |up|
    ensures Depth(up, v) >= Depth(up, u)
    decreases |up| - v
  {
    if v < u < |up| {
      DepthMono(up, up[v], up[u]);
    }
  }

  /** The depths of the leaves of the tree over `w`. */
  function LeafDepths(w: seq<nat>): (d: seq<nat>)
    requires |w| >= 2
    ensures |d| == |w|
  {
    var m := Tree(w);
    seq(|w|, k requires 0 <= k < |w| => 1 + Depth(m.up, m.leafUp[k]))
  }

  // ----- every inner node has two children

  /** The number of entries of `s` with property `f`. */
  function Hits(f: nat -> bool, s: seq<nat>): nat
  {
    if s == [] then 0 else Hits(f, s[..|s| - 1]) + (if f(s[|s| - 1]) then 1 else 0)
  }

  /** The number of nodes below `k` with property `f`. */
  function HitsBelow(f: nat -> bool, k: nat): (c: nat)
    ensures c <= k
  {
    if k == 0 then 0 else HitsBelow(f, k - 1) + (if f(k - 1) then 1 else 0)
  }

  lemma HitsAdd(f: nat -> bool, s: seq<nat>, v: nat)
    ensures Hits(f, s + [v]) == Hits(f, s) + if f(v) then 1 else 0
  {
    assert (s + [v])[..|s|] == s;
  }

  function Children(f: nat -> bool, m: Merge): nat
  {
    Hits(f, m.up) + Hits(f, m.leafUp)
  }

  lemma TakeChildren(w: seq<nat>, f: nat -> bool, m: Merge)
    ensures Children(f, Take(w, m)) == Children(f, m) + if f(|m.inner|) then 1 else 0
  {
    HitsAdd(f, m.up, |m.inner|);
    HitsAdd(f, m.leafUp, |m.inner|);
  }

  lemma JoinChildren(w: seq<nat>, f: nat -> bool, m: Merge)
    requires Sound(m, |w|, 0) && |m.inner| + 1 < |w|
    ensures Children(f, Join(w, m)) == Children(f, m) + if f(|m.inner|) then 2 else 0
  {
    TakeChildren(w, f, m);
    TakeChildren(w, f, Take(w, m));
  }

  lemma NoChildren(f: nat -> bool)
    ensures Children(f, Merge([], [], [])) == 0
  {
  }

  /** Counting children by any property of their parents counts every parent twice. */
  lemma {:induction false} TwoChildren(w: seq<nat>, f: nat -> bool, k: nat)
    requires k < |w|
    ensures Children(f, Merged(w, k)) == 2 * HitsBelow(f, k)
  {
    hide Children;
    hide Join;
    if k == 0 {
      NoChildren(f);
    } else {
      TwoChildren(w, f, k - 1);
      JoinChildren(w, f, Merged(w, k - 1));
    }
  }

  // ----- counting nodes level by level

  ghost function AtDepth(up: seq<nat>, d: nat): nat -> bool
    requires Upward(up)
  {
    (v: nat) => v <= |up| && Depth(up, v) == d
  }

  /** The number of inner nodes at depth `d`. */
  ghost function InnerAt(up: seq<nat>, d: nat): (c: nat)
    requires Upward(up)
  {
    HitsBelow(AtDepth(up, d), |up| + 1)
  }

  lemma {:induction false} InnerChildren(up: seq<nat>, k: nat, d: nat)
    requires Upward(up) && k <= |up|
    ensures HitsBelow(AtDepth(up, d + 1), k) == Hits(AtDepth(up, d), up[..k])
  {
    if k > 0 {
      InnerChildren(up, k - 1, d);
      assert up[..k][..k - 1] == up[..k - 1];
    }
  }

  lemma {:induction false} LeafChildren(up: seq<nat>, leafUp: seq<nat>, depths: seq<nat>, d: nat)
    requires Upward(up) && |depths| == |leafUp|
    requires forall k :: 0 <= k < |leafUp| ==> leafUp[k] <= |up| && depths[k] == 1 + Depth(up, leafUp[k])
    ensures Count(depths, d + 1) == Hits(AtDepth(up, d), leafUp)
  {
    if leafUp != [] {
      var n := |leafUp| - 1;
      LeafChildren(up, leafUp[..n], depths[..n], d);
    }
  }

  lemma LevelStep(m: Merge, depths: seq<nat>, d: nat)
    requires Upward(m.up) && Within(m.up, m) && LeavesOf(m, depths)
    requires Children(AtDepth(m.up, d), m) == 2 * InnerAt(m.up, d)
    ensures InnerAt(m.up, d + 1) + Count(depths, d + 1) == 2 * InnerAt(m.up, d)
  {
    InnerChildren(m.up, |m.up|, d);
    assert m.up[..|m.up|] == m.up;
    LeafChildren(m.up, m.leafUp, depths, d);
  }

  ghost predicate Within(up: seq<nat>, m: Merge)
  {
    && (forall i :: 0 <= i < |m.up| ==> m.up[i] <= |up|)
    && (forall i :: 0 <= i < |m.leafUp| ==> m.leafUp[i] <= |up|)
  }

  lemma TreeUpward(w: seq<nat>)
    requires |w| >= 2
    ensures var m := Tree(w);
            Upward(m.up) && Within(m.up, m) && |m.up| == |w| - 2 && |m.leafUp| == |w|
  {
  }

  /** `up` links inner nodes into a tree in which below every level there is room for exactly the
      next one, where `depths` lists the depths of the leaves. */
  ghost predicate Balanced(up: seq<nat>, depths: seq<nat>)
  {
    && Upward(up)
    && |depths| == |up| + 2
    && Count(depths, 0) == 0
    && forall d {:trigger Count(depths, d)} ::
         d >= 1 ==> InnerAt(up, d) + Count(depths, d) == 2 * InnerAt(up, d - 1)
  }

  ghost predicate LeavesOf(m: Merge, depths: seq<nat>)
    requires Upward(m.up) && Within(m.up, m)
  {
    && |depths| == |m.leafUp|
    && forall k :: 0 <= k < |depths| ==> depths[k] == 1 + Depth(m.up, m.leafUp[k])
  }

  lemma TreeLeaves(w: seq<nat>)
    requires |w| >= 2
    ensures Upward(Tree(w).up) && Within(Tree(w).up, Tree(w)) && LeavesOf(Tree(w), LeafDepths(w))
  {
    TreeUpward(w);
  }

  lemma BalancedBy(w: seq<nat>, m: Merge, k: nat, depths: seq<nat>)
    requires k < |w| && m == Merged(w, k) && Upward(m.up) && Within(m.up, m)
    requires k == |m.up| + 1 && |depths| == |m.up| + 2 && LeavesOf(m, depths)
    ensures Balanced(m.up, depths)
  {
    hide Merged;
    hide InnerAt;
    NoLeafAtRoot(depths);
    forall d | d >= 1 ensures InnerAt(m.up, d) + Count(depths, d) == 2 * InnerAt(m.up, d - 1) {
      BalancedAt(w, m, k, depths, d - 1);
    }
  }

  lemma BalancedAt(w: seq<nat>, m: Merge, k: nat, depths: seq<nat>, d: nat)
    requires k < |w| && m == Merged(w, k) && Upward(m.up) && Within(m.up, m)
    requires k == |m.up| + 1 && LeavesOf(m, depths)
    ensures InnerAt(m.up, d + 1) + Count(depths, d + 1) == 2 * InnerAt(m.up, d)
  {
    hide Children;
    hide Merged;
    TwoChildren(w, AtDepth(m.up, d), k);
    LevelStep(m, depths, d);
  }

  lemma TreeBalanced(w: seq<nat>)
    requires |w| >= 2
    ensures Balanced(Tree(w).up, LeafDepths(w))
  {
    TreeLeaves(w);
    BalancedBy(w, Tree(w), |w| - 1, LeafDepths(w));
  }

  lemma {:induction false} NoLeafAtRoot(depths: seq<nat>)
    requires forall k :: 0 <= k < |depths| ==> depths[k] >= 1
    ensures Count(depths, 0) == 0
  {
    if depths != [] {
      NoLeafAtRoot(depths[..|depths| - 1]);
    }
  }

  /** Between two split points lie exactly the nodes with property `f`. */
  lemma {:induction false} HitsBetween(f: nat -> bool, j: nat, k: nat, n: nat)
    requires j <= k <= n
    requires forall v: nat :: v < n ==> (f(v) <==> j <= v < k)
    ensures HitsBelow(f, n) == k - j
  {
    if n > k {
      HitsBetween(f, j, k, n - 1);
    } else if j < k {
      HitsBetween(f, j, k - 1, n - 1);
    } else if n > 0 {
      HitsBetween(f, j - 1, k - 1, n - 1);
    }
  }

  // ----- the tree is complete

  /** The Kraft sum of the lengths up to `D`, on a scale where length 0 counts `Pow2(N)`. */
  function LevelMass(lens: seq<nat>, D: nat, N: nat): nat
    requires D <= N
  {
    if D == 0 then 0 else LevelMass(lens, D - 1, N) + Shl(Count(lens, D), N - D)
  }

  lemma {:induction false} MassOfLevels(up: seq<nat>, depths: seq<nat>, D: nat, N: nat)
    requires Balanced(up, depths) && D <= N
    ensures LevelMass(depths, D, N) + Shl(InnerAt(up, D), N - D) == Pow2(N)
  {
    if D == 0 {
      HitsBetween(AtDepth(up, 0), |up|, |up| + 1, |up| + 1);
    } else {
      hide InnerAt;
      MassOfLevels(up, depths, D - 1, N);
      ShlDouble(InnerAt(up, D - 1), N - D);
      ShlAdd(InnerAt(up, D), Count(depths, D), N - D);
    }
  }

  /** Inner nodes lie above the deepest leaf. */
  lemma {:induction false} NoInnerBelow(up: seq<nat>, depths: seq<nat>, D: nat)
    requires Balanced(up, depths)
    requires forall d :: d > D ==> Count(depths, d) == 0
    ensures InnerAt(up, D) == 0
    decreases |up| - D
  {
    if D > |up| {
      HitsBetween(AtDepth(up, D), 0, 0, |up| + 1);
    } else {
      NoInnerBelow(up, depths, D + 1);
      assert Count(depths, D + 1) == 0;
    }
  }

  /** The leaves of the tree use up the whole code space. */
  lemma TreeComplete(w: seq<nat>, D: nat)
    requires |w| >= 2 && forall d :: d > D ==> Count(LeafDepths(w), d) == 0
    ensures LevelMass(LeafDepths(w), D, D) == Pow2(D)
  {
    hide Tree;
    hide LeafDepths;
    TreeBalanced(w);
    MassOfLevels(Tree(w).up, LeafDepths(w), D, D);
    NoInnerBelow(Tree(w).up, LeafDepths(w), D);
  }
}
