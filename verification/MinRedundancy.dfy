/** The compressor's in-place minimum-redundancy pass (Moffat and Katajainen).

    One array of 16-bit keys holds, in turn, leaf weights, inner weights, parent indices, inner
    depths and finally code lengths.  Each of its three phases is proved against the out-of-place
    tree of `HuffmanMerge`, which shows in particular that no leaf weight is read after its slot
    has been reused. */
module MinRedundancy {
  import opened CanonicalCode
  import opened HuffmanDepth
  import opened HuffmanMerge
  import opened HuffmanOptimal

  /** Replaces the weights by code lengths: the leaf depths of the tree.  For positive weights in increasing order that
      sum to less than 2^16, no prefix code spends fewer bits. */
  method CalculateMinimumRedundancy(keys: array<nat>)
    requires keys.Length <= 0x10000
    modifies keys
    ensures keys.Length == 1 ==> keys[0] == 1
    ensures keys.Length >= 2 ==> NonIncreasing(keys[..])
    ensures keys.Length >= 2 ==> keys[..] == LeafDepths(old(keys[..]))
    ensures keys.Length >= 2 && Ascending(old(keys[..])) && Sum(old(keys[..])) < 0x10000
            && (forall i :: 0 <= i < keys.Length ==> old(keys[i]) >= 1) ==>
              forall l, n :: |l| == keys.Length && Feasible(l, n) ==> Cost(old(keys[..]), keys[..]) <= Cost(old(keys[..]), l)
  {
    var n := keys.Length;
    if n == 0 {
      return;
    } else if n == 1 {
      keys[0] := 1;
      return;
    }
    ghost var w := keys[..];
    TreeUpward(w);
    JoinInPlace(keys);
    ParentsToDepths(keys, Tree(w).up);
    TreeBalanced(w);
    DepthsToLengths(keys, Tree(w).up, LeafDepths(w));
    DepthsDescend(w);
    SameLengths(keys[..], LeafDepths(w));
    if Ascending(w) && Sum(w) < 0x10000 && forall i :: 0 <= i < |w| ==> w[i] >= 1 {
      forall l, n | |l| == keys.Length && Feasible(l, n) ensures Cost(w, keys[..]) <= Cost(w, l) {
        TreeOptimal(w, l, n);
      }
    }
  }

  /** The array while inner node `|m.inner|` is about to be made. */
  ghost predicate Holds(keys: seq<nat>, w: seq<nat>, m: Merge)
  {
    && |keys| == |w|
    && |m.up| <= |m.inner| <= |m.leafUp| <= |w|
    && (forall i :: 0 <= i < |m.up| ==> keys[i] == m.up[i])
    && (forall i :: |m.up| <= i < |m.inner| ==> keys[i] == m.inner[i])
    && (forall k :: |m.leafUp| <= k < |w| ==> keys[k] == w[k])
  }

  /** First phase: every joined inner node is overwritten by the index of its parent. */
  method JoinInPlace(keys: array<nat>)
    requires 2 <= keys.Length
    modifies keys
    ensures forall i :: 0 <= i < keys.Length - 2 ==> keys[i] == Tree(old(keys[..])).up[i]
  {
    hide Join;
    var n := keys.Length;
    ghost var w := keys[..];
    ghost var m := Merged(w, 1);
    FirstJoin(w);
    keys[0] := (keys[0] + keys[1]) % 0x10000;
    var root, leaf, next := 0, 2, 1;
    while next < n - 1
      invariant 1 <= next <= n - 1
      invariant m == Merged(w, next) && Holds(keys[..], w, m)
      invariant root == |m.up| && leaf == |m.leafUp|
    {
      m := Merged(w, next + 1);
      root, leaf := JoinNext(keys, w, Merged(w, next), root, leaf, next);
      next := next + 1;
    }
  }

  /** The first inner node joins the first two leaves. */
  lemma FirstJoin(w: seq<nat>)
    requires |w| >= 2
    ensures Merged(w, 1) == Merge([(w[0] + w[1]) % 0x10000], [], [0, 0])
  {
    hide Join;
    var m := Merged(w, 0);
    assert m == Merge([], [], []);
    JoinLeaves(w, m);
    assert Merged(w, 1) == Join(w, m);
  }

  lemma JoinLeaves(w: seq<nat>, m: Merge)
    requires |w| >= 2 && m == Merge([], [], []) && Sound(m, |w|, 0)
    ensures Join(w, m) == Merge([(w[0] + w[1]) % 0x10000], [], [0, 0])
  {
    hide Sound;
    var m1 := Take(w, m);
    assert m1 == Merge([], [], [0]);
    assert Take(w, m1) == Merge([], [], [0, 0]);
  }

  /** The array while inner node `|m.inner|` is being made; its slot holds the weight `x`. */
  ghost predicate HoldsPart(keys: seq<nat>, w: seq<nat>, m: Merge, x: nat)
  {
    && |keys| == |w|
    && |m.up| <= |m.inner| < |m.leafUp| <= |w|
    && (forall i :: 0 <= i < |m.up| ==> keys[i] == m.up[i])
    && (forall i :: |m.up| <= i < |m.inner| ==> keys[i] == m.inner[i])
    && keys[|m.inner|] == x
    && (forall k :: |m.leafUp| <= k < |w| ==> keys[k] == w[k])
  }

  method JoinNext(keys: array<nat>, ghost w: seq<nat>, ghost m: Merge, r: nat, l: nat, next: nat)
    returns (root: nat, leaf: nat)
    requires Sound(m, |w|, 0) && Holds(keys[..], w, m)
    requires next == |m.inner| && 1 <= next < |w| - 1
    requires r == |m.up| && l == |m.leafUp|
    modifies keys
    ensures Holds(keys[..], w, Join(w, m))
    ensures root == |Join(w, m).up| && leaf == |Join(w, m).leafUp|
  {
    hide Sound;
    root, leaf := TakeFirst(keys, w, m, r, l, next);
    TakeSound(w, m, 0);
    root, leaf := TakeSecond(keys, w, Take(w, m), Lightest(w, m), root, leaf, next);
  }

  method TakeFirst(keys: array<nat>, ghost w: seq<nat>, ghost m: Merge, r: nat, l: nat, next: nat)
    returns (root: nat, leaf: nat)
    requires Sound(m, |w|, 0) && Holds(keys[..], w, m)
    requires next == |m.inner| && 1 <= next < |w| - 1
    requires r == |m.up| && l == |m.leafUp|
    modifies keys
    ensures HoldsPart(keys[..], w, Take(w, m), Lightest(w, m))
    ensures root == |Take(w, m).up| && leaf == |Take(w, m).leafUp|
  {
    root, leaf := r, l;
    if leaf >= keys.Length || keys[root] < keys[leaf] {
      keys[next] := keys[root];
      keys[root] := next;
      root := root + 1;
    } else {
      keys[next] := keys[leaf];
      leaf := leaf + 1;
    }
  }

  method TakeSecond(keys: array<nat>, ghost w: seq<nat>, ghost m: Merge, ghost x: nat,
                    r: nat, l: nat, next: nat)
    returns (root: nat, leaf: nat)
    requires Sound(m, |w|, 1) && HoldsPart(keys[..], w, m, x)
    requires next == |m.inner| && 1 <= next < |w| - 1
    requires r == |m.up| && l == |m.leafUp|
    modifies keys
    ensures var m' := Take(w, m).(inner := m.inner + [(x + Lightest(w, m)) % 0x10000]);
            Holds(keys[..], w, m') && root == |m'.up| && leaf == |m'.leafUp|
  {
    root, leaf := r, l;
    if leaf >= keys.Length || (root < next && keys[root] < keys[leaf]) {
      keys[next] := (keys[next] + keys[root]) % 0x10000;
      keys[root] := next;
      root := root + 1;
    } else {
      keys[next] := (keys[next] + keys[leaf]) % 0x10000;
      leaf := leaf + 1;
    }
  }

  /** Second phase: parent indices become depths, from the root down. */
  method ParentsToDepths(keys: array<nat>, ghost up: seq<nat>)
    requires keys.Length == |up| + 2 && Upward(up)
    requires forall i :: 0 <= i < |up| ==> keys[i] == up[i]
    modifies keys
    ensures forall v :: 0 <= v <= |up| ==> keys[v] == Depth(up, v)
  {
    var n := keys.Length;
    keys[n - 2] := 0;
    var next := n - 3;
    while next >= 0
      invariant -1 <= next <= n - 3
      invariant forall i :: 0 <= i <= next ==> keys[i] == up[i]
      invariant forall v :: next < v <= |up| ==> keys[v] == Depth(up, v)
    {
      keys[next] := keys[keys[next]] + 1;
      next := next - 1;
    }
  }

  /** The number of nodes at depth `d`, leaves included. */
  ghost function Available(up: seq<nat>, d: nat): nat
    requires Upward(up)
  {
    if d == 0 then 1 else 2 * InnerAt(up, d - 1)
  }

  /** The leaves of the levels above `d`, and `extra` leaves of level `d`. */
  ghost predicate Tally(tail: seq<nat>, d: nat, extra: nat, depths: seq<nat>)
  {
    forall e: nat {:trigger Count(tail, e)} ::
      Count(tail, e) == if e < d then Count(depths, e) else if e == d then extra else 0
  }

  /** Those leaves have been written from index `from` on, longest first. */
  ghost predicate Written(keys: seq<nat>, from: int, d: nat, extra: nat, depths: seq<nat>)
  {
    && 0 <= from <= |keys|
    && (forall i :: from <= i < |keys| ==> keys[i] <= d)
    && (forall i, j :: from <= i < j < |keys| ==> keys[i] >= keys[j])
    && Tally(keys[from..], d, extra, depths)
  }

  /** The inner nodes up to `root` are still waiting, and they are those of depth `d` or more. */
  ghost predicate Waiting(keys: seq<nat>, up: seq<nat>, root: int, d: nat)
    requires Upward(up)
  {
    && -1 <= root <= |up| < |keys|
    && (forall v :: 0 <= v <= root ==> keys[v] == Depth(up, v) >= d)
    && (forall v :: root < v <= |up| ==> Depth(up, v) < d)
  }

  /** Third phase: level by level, the places not taken by inner nodes become leaves. */
  method DepthsToLengths(keys: array<nat>, ghost up: seq<nat>, ghost depths: seq<nat>)
    requires Balanced(up, depths) && keys.Length == |up| + 2
    requires forall v :: 0 <= v <= |up| ==> keys[v] == Depth(up, v)
    modifies keys
    ensures NonIncreasing(keys[..])
    ensures forall d: nat :: Count(keys[..], d) == Count(depths, d)
  {
    hide Count;
    hide InnerAt;
    hide Written;
    assert Upward(up);
    hide Balanced;
    hide Upward;
    var avbl, dpth, root, next := 1, 0, keys.Length - 2, keys.Length - 1;
    NothingWritten(keys[..], depths);
    AllWaiting(keys[..], up);
    hide Waiting;
    hide Depth;
    while avbl > 0
      invariant Waiting(keys[..], up, root, dpth)
      invariant Written(keys[..], next + 1, dpth, 0, depths)
      invariant avbl == Available(up, dpth) && next == root + avbl
      invariant avbl == 0 ==> root == -1
      invariant dpth == 0 ==> root == |up|
      decreases root + 1, avbl
    {
      Bounds(keys[..], up, root, dpth, next + 1, dpth, 0, depths);
      var used: nat;
      used, root := TakeLevel(keys, up, root, dpth);
      Bounds(keys[..], up, root, dpth + 1, next + 1, dpth, 0, depths);
      LevelFits(up, depths, dpth);
      next := WriteLevel(keys, up, depths, root, next, dpth, avbl, used);
      avbl := 2 * used;
      dpth := dpth + 1;
    }
    Finished(keys[..], up, depths, dpth);
  }

  lemma AllWaiting(keys: seq<nat>, up: seq<nat>)
    requires Upward(up) && |keys| == |up| + 2 && forall v :: 0 <= v <= |up| ==> keys[v] == Depth(up, v)
    ensures Waiting(keys, up, |up|, 0)
  {
  }

  lemma NothingWritten(keys: seq<nat>, depths: seq<nat>)
    ensures Written(keys, |keys|, 0, 0, depths)
  {
    assert keys[|keys|..] == [];
  }

  method TakeLevel(keys: array<nat>, ghost up: seq<nat>, r: int, dpth: nat) returns (used: nat, root: int)
    requires Upward(up) && Waiting(keys[..], up, r, dpth)
    requires dpth == 0 ==> r == |up|
    ensures Waiting(keys[..], up, root, dpth + 1)
    ensures used == r - root == InnerAt(up, dpth)
    ensures used == 0 ==> root == -1
  {
    used, root := 0, r;
    while root >= 0 && keys[root] == dpth
      invariant -1 <= root <= r && used == r - root
      invariant forall v :: root < v <= r ==> Depth(up, v) == dpth
    {
      used := used + 1;
      root := root - 1;
    }
    LevelTaken(up, r, root, dpth);
  }

  lemma LevelTaken(up: seq<nat>, r: int, root: int, d: nat)
    requires Upward(up) && -1 <= root <= r <= |up| && (d == 0 ==> r == |up|)
    requires forall v :: 0 <= v <= r ==> Depth(up, v) >= d
    requires forall v :: r < v <= |up| ==> Depth(up, v) < d
    requires forall v :: root < v <= r ==> Depth(up, v) == d
    requires root >= 0 ==> Depth(up, root) != d
    ensures forall v :: 0 <= v <= root ==> Depth(up, v) > d
    ensures InnerAt(up, d) == r - root
    ensures r == root ==> root == -1
  {
    forall v | 0 <= v <= root ensures Depth(up, v) > d {
      DepthMono(up, v, root);
    }
    HitsBetween(AtDepth(up, d), root + 1, r + 1, |up| + 1);
  }

  lemma LevelFits(up: seq<nat>, depths: seq<nat>, d: nat)
    requires Balanced(up, depths)
    ensures Available(up, d) == InnerAt(up, d) + Count(depths, d)
  {
    if d == 0 {
      HitsBetween(AtDepth(up, 0), |up|, |up| + 1, |up| + 1);
    }
  }

  method WriteLevel(keys: array<nat>, ghost up: seq<nat>, ghost depths: seq<nat>,
                    ghost root: int, n: int, dpth: nat, a: nat, used: nat)
    returns (next: int)
    requires Upward(up) && Waiting(keys[..], up, root, dpth + 1)
    requires Written(keys[..], n + 1, dpth, 0, depths)
    requires n == root + a + used && a == used + Count(depths, dpth)
    modifies keys
    ensures Waiting(keys[..], up, root, dpth + 1)
    ensures Written(keys[..], next + 1, dpth + 1, 0, depths)
    ensures next == root + 2 * used
  {
    hide Waiting;
    hide Written;
    hide Upward;
    hide Count;
    var avbl := a;
    next := n;
    ghost var from, extra: nat := n + 1, 0;
    while avbl > used
      invariant used <= avbl <= a && extra == a - avbl
      invariant next == root + avbl + used && from == next + 1
      invariant Waiting(keys[..], up, root, dpth + 1)
      invariant Written(keys[..], from, dpth, extra, depths)
    {
      ghost var before := keys[..];
      Bounds(before, up, root, dpth + 1, from, dpth, extra, depths);
      keys[next] := dpth;
      assert keys[..] == before[next := dpth];
      WriteOne(before, keys[..], next, from, dpth, extra, depths);
      StillWaiting(before, keys[..], up, root, dpth + 1, next);
      from, extra := next, extra + 1;
      next := next - 1;
      avbl := avbl - 1;
    }
    LevelWritten(keys[..], from, dpth, extra, depths);
  }

  lemma Bounds(keys: seq<nat>, up: seq<nat>, root: int, d: nat, from: int, e: nat, extra: nat, depths: seq<nat>)
    requires Upward(up) && Waiting(keys, up, root, d) && Written(keys, from, e, extra, depths)
    ensures -1 <= root <= |up| < |keys| && 0 <= from <= |keys|
  {
  }

  lemma StillWaiting(before: seq<nat>, keys: seq<nat>, up: seq<nat>, root: int, d: nat, next: int)
    requires Upward(up) && Waiting(before, up, root, d) && root < next < |before|
    requires 0 <= next && |keys| == |before| && keys[..next] == before[..next]
    ensures Waiting(keys, up, root, d)
  {
    assert forall v :: 0 <= v < next ==> keys[v] == keys[..next][v] == before[..next][v];
  }

  lemma WriteOne(before: seq<nat>, keys: seq<nat>, next: int, from: int, d: nat, extra: nat, depths: seq<nat>)
    requires Written(before, from, d, extra, depths) && from == next + 1 && 0 <= next < |keys| == |before|
    requires keys == before[next := d]
    ensures Written(keys, next, d, extra + 1, depths)
  {
    var tail := before[next + 1..];
    assert keys[next..] == [d] + tail;
    TallyOne(tail, d, extra, depths);
  }

  lemma TallyOne(tail: seq<nat>, d: nat, extra: nat, depths: seq<nat>)
    requires Tally(tail, d, extra, depths)
    ensures Tally([d] + tail, d, extra + 1, depths)
  {
    forall e: nat
      ensures Count([d] + tail, e) == if e < d then Count(depths, e) else if e == d then extra + 1 else 0
    {
      CountPrepend(d, tail, e);
    }
  }

  lemma LevelWritten(keys: seq<nat>, from: int, d: nat, extra: nat, depths: seq<nat>)
    requires Written(keys, from, d, extra, depths) && extra == Count(depths, d)
    ensures Written(keys, from, d + 1, 0, depths)
  {
  }

  lemma {:induction false} CountPrepend(x: nat, s: seq<nat>, e: nat)
    ensures Count([x] + s, e) == Count(s, e) + if x == e then 1 else 0
  {
    if s == [] {
      assert [x] + s == [x] && [x][..0] == [];
    } else {
      var n := |s| - 1;
      assert ([x] + s)[..n + 1] == [x] + s[..n];
      CountPrepend(x, s[..n], e);
    }
  }

  lemma Finished(keys: seq<nat>, up: seq<nat>, depths: seq<nat>, d: nat)
    requires Balanced(up, depths) && Waiting(keys, up, -1, d) && Written(keys, 0, d, 0, depths)
    requires Available(up, d) == 0
    ensures NonIncreasing(keys) && forall e: nat :: Count(keys, e) == Count(depths, e)
  {
    assert keys[0..] == keys;
    forall e: nat | e >= d ensures Count(depths, e) == 0 {
      if e > d {
        HitsBetween(AtDepth(up, e - 1), 0, 0, |up| + 1);
      }
    }
  }
}
