/** The meaning of the decompressor's two-level Huffman table.

    `look` is indexed by the next 10 bits of the stream, first bit lowest.  An entry is
    - positive, `512 * length + symbol`, below the code of a symbol of at most 10 bits,
    - negative, `-1 - 2 * k`, when the 10 bits are the beginning of longer codes; node `k` of the
      tree then occupies `tree[2 * k]` and `tree[2 * k + 1]`, one slot for each value of the next
      bit, and a slot holds a symbol or another negative link,
    - zero when nothing has been entered there.
    Symbol 0 in the tree is stored as 0 too, so an occupied slot can look empty: that this never
    misleads the builder is part of what is proved.  The ghost map `nodes` names each tree node by
    the bits that lead to it. */
module InflateTrie {
  import opened Bits
  import opened CanonicalCode

  const LOOKUP_BITS: nat := 10
  const LOOKUP_SIZE: nat := 1024
  const TREE_SIZE: nat := 576
  const MAX_SYMBOLS: nat := 288

  datatype Trie = Trie(look: seq<int>, tree: seq<int>, nodes: map<Path, nat>)

  function Parent(p: Path): Path
    requires p != []
  {
    p[..|p| - 1]
  }

  function Last(p: Path): bool
    requires p != []
  {
    p[|p| - 1]
  }

  /** `p` names an entry of the lookup table or a slot of a tree node. */
  ghost predicate Place(nodes: map<Path, nat>, p: Path)
  {
    |p| == LOOKUP_BITS || (|p| > LOOKUP_BITS && Parent(p) in nodes)
  }

  ghost predicate WellFormed(t: Trie)
  {
    && |t.look| == LOOKUP_SIZE
    && |t.tree| == TREE_SIZE
    && 2 * |t.nodes| <= TREE_SIZE
    && (forall p {:trigger t.nodes[p]} :: p in t.nodes ==> t.nodes[p] < |t.nodes|)
    && (forall p {:trigger Place(t.nodes, p)} :: p in t.nodes ==> Place(t.nodes, p) && |p| < MAX_LENGTH)
    && (forall p, q {:trigger t.nodes[p], t.nodes[q]} ::
          p in t.nodes && q in t.nodes && t.nodes[p] == t.nodes[q] ==> p == q)
  }

  ghost function SlotIndex(t: Trie, p: Path): (k: nat)
    requires WellFormed(t) && Place(t.nodes, p)
    ensures k < if |p| == LOOKUP_BITS then LOOKUP_SIZE else 2 * |t.nodes|
  {
    if |p| == LOOKUP_BITS then LookIndex(p) else 2 * t.nodes[Parent(p)] + Bit(Last(p))
  }

  function LookIndex(p: Path): (k: nat)
    requires |p| == LOOKUP_BITS
    ensures k < LOOKUP_SIZE
  {
    LsbBound(p);
    assert Pow2(LOOKUP_BITS) == LOOKUP_SIZE;
    Lsb(p)
  }

  ghost function Entry(t: Trie, p: Path): int
    requires WellFormed(t) && Place(t.nodes, p)
  {
    if |p| == LOOKUP_BITS then t.look[SlotIndex(t, p)] else t.tree[SlotIndex(t, p)]
  }

  ghost function SetEntry(t: Trie, p: Path, v: int): Trie
    requires WellFormed(t) && Place(t.nodes, p)
  {
    if |p| == LOOKUP_BITS then t.(look := t.look[SlotIndex(t, p) := v])
    else t.(tree := t.tree[SlotIndex(t, p) := v])
  }

  /** Different places never share storage. */
  lemma PlacesApart(t: Trie, p: Path, q: Path)
    requires WellFormed(t) && Place(t.nodes, p) && Place(t.nodes, q)
    requires |p| == LOOKUP_BITS <==> |q| == LOOKUP_BITS
    requires SlotIndex(t, p) == SlotIndex(t, q)
    ensures p == q
  {
    if |p| == LOOKUP_BITS {
      LsbInjective(p, q);
    } else {
      assert Parent(p) == Parent(q) && Last(p) == Last(q);
      assert p == Parent(p) + [Last(p)];
      assert q == Parent(q) + [Last(q)];
    }
  }

  lemma EntryOfSet(t: Trie, p: Path, v: int, q: Path)
    requires WellFormed(t) && Place(t.nodes, p) && Place(t.nodes, q)
    ensures WellFormed(SetEntry(t, p, v))
    ensures Entry(SetEntry(t, p, v), q) == if p == q then v else Entry(t, q)
  {
    if (|p| == LOOKUP_BITS <==> |q| == LOOKUP_BITS) && SlotIndex(t, p) == SlotIndex(t, q) {
      PlacesApart(t, p, q);
    }
  }

  /** The link to tree node `k`. */
  function Link(k: nat): int
  {
    -1 - 2 * k
  }

  function LookValue(lens: seq<nat>, s: nat): int
    requires s < |lens|
  {
    512 * lens[s] + s
  }

  ghost predicate Short(lens: seq<nat>, s: nat)
  {
    Used(lens, s) && lens[s] <= LOOKUP_BITS
  }

  ghost predicate Long(lens: seq<nat>, s: nat)
  {
    Used(lens, s) && lens[s] > LOOKUP_BITS
  }

  /** `p` is a proper beginning of a code. */
  ghost predicate Inner(lens: seq<nat>, p: Path, s: nat)
  {
    Used(lens, s) && p <= CodePath(lens, s) && |p| < lens[s]
  }

  ghost predicate OnTheWay(lens: seq<nat>, p: Path, seen: nat)
  {
    exists s: nat :: s < seen && Inner(lens, p, s)
  }

  /** Some code among those of the symbols below `done` begins `p`. */
  ghost predicate Below(lens: seq<nat>, p: Path, done: nat)
  {
    exists s: nat :: s < done && Begins(lens, s, p)
  }

  /** The entries are right for the symbols below `done`, and tree nodes exist only on the way to
      symbols below `seen`. */
  ghost predicate Built(t: Trie, lens: seq<nat>, done: nat, seen: nat)
  {
    && WellFormed(t)
    && Fits(lens)
    && done <= seen <= |lens| <= MAX_SYMBOLS
    && (forall p {:trigger Entry(t, p)} :: Place(t.nodes, p) && p in t.nodes ==> Entry(t, p) == Link(t.nodes[p]))
    && (forall p {:trigger OnTheWay(lens, p, seen)} :: p in t.nodes ==> OnTheWay(lens, p, seen))
    && (forall p {:trigger Entry(t, p)} :: Place(t.nodes, p) && Entry(t, p) < 0 ==> p in t.nodes)
    && (forall p {:trigger Entry(t, p)} :: Place(t.nodes, p) && Entry(t, p) > 0 ==> Below(lens, p, done))
    && (forall s: nat, p {:trigger Short(lens, s), Entry(t, p)} ::
          s < done && Short(lens, s) && |p| == LOOKUP_BITS && CodePath(lens, s) <= p ==>
            Entry(t, p) == LookValue(lens, s))
    && (forall s: nat {:trigger Long(lens, s)} ::
          s < done && Long(lens, s) ==>
            Place(t.nodes, CodePath(lens, s)) && Entry(t, CodePath(lens, s)) == s)
    && (forall k :: 2 * |t.nodes| <= k < TREE_SIZE ==> t.tree[k] == 0)
  }

  // ----- the tree never outgrows its array

  function Trues(n: nat): (p: Path)
    ensures |p| == n && forall k :: 0 <= k < n ==> p[k]
  {
    seq(n, _ => true)
  }

  /** The last window in the left half of those that begin with `p`. */
  function LastLeft(p: Path): (w: Path)
    requires |p| < MAX_LENGTH
    ensures |w| == MAX_LENGTH && p <= w && !w[|p|]
    ensures forall k :: |p| < k < MAX_LENGTH ==> w[k]
  {
    p + [false] + Trues(MAX_LENGTH - 1 - |p|)
  }

  ghost predicate AllInner(lens: seq<nat>, nodes: set<Path>)
  {
    forall p :: p in nodes ==> |p| < MAX_LENGTH && exists s: nat :: Inner(lens, p, s)
  }

  lemma OwnerExists(lens: seq<nat>, w: Path)
    requires Complete(lens) && |w| == MAX_LENGTH
    ensures exists i: nat :: Begins(lens, i, w)
  {
    CompleteIffCovering(lens);
  }

  ghost function Owner(lens: seq<nat>, w: Path): (i: nat)
    requires Complete(lens) && |w| == MAX_LENGTH
    ensures Begins(lens, i, w)
  {
    OwnerExists(lens, w);
    var i: nat :| Begins(lens, i, w);
    i
  }

  lemma OwnerEnds(lens: seq<nat>, p: Path, s: nat)
    requires Complete(lens) && |p| < MAX_LENGTH && Inner(lens, p, s)
    ensures var i := Owner(lens, LastLeft(p));
            lens[i] > |p| && LastLeft(p) == CodePath(lens, i) + Trues(MAX_LENGTH - lens[i])
  {
    var w := LastLeft(p);
    var i := Owner(lens, w);
    if lens[i] <= |p| {
      assert CodePath(lens, i) <= p;
      if i != s {
        PrefixFree(lens, i, s);
      }
    }
    assert w == w[..lens[i]] + w[lens[i]..];
    assert w[lens[i]..] == Trues(MAX_LENGTH - lens[i]);
  }

  lemma LastLeftInjective(p: Path, q: Path)
    requires |p| < MAX_LENGTH && |q| < MAX_LENGTH && LastLeft(p) == LastLeft(q)
    ensures p == q
  {
    var w := LastLeft(p);
    assert !w[|p|] && !w[|q|];
    assert p == w[..|p|] && q == w[..|p|];
  }

  lemma {:induction false} InjectionBound(nodes: set<Path>, f: Path -> nat, targets: set<nat>)
    requires forall p :: p in nodes ==> f(p) in targets
    requires forall p, q :: p in nodes && q in nodes && f(p) == f(q) ==> p == q
    ensures |nodes| <= |targets|
  {
    if nodes != {} {
      var p :| p in nodes;
      InjectionBound(nodes - {p}, f, targets - {f(p)});
    }
  }

  ghost function Range(n: nat): (r: set<nat>)
    ensures |r| == n && forall i: nat :: i in r <==> i < n
  {
    if n == 0 then {} else Range(n - 1) + {n - 1}
  }

  /** The symbol whose last window is `LastLeft(p)`. */
  ghost function Predecessor(lens: seq<nat>, p: Path): nat
    requires Complete(lens)
  {
    if |p| < MAX_LENGTH then Owner(lens, LastLeft(p)) else 0
  }

  lemma PredecessorNotLast(lens: seq<nat>, p: Path, s: nat)
    requires Complete(lens) && |p| < MAX_LENGTH && Inner(lens, p, s)
    ensures Predecessor(lens, p) < |lens|
    ensures Predecessor(lens, p) != Owner(lens, Trues(MAX_LENGTH))
  {
    OwnerEnds(lens, p, s);
    var i := Predecessor(lens, p);
    assert CodePath(lens, i)[|p|] == LastLeft(p)[|p|];
    var last := Owner(lens, Trues(MAX_LENGTH));
    assert forall k :: 0 <= k < lens[last] ==> CodePath(lens, last)[k] == Trues(MAX_LENGTH)[k];
  }

  lemma PredecessorInjective(lens: seq<nat>, p: Path, q: Path)
    requires Complete(lens) && AllInner(lens, {p, q})
    requires Predecessor(lens, p) == Predecessor(lens, q)
    ensures p == q
  {
    var s: nat :| Inner(lens, p, s);
    OwnerEnds(lens, p, s);
    var r: nat :| Inner(lens, q, r);
    OwnerEnds(lens, q, r);
    LastLeftInjective(p, q);
  }

  /** A complete code has fewer branching points than symbols. */
  lemma NodesOfCompleteCode(lens: seq<nat>, nodes: set<Path>)
    requires Complete(lens) && AllInner(lens, nodes)
    ensures |nodes| < |lens|
  {
    var f := (p: Path) => Predecessor(lens, p);
    var last := Owner(lens, Trues(MAX_LENGTH));
    forall p | p in nodes ensures f(p) < |lens| && f(p) != last {
      var s: nat :| Inner(lens, p, s);
      PredecessorNotLast(lens, p, s);
    }
    forall p, q | p in nodes && q in nodes && f(p) == f(q) ensures p == q {
      PredecessorInjective(lens, p, q);
    }
    InjectionBound(nodes, f, Range(|lens|) - {last});
  }

  /** Any set of branching points at depth 10 or more fits the tree array. */
  ghost predicate Roomy(lens: seq<nat>)
  {
    forall nodes: set<Path> :: AllInner(lens, nodes) && (forall p :: p in nodes ==> |p| >= LOOKUP_BITS) ==>
                                 2 * |nodes| <= TREE_SIZE
  }

  lemma CompleteIsRoomy(lens: seq<nat>)
    requires Complete(lens) && |lens| <= MAX_SYMBOLS
    ensures Roomy(lens)
  {
    forall nodes: set<Path> | AllInner(lens, nodes) ensures 2 * |nodes| <= TREE_SIZE {
      NodesOfCompleteCode(lens, nodes);
    }
  }

  /** With a single used symbol the branching points are beginnings of one code. */
  lemma SingleIsRoomy(lens: seq<nat>)
    requires Lengths(lens)
    requires forall i: nat, j: nat :: Used(lens, i) && Used(lens, j) ==> i == j
    ensures Roomy(lens)
  {
    hide CodePath;
    forall nodes: set<Path> |
      AllInner(lens, nodes) && (forall p :: p in nodes ==> |p| >= LOOKUP_BITS)
      ensures 2 * |nodes| <= TREE_SIZE
    {
      forall p, q | p in nodes && q in nodes && |p| == |q| ensures p == q {
        var s: nat :| Inner(lens, p, s);
        var r: nat :| Inner(lens, q, r);
        assert p == CodePath(lens, s)[..|p|];
      }
      InjectionBound(nodes, (p: Path) => |p|, Range(MAX_LENGTH));
    }
  }

  // ----- the steps of the builder

  ghost function EmptyTrie(): Trie
  {
    Trie(seq(LOOKUP_SIZE, _ => 0), seq(TREE_SIZE, _ => 0), map[])
  }

  lemma EmptyBuilt(lens: seq<nat>)
    requires Fits(lens) && |lens| <= MAX_SYMBOLS
    ensures Built(EmptyTrie(), lens, 0, 0)
  {
  }

  lemma BuiltSeen(t: Trie, lens: seq<nat>, s: nat)
    requires Built(t, lens, s, s) && s < |lens|
    ensures Built(t, lens, s, s + 1)
  {
    hide CodePath;
    hide Kraft;
    forall p | p in t.nodes ensures OnTheWay(lens, p, s + 1) {
      assert OnTheWay(lens, p, s);
    }
  }

  lemma BelowMore(lens: seq<nat>, p: Path, done: nat)
    requires Below(lens, p, done)
    ensures Below(lens, p, done + 1)
  {
    var s: nat :| s < done && Begins(lens, s, p);
    assert s < done + 1 && Begins(lens, s, p);
  }

  lemma BuiltUnused(t: Trie, lens: seq<nat>, s: nat)
    requires Built(t, lens, s, s) && s < |lens| && lens[s] == 0
    ensures Built(t, lens, s + 1, s + 1)
  {
    hide CodePath;
    hide Kraft;
    BuiltSeen(t, lens, s);
    forall p | Place(t.nodes, p) && Entry(t, p) > 0 ensures Below(lens, p, s + 1) {
      BelowMore(lens, p, s);
    }
  }

  /** On the way to a new code the builder finds links or empty places, never another symbol. */
  lemma NoSymbolOnTheWay(t: Trie, lens: seq<nat>, done: nat, seen: nat, p: Path, s: nat)
    requires Built(t, lens, done, seen) && done <= s && Inner(lens, p, s) && Place(t.nodes, p)
    ensures Entry(t, p) <= 0
    ensures forall r: nat :: r < done && Long(lens, r) ==> CodePath(lens, r) != p
  {
    hide CodePath;
    hide Kraft;
    if Entry(t, p) > 0 {
      var r: nat :| r < done && Begins(lens, r, p);
      PrefixFree(lens, r, s);
    }
    forall r: nat | r < done && Long(lens, r) ensures CodePath(lens, r) != p {
      PrefixFree(lens, r, s);
    }
  }

  /** A place on the way to a new code is empty or holds the link to its node. */
  lemma LinkOnTheWay(t: Trie, lens: seq<nat>, s: nat, p: Path)
    requires Built(t, lens, s, s + 1) && Inner(lens, p, s) && Place(t.nodes, p)
    ensures WellFormed(t) && |p| < MAX_LENGTH
    ensures Entry(t, p) != 0 ==> p in t.nodes && Entry(t, p) == Link(t.nodes[p])
    ensures Entry(t, p) == 0 ==> p !in t.nodes
  {
    NoSymbolOnTheWay(t, lens, s, s + 1, p, s);
  }

  ghost function Grow(t: Trie, p: Path): Trie
    requires WellFormed(t) && Place(t.nodes, p)
  {
    SetEntry(t, p, Link(|t.nodes|)).(nodes := t.nodes[p := |t.nodes|])
  }

  lemma GrowWellFormed(t: Trie, p: Path)
    requires WellFormed(t) && Place(t.nodes, p) && p !in t.nodes && |p| < MAX_LENGTH
    requires 2 * |t.nodes| + 2 <= TREE_SIZE
    ensures WellFormed(Grow(t, p))
    ensures forall q :: Place(Grow(t, p).nodes, q) <==> Place(t.nodes, q) || (q != [] && Parent(q) == p)
  {
    var nodes := t.nodes[p := |t.nodes|];
    assert nodes.Keys == t.nodes.Keys + {p};
    assert |nodes| == |nodes.Keys| && |t.nodes| == |t.nodes.Keys|;
    forall q | q in nodes ensures Place(nodes, q) && |q| < MAX_LENGTH {
      assert q != p ==> Place(t.nodes, q);
    }
  }

  lemma EntryOfGrow(t: Trie, p: Path, q: Path)
    requires WellFormed(t) && Place(t.nodes, p) && WellFormed(Grow(t, p)) && p !in t.nodes
    requires Place(Grow(t, p).nodes, q)
    requires |p| < MAX_LENGTH && 2 * |t.nodes| + 2 <= TREE_SIZE
    requires forall k :: 2 * |t.nodes| <= k < TREE_SIZE ==> t.tree[k] == 0
    ensures if q == p then Entry(Grow(t, p), q) == Link(|t.nodes|)
            else if Place(t.nodes, q) then Entry(Grow(t, p), q) == Entry(t, q)
            else Parent(q) == p && Entry(Grow(t, p), q) == 0
  {
    GrowWellFormed(t, p);
    if Place(t.nodes, q) {
      EntryOfSet(t, p, Link(|t.nodes|), q);
    }
  }

  lemma RoomToGrow(t: Trie, lens: seq<nat>, done: nat, seen: nat, p: Path, s: nat)
    requires Built(t, lens, done, seen) && Roomy(lens)
    requires Place(t.nodes, p) && p !in t.nodes && Inner(lens, p, s)
    ensures 2 * |t.nodes| + 2 <= TREE_SIZE
  {
    forall q | q in t.nodes
      ensures LOOKUP_BITS <= |q| < MAX_LENGTH && exists r: nat :: Inner(lens, q, r)
    {
      assert Place(t.nodes, q) && OnTheWay(lens, q, seen);
    }
    RoomForOneMore(lens, t.nodes.Keys, p, s);
    assert |t.nodes| == |t.nodes.Keys|;
  }

  lemma RoomForOneMore(lens: seq<nat>, nodes: set<Path>, p: Path, s: nat)
    requires Roomy(lens) && AllInner(lens, nodes) && p !in nodes && Inner(lens, p, s)
    requires forall q :: q in nodes + {p} ==> LOOKUP_BITS <= |q| < MAX_LENGTH
    ensures 2 * |nodes| + 2 <= TREE_SIZE
  {
    var all := nodes + {p};
    assert AllInner(lens, all);
    assert |all| == |nodes| + 1;
  }

  /** An empty place on the way to symbol `s` may become a node. */
  lemma GrowBuilt(t: Trie, lens: seq<nat>, p: Path, s: nat)
    requires Built(t, lens, s, s + 1) && Roomy(lens)
    requires Place(t.nodes, p) && Inner(lens, p, s) && Entry(t, p) == 0
    ensures Built(Grow(t, p), lens, s, s + 1)
  {
    hide CodePath;
    hide Kraft;
    RoomToGrow(t, lens, s, s + 1, p, s);
    GrowWellFormed(t, p);
    GrowOnTheWay(t, lens, p, s);
    GrowPlaces(t, lens, p, s);
    GrowSymbols(t, lens, p, s);
  }

  lemma GrowOnTheWay(t: Trie, lens: seq<nat>, p: Path, s: nat)
    requires Built(t, lens, s, s + 1) && Place(t.nodes, p) && Inner(lens, p, s)
    ensures forall q :: q in Grow(t, p).nodes ==> OnTheWay(lens, q, s + 1)
  {
    assert s < s + 1 && Inner(lens, p, s);
    forall q | q in Grow(t, p).nodes ensures OnTheWay(lens, q, s + 1) {
      assert q != p ==> OnTheWay(lens, q, s + 1);
    }
  }

  lemma GrowPlaces(t: Trie, lens: seq<nat>, p: Path, s: nat)
    requires Built(t, lens, s, s + 1) && 2 * |t.nodes| + 2 <= TREE_SIZE
    requires Place(t.nodes, p) && Inner(lens, p, s) && Entry(t, p) == 0
    requires WellFormed(Grow(t, p))
    ensures forall q {:trigger Entry(Grow(t, p), q)} :: Place(Grow(t, p).nodes, q) ==>
              && (q in Grow(t, p).nodes ==> Entry(Grow(t, p), q) == Link(Grow(t, p).nodes[q]))
              && (Entry(Grow(t, p), q) < 0 ==> q in Grow(t, p).nodes)
              && (Entry(Grow(t, p), q) > 0 ==> Below(lens, q, s))
  {
    var t' := Grow(t, p);
    forall q | Place(t'.nodes, q)
      ensures q in t'.nodes ==> Entry(t', q) == Link(t'.nodes[q])
      ensures Entry(t', q) < 0 ==> q in t'.nodes
      ensures Entry(t', q) > 0 ==> Below(lens, q, s)
    {
      EntryOfGrow(t, p, q);
      assert q in t.nodes ==> Place(t.nodes, q);
    }
  }

  lemma GrowSymbols(t: Trie, lens: seq<nat>, p: Path, s: nat)
    requires Built(t, lens, s, s + 1) && 2 * |t.nodes| + 2 <= TREE_SIZE
    requires Place(t.nodes, p) && Inner(lens, p, s) && Entry(t, p) == 0
    requires WellFormed(Grow(t, p))
    ensures forall r: nat, q {:trigger Short(lens, r), Entry(Grow(t, p), q)} ::
              r < s && Short(lens, r) && |q| == LOOKUP_BITS && CodePath(lens, r) <= q ==>
                Entry(Grow(t, p), q) == LookValue(lens, r)
    ensures forall r: nat {:trigger Long(lens, r)} :: r < s && Long(lens, r) ==>
              Place(Grow(t, p).nodes, CodePath(lens, r)) && Entry(Grow(t, p), CodePath(lens, r)) == r
  {
    hide CodePath;
    hide Kraft;
    var t' := Grow(t, p);
    forall r: nat, q | r < s && Short(lens, r) && |q| == LOOKUP_BITS && CodePath(lens, r) <= q
      ensures Entry(t', q) == LookValue(lens, r)
    {
      EntryOfGrow(t, p, q);
      assert Entry(t, q) == LookValue(lens, r);
    }
    NoSymbolOnTheWay(t, lens, s, s + 1, p, s);
    forall r: nat | r < s && Long(lens, r)
      ensures Place(t'.nodes, CodePath(lens, r)) && Entry(t', CodePath(lens, r)) == r
    {
      GrowWellFormed(t, p);
      EntryOfGrow(t, p, CodePath(lens, r));
    }
  }

  /** The place of a long code receives its symbol. */
  lemma PutBuilt(t: Trie, lens: seq<nat>, s: nat)
    requires Built(t, lens, s, s + 1) && Long(lens, s) && Place(t.nodes, CodePath(lens, s))
    ensures Built(SetEntry(t, CodePath(lens, s), s), lens, s + 1, s + 1)
  {
    hide CodePath;
    hide Kraft;
    var p := CodePath(lens, s);
    var t' := SetEntry(t, p, s);
    EntryOfSet(t, p, s, p);
    if p in t.nodes {
      assert OnTheWay(lens, p, s + 1);
      var r: nat :| r < s + 1 && Inner(lens, p, r);
      PrefixFree(lens, s, r);
    }
    forall q | Place(t.nodes, q)
      ensures q in t.nodes ==> Entry(t', q) == Link(t.nodes[q])
      ensures Entry(t', q) < 0 ==> q in t.nodes
      ensures Entry(t', q) > 0 ==> Below(lens, q, s + 1)
    {
      EntryOfSet(t, p, s, q);
      if q == p {
        assert s < s + 1 && Begins(lens, s, q);
      } else if Entry(t, q) > 0 {
        BelowMore(lens, q, s);
      }
    }
    forall r: nat, q | r < s + 1 && Short(lens, r) && |q| == LOOKUP_BITS && CodePath(lens, r) <= q
      ensures Entry(t', q) == LookValue(lens, r)
    {
      EntryOfSet(t, p, s, q);
      assert Entry(t, q) == LookValue(lens, r);
    }
    forall r: nat | r < s + 1 && Long(lens, r)
      ensures Place(t.nodes, CodePath(lens, r)) && Entry(t', CodePath(lens, r)) == r
    {
      EntryOfSet(t, p, s, CodePath(lens, r));
      if r != s {
        PrefixFree(lens, r, s);
      }
    }
  }

  /** The lookup entries of all windows that begin with `p` set to `v`. */
  ghost function Fill(look: seq<int>, p: Path, v: int): (r: seq<int>)
    requires |look| == LOOKUP_SIZE && |p| <= LOOKUP_BITS
    ensures |r| == LOOKUP_SIZE
  {
    seq(LOOKUP_SIZE, k requires 0 <= k < LOOKUP_SIZE => if Mask(k, |p|) == Lsb(p) then v else look[k])
  }

  lemma EntryOfFill(t: Trie, p: Path, v: int, q: Path)
    requires WellFormed(t) && |p| <= LOOKUP_BITS && Place(t.nodes, q)
    ensures WellFormed(t.(look := Fill(t.look, p, v)))
    ensures Entry(t.(look := Fill(t.look, p, v)), q) ==
            if |q| == LOOKUP_BITS && p <= q then v else Entry(t, q)
  {
    if |q| == LOOKUP_BITS {
      LowLsb(q);
      LowBegins(Lsb(q), p, |q|);
    }
  }

  lemma FillBuilt(t: Trie, lens: seq<nat>, s: nat)
    requires Built(t, lens, s, s) && s < |lens| && Short(lens, s)
    ensures Built(t.(look := Fill(t.look, CodePath(lens, s), LookValue(lens, s))), lens, s + 1, s + 1)
  {
    var p, v := CodePath(lens, s), LookValue(lens, s);
    var t' := t.(look := Fill(t.look, p, v));
    BuiltSeen(t, lens, s);
    assert WellFormed(t');
    forall q | Place(t.nodes, q)
      ensures q in t.nodes ==> Entry(t', q) == Link(t.nodes[q])
      ensures Entry(t', q) < 0 ==> q in t.nodes
      ensures Entry(t', q) > 0 ==> Below(lens, q, s + 1)
    {
      EntryOfFill(t, p, v, q);
      if q in t.nodes && p <= q {
        assert OnTheWay(lens, q, s);
        var r: nat :| r < s && Inner(lens, q, r);
        PrefixFree(lens, s, r);
      }
      if p <= q {
        assert s < s + 1 && Begins(lens, s, q);
      } else if Entry(t, q) > 0 {
        BelowMore(lens, q, s);
      }
    }
    forall r: nat, q | r < s + 1 && Short(lens, r) && |q| == LOOKUP_BITS && CodePath(lens, r) <= q
      ensures Entry(t', q) == LookValue(lens, r)
    {
      EntryOfFill(t, p, v, q);
      if r != s {
        assert Entry(t, q) == LookValue(lens, r);
        if p <= q {
          SameLine(p, CodePath(lens, r), q);
          PrefixFree(lens, r, s);
          PrefixFree(lens, s, r);
        }
      }
    }
    forall r: nat | r < s + 1 && Long(lens, r)
      ensures Place(t.nodes, CodePath(lens, r)) && Entry(t', CodePath(lens, r)) == r
    {
      EntryOfFill(t, p, v, CodePath(lens, r));
    }
  }

  lemma SameLine(p: Path, q: Path, w: Path)
    requires p <= w && q <= w
    ensures p <= q || q <= p
  {
  }
}
