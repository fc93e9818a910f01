/** The Huffman tables of the decompressor: building one from code lengths and decoding with it. */
module InflateTable {
  import opened Bits
  import opened CanonicalCode
  import opened CodeLoops
  import opened Common
  import opened InflateTrie

  class HuffTable {
    const lookUp: array<int>
    const tree: array<int>
    ghost var lens: seq<nat>
    ghost var nodes: map<Path, nat>

    ghost predicate Sized()
    {
      lookUp.Length == LOOKUP_SIZE && tree.Length == TREE_SIZE && lookUp != tree
    }

    ghost function Abs(): Trie
      reads this, lookUp, tree
    {
      Trie(lookUp[..], tree[..], nodes)
    }

    /** The table is built for the code lengths `lens`. */
    ghost predicate Valid()
      reads this, lookUp, tree
    {
      Sized() && Built(Abs(), lens, |lens|, |lens|)
    }

    constructor ()
      ensures Sized() && fresh(lookUp) && fresh(tree)
    {
      lookUp := new int[LOOKUP_SIZE];
      tree := new int[TREE_SIZE];
    }

    method Clear()
      requires Sized()
      modifies this, lookUp, tree
      ensures Abs() == EmptyTrie()
    {
      for k := 0 to LOOKUP_SIZE
        invariant forall i :: 0 <= i < k ==> lookUp[i] == 0
      {
        lookUp[k] := 0;
      }
      for k := 0 to TREE_SIZE
        invariant forall i :: 0 <= i < LOOKUP_SIZE ==> lookUp[i] == 0
        invariant forall i :: 0 <= i < k ==> tree[i] == 0
      {
        tree[k] := 0;
      }
      nodes := map[];
    }

    /** Enters a code of at most 10 bits under every window that begins with it. */
    method InsertShort(lens: seq<nat>, s: nat, rev: nat)
      requires Sized() && Built(Abs(), lens, s, s) && s < |lens| && Short(lens, s)
      requires rev == Lsb(CodePath(lens, s))
      modifies lookUp
      ensures Built(Abs(), lens, s + 1, s + 1)
    {
      ghost var p, t := CodePath(lens, s), Abs();
      LsbBound(p);
      LsbTake(p, lens[s]);
      assert p[..lens[s]] == p;
      FillEvery(lookUp, rev, lens[s], 512 * lens[s] + s);
      assert lookUp[..] == Fill(t.look, p, LookValue(lens, s));
      FillBuilt(t, lens, s);
    }

    /** Walks to the place of a code of more than 10 bits, making the missing nodes. */
    method InsertLong(lens: seq<nat>, s: nat, rev: nat, next: int) returns (treeNext: int)
      requires Sized() && Built(Abs(), lens, s, s) && Long(lens, s) && Roomy(lens)
      requires rev == Lsb(CodePath(lens, s))
      requires next == Link(|nodes|)
      modifies this`nodes, lookUp, tree
      ensures Built(Abs(), lens, s + 1, s + 1)
      ensures treeNext == Link(|nodes|)
    {
      hide Built;
      hide Roomy;
      hide Lsb;
      hide CodePath;
      hide Kraft;
      ghost var p := CodePath(lens, s);
      BuiltSeen(Abs(), lens, s);
      var cur;
      cur, treeNext := EnterTree(lens, s, rev, next);
      var bits := Shr(rev, LOOKUP_BITS - 1);
      LsbTake(p, LOOKUP_BITS - 1);
      var j := lens[s];
      while j > LOOKUP_BITS + 1
        invariant LOOKUP_BITS < j <= lens[s]
        invariant Built(Abs(), lens, s, s + 1)
        invariant treeNext == Link(|nodes|)
        invariant p[..lens[s] - j + LOOKUP_BITS] in nodes
        invariant cur == Link(nodes[p[..lens[s] - j + LOOKUP_BITS]])
        invariant bits == Lsb(p[lens[s] - j + LOOKUP_BITS - 1..])
      {
        LsbStep(p, lens[s] - j + LOOKUP_BITS);
        bits := bits / 2;
        cur, treeNext := Descend(lens, s, lens[s] - j + LOOKUP_BITS, cur - bits % 2, treeNext);
        j := j - 1;
      }
      LsbStep(p, lens[s] - 1);
      bits := bits / 2;
      PutSymbol(lens, s, cur - bits % 2);
    }

    method PutSymbol(lens: seq<nat>, s: nat, slot: int)
      requires Sized() && Built(Abs(), lens, s, s + 1) && Long(lens, s)
      requires CodePath(lens, s)[..lens[s] - 1] in nodes
      requires slot == Link(nodes[CodePath(lens, s)[..lens[s] - 1]]) - Bit(CodePath(lens, s)[lens[s] - 1])
      modifies tree
      ensures Built(Abs(), lens, s + 1, s + 1)
    {
      ghost var p := CodePath(lens, s);
      assert Parent(p) == p[..lens[s] - 1];
      PutBuilt(Abs(), lens, s);
      ghost var t := SetEntry(Abs(), p, s);
      tree[-slot - 1] := s;
      assert Abs() == t;
    }

    method EnterTree(lens: seq<nat>, s: nat, rev: nat, next: int) returns (cur: int, treeNext: int)
      requires Sized() && Built(Abs(), lens, s, s + 1) && Long(lens, s) && Roomy(lens)
      requires rev == Lsb(CodePath(lens, s))
      requires next == Link(|nodes|)
      modifies this`nodes, lookUp
      ensures Built(Abs(), lens, s, s + 1)
      ensures treeNext == Link(|nodes|)
      ensures CodePath(lens, s)[..LOOKUP_BITS] in nodes
      ensures cur == Link(nodes[CodePath(lens, s)[..LOOKUP_BITS]])
    {
      hide CodePath;
      hide Built;
      ghost var q := CodePath(lens, s)[..LOOKUP_BITS];
      LsbTake(CodePath(lens, s), LOOKUP_BITS);
      assert Mask(rev, LOOKUP_BITS) == LookIndex(q);
      LinkOnTheWay(Abs(), lens, s, q);
      treeNext := next;
      cur := lookUp[Mask(rev, LOOKUP_BITS)];
      assert cur == Entry(Abs(), q);
      if cur == 0 {
        GrowBuilt(Abs(), lens, q, s);
        ghost var t := Grow(Abs(), q);
        RoomToGrow(Abs(), lens, s, s + 1, q, s);
        GrowWellFormed(Abs(), q);
        lookUp[Mask(rev, LOOKUP_BITS)] := treeNext;
        nodes := nodes[q := |nodes|];
        assert Abs() == t;
        cur := treeNext;
        treeNext := treeNext - 2;
        assert nodes.Keys == old(nodes).Keys + {q};
      }
    }

    /** Follows or makes the link at `cur`, the slot reached by the first `k + 1` bits. */
    method Descend(lens: seq<nat>, s: nat, k: nat, slot: int, next: int) returns (cur: int, treeNext: int)
      requires Sized() && Built(Abs(), lens, s, s + 1) && Long(lens, s) && Roomy(lens)
      requires LOOKUP_BITS <= k && k + 1 < lens[s]
      requires CodePath(lens, s)[..k] in nodes
      requires slot == Link(nodes[CodePath(lens, s)[..k]]) - Bit(CodePath(lens, s)[k])
      requires next == Link(|nodes|)
      modifies this`nodes, tree
      ensures Built(Abs(), lens, s, s + 1)
      ensures treeNext == Link(|nodes|)
      ensures CodePath(lens, s)[..k + 1] in nodes
      ensures cur == Link(nodes[CodePath(lens, s)[..k + 1]])
    {
      hide CodePath;
      hide Built;
      ghost var q := CodePath(lens, s)[..k + 1];
      assert Parent(q) == CodePath(lens, s)[..k];
      LinkOnTheWay(Abs(), lens, s, q);
      var i := -slot - 1;
      assert i == SlotIndex(Abs(), q) && tree[i] == Entry(Abs(), q);
      cur, treeNext := tree[i], next;
      if cur == 0 {
        MakeNode(lens, s, q, i, next);
        cur, treeNext := next, next - 2;
      }
    }

    /** Turns the empty slot `i` at place `q` into a link to the next free node. */
    method MakeNode(lens: seq<nat>, s: nat, ghost q: Path, i: nat, next: int)
      requires Sized() && Built(Abs(), lens, s, s + 1) && Roomy(lens)
      requires Inner(lens, q, s) && |q| > LOOKUP_BITS && Place(nodes, q)
      requires i == SlotIndex(Abs(), q) && tree[i] == 0 && next == Link(|nodes|)
      modifies this`nodes, tree
      ensures Built(Abs(), lens, s, s + 1)
      ensures |nodes| == |old(nodes)| + 1 && q in nodes && nodes[q] == |old(nodes)|
    {
      hide Built;
      hide Inner;
      ghost var t := Abs();
      LinkOnTheWay(t, lens, s, q);
      GrowBuilt(t, lens, q, s);
      tree[i] := next;
      nodes := nodes[q := |nodes|];
      assert tree[..] == t.tree[i := next];
      assert nodes.Keys == t.nodes.Keys + {q};
      assert |nodes| == |nodes.Keys| && |t.nodes| == |t.nodes.Keys|;
    }

    /** Builds the table, or fails when two or more codes leave or claim windows twice. */
    method Build(sizes: seq<nat>) returns (ok: bool)
      requires Sized() && Lengths(sizes) && |sizes| <= MAX_SYMBOLS
      modifies this, lookUp, tree
      ensures ok <==> Complete(sizes) || UsedCount(sizes) <= 1
      ensures ok ==> Valid() && lens == sizes
    {
      Clear();
      lens := sizes;
      var hist := CountLengths(sizes, 16);
      var next, used, total := NextCodes(sizes, hist);
      TotalIsTwiceKraft(sizes);
      if total != 65536 && used > 1 {
        return false;
      }
      if used <= 1 {
        FewCodesFit(sizes);
        SingleIsRoomy(sizes);
      } else {
        CompleteIsRoomy(sizes);
      }
      EmptyBuilt(sizes);
      InsertAll(sizes, next);
      ok := true;
    }

    method InsertAll(sizes: seq<nat>, next: array<nat>)
      requires Sized() && Built(Abs(), sizes, 0, 0) && Roomy(sizes) && nodes == map[]
      requires next as object != lookUp && next as object != tree && next.Length == 17
      requires forall l :: 1 <= l <= MAX_LENGTH ==> next[l] == FirstCode(sizes, l)
      modifies this`nodes, lookUp, tree, next
      ensures Built(Abs(), sizes, |sizes|, |sizes|)
    {
      hide Built;
      hide FirstCode;
      hide Count;
      hide Roomy;
      NoneCounted(sizes);
      var treeNext := -1;
      for s := 0 to |sizes|
        invariant Built(Abs(), sizes, s, s)
        invariant treeNext == Link(|nodes|)
        invariant forall l :: 1 <= l <= MAX_LENGTH ==> next[l] == FirstCode(sizes, l) + Count(sizes[..s], l)
      {
        forall l | 1 <= l <= MAX_LENGTH
          ensures Count(sizes[..s + 1], l) == Count(sizes[..s], l) + (if sizes[s] == l then 1 else 0)
        {
          CountStep(sizes, s, l);
        }
        BuiltLengths(Abs(), sizes, s, s);
        if sizes[s] == 0 {
          BuiltUnused(Abs(), sizes, s);
        } else {
          var code := next[sizes[s]];
          next[sizes[s]] := code + 1;
          treeNext := Insert(sizes, s, code, treeNext);
        }
      }
    }

    method Insert(sizes: seq<nat>, s: nat, code: nat, next: int) returns (treeNext: int)
      requires Sized() && Built(Abs(), sizes, s, s) && Roomy(sizes)
      requires Used(sizes, s) && code == Code(sizes, s)
      requires next == Link(|nodes|)
      modifies this`nodes, lookUp, tree
      ensures Built(Abs(), sizes, s + 1, s + 1)
      ensures treeNext == Link(|nodes|)
    {
      var rev := ReverseBits(code, sizes[s]);
      treeNext := next;
      if sizes[s] <= LOOKUP_BITS {
        InsertShort(sizes, s, rev);
      } else {
        treeNext := InsertLong(sizes, s, rev, next);
      }
    }

    /** Decodes the next symbol from the low bits of `buf`. */
    method Decode(buf: nat) returns (sym: nat, codeLen: nat)
      requires Valid()
      ensures Decodes(Abs(), Low(buf, MAX_LENGTH), sym, codeLen) && codeLen <= MAX_LENGTH
      ensures forall s: nat :: Begins(lens, s, Low(buf, MAX_LENGTH)) ==> sym == s && codeLen == lens[s]
      ensures (forall s: nat :: !Begins(lens, s, Low(buf, MAX_LENGTH))) ==> sym == 0
      ensures Complete(lens) ==> Begins(lens, sym, Low(buf, MAX_LENGTH)) && codeLen == lens[sym]
    {
      hide Built;
      hide Decodes;
      hide Low;
      hide CodePath;
      hide Kraft;
      hide Complete;
      BuiltForm(Abs(), lens);
      hide WellFormed;
      ghost var w := Low(buf, MAX_LENGTH);
      sym, codeLen := DecodeWindow(buf, w);
      DecodesNone(Abs(), lens, w, sym, codeLen);
      forall s: nat | Begins(lens, s, w) ensures sym == s && codeLen == lens[s] {
        DecodesOf(Abs(), lens, w, s);
        DecodesOnce(Abs(), w, sym, codeLen, s, lens[s]);
      }
      if Complete(lens) {
        OwnerExists(lens, w);
      }
    }

    method DecodeWindow(buf: nat, ghost w: Path) returns (sym: nat, codeLen: nat)
      requires Valid() && w == Low(buf, MAX_LENGTH)
      ensures Decodes(Abs(), w, sym, codeLen)
    {
      hide Low;
      hide CodePath;
      hide Kraft;
      LookupWindow(buf, w);
      var temp := lookUp[Mask(buf, LOOKUP_BITS)];
      assert temp == Entry(Abs(), w[..LOOKUP_BITS]);
      if temp >= 0 {
        sym, codeLen := temp % 512, temp / 512;
      } else {
        codeLen := LOOKUP_BITS;
        while temp < 0
          invariant LOOKUP_BITS <= codeLen <= MAX_LENGTH && Linked(Abs(), w, codeLen)
          invariant temp == Entry(Abs(), w[..codeLen]) && (codeLen == LOOKUP_BITS ==> temp < 0)
          decreases MAX_LENGTH - codeLen
        {
          NextBit(buf, codeLen);
          StepDown(Abs(), lens, w, codeLen);
          temp := tree[(-temp - 1) + Shr(buf, codeLen) % 2];
          codeLen := codeLen + 1;
        }
        sym := temp;
      }
    }

    /** Whether the `numBits` bits read so far hold the whole next code. */
    method Peek(buf: nat, numBits: nat) returns (found: bool)
      requires Valid()
      ensures found ==> exists sym: nat, codeLen: nat ::
                Decodes(Abs(), Low(buf, MAX_LENGTH), sym, codeLen) && 0 < codeLen <= numBits
      ensures !found ==> forall sym: nat, codeLen: nat ::
                Decodes(Abs(), Low(buf, MAX_LENGTH), sym, codeLen) ==> codeLen == 0 || codeLen > numBits
    {
      hide Low;
      hide CodePath;
      hide Kraft;
      ghost var w := Low(buf, MAX_LENGTH);
      LookupWindow(buf, w);
      var temp := lookUp[Mask(buf, LOOKUP_BITS)];
      assert temp == Entry(Abs(), w[..LOOKUP_BITS]);
      if temp >= 0 {
        var codeLen := temp / 512;
        found := codeLen != 0 && numBits >= codeLen;
        if found {
          assert Decodes(Abs(), w, temp % 512, codeLen);
        }
      } else {
        found := false;
        if numBits > LOOKUP_BITS {
          var codeLen := LOOKUP_BITS;
          while true
            invariant LOOKUP_BITS <= codeLen < numBits && codeLen <= MAX_LENGTH && Linked(Abs(), w, codeLen)
            invariant temp == Entry(Abs(), w[..codeLen]) < 0
            decreases MAX_LENGTH - codeLen
          {
            NextBit(buf, codeLen);
            StepDown(Abs(), lens, w, codeLen);
            temp := tree[(-temp - 1) + Shr(buf, codeLen) % 2];
            codeLen := codeLen + 1;
            if !(temp < 0 && numBits >= codeLen + 1) {
              break;
            }
          }
          found := temp >= 0;
          if found {
            assert Decodes(Abs(), w, temp, codeLen);
          } else {
            NotYet(Abs(), w, codeLen);
          }
        }
      }
    }
  }

  /** The places of the window before place `k` all hold links. */
  ghost predicate Linked(t: Trie, w: Path, k: nat)
    requires WellFormed(t)
  {
    LOOKUP_BITS <= k <= |w| && Place(t.nodes, w[..k]) &&
    forall j: nat {:trigger w[..j]} :: LOOKUP_BITS <= j < k ==> Place(t.nodes, w[..j]) && Entry(t, w[..j]) < 0
  }

  /** What the tables say about a window: the symbol and code length of the lookup entry, or the symbol
      at the first place of the tree that holds no link. */
  ghost predicate Decodes(t: Trie, w: Path, sym: nat, codeLen: nat)
    requires WellFormed(t) && |w| == MAX_LENGTH
  {
    var e := Entry(t, w[..LOOKUP_BITS]);
    if e >= 0 then sym == e % 512 && codeLen == e / 512
    else codeLen <= MAX_LENGTH && Linked(t, w, codeLen) && sym == Entry(t, w[..codeLen])
  }

  lemma DecodesOnce(t: Trie, w: Path, sym: nat, codeLen: nat, sym': nat, codeLen': nat)
    requires WellFormed(t) && |w| == MAX_LENGTH && Decodes(t, w, sym, codeLen) && Decodes(t, w, sym', codeLen')
    ensures sym == sym' && codeLen == codeLen'
  {
    if Entry(t, w[..LOOKUP_BITS]) < 0 {
      var a, b := w[..codeLen], w[..codeLen'];
    }
  }

  lemma NotYet(t: Trie, w: Path, k: nat)
    requires WellFormed(t) && |w| == MAX_LENGTH && Entry(t, w[..LOOKUP_BITS]) < 0
    requires LOOKUP_BITS <= k <= MAX_LENGTH && Linked(t, w, k) && Entry(t, w[..k]) < 0
    ensures forall sym: nat, codeLen: nat :: Decodes(t, w, sym, codeLen) ==> codeLen > k
  {
    forall sym: nat, codeLen: nat | Decodes(t, w, sym, codeLen) ensures codeLen > k {
      var a := w[..codeLen];
    }
  }

  /** A window that begins with a code decodes to its symbol. */
  lemma DecodesOf(t: Trie, lens: seq<nat>, w: Path, s: nat)
    requires Built(t, lens, |lens|, |lens|) && |w| == MAX_LENGTH && Begins(lens, s, w)
    ensures Decodes(t, w, s, lens[s])
  {
    hide CodePath;
    hide Kraft;
    hide OnTheWay;
    hide Below;
    var p := CodePath(lens, s);
    if lens[s] <= LOOKUP_BITS {
      assert Short(lens, s) && p <= w[..LOOKUP_BITS];
      assert Entry(t, w[..LOOKUP_BITS]) == LookValue(lens, s);
    } else {
      assert Long(lens, s);
      forall j: nat | LOOKUP_BITS <= j < lens[s] ensures w[..j] in t.nodes && Entry(t, w[..j]) < 0 {
        assert w[..j] == p[..j];
        WayIsNodes(t, lens, s, j);
      }
      assert w[..lens[s]] == p;
    }
  }

  /** A window that begins with no code decodes to symbol 0, and never beyond 15 bits. */
  lemma DecodesNone(t: Trie, lens: seq<nat>, w: Path, sym: nat, codeLen: nat)
    requires Built(t, lens, |lens|, |lens|) && |w| == MAX_LENGTH && Decodes(t, w, sym, codeLen)
    ensures (forall s: nat :: !Begins(lens, s, w)) ==> sym == 0
    ensures codeLen <= MAX_LENGTH
  {
    hide CodePath;
    hide Kraft;
    var k := if Entry(t, w[..LOOKUP_BITS]) >= 0 then LOOKUP_BITS else codeLen;
    EmptyPlace(t, lens, k, w);
    if Entry(t, w[..LOOKUP_BITS]) > 0 {
      var _ := LookupSymbol(t, lens, w);
    }
  }

  /** The tree has a node exactly where a longer code goes on. */
  lemma NodesOnTheWay(t: Trie, lens: seq<nat>, p: Path)
    requires Built(t, lens, |lens|, |lens|) && |p| >= LOOKUP_BITS
    ensures p in t.nodes <==> OnTheWay(lens, p, |lens|)
  {
    hide CodePath;
    hide Kraft;
    if OnTheWay(lens, p, |lens|) {
      var s: nat :| s < |lens| && Inner(lens, p, s);
      assert Long(lens, s) && p == CodePath(lens, s)[..|p|];
      WayIsNodes(t, lens, s, |p|);
    }
  }

  /** A window that begins with no code is given up at once or where it leaves the tree. */
  lemma DecodesMiss(t: Trie, lens: seq<nat>, w: Path, sym: nat, codeLen: nat)
    requires Built(t, lens, |lens|, |lens|) && |w| == MAX_LENGTH && Decodes(t, w, sym, codeLen)
    requires forall s: nat :: !Begins(lens, s, w)
    ensures codeLen == 0 || LOOKUP_BITS < codeLen <= MAX_LENGTH
    ensures codeLen == 0 ==> !OnTheWay(lens, w[..LOOKUP_BITS], |lens|)
    ensures codeLen > 0 ==> !OnTheWay(lens, w[..codeLen], |lens|)
    ensures codeLen > 0 ==> forall j: nat {:trigger w[..j]} :: LOOKUP_BITS <= j < codeLen ==> OnTheWay(lens, w[..j], |lens|)
  {
    hide CodePath;
    hide Kraft;
    hide OnTheWay;
    EmptyPlace(t, lens, LOOKUP_BITS, w);
    NodesOnTheWay(t, lens, w[..LOOKUP_BITS]);
    if Entry(t, w[..LOOKUP_BITS]) < 0 {
      NodesOnTheWay(t, lens, w[..codeLen]);
      forall j: nat {:trigger w[..j]} | LOOKUP_BITS <= j < codeLen ensures OnTheWay(lens, w[..j], |lens|) {
        NodesOnTheWay(t, lens, w[..j]);
      }
    }
  }

  /** Where a window leaves the tree, it is decoded. */
  lemma DecodesAway(t: Trie, lens: seq<nat>, w: Path, m: nat) returns (sym: nat)
    requires Built(t, lens, |lens|, |lens|) && |w| == MAX_LENGTH
    requires LOOKUP_BITS < m <= MAX_LENGTH && !OnTheWay(lens, w[..m], |lens|)
    requires forall j: nat {:trigger w[..j]} :: LOOKUP_BITS <= j < m ==> OnTheWay(lens, w[..j], |lens|)
    ensures Decodes(t, w, sym, m)
  {
    hide CodePath;
    hide Kraft;
    hide OnTheWay;
    NodesOnTheWay(t, lens, w[..m]);
    forall j: nat {:trigger w[..j]} | LOOKUP_BITS <= j < m ensures Place(t.nodes, w[..j]) && Entry(t, w[..j]) < 0 {
      NodesOnTheWay(t, lens, w[..j]);
    }
    assert w[..m - 1] in t.nodes && Parent(w[..m]) == w[..m - 1];
    sym := Entry(t, w[..m]);
  }

  /** A positive lookup entry is that of a short code. */
  lemma LookupSymbol(t: Trie, lens: seq<nat>, w: Path) returns (s: nat)
    requires Built(t, lens, |lens|, |lens|) && |w| == MAX_LENGTH && Entry(t, w[..LOOKUP_BITS]) > 0
    ensures Begins(lens, s, w[..LOOKUP_BITS]) && Entry(t, w[..LOOKUP_BITS]) == LookValue(lens, s) && lens[s] <= LOOKUP_BITS
  {
    hide CodePath;
    hide Kraft;
    s :| s < |lens| && Begins(lens, s, w[..LOOKUP_BITS]);
    assert Short(lens, s);
  }

  /** A code found within `n` bits is a whole code: no longer code agrees with those bits. */
  lemma FoundWhole(t: Trie, lens: seq<nat>, w: Path, n: nat, sym: nat, codeLen: nat, s: nat)
    requires Built(t, lens, |lens|, |lens|) && |w| == MAX_LENGTH && n <= MAX_LENGTH && Used(lens, s)
    requires Decodes(t, w, sym, codeLen) && 0 < codeLen <= n
    requires lens[s] > n ==> w[..n] == CodePath(lens, s)[..n]
    ensures lens[s] <= n
  {
    hide Kraft;
    if lens[s] > n {
      var p := CodePath(lens, s);
      if Entry(t, w[..LOOKUP_BITS]) >= 0 {
        assert Entry(t, w[..LOOKUP_BITS]) > 0;
        var s' := LookupSymbol(t, lens, w);
        assert CodePath(lens, s') == w[..LOOKUP_BITS][..lens[s']] == w[..n][..lens[s']] == p[..lens[s']];
        assert s' != s;
        PrefixFree(lens, s', s);
      } else {
        assert Long(lens, s);
        assert w[..codeLen] == w[..n][..codeLen] == p[..codeLen];
        WayIsNodes(t, lens, s, codeLen);
      }
    }
  }

  lemma UsedStep(sizes: seq<nat>, i: nat)
    ensures UsedUpTo(sizes, i) == if i == 0 then 0 else UsedUpTo(sizes, i - 1) + Count(sizes, i)
  {
    hide Count;
  }

  lemma NoneCounted(sizes: seq<nat>)
    ensures forall l :: Count(sizes[..0], l) == 0
  {
  }

  lemma BuiltForm(t: Trie, sizes: seq<nat>)
    requires Built(t, sizes, |sizes|, |sizes|)
    ensures WellFormed(t)
  {
  }

  lemma BuiltLengths(t: Trie, sizes: seq<nat>, done: nat, seen: nat)
    requires Built(t, sizes, done, seen)
    ensures Lengths(sizes)
  {
  }

  /** The decompressor's code counters: `next[l]` is the first code of length `l`. */
  method NextCodes(sizes: seq<nat>, hist: array<nat>) returns (next: array<nat>, used: nat, total: nat)
    requires Lengths(sizes) && |sizes| <= MAX_SYMBOLS && hist.Length == 16
    requires forall l :: 0 <= l < 16 ==> hist[l] == Count(sizes, l)
    ensures fresh(next) && next.Length == 17
    ensures forall l :: 1 <= l <= 16 ==> next[l] == FirstCode(sizes, l)
    ensures used == UsedCount(sizes) && total == FirstCode(sizes, 16)
  {
    hide Count;
    hide FirstCode;
    hide UsedUpTo;
    hide Wrap32;
    next := new nat[17](_ => 0);
    used, total := 0, 0;
    FirstCodeStep(sizes, 1);
    UsedStep(sizes, 0);
    for i := 1 to 16
      invariant total == FirstCode(sizes, i) && used == UsedUpTo(sizes, i - 1) <= i * MAX_SYMBOLS
      invariant forall l :: 1 <= l <= i ==> next[l] == FirstCode(sizes, l)
    {
      FirstCodeStep(sizes, i);
      UsedStep(sizes, i);
      FirstCodeFits(sizes, i + 1);
      WrapSmall(total + hist[i]);
      WrapSmall(2 * (total + hist[i]));
      WrapSmall(used + hist[i]);
      used := Add32(used, hist[i]);
      total := Wrap32(2 * Add32(total, hist[i]));
      next[i + 1] := total;
    }
    UsedByLength(sizes);
  }

  lemma LookupWindow(buf: nat, w: Path)
    requires w == Low(buf, MAX_LENGTH)
    ensures LookIndex(w[..LOOKUP_BITS]) == Mask(buf, LOOKUP_BITS)
  {
    LowTake(buf, LOOKUP_BITS, MAX_LENGTH);
    LsbLow(buf, LOOKUP_BITS);
  }

  lemma NextBit(buf: nat, k: nat)
    requires k < MAX_LENGTH
    ensures Shr(buf, k) % 2 == Bit(Low(buf, MAX_LENGTH)[k])
  {
    LowDrop(buf, k, MAX_LENGTH);
    assert Low(buf, MAX_LENGTH)[k] == Low(buf, MAX_LENGTH)[k..][0];
  }

  /** All places on the way to an entered long code are nodes. */
  lemma {:induction false} WayIsNodes(t: Trie, lens: seq<nat>, s: nat, k: nat)
    requires Built(t, lens, |lens|, |lens|) && Long(lens, s) && LOOKUP_BITS <= k < lens[s]
    ensures CodePath(lens, s)[..k] in t.nodes
    decreases lens[s] - k
  {
    var p := CodePath(lens, s);
    if k + 1 == lens[s] {
      assert Place(t.nodes, p) && Parent(p) == p[..k];
    } else {
      WayIsNodes(t, lens, s, k + 1);
      assert Place(t.nodes, p[..k + 1]) && Parent(p[..k + 1]) == p[..k];
    }
  }

  /** A window that begins with no code meets no symbol. */
  lemma EmptyPlace(t: Trie, lens: seq<nat>, k: nat, w: Path)
    requires Built(t, lens, |lens|, |lens|) && k <= |w| && Place(t.nodes, w[..k])
    ensures (forall s: nat :: !Begins(lens, s, w)) ==> Entry(t, w[..k]) <= 0
  {
    if Entry(t, w[..k]) > 0 {
      var s: nat :| s < |lens| && Begins(lens, s, w[..k]);
      assert Begins(lens, s, w);
    }
  }

  /** One more bit of the window leads from a link to the next place. */
  lemma StepDown(t: Trie, lens: seq<nat>, w: Path, k: nat)
    requires Built(t, lens, |lens|, |lens|) && |w| == MAX_LENGTH && LOOKUP_BITS <= k <= MAX_LENGTH
    requires Linked(t, w, k) && Entry(t, w[..k]) < 0
    ensures k < MAX_LENGTH && Linked(t, w, k + 1)
    ensures w[..k] in t.nodes && Entry(t, w[..k]) == Link(t.nodes[w[..k]])
    ensures SlotIndex(t, w[..k + 1]) == 2 * t.nodes[w[..k]] + Bit(w[k])
  {
    hide CodePath;
    hide Kraft;
    assert w[..k] in t.nodes;
    assert Parent(w[..k + 1]) == w[..k];
  }

  /** Writes `v` into every cell whose low `n` index bits are `rev`. */
  method FillEvery(a: array<int>, rev: nat, n: nat, v: int)
    requires rev < Pow2(n) && Mask(rev, n) == rev
    modifies a
    ensures forall j :: 0 <= j < a.Length ==> a[j] == if Mask(j, n) == rev then v else old(a[j])
  {
    var i := rev;
    Pow2Positive(n);
    FirstOf(rev, n);
    while i < a.Length
      invariant Mask(i, n) == rev
      invariant forall j :: 0 <= j < a.Length ==>
                              a[j] == if j < i && Mask(j, n) == rev then v else old(a[j])
      decreases a.Length - i
    {
      NoneBetween(i, n);
      MaskPeriod(i, n);
      a[i] := v;
      i := i + Shl(1, n);
    }
  }

  lemma FirstOf(rev: nat, n: nat)
    ensures forall j: nat :: j < rev ==> Mask(j, n) != rev || Mask(rev, n) != rev
  {
    forall j: nat | j < rev ensures Mask(j, n) != rev || Mask(rev, n) != rev {
      MaskShr(j, n);
    }
  }

  lemma NoneBetween(i: nat, n: nat)
    ensures forall j: nat :: i < j < i + Pow2(n) ==> Mask(j, n) != Mask(i, n)
  {
    forall j: nat | i < j < i + Pow2(n) ensures Mask(j, n) != Mask(i, n) {
      if Mask(j, n) == Mask(i, n) {
        MaskApart(i, j, n);
      }
    }
  }
}
