/** The blocks of the kernel heap as a sequence of header-plus-payload regions
    (modules/SysMemory/src/allocator.c). */
module HeapNodes {
  import opened Common

  /** `sizeof(mem_node_t)`: a pointer, a 32-bit length and an `int`-sized flag. */
  const HEADER := 16

  datatype Node = Node(addr: nat, len: nat, isFree: bool)

  function End(n: Node): nat
  {
    n.addr + HEADER + n.len
  }

  ghost predicate Inside(n: Node, b: nat)
  {
    n.addr <= b < End(n)
  }

  /** How many regions hold byte `b`. */
  ghost function Cover(nodes: seq<Node>, b: nat): nat
  {
    if nodes == [] then 0 else Cover(nodes[..|nodes| - 1], b) + Once(Inside(nodes[|nodes| - 1], b))
  }

  lemma {:induction false} CoverAppend(c: seq<Node>, d: seq<Node>, b: nat)
    ensures Cover(c + d, b) == Cover(c, b) + Cover(d, b)
    decreases |d|
  {
    if d == [] {
      assert c + d == c;
    } else {
      assert (c + d)[..|c + d| - 1] == c + d[..|d| - 1];
      CoverAppend(c, d[..|d| - 1], b);
    }
  }

  lemma CoverOne(n: Node, b: nat)
    ensures Cover([n], b) == Once(Inside(n, b))
  {
    assert [n][..0] == [];
  }

  lemma CoverTwo(n: Node, m: Node, b: nat)
    ensures Cover([n, m], b) == Once(Inside(n, b)) + Once(Inside(m, b))
  {
    assert [n, m] == [n] + [m];
    CoverAppend([n], [m], b);
    CoverOne(n, b);
    CoverOne(m, b);
  }

  lemma CoverSplit(c: seq<Node>, i: nat, b: nat)
    requires i < |c|
    ensures Cover(c, b) == Cover(c[..i], b) + Once(Inside(c[i], b)) + Cover(c[i + 1..], b)
  {
    assert c == c[..i] + [c[i]] + c[i + 1..];
    CoverAppend(c[..i] + [c[i]], c[i + 1..], b);
    CoverAppend(c[..i], [c[i]], b);
    CoverOne(c[i], b);
  }

  /** Replacing one node by others changes the cover by their difference. */
  lemma CoverReplace(c: seq<Node>, i: nat, mid: seq<Node>, b: nat)
    requires i < |c|
    ensures Cover(c[..i] + mid + c[i + 1..], b) + Once(Inside(c[i], b)) == Cover(c, b) + Cover(mid, b)
  {
    CoverSplit(c, i, b);
    CoverAppend(c[..i] + mid, c[i + 1..], b);
    CoverAppend(c[..i], mid, b);
  }

  // ----- the invariant

  ghost predicate Aligned(n: Node)
  {
    n.addr % 8 == 0 && n.len % 8 == 0 && n.addr > 0 && n.len > 0
  }

  /** The regions are 8-byte aligned, pairwise disjoint, and fill exactly the bytes `owned`. */
  ghost predicate Tiled(nodes: seq<Node>, owned: set<nat>)
  {
    && (forall i :: 0 <= i < |nodes| ==> Aligned(nodes[i]))
    && (forall b :: Cover(nodes, b) == Once(b in owned))
  }

  lemma InsideOwned(nodes: seq<Node>, owned: set<nat>, i: nat, b: nat)
    requires Tiled(nodes, owned) && i < |nodes| && Inside(nodes[i], b)
    ensures b in owned
  {
    CoverSplit(nodes, i, b);
    assert Cover(nodes, b) == Once(b in owned);
  }

  lemma Apart(nodes: seq<Node>, owned: set<nat>, i: nat, j: nat)
    requires Tiled(nodes, owned) && i < j < |nodes|
    ensures End(nodes[i]) <= nodes[j].addr || End(nodes[j]) <= nodes[i].addr
  {
    var b := if nodes[i].addr <= nodes[j].addr then nodes[j].addr else nodes[i].addr;
    CoverSplit(nodes, j, b);
    CoverSplit(nodes[..j], i, b);
    assert nodes[..j][i] == nodes[i];
    assert Cover(nodes, b) == Once(b in owned);
  }

  // ----- choosing a block

  predicate Fits(n: Node, want: nat)
  {
    n.isFree && n.len >= want
  }

  ghost predicate NoneFits(nodes: seq<Node>, want: nat)
  {
    forall j :: 0 <= j < |nodes| ==> !Fits(nodes[j], want)
  }

  /** The smallest free block that fits; the first in list order among equals. */
  ghost predicate BestAt(nodes: seq<Node>, want: nat, i: nat)
  {
    && i < |nodes| && Fits(nodes[i], want)
    && (forall j :: 0 <= j < |nodes| && Fits(nodes[j], want) ==> nodes[i].len <= nodes[j].len)
    && (forall j :: 0 <= j < i && Fits(nodes[j], want) ==> nodes[i].len < nodes[j].len)
  }

  // ----- growing and splitting

  function RoundUp8(sz: nat): nat
  {
    if sz % 8 != 0 then sz + (8 - sz % 8) else sz
  }

  /** Bytes of pages taken for a block of `want` bytes. */
  function AllocSize(want: nat): (n: nat)
  {
    var n := want + HEADER;
    if n % 0x1000 != 0 then n + (0x1000 - n % 0x1000) else n
  }

  lemma PageMultiple(q: nat)
    ensures q * 0x1000 % 0x1000 == 0 && q * 0x1000 % 8 == 0 && q * 0x1000 % 16 == 0
  {
    EightTimes(q * 0x200);
    SixteenTimes(q * 0x100);
  }

  lemma SixteenTimes(k: nat)
    ensures 16 * k % 16 == 0
  {
  }

  lemma EightTimes(k: nat)
    ensures 8 * k % 8 == 0
  {
  }

  lemma AllocSizeFits(want: nat)
    ensures want + HEADER <= AllocSize(want) < want + HEADER + 0x1000 && AllocSize(want) % 0x1000 == 0
    ensures AllocSize(want) % 8 == 0
  {
    var n := want + HEADER;
    var q, r := n / 0x1000, n % 0x1000;
    assert n == q * 0x1000 + r;
    if r == 0 {
      PageMultiple(q);
    } else {
      assert AllocSize(want) == (q + 1) * 0x1000;
      PageMultiple(q + 1);
    }
  }

  ghost function Bytes(base: nat, n: nat): set<nat>
  {
    set b: nat | b < base + n && Within(b, base, n)
  }

  /** A new block goes right after the root. */
  ghost function Grown(nodes: seq<Node>, n: Node): seq<Node>
  {
    if nodes == [] then [n] else [nodes[0], n] + nodes[1..]
  }

  lemma GrownTiled(nodes: seq<Node>, owned: set<nat>, base: nat, size: nat)
    requires Tiled(nodes, owned) && base > 0 && base % 8 == 0 && size > HEADER && size % 8 == 0
    requires owned !! Bytes(base, size)
    ensures Tiled(Grown(nodes, Node(base, size - HEADER, false)), owned + Bytes(base, size))
  {
    hide Cover;
    var n := Node(base, size - HEADER, false);
    var all := Grown(nodes, n);
    forall b ensures Cover(all, b) == Once(b in owned + Bytes(base, size)) {
      assert Inside(n, b) <==> b in Bytes(base, size);
      assert Cover(nodes, b) == Once(b in owned);
      if nodes == [] {
        CoverOne(n, b);
        assert Cover([], b) == 0 by { CoverNone(b); }
      } else {
        CoverReplace(nodes, 0, [nodes[0], n], b);
        assert nodes[..0] + [nodes[0], n] + nodes[0 + 1..] == all;
        CoverTwo(nodes[0], n, b);
      }
    }
  }

  lemma CoverNone(b: nat)
    ensures Cover([], b) == 0
  {
  }

  /** Block `i` put to use for `want` bytes; what is left over becomes a free block behind it. */
  ghost function Used(nodes: seq<Node>, i: nat, want: nat): seq<Node>
    requires i < |nodes|
  {
    var n := nodes[i];
    if n.len > want + HEADER
    then nodes[..i] + [Node(n.addr, want, false), Node(n.addr + HEADER + want, n.len - want - HEADER, true)] + nodes[i + 1..]
    else nodes[..i] + [Node(n.addr, n.len, false)] + nodes[i + 1..]
  }

  lemma UsedTiled(nodes: seq<Node>, owned: set<nat>, i: nat, want: nat)
    requires Tiled(nodes, owned) && i < |nodes| && want % 8 == 0 && 0 < want <= nodes[i].len
    ensures Tiled(Used(nodes, i, want), owned)
  {
    hide Cover;
    var n := nodes[i];
    forall b ensures Cover(Used(nodes, i, want), b) == Once(b in owned) {
      assert Cover(nodes, b) == Once(b in owned);
      if n.len > want + HEADER {
        var l, r := Node(n.addr, want, false), Node(n.addr + HEADER + want, n.len - want - HEADER, true);
        CoverReplace(nodes, i, [l, r], b);
        CoverTwo(l, r, b);
      } else {
        CoverReplace(nodes, i, [Node(n.addr, n.len, false)], b);
        CoverOne(Node(n.addr, n.len, false), b);
      }
    }
    assert Aligned(n);
  }

  /** Freeing or taking a block moves no region. */
  lemma FlagTiled(nodes: seq<Node>, owned: set<nat>, i: nat, isFree: bool)
    requires Tiled(nodes, owned) && i < |nodes|
    ensures Tiled(nodes[i := nodes[i].(isFree := isFree)], owned)
  {
    hide Cover;
    var n := nodes[i].(isFree := isFree);
    forall b ensures Cover(nodes[i := n], b) == Once(b in owned) {
      CoverReplace(nodes, i, [n], b);
      assert nodes[i := n] == nodes[..i] + [n] + nodes[i + 1..];
      CoverOne(n, b);
      assert Cover(nodes, b) == Once(b in owned);
    }
  }

  // ----- 16-byte alignment

  /** All headers, and with them all payloads, lie at multiples of 16. */
  ghost predicate AllSixteen(nodes: seq<Node>)
  {
    forall i :: 0 <= i < |nodes| ==> nodes[i].addr % 16 == 0
  }

  lemma SixteenMore(a: nat, want: nat)
    requires a % 16 == 0
    ensures (a + HEADER + want) % 16 == want % 16
  {
    var q := a / 16;
    assert a == 16 * q;
    assert a + HEADER + want == 16 * (q + 1 + want / 16) + want % 16;
  }

  /** Putting a block to use keeps 16-byte alignment exactly when it is not split, or split at a
      multiple of 16. */
  lemma UsedSixteen(nodes: seq<Node>, i: nat, want: nat)
    requires i < |nodes| && AllSixteen(nodes)
    ensures AllSixteen(Used(nodes, i, want)) <==> nodes[i].len <= want + HEADER || want % 16 == 0
  {
    SixteenMore(nodes[i].addr, want);
    var u := Used(nodes, i, want);
    if nodes[i].len > want + HEADER {
      assert u[i + 1].addr == nodes[i].addr + HEADER + want;
    }
    forall j | 0 <= j < |u| && !(nodes[i].len > want + HEADER && j == i + 1) ensures u[j].addr % 16 == 0 {
      var k := if j <= i then j else if nodes[i].len > want + HEADER then j - 1 else j;
      assert u[j].addr == nodes[k].addr;
    }
  }

  lemma GrownSixteen(nodes: seq<Node>, n: Node)
    requires AllSixteen(nodes) && n.addr % 16 == 0
    ensures AllSixteen(Grown(nodes, n))
  {
  }

  /** Whether a request is served by splitting a block. */
  ghost predicate Splits(nodes: seq<Node>, want: nat)
  {
    if NoneFits(nodes, want) then AllocSize(want) - HEADER > want + HEADER
    else exists at: nat :: BestAt(nodes, want, at) && nodes[at].len > want + HEADER
  }

  lemma BestOnce(nodes: seq<Node>, want: nat, a: nat, b: nat)
    requires BestAt(nodes, want, a) && BestAt(nodes, want, b)
    ensures a == b
  {
  }

  // ----- live payloads

  /** Every block in use stays as it is. */
  ghost predicate LiveKept(nodes: seq<Node>, nodes': seq<Node>)
  {
    forall n :: n in nodes && !n.isFree ==> n in nodes'
  }

  lemma GrownKeeps(nodes: seq<Node>, n: Node)
    ensures forall m :: m in Grown(nodes, n) <==> m == n || m in nodes
  {
  }

  lemma UsedKeeps(nodes: seq<Node>, i: nat, want: nat)
    requires i < |nodes|
    ensures forall m :: m in nodes && m != nodes[i] ==> m in Used(nodes, i, want)
  {
    forall m | m in nodes && m != nodes[i] ensures m in Used(nodes, i, want) {
      var j :| 0 <= j < |nodes| && nodes[j] == m;
      var u := Used(nodes, i, want);
      if j < i {
        assert u[j] == m;
      } else {
        assert u[|u| - (|nodes| - j)] == m;
      }
    }
  }
}
