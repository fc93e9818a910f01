/** The kernel heap (modules/SysMemory/src/allocator.c): headers live in the managed memory itself
    and are linked by address; a block is found by best fit, split, and flagged. */
module Heap {
  import opened Common
  import opened HeapNodes

  datatype Header = Header(next: nat, len: nat, isFree: bool)

  ghost function Following(order: seq<nat>, i: int): nat
    requires -1 <= i
  {
    if i + 1 < |order| then order[i + 1] else 0
  }

  ghost predicate Present(mem: map<nat, Header>, order: seq<nat>)
  {
    forall i :: 0 <= i < |order| ==> order[i] in mem
  }

  ghost predicate LinkedAt(mem: map<nat, Header>, order: seq<nat>, i: nat)
    requires i < |order| && order[i] in mem
  {
    mem[order[i]].next == Following(order, i)
  }

  ghost predicate Distinct(order: seq<nat>)
  {
    forall i, j :: 0 <= i < j < |order| ==> order[i] != order[j]
  }

  /** `order` lists the addresses of the headers from the root on; address 0 ends the list. */
  ghost predicate Linked(mem: map<nat, Header>, order: seq<nat>, root: nat)
  {
    && root == Following(order, -1) && 0 !in order && Distinct(order)
    && Present(mem, order) && (forall a :: a in mem ==> a in order)
    && (forall i: nat {:trigger LinkedAt(mem, order, i)} :: i < |order| ==> LinkedAt(mem, order, i))
  }

  ghost function NodeAt(mem: map<nat, Header>, a: nat): Node
    requires a in mem
  {
    Node(a, mem[a].len, mem[a].isFree)
  }

  ghost function NodesOf(mem: map<nat, Header>, order: seq<nat>): (nodes: seq<Node>)
    requires Present(mem, order)
    ensures |nodes| == |order|
  {
    seq(|order|, i requires 0 <= i < |order| => NodeAt(mem, order[i]))
  }

  ghost predicate Represents(mem: map<nat, Header>, order: seq<nat>, root: nat, nodes: seq<Node>)
  {
    Linked(mem, order, root) && NodesOf(mem, order) == nodes
  }

  // ----- writing headers

  /** A header written behind another one. */
  ghost function Inserted(mem: map<nat, Header>, at: nat, a: nat, len: nat, isFree: bool): map<nat, Header>
    requires at in mem
  {
    mem[a := Header(mem[at].next, len, isFree)][at := mem[at].(next := a)]
  }

  ghost function InsertedOrder(order: seq<nat>, k: nat, a: nat): (order': seq<nat>)
    requires k < |order|
    ensures |order'| == |order| + 1 && order'[k + 1] == a
    ensures forall i :: 0 <= i <= k ==> order'[i] == order[i]
    ensures forall i :: k + 1 < i < |order'| ==> order'[i] == order[i - 1]
  {
    order[..k + 1] + [a] + order[k + 1..]
  }

  lemma InsertDistinct(order: seq<nat>, k: nat, a: nat)
    requires k < |order| && Distinct(order) && a !in order && a > 0 && 0 !in order
    ensures Distinct(InsertedOrder(order, k, a)) && 0 !in InsertedOrder(order, k, a)
    ensures forall x :: x in InsertedOrder(order, k, a) <==> x == a || x in order
  {
    var order' := InsertedOrder(order, k, a);
    forall x | x in order ensures x in order' {
      var i :| 0 <= i < |order| && order[i] == x;
      assert order'[if i <= k then i else i + 1] == x;
    }
  }

  lemma InsertLinks(mem: map<nat, Header>, order: seq<nat>, k: nat, a: nat, len: nat, isFree: bool, i: nat)
    requires k < |order| && Distinct(order) && a !in order && Present(mem, order) && i <= |order|
    requires LinkedAt(mem, order, k) && (i != k + 1 ==> LinkedAt(mem, order, if i <= k then i else i - 1))
    ensures var order' := InsertedOrder(order, k, a);
            order'[i] in Inserted(mem, order[k], a, len, isFree) && LinkedAt(Inserted(mem, order[k], a, len, isFree), order', i)
  {
  }

  lemma InsertNodes(mem: map<nat, Header>, order: seq<nat>, k: nat, a: nat, len: nat, isFree: bool)
    requires k < |order| && a !in order && Present(mem, order)
    requires Present(Inserted(mem, order[k], a, len, isFree), InsertedOrder(order, k, a))
    ensures var nodes, nodes' := NodesOf(mem, order), NodesOf(Inserted(mem, order[k], a, len, isFree), InsertedOrder(order, k, a));
            nodes' == nodes[..k + 1] + [Node(a, len, isFree)] + nodes[k + 1..]
  {
    var mem', order' := Inserted(mem, order[k], a, len, isFree), InsertedOrder(order, k, a);
    var nodes, nodes' := NodesOf(mem, order), NodesOf(mem', order');
    forall i | 0 <= i < |order'| ensures nodes'[i] == (nodes[..k + 1] + [Node(a, len, isFree)] + nodes[k + 1..])[i] {
      if i <= k {
        assert order'[i] == order[i];
      } else if i > k + 1 {
        assert order'[i] == order[i - 1];
      }
    }
  }

  lemma LinkAfter(mem: map<nat, Header>, order: seq<nat>, root: nat, k: nat, a: nat, len: nat, isFree: bool)
    requires Linked(mem, order, root) && k < |order| && a > 0 && a !in order
    ensures var mem', order' := Inserted(mem, order[k], a, len, isFree), InsertedOrder(order, k, a);
            && Linked(mem', order', root)
            && NodesOf(mem', order') == NodesOf(mem, order)[..k + 1] + [Node(a, len, isFree)] + NodesOf(mem, order)[k + 1..]
  {
    hide LinkedAt;
    hide NodesOf;
    var mem', order' := Inserted(mem, order[k], a, len, isFree), InsertedOrder(order, k, a);
    InsertDistinct(order, k, a);
    hide Distinct;
    forall i: nat | i < |order'| ensures order'[i] in mem' && LinkedAt(mem', order', i) {
      assert LinkedAt(mem, order, k);
      assert i != k + 1 ==> LinkedAt(mem, order, if i <= k then i else i - 1);
      InsertLinks(mem, order, k, a, len, isFree, i);
    }
    InsertNodes(mem, order, k, a, len, isFree);
  }

  /** A length or a flag overwritten. */
  ghost function Retagged(mem: map<nat, Header>, at: nat, len: nat, isFree: bool): map<nat, Header>
    requires at in mem
  {
    mem[at := Header(mem[at].next, len, isFree)]
  }

  lemma Retag(mem: map<nat, Header>, order: seq<nat>, root: nat, k: nat, len: nat, isFree: bool)
    requires Linked(mem, order, root) && k < |order|
    ensures var mem' := Retagged(mem, order[k], len, isFree);
            && Linked(mem', order, root)
            && NodesOf(mem', order) == NodesOf(mem, order)[k := Node(order[k], len, isFree)]
  {
    var mem' := Retagged(mem, order[k], len, isFree);
    forall i: nat | i < |order| ensures LinkedAt(mem', order, i) {
      assert LinkedAt(mem, order, i);
    }
  }

  lemma FirstLinked(a: nat, len: nat, isFree: bool)
    requires a > 0
    ensures Linked(map[a := Header(0, len, isFree)], [a], a)
    ensures NodesOf(map[a := Header(0, len, isFree)], [a]) == [Node(a, len, isFree)]
  {
  }

  // ----- the allocator

  lemma WrapStep(n: nat)
    ensures Wrap32(Wrap32(n) + 1) == Wrap32(n + 1) && Wrap32(0) == 0
  {
  }

  class KernelHeap {
    var root: nat
    var nodeCnt: nat
    var mem: map<nat, Header>
    ghost var order: seq<nat>
    ghost var owned: set<nat>

    ghost predicate Valid()
      reads this
    {
      && Linked(mem, order, root) && nodeCnt == Wrap32(|order|)
      && Tiled(NodesOf(mem, order), owned)
    }

    ghost function Nodes(): seq<Node>
      requires Valid()
      reads this
    {
      NodesOf(mem, order)
    }

    constructor ()
      ensures Valid() && Nodes() == [] && owned == {}
    {
      root := 0;
      nodeCnt := 0;
      mem := map[];
      order := [];
      owned := {};
    }

    /** The best-fit search along the links. */
    method FindBest(want: nat) returns (best: nat, ghost at: nat)
      requires Valid()
      ensures best == 0 ==> NoneFits(Nodes(), want)
      ensures best != 0 ==> BestAt(Nodes(), want, at) && best == order[at]
    {
      hide Tiled;
      hide Linked;
      hide Wrap32;
      ListEnds(mem, order, root);
      best, at := 0, 0;
      var iter := root;
      ghost var k, nodes := 0, Nodes();
      while iter != 0
        invariant 0 <= k <= |order| && iter == Following(order, k - 1)
        invariant best == 0 ==> NoneFits(nodes[..k], want)
        invariant best != 0 ==> at < k && best == order[at] && BestAt(nodes[..k], want, at)
        decreases |order| - k
      {
        NextLink(mem, order, root, k);
        assert iter == order[k] && iter != 0;
        assert nodes[k] == NodeAt(mem, iter);
        BestStep(nodes, k, want, best != 0, at);
        if mem[iter].isFree && mem[iter].len >= want {
          if best != 0 {
            if mem[iter].len < mem[best].len {
              best, at := iter, k;
            }
          } else {
            best, at := iter, k;
          }
        }
        iter := mem[iter].next;
        k := k + 1;
      }
      assert k == |order| by {
        if k < |order| {
          NextLink(mem, order, root, k);
        }
      }
      assert nodes[..k] == nodes;
    }

    /** Puts a block over freshly mapped pages into the list, behind the root. */
    method Grow(base: nat, want: nat) returns (node: nat, ghost at: nat)
      requires Valid() && base > 0 && base % 8 == 0 && AllocSize(want) - HEADER < 0x1_0000_0000
      requires owned !! Bytes(base, AllocSize(want))
      modifies this
      ensures Valid() && owned == old(owned) + Bytes(base, AllocSize(want))
      ensures Nodes() == Grown(old(Nodes()), Node(base, AllocSize(want) - HEADER, false))
      ensures at == (if old(Nodes()) == [] then 0 else 1) && at < |order| && node == base == order[at]
    {
      hide Tiled;
      hide Linked;
      hide NodesOf;
      hide Grown;
      hide Bytes;
      hide AllocSize;
      hide Wrap32;
      WrapStep(|order|);
      WrapStep(0);
      var allocSz := AllocSize(want);
      AllocSizeFits(want);
      GrownTiled(Nodes(), owned, base, allocSz);
      ListEnds(mem, order, root);
      FreshAddress(mem, order, owned, base, allocSz);
      GrowLinked(mem, order, root, base, allocSz - HEADER);
      mem := mem[base := Header(0, allocSz - HEADER, false)];
      nodeCnt := Wrap32(nodeCnt + 1);
      if root == 0 {
        root := base;
        order := [base];
        at := 0;
      } else {
        mem := mem[base := mem[base].(next := mem[root].next)];
        mem := mem[root := mem[root].(next := base)];
        assert mem == Inserted(old(mem), root, base, allocSz - HEADER, false);
        order := InsertedOrder(order, 0, base);
        at := 1;
      }
      owned := owned + Bytes(base, allocSz);
      return base, at;
    }

    /** Splits the chosen block if it is larger than needed, and puts it to use. */
    method Take(best: nat, want: nat, ghost at: nat) returns (p: nat)
      requires Valid() && at < |order| && best == order[at] && want % 8 == 0 && 0 < want <= Nodes()[at].len
      modifies this
      ensures Valid() && owned == old(owned)
      ensures Nodes() == Used(old(Nodes()), at, want) && p == best + HEADER
    {
      hide Tiled;
      hide Linked;
      hide NodesOf;
      hide Used;
      hide Wrap32;
      WrapStep(|order|);
      ListEnds(mem, order, root);
      UsedTiled(Nodes(), owned, at, want);
      TakeLinked(mem, order, root, owned, at, want);
      if mem[best].len > want + HEADER {
        var node := best + HEADER + want;
        mem := mem[node := Header(0, mem[best].len - want - HEADER, true)];
        nodeCnt := Wrap32(nodeCnt + 1);
        mem := mem[node := mem[node].(next := mem[best].next)];
        mem := mem[best := mem[best].(next := node)];
        mem := mem[best := mem[best].(len := want)];
        order := InsertedOrder(order, at, node);
      }
      mem := mem[best := mem[best].(isFree := false)];
      assert mem == Taken(old(mem), best, want);
      return best + HEADER;
    }

    /** `base` is where the page allocator maps new pages, should they be needed. */
    method Malloc(sz: nat, base: nat) returns (p: nat)
      requires Valid() && AllocSize(RoundUp8(sz)) - HEADER < 0x1_0000_0000
      requires NoneFits(Nodes(), RoundUp8(sz)) ==>
                 base > 0 && base % 0x1000 == 0 && owned !! Bytes(base, AllocSize(RoundUp8(sz)))
      modifies this
      ensures Valid()
      ensures sz == 0 ==> p == 0 && Nodes() == old(Nodes()) && owned == old(owned)
      ensures sz > 0 ==> Allocated(old(Nodes()), Nodes(), old(owned), owned, RoundUp8(sz), base, p)
    {
      hide Tiled;
      hide Linked;
      hide NodesOf;
      hide Used;
      hide Grown;
      hide Bytes;
      hide NoneFits;
      hide BestAt;
      hide AllocSize;
      if sz == 0 {
        return 0;
      }
      var want := RoundUp8(sz);
      RoundUpFits(sz);
      ghost var nodes := Nodes();
      var best;
      ghost var at;
      best, at := FindBest(want);
      if best == 0 {
        PageAligned(base);
        AllocSizeFits(want);
        best, at := Grow(base, want);
        GrownAt(nodes, Node(base, AllocSize(want) - HEADER, false));
      } else {
        BestFits(nodes, want, at);
        NodeHere(mem, order, root, at);
      }
      p := Take(best, want, at);
    }

    /** Returns whether the kernel panics on a double free. */
    method Free(p: nat) returns (panicked: bool)
      requires Valid() && (p == 0 || (p >= HEADER && p - HEADER in mem))
      modifies this
      ensures Valid() && owned == old(owned)
      ensures p == 0 ==> !panicked && Nodes() == old(Nodes())
      ensures p != 0 ==> Released(old(Nodes()), Nodes(), p, panicked)
    {
      hide Tiled;
      hide Linked;
      hide NodesOf;
      hide Wrap32;
      panicked := false;
      if p == 0 {
        return;
      }
      var desc := p - HEADER;
      ghost var at := HeaderAt(mem, order, root, desc);
      if mem[desc].isFree {
        panicked := true;
        return;
      }
      Retag(mem, order, root, at, mem[desc].len, true);
      FlagTiled(Nodes(), owned, at, true);
      mem := mem[desc := mem[desc].(isFree := true)];
      assert mem == Retagged(old(mem), desc, old(mem)[desc].len, true);
    }
  }

  lemma NextLink(mem: map<nat, Header>, order: seq<nat>, root: nat, k: nat)
    requires Linked(mem, order, root) && k < |order|
    ensures mem[order[k]].next == Following(order, k) && order[k] != 0
  {
    assert LinkedAt(mem, order, k);
  }

  lemma BestStep(nodes: seq<Node>, k: nat, want: nat, some: bool, at: nat)
    requires k < |nodes| && if some then BestAt(nodes[..k], want, at) else NoneFits(nodes[..k], want)
    ensures var upTo := nodes[..k + 1];
            if !Fits(nodes[k], want) then if some then BestAt(upTo, want, at) else NoneFits(upTo, want)
            else if some && nodes[at].len <= nodes[k].len then BestAt(upTo, want, at)
            else BestAt(upTo, want, k)
  {
    var upTo := nodes[..k + 1];
    assert forall j :: 0 <= j < k ==> upTo[j] == nodes[..k][j];
  }

  lemma ListEnds(mem: map<nat, Header>, order: seq<nat>, root: nat)
    requires Linked(mem, order, root)
    ensures Present(mem, order) && (root == 0 <==> order == []) && (order != [] ==> root == order[0] && root in mem)
    ensures order == [] ==> mem == map[]
  {
    assert order == [] ==> forall a :: a !in mem;
  }

  lemma GrowLinked(mem: map<nat, Header>, order: seq<nat>, root: nat, base: nat, len: nat)
    requires Linked(mem, order, root) && base > 0 && base !in order
    ensures order == [] ==>
              && Linked(mem[base := Header(0, len, false)], [base], base)
              && NodesOf(mem[base := Header(0, len, false)], [base]) == Grown(NodesOf(mem, order), Node(base, len, false))
    ensures order != [] ==>
              && root in mem
              && Linked(Inserted(mem, root, base, len, false), InsertedOrder(order, 0, base), root)
              && NodesOf(Inserted(mem, root, base, len, false), InsertedOrder(order, 0, base))
                 == Grown(NodesOf(mem, order), Node(base, len, false))
  {
    ListEnds(mem, order, root);
    if order == [] {
      FirstLinked(base, len, false);
      assert mem[base := Header(0, len, false)] == map[base := Header(0, len, false)];
    } else {
      LinkAfter(mem, order, root, 0, base, len, false);
      BehindRoot(NodesOf(mem, order), Node(base, len, false));
    }
  }

  lemma BehindRoot(nodes: seq<Node>, n: Node)
    requires nodes != []
    ensures nodes[..1] + [n] + nodes[1..] == Grown(nodes, n)
  {
  }

  /** Addresses of fresh pages are not addresses of headers. */
  lemma FreshAddress(mem: map<nat, Header>, order: seq<nat>, owned: set<nat>, base: nat, n: nat)
    requires Present(mem, order) && Tiled(NodesOf(mem, order), owned) && owned !! Bytes(base, n) && n > 0
    ensures base !in order
  {
    assert base in Bytes(base, n);
    if base in order {
      var i :| 0 <= i < |order| && order[i] == base;
      assert NodesOf(mem, order)[i].addr == base;
      InsideOwned(NodesOf(mem, order), owned, i, base);
    }
  }

  // ----- taking a block

  ghost function Taken(mem: map<nat, Header>, best: nat, want: nat): map<nat, Header>
    requires best in mem
  {
    var len := mem[best].len;
    if len > want + HEADER
    then Retagged(Inserted(mem, best, best + HEADER + want, len - want - HEADER, true), best, want, false)
    else Retagged(mem, best, len, false)
  }

  lemma NodeHere(mem: map<nat, Header>, order: seq<nat>, root: nat, at: nat)
    requires Linked(mem, order, root) && at < |order|
    ensures NodesOf(mem, order)[at] == Node(order[at], mem[order[at]].len, mem[order[at]].isFree)
  {
  }

  /** The place behind a block of the wanted size is not the address of a header. */
  lemma SplitAddress(mem: map<nat, Header>, order: seq<nat>, root: nat, owned: set<nat>, at: nat, want: nat)
    requires Linked(mem, order, root) && Tiled(NodesOf(mem, order), owned) && at < |order|
    requires mem[order[at]].len > want + HEADER
    ensures order[at] + HEADER + want !in order
  {
    hide Tiled;
    hide Linked;
    ListEnds(mem, order, root);
    var nodes, a := NodesOf(mem, order), order[at] + HEADER + want;
    if a in order {
      var j :| 0 <= j < |order| && order[j] == a;
      NodeHere(mem, order, root, at);
      NodeHere(mem, order, root, j);
      if at < j {
        Apart(nodes, owned, at, j);
      } else if j < at {
        Apart(nodes, owned, j, at);
      }
    }
  }

  lemma TakeLinked(mem: map<nat, Header>, order: seq<nat>, root: nat, owned: set<nat>, at: nat, want: nat)
    requires Linked(mem, order, root) && Tiled(NodesOf(mem, order), owned) && at < |order|
    ensures var best := order[at];
            best in mem &&
            var order' := if mem[best].len > want + HEADER then InsertedOrder(order, at, best + HEADER + want) else order;
            Represents(Taken(mem, best, want), order', root, Used(NodesOf(mem, order), at, want))
  {
    hide Tiled;
    hide Linked;
    hide NodesOf;
    hide Used;
    ListEnds(mem, order, root);
    NodeHere(mem, order, root, at);
    var best, len, nodes := order[at], mem[order[at]].len, NodesOf(mem, order);
    if len > want + HEADER {
      var a := best + HEADER + want;
      SplitAddress(mem, order, root, owned, at, want);
      LinkAfter(mem, order, root, at, a, len - want - HEADER, true);
      Retag(Inserted(mem, best, a, len - want - HEADER, true), InsertedOrder(order, at, a), root, at, want, false);
      UsedSplit(nodes, at, want);
    } else {
      Retag(mem, order, root, at, len, false);
      UsedWhole(nodes, at, want);
    }
  }

  lemma UsedWhole(nodes: seq<Node>, at: nat, want: nat)
    requires at < |nodes| && nodes[at].len <= want + HEADER
    ensures nodes[at := Node(nodes[at].addr, nodes[at].len, false)] == Used(nodes, at, want)
  {
  }

  lemma UsedSplit(nodes: seq<Node>, at: nat, want: nat)
    requires at < |nodes| && nodes[at].len > want + HEADER
    ensures var n := nodes[at];
            var behind := Node(n.addr + HEADER + want, n.len - want - HEADER, true);
            (nodes[..at + 1] + [behind] + nodes[at + 1..])[at := Node(n.addr, want, false)] == Used(nodes, at, want)
  {
  }

  // ----- what malloc and free mean

  lemma RoundUpFits(sz: nat)
    ensures RoundUp8(sz) % 8 == 0 && sz <= RoundUp8(sz) < sz + 8
  {
  }

  lemma PageAligned(base: nat)
    requires base % 0x1000 == 0
    ensures base % 8 == 0 && base % 16 == 0
  {
    var q := base / 0x1000;
    assert base == q * 0x1000;
    PageMultiple(q);
  }

  lemma GrownAt(nodes: seq<Node>, n: Node)
    ensures var at := if nodes == [] then 0 else 1; at < |Grown(nodes, n)| && Grown(nodes, n)[at] == n
  {
  }

  lemma BestFits(nodes: seq<Node>, want: nat, at: nat)
    requires BestAt(nodes, want, at)
    ensures at < |nodes| && nodes[at].isFree && nodes[at].len >= want && !NoneFits(nodes, want)
  {
  }

  /** A request of `want` bytes is served from the best fit, or from new pages when nothing fits. */
  ghost predicate Allocated(nodes: seq<Node>, nodes': seq<Node>, owned: set<nat>, owned': set<nat>, want: nat, base: nat, p: nat)
  {
    if NoneFits(nodes, want) then
      && owned' == owned + Bytes(base, AllocSize(want)) && p == base + HEADER
      && var all := Grown(nodes, Node(base, AllocSize(want) - HEADER, false));
         var at := if nodes == [] then 0 else 1;
         at < |all| && nodes' == Used(all, at, want)
    else
      && owned' == owned
      && exists at: nat :: BestAt(nodes, want, at) && nodes' == Used(nodes, at, want) && p == nodes[at].addr + HEADER
  }

  /** The block at `p` becomes free; freeing a free block panics. */
  ghost predicate Released(nodes: seq<Node>, nodes': seq<Node>, p: nat, panicked: bool)
  {
    exists at: nat :: at < |nodes| && nodes[at].addr + HEADER == p && panicked == nodes[at].isFree
                      && nodes' == (if panicked then nodes else nodes[at := nodes[at].(isFree := true)])
  }

  lemma HeaderAt(mem: map<nat, Header>, order: seq<nat>, root: nat, a: nat) returns (at: nat)
    requires Linked(mem, order, root) && a in mem
    ensures at < |order| && order[at] == a && Present(mem, order)
    ensures NodesOf(mem, order)[at] == Node(a, mem[a].len, mem[a].isFree)
  {
    at :| 0 <= at < |order| && order[at] == a;
  }

  // ----- 16-byte alignment is not kept

  /** Two requests of 8 bytes over one fresh page: the second payload lies at 8 modulo 16, although
      the first was 16-byte aligned. */
  method EightTwice() returns (p: nat, q: nat)
    ensures p == 0x1010 && q == 0x1028 && p % 16 == 0 && q % 16 == 8
  {
    hide Tiled;
    hide Linked;
    hide NodesOf;
    var heap := new KernelHeap();
    EightSizes();
    p := heap.Malloc(8, 0x1000);
    var used, rest := Node(0x1000, 8, false), Node(0x1018, 4056, true);
    assert heap.Nodes() == [used, rest];
    assert Fits(heap.Nodes()[1], 8);
    q := heap.Malloc(8, 0);
  }

  lemma EightSizes()
    ensures RoundUp8(8) == 8 && AllocSize(8) == 0x1000
  {
  }
}
