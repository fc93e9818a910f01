/** The doubly linked list with a cached cursor (common/src/list.c) against a plain sequence. */
module CursorList {
  import opened Common
  import opened Ring

  class Node {
    var value: int
    var next: Node?
    var prev: Node?

    constructor (value: int, prev: Node?)
      ensures this.value == value && this.prev == prev && next == null
    {
      this.value := value;
      this.prev := prev;
      next := null;
    }
  }

  ghost function NodeAt(spine: seq<Node>, i: int): Node?
  {
    if 0 <= i < |spine| then spine[i] else null
  }

  /** Both links of the node at place `i`. */
  ghost predicate LinkedAt(spine: seq<Node>, i: int)
    requires 0 <= i < |spine|
    reads spine[i]
  {
    spine[i].next == NodeAt(spine, i + 1) && spine[i].prev == NodeAt(spine, i - 1)
  }

  ghost predicate Distinct(spine: seq<Node>)
  {
    forall i, j :: 0 <= i < j < |spine| ==> spine[i] != spine[j]
  }

  ghost predicate Linked(spine: seq<Node>)
    reads spine
  {
    Distinct(spine) && forall i {:trigger LinkedAt(spine, i)} :: 0 <= i < |spine| ==> LinkedAt(spine, i)
  }

  ghost function ValuesOf(spine: seq<Node>): (vs: seq<int>)
    reads spine
    ensures |vs| == |spine|
  {
    seq(|spine|, i requires 0 <= i < |spine| reads spine => spine[i].value)
  }

  class List {
    var nodes: Node?
    var last: Node?
    var lastAccessedNode: Node?
    var lastAccessedIndex: nat
    var entryCount: nat
    ghost var spine: seq<Node>

    /** The list itself, whatever the cursor. */
    ghost predicate Shape()
      reads this, spine
    {
      && Linked(spine) && entryCount == |spine|
      && nodes == NodeAt(spine, 0) && last == NodeAt(spine, |spine| - 1)
    }

    ghost predicate Valid()
      reads this, spine
    {
      && Shape() && lastAccessedNode == NodeAt(spine, lastAccessedIndex)
      && (lastAccessedIndex < |spine| || lastAccessedIndex == 0)
    }

    /** A cursor beyond the end goes back to the first element. */
    method ResetStale()
      requires Shape() && (lastAccessedIndex < entryCount ==> lastAccessedNode == NodeAt(spine, lastAccessedIndex))
      modifies this`lastAccessedNode, this`lastAccessedIndex
      ensures Valid() && lastAccessedIndex == (if old(lastAccessedIndex) < entryCount then old(lastAccessedIndex) else 0)
    {
      if lastAccessedIndex >= entryCount {
        lastAccessedIndex := 0;
        lastAccessedNode := nodes;
      }
    }

    ghost function Values(): seq<int>
      reads this, spine
    {
      ValuesOf(spine)
    }

    constructor ()
      ensures Valid() && Values() == [] && lastAccessedIndex == 0 && spine == []
    {
      nodes := null;
      last := null;
      lastAccessedNode := null;
      lastAccessedIndex := 0;
      entryCount := 0;
      spine := [];
    }

    /** Appends a value; `memory` says whether there is room for a node. */
    method Append(value: int, memory: bool) returns (ok: bool)
      requires Valid()
      modifies this, spine
      ensures Valid() && ok == memory && lastAccessedIndex == old(lastAccessedIndex)
      ensures ok ==> Values() == old(Values()) + [value] && |spine| == old(|spine|) + 1 &&
                     fresh(spine[|spine| - 1]) && spine[..|spine| - 1] == old(spine)
      ensures !ok ==> unchanged(this) && unchanged(spine)
    {
      ok := memory;
      if !ok {
        return;
      }
      var l := new Node(value, last);
      ghost var n := |spine|;
      assert n > 0 ==> LinkedAt(spine, n - 1);
      if last != null {
        last.next := l;
      }
      last := l;
      if nodes == null {
        nodes := last;
      }
      if lastAccessedNode == null {
        lastAccessedNode := nodes;
        lastAccessedIndex := 0;
      }
      entryCount := entryCount + 1;
      spine := spine + [l];
      forall i | 0 <= i < |spine| ensures LinkedAt(spine, i) {
        assert i < n ==> old(LinkedAt(spine, i));
      }
    }

    /** Walks the cursor to `index`, along the links in either direction. */
    method Seek(index: nat)
      requires Valid() && index < entryCount
      modifies this`lastAccessedNode, this`lastAccessedIndex
      ensures Valid() && lastAccessedIndex == index
    {
      while lastAccessedIndex > index
        invariant Valid() && lastAccessedIndex < entryCount
        decreases lastAccessedIndex
      {
        assert LinkedAt(spine, lastAccessedIndex);
        lastAccessedNode := lastAccessedNode.prev;
        lastAccessedIndex := lastAccessedIndex - 1;
      }
      while lastAccessedIndex < index
        invariant Valid() && lastAccessedIndex <= index
        decreases index - lastAccessedIndex
      {
        assert LinkedAt(spine, lastAccessedIndex);
        lastAccessedNode := lastAccessedNode.next;
        lastAccessedIndex := lastAccessedIndex + 1;
      }
    }

    method At(index: nat) returns (value: Option<int>)
      requires Valid()
      modifies this`lastAccessedNode, this`lastAccessedIndex
      ensures Valid()
      ensures value == if index < |Values()| then Some(Values()[index]) else None
      ensures lastAccessedIndex == if index < |Values()| then index else old(lastAccessedIndex)
    {
      ResetStale();
      if index >= entryCount {
        return None;
      }
      if index == 0 {
        lastAccessedIndex := 0;
        lastAccessedNode := nodes;
      }
      if index == entryCount - 1 {
        lastAccessedIndex := entryCount - 1;
        lastAccessedNode := last;
      }
      Seek(index);
      return Some(lastAccessedNode.value);
    }

    /** Takes the node at the cursor out of the list. */
    method Unlink()
      requires Valid() && lastAccessedIndex < entryCount
      modifies this, spine
      ensures Valid() && lastAccessedIndex == 0
      ensures Values() == old(Values()[..lastAccessedIndex] + Values()[lastAccessedIndex + 1..])
      ensures spine == old(Cut(spine, lastAccessedIndex))
    {
      hide Linked;
      hide ValuesOf;
      hide Distinct;
      hide Cut;
      var node := lastAccessedNode;
      ghost var i := lastAccessedIndex;
      Bypass(spine, i, node);
      CutEnds(spine, i);
      nodes, last := if nodes == node then node.next else nodes, if last == node then node.prev else last;
      lastAccessedNode, lastAccessedIndex, entryCount, spine := nodes, 0, entryCount - 1, Cut(spine, i);
    }

    method Remove(index: nat)
      requires Valid()
      modifies this, spine
      ensures Valid()
      ensures Values() == old(if index < |Values()| then Values()[..index] + Values()[index + 1..] else Values())
      ensures lastAccessedIndex == if index < old(|Values()|) then 0 else old(lastAccessedIndex)
      ensures spine == old(if index < |spine| then spine[..index] + spine[index + 1..] else spine)
    {
      if entryCount == 0 || index >= entryCount {
        return;
      }
      ResetStale();
      Seek(index);
      Unlink();
    }

    method Fini()
      requires Valid()
      modifies this, spine
      ensures Valid() && Values() == []
    {
      while entryCount > 0
        invariant Valid() && forall k :: 0 <= k < |spine| ==> spine[k] in old(spine)
        decreases entryCount
      {
        Remove(0);
      }
    }

    method RotNext() returns (value: Option<int>)
      requires Valid()
      modifies this`lastAccessedNode, this`lastAccessedIndex
      ensures Valid()
      ensures Values() == [] ==> value == None && lastAccessedIndex == old(lastAccessedIndex)
      ensures Values() != [] ==>
                && lastAccessedIndex == (if old(lastAccessedIndex) + 1 == |Values()| then 0 else old(lastAccessedIndex) + 1)
                && value == Some(Values()[lastAccessedIndex])
    {
      value := None;
      if entryCount != 0 {
        NextPlace(lastAccessedIndex, entryCount);
        value := At((lastAccessedIndex + 1) % entryCount);
      }
    }

    /** The step back is computed in 64-bit arithmetic, so from the first place it wraps around 2^64. */
    method RotPrev() returns (value: Option<int>)
      requires Valid() && entryCount < TWO64
      modifies this`lastAccessedNode, this`lastAccessedIndex
      ensures Valid()
      ensures Values() == [] ==> value == None && lastAccessedIndex == old(lastAccessedIndex)
      ensures Values() != [] ==>
                && value == Some(Values()[lastAccessedIndex])
                && lastAccessedIndex == (if old(lastAccessedIndex) > 0 then old(lastAccessedIndex) - 1 else (TWO64 - 1) % |Values()|)
    {
      value := None;
      if entryCount != 0 {
        PrevPlace(lastAccessedIndex, entryCount);
        value := At((lastAccessedIndex - 1) % TWO64 % entryCount);
      }
    }

    /** As many rotations as there are elements: each is visited once, and the cursor is back. */
    method RotateAll() returns (visited: seq<int>)
      requires Valid()
      modifies this`lastAccessedNode, this`lastAccessedIndex
      ensures Valid() && lastAccessedIndex == old(lastAccessedIndex)
      ensures Values() != [] ==> visited == Values()[lastAccessedIndex + 1..] + Values()[..lastAccessedIndex + 1]
      ensures multiset(visited) == multiset(Values())
    {
      hide Linked;
      hide ValuesOf;
      hide Turned;
      visited := [];
      ghost var vs, c := Values(), lastAccessedIndex;
      TurnedWhole(vs, c);
      var i := 0;
      while i < entryCount
        invariant Valid() && 0 <= i <= entryCount == |vs| && Values() == vs
        invariant lastAccessedIndex == Place(c, i, |vs|) && visited == Turned(vs, c)[..i]
      {
        TurnedAt(vs, c, i);
        var v := RotNext();
        visited := visited + [v.value];
        i := i + 1;
      }
    }
  }

  /** The sequence read from the place behind the cursor on. */
  ghost function Turned(vs: seq<int>, c: nat): (r: seq<int>)
    ensures |r| == |vs|
  {
    if c < |vs| then vs[c + 1..] + vs[..c + 1] else vs
  }

  /** Where the cursor stands after `i` rotations from place `c`. */
  ghost function Place(c: nat, i: nat, n: nat): int
  {
    if c + i < n then c + i else c + i - n
  }

  lemma TurnedWhole(vs: seq<int>, c: nat)
    ensures c < |vs| ==> Turned(vs, c) == vs[c + 1..] + vs[..c + 1]
    ensures multiset(Turned(vs, c)) == multiset(vs)
    ensures Turned(vs, c)[..|vs|] == Turned(vs, c)
  {
    if c < |vs| {
      assert vs == vs[..c + 1] + vs[c + 1..];
    }
  }

  lemma TurnedAt(vs: seq<int>, c: nat, i: nat)
    requires c < |vs| && i < |vs|
    ensures Turned(vs, c)[i] == vs[Place(c, i + 1, |vs|)]
    ensures Turned(vs, c)[..i] + [Turned(vs, c)[i]] == Turned(vs, c)[..i + 1]
  {
  }

  ghost function Cut(spine: seq<Node>, i: nat): (rest: seq<Node>)
    requires i < |spine|
    ensures |rest| == |spine| - 1
  {
    spine[..i] + spine[i + 1..]
  }

  lemma CutEnds(spine: seq<Node>, i: nat)
    requires i < |spine| && Distinct(spine)
    ensures var rest := Cut(spine, i);
            && Distinct(rest)
            && NodeAt(rest, 0) == (if i == 0 then NodeAt(spine, 1) else NodeAt(spine, 0))
            && NodeAt(rest, |rest| - 1) == (if i == |spine| - 1 then NodeAt(spine, i - 1) else NodeAt(spine, |spine| - 1))
            && (NodeAt(spine, 0) == spine[i] <==> i == 0) && (NodeAt(spine, |spine| - 1) == spine[i] <==> i == |spine| - 1)
  {
  }

  /** Makes the neighbours of a node point to each other. */
  method Bypass(ghost spine: seq<Node>, ghost i: nat, node: Node)
    requires i < |spine| && node == spine[i] && Linked(spine)
    modifies spine
    ensures Linked(Cut(spine, i)) && ValuesOf(Cut(spine, i)) == old(ValuesOf(spine)[..i] + ValuesOf(spine)[i + 1..])
    ensures Distinct(spine) && node.next == NodeAt(spine, i + 1) && node.prev == NodeAt(spine, i - 1)
  {
    ghost var rest, vs := Cut(spine, i), ValuesOf(spine);
    CutEnds(spine, i);
    assert LinkedAt(spine, i);
    if node.prev != null {
      node.prev.next := node.next;
    }
    if node.next != null {
      node.next.prev := node.prev;
    }
    forall j | 0 <= j < |rest| ensures LinkedAt(rest, j) {
      var k := if j < i then j else j + 1;
      assert old(LinkedAt(spine, k)) && rest[j] == spine[k];
    }
    forall j | 0 <= j < |rest| ensures rest[j].value == (vs[..i] + vs[i + 1..])[j] {
      var k := if j < i then j else j + 1;
      assert rest[j] == spine[k] && old(spine[k].value) == vs[k];
    }
  }

  /** The step back from the first place reaches the last one exactly when the number of elements
      divides 2^64; for three elements it stays at the first. */
  lemma RotPrevWraps(n: nat)
    requires 0 < n < TWO64
    ensures (TWO64 - 1) % n == n - 1 <==> TWO64 % n == 0
    ensures (TWO64 - 1) % 3 == 0
  {
    var q, r := (TWO64 - 1) / n, (TWO64 - 1) % n;
    assert TWO64 == q * n + (r + 1);
    if r == n - 1 {
      assert TWO64 == (q + 1) * n;
      Quotient(0, q + 1, n);
    } else {
      Quotient(r + 1, q, n);
    }
  }

  lemma NextPlace(i: nat, n: nat)
    requires i < n
    ensures (i + 1) % n == if i + 1 == n then 0 else i + 1
  {
  }

  lemma PrevPlace(i: nat, n: nat)
    requires i < n < TWO64
    ensures (i - 1) % TWO64 == if i > 0 then i - 1 else TWO64 - 1
    ensures (i - 1) % TWO64 % n == if i > 0 then i - 1 else (TWO64 - 1) % n
  {
    if i > 0 {
      SmallMod(i - 1, n);
    }
  }

  lemma SmallMod(i: nat, n: nat)
    requires i < n
    ensures i % n == i
  {
  }
}
