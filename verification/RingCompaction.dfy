/** Compaction inside the ring buffer: the merging pass works on cells modulo the ring size and
    advances the head. */
module RingCompaction {
  import opened Ring
  import opened RingQueue
  import opened PageSort
  import opened PageEntry
  import opened Compaction

  /** The last index of the window: an empty queue is taken for a full ring. */
  lemma WindowEnd(head: nat, n: nat, size: nat)
    requires head < size && n < size
    ensures var hi := Cell(head + n, size) - 1;
            (if hi < head then hi + size else hi) == head + (if n == 0 then size else n) - 1
  {
    hide Cell;
    if head + n < size {
      CellSmall(head + n, size);
    } else {
      CellStep(head + n, size);
      CellSmall(head + n - size, size);
    }
  }

  lemma Adjacent(a: nat, b: nat)
    ensures PgCnt(a) * BTM_LEVEL + GetAddr(a) == GetAddr(b) <==> First(a) + PgCnt(a) == First(b)
  {
  }

  /** One merge in the ring. */
  method MergePair(queue: Queue, lo0: int, hi: int, lo: int)
    requires queue.cells.Length == queue.size && 0 <= queue.head < queue.size
    requires Window(queue.cells[..], lo0, hi) && lo0 <= lo < hi - 1
    modifies queue`head, queue`entCnt, queue.cells
    ensures var v := old(View(queue.cells[..], lo0, hi));
            if Mergeable(v[lo - lo0], v[lo + 1 - lo0])
            then View(queue.cells[..], lo0, hi) == MergeAt(v, lo - lo0)
                 && queue.head == Cell(old(queue.head) + 1, queue.size) && queue.entCnt == old(queue.entCnt) - 1
            else View(queue.cells[..], lo0, hi) == v && queue.head == old(queue.head) && queue.entCnt == old(queue.entCnt)
    ensures SameOutside(queue.cells[..], old(queue.cells[..]), lo0, hi)
  {
    hide Cell;
    hide View;
    hide SameOutside;
    hide PgCnt;
    hide GetAddr;
    hide First;
    hide BuildEntry;
    var cells, size := queue.cells, queue.size;
    ghost var was := cells[..];
    SameItself(was, lo0, hi);
    ViewAt(was, lo0, hi, lo);
    ViewAt(was, lo0, hi, lo + 1);
    var a, b := cells[Cell(lo, size)], cells[Cell(lo + 1, size)];
    var pgCnt, pgAddr, nPgAddr := PgCnt(a), GetAddr(a), GetAddr(b);
    Adjacent(a, b);
    var nPgCnt := pgCnt + PgCnt(b);
    if pgCnt * BTM_LEVEL + pgAddr == nPgAddr && nPgCnt < MAX_ENTRIES {
      var nEnt := BuildEntry(pgAddr, nPgCnt);
      ViewUpdate(was, lo0, hi, lo + 1, nEnt);
      ghost var mid := was[Cell(lo + 1, size) := nEnt];
      ViewUpdate(mid, lo0, hi, lo, 0);
      cells[Cell(lo + 1, size)] := nEnt;
      cells[Cell(lo, size)] := 0;
      assert cells[..] == mid[Cell(lo, size) := 0];
      SameTwice(was, mid, cells[..], lo0, hi);
      queue.head := Cell(queue.head + 1, size);
      queue.entCnt := queue.entCnt - 1;
    }
  }

  method MergePass(queue: Queue, lo0: int, hi: int, ghost v: seq<nat>)
    requires queue.cells.Length == queue.size && 0 <= queue.head < queue.size
    requires Window(queue.cells[..], lo0, hi) && lo0 <= hi && queue.head == lo0
    requires v == View(queue.cells[..], lo0, hi)
    modifies queue`head, queue`entCnt, queue.cells
    ensures queue.head == Cell(lo0 + Merges(v, 0), queue.size) && queue.entCnt == old(queue.entCnt) - Merges(v, 0)
    ensures View(queue.cells[..], lo0, hi) == Pass(v, 0)
    ensures SameOutside(queue.cells[..], old(queue.cells[..]), lo0, hi)
  {
    hide Cell;
    hide View;
    hide SameOutside;
    hide Mergeable;
    hide MergeAt;
    var lo := lo0;
    ghost var m, w := 0, v;
    SameItself(queue.cells[..], lo0, hi);
    CellSmall(lo0, queue.size);
    while lo < hi - 1
      invariant lo0 <= lo <= hi && w == View(queue.cells[..], lo0, hi)
      invariant Pass(w, lo - lo0) == Pass(v, 0) && m + Merges(w, lo - lo0) == Merges(v, 0)
      invariant queue.head == Cell(lo0 + m, queue.size) && queue.entCnt == old(queue.entCnt) - m
      invariant SameOutside(queue.cells[..], old(queue.cells[..]), lo0, hi)
    {
      ghost var before := queue.cells[..];
      MergePair(queue, lo0, hi, lo);
      SameTwice(old(queue.cells[..]), before, queue.cells[..], lo0, hi);
      if Mergeable(w[lo - lo0], w[lo + 1 - lo0]) {
        CellAdd(lo0 + m, 1, queue.size);
        w := MergeAt(w, lo - lo0);
        m := m + 1;
      }
      lo := lo + 1;
    }
  }

  lemma WindowOfWhole(data: seq<nat>, was: seq<nat>, head: nat, n: nat)
    requires 1 <= n <= |data| == |was| && SameOutside(data, was, head, head + n - 1)
    ensures Whole(data, head)[..n] == View(data, head, head + n - 1)
    ensures Whole(data, head)[n..] == Whole(was, head)[n..]
  {
    hide Cell;
    hide SameOutside;
    var hi := head + |data| - 1;
    ViewSlice(data, head, hi, head, head + n - 1);
    ViewOutside(data, was, head, hi, head, head + n - 1);
    forall i | n <= i < |data| ensures Whole(data, head)[i] == Whole(was, head)[i] {
      assert View(data, head, hi)[i] == View(was, head, hi)[i];
    }
  }

  lemma Drop(x: seq<nat>, w: seq<nat>, n: nat, m: nat)
    requires m <= n == |w| <= |x| && x[..n] == w
    ensures (x[m..] + x[..m])[..n - m] == w[m..]
    ensures (x[m..] + x[..m])[n - m..] == x[n..] + w[..m]
  {
    assert w[m..] == x[m..n] && w[..m] == x[..m];
  }

  lemma InRangePermuted(s: seq<nat>, c: seq<nat>)
    requires AllInRange(c) && multiset(s) == multiset(c)
    ensures AllInRange(s)
  {
    forall i | 0 <= i < |s| ensures InRange(s[i]) {
      assert s[i] in multiset(s);
      assert s[i] in c;
    }
  }

  lemma ZerosPermuted(s: seq<nat>, c: seq<nat>)
    requires Zeros(c) && multiset(s) == multiset(c)
    ensures Zeros(s) && Merges(s, 0) == 0
  {
    forall i | 0 <= i < |s| ensures s[i] == 0 {
      assert s[i] in multiset(s);
      assert s[i] in c;
    }
    ZeroHolds(0);
    QuietPass(s, 0);
  }

  /** Nothing but valid entries in the queue and zeros in the free cells. */
  ghost predicate CleanCells(x: seq<nat>, n: nat)
  {
    n <= |x| && AllInRange(x) && Zeros(x[n..])
  }

  /** The ring after a merging pass over the entries of a queue. */
  lemma SettledFilled(data: seq<nat>, was: seq<nat>, s: seq<nat>, head: nat, n: nat, head': int, n': int)
    requires 1 <= n < |data| == |was| && head < |data|
    requires SameOutside(data, was, head, head + n - 1) && View(data, head, head + n - 1) == Pass(s, 0)
    requires multiset(s) == multiset(Whole(was, head)[..n])
    requires head' == Cell(head + Merges(s, 0), |data|) && n' == n - Merges(s, 0)
    ensures 0 <= n' && Cell(head' + n', |data|) == Cell(head + n, |data|)
    ensures Whole(data, head')[..n'] == Kept(s)
    ensures CleanCells(Whole(was, head), n) && Conserves(s) ==> CleanCells(Whole(data, head'), n')
  {
    hide Cell;
    hide View;
    hide Whole;
    hide SameOutside;
    hide Pass;
    hide ZerosEnd;
    hide Merges;
    var m, x, x0, w := Merges(s, 0), Whole(data, head), Whole(was, head), Pass(s, 0);
    WindowOfWhole(data, was, head, n);
    assert |s| == |multiset(s)| == |multiset(x0[..n])| == n;
    WholeRotated(data, head, m);
    WholeReduced(data, head + m);
    CellAdd(head + m, n - m, |data|);
    Drop(x, w, n, m);
    if CleanCells(x0, n) && Conserves(s) {
      InRangePermuted(s, x0[..n]);
      ZerosAhead(s);
      PassTimes(s, 0, 0);
      CleanAfter(x, x0, w, n, m);
    }
  }

  lemma CleanAfter(x: seq<nat>, x0: seq<nat>, w: seq<nat>, n: nat, m: nat)
    requires m <= n == |w| <= |x| == |x0| && x[..n] == w && x[n..] == x0[n..]
    requires CleanCells(x0, n) && AllInRange(w) && ZerosIn(w, 0, m)
    ensures CleanCells(x[m..] + x[..m], n - m)
  {
    forall i | 0 <= i < |x| ensures InRange(x[i]) {
      if i < n {
        assert x[i] == w[i];
      } else {
        assert x[i] == x[n..][i - n] == x0[i];
      }
    }
    Drop(x, w, n, m);
  }

  /** The ring after a pass over all its cells that merged nothing. */
  lemma SettledEmpty(data: seq<nat>, was: seq<nat>, s: seq<nat>, head: nat, head': int)
    requires head < |data| == |was|
    requires View(data, head, head + |data| - 1) == Pass(s, 0)
    requires multiset(s) == multiset(Whole(was, head))
    requires Merges(s, 0) == 0 && head' == Cell(head + Merges(s, 0), |data|)
    ensures head' == head && multiset(Whole(data, head')) == multiset(Whole(was, head))
    ensures CleanCells(Whole(was, head), 0) ==> CleanCells(Whole(data, head'), 0)
  {
    hide Cell;
    CellSmall(head, |data|);
    QuietPass(s, 0);
    if CleanCells(Whole(was, head), 0) {
      assert Whole(was, head)[0..] == Whole(was, head);
      ZerosPermuted(s, Whole(was, head));
      InRangePermuted(s, Whole(was, head));
    }
  }

  lemma EnqueueClean(x: seq<nat>, n: nat, val: nat)
    requires n < |x| && CleanCells(x, n) && InRange(val)
    ensures CleanCells(x[n := val], n + 1)
  {
    assert x[n := val][n + 1..] == x[n..][1..];
  }

  lemma EnqueueFrontClean(x: seq<nat>, n: nat, val: nat)
    requires n < |x| && CleanCells(x, n) && InRange(val)
    ensures CleanCells([val] + x[..|x| - 1], n + 1)
  {
    assert ([val] + x[..|x| - 1])[n + 1..] == x[n..][..|x| - 1 - n];
  }

  lemma DequeueClean(x: seq<nat>, n: nat)
    requires 1 <= n && CleanCells(x, n)
    ensures CleanCells(x[1..] + [0], n - 1) && InRange(x[0])
  {
    ZeroHolds(0);
    assert (x[1..] + [0])[n - 1..] == x[n..] + [0];
  }
}
