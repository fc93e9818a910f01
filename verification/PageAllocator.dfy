/** The physical page allocator (modules/SysPhysicalMemory/src/page_allocator.c): a ring of packed
    free ranges, searched by rotation, split on allocation and compacted when full or unsuccessful. */
module PageAllocator {
  import opened Common
  import opened Ring
  import opened RingQueue
  import opened PageSort
  import opened PageEntry
  import opened Compaction
  import opened RingCompaction
  import opened PageCalls
  import opened PageJoins

  class Allocator {
    const queue: Queue
    var freeMem: nat

    ghost predicate Valid()
      reads this, queue, queue.cells
    {
      queue.Valid() && queue.size <= 0x2000_0000
    }

    ghost predicate Clean()
      requires Valid()
      reads this, queue, queue.cells
    {
      CleanCells(queue.Cells(), queue.entCnt)
    }

    ghost function Entries(): seq<nat>
      requires Valid()
      reads this, queue, queue.cells
    {
      queue.Contents()
    }

    constructor (memory: array<nat>)
      requires 1 <= memory.Length <= 0x2000_0000
      ensures Valid() && fresh(queue) && queue.cells == memory && Entries() == [] && freeMem == 0
      ensures queue.Cells() == memory[..]
      ensures Zeros(memory[..]) ==> Sound()
    {
      queue := new Queue(memory);
      freeMem := 0;
      new;
      ZeroHolds(0);
    }

    /** Sorts the queue and merges neighbours; `s` is the sorted window. */
    method Compact() returns (ghost s: seq<nat>)
      requires Valid()
      modifies queue`head, queue`entCnt, queue.cells
      ensures old(Entries()) != [] ==>
                && SortedOf(s, old(Entries())) && Valid() && Entries() == Kept(s)
                && (old(Clean()) && Conserves(s) ==> Clean())
      ensures old(Entries()) == [] ==>
                && SortedOf(s, old(queue.Cells()))
                && (Merges(s, 0) == 0 ==>
                      && Valid() && Entries() == [] && (old(Clean()) ==> Clean())
                      && multiset(queue.Cells()) == multiset(old(queue.Cells())))
      ensures old(Entries()) == [] ==> queue.entCnt + Merges(s, 0) == 0 && (Valid() <==> Merges(s, 0) == 0)
    {
      hide Cell;
      hide View;
      hide Whole;
      hide SameOutside;
      hide Sorted;
      hide Pass;
      hide Merges;
      hide Conserves;
      hide CleanCells;
      var lo := queue.head;
      var hi := queue.tail - 1;
      if hi < lo {
        hi := hi + queue.size;
      }
      ghost var n, head := queue.entCnt, queue.head;
      ghost var was, window := queue.cells[..], if n == 0 then queue.size else n;
      WindowEnd(head, n, queue.size);
      SameItself(was, lo, hi);
      WindowOfWhole(was, was, head, window);
      Quicksort(queue.cells, lo, hi);
      ghost var mid := queue.cells[..];
      s := View(mid, lo, hi);
      MergePass(queue, lo, hi, s);
      SameTwice(was, mid, queue.cells[..], lo, hi);
      if n > 0 {
        SettledFilled(queue.cells[..], was, s, head, n, queue.head, queue.entCnt);
      } else {
        assert Whole(was, head)[..window] == Whole(was, head);
        if Merges(s, 0) == 0 {
          SettledEmpty(queue.cells[..], was, s, head, queue.head);
        }
      }
    }

    method InsertQueue(val: nat) returns (ok: bool, ghost s: seq<nat>)
      requires Valid()
      modifies queue`head, queue`tail, queue`entCnt, queue.cells
      ensures Valid()
      ensures |old(Entries())| < queue.size - 1 ==>
                ok && Entries() == old(Entries()) + [val] && (old(Clean()) && InRange(val) ==> Clean())
      ensures |old(Entries())| == queue.size - 1 > 0 ==>
                && SortedOf(s, old(Entries())) && (ok <==> Merges(s, 0) > 0)
                && Entries() == Kept(s) + (if ok then [val] else [])
                && (old(Clean()) && Conserves(s) && InRange(val) ==> Clean())
      ensures queue.size == 1 ==> !ok && Entries() == []
    {
      hide CleanCells;
      hide SortedOf;
      hide InRange;
      hide Pass;
      hide Merges;
      hide Conserves;
      s := [];
      ghost var was, n := queue.Cells(), queue.entCnt;
      ok := queue.TryEnqueue(val);
      if !ok {
        s := Compact();
        SortedSize(s, if n == 0 then was else was[..n]);
        ghost var mid := queue.Cells();
        ok := queue.TryEnqueue(val);
        if ok && CleanCells(mid, queue.entCnt - 1) && InRange(val) {
          EnqueueClean(mid, queue.entCnt - 1, val);
        }
      } else if CleanCells(was, n) && InRange(val) {
        EnqueueClean(was, n, val);
      }
    }

    method InsertQueueFront(val: nat) returns (ok: bool, ghost s: seq<nat>)
      requires Valid()
      modifies queue`head, queue`tail, queue`entCnt, queue.cells
      ensures Valid()
      ensures |old(Entries())| < queue.size - 1 ==>
                ok && Entries() == [val] + old(Entries()) && (old(Clean()) && InRange(val) ==> Clean())
      ensures |old(Entries())| == queue.size - 1 > 0 ==>
                && SortedOf(s, old(Entries())) && (ok <==> Merges(s, 0) > 0)
                && Entries() == (if ok then [val] else []) + Kept(s)
                && (old(Clean()) && Conserves(s) && InRange(val) ==> Clean())
      ensures queue.size == 1 ==> !ok && Entries() == []
    {
      hide CleanCells;
      hide SortedOf;
      hide InRange;
      hide Pass;
      hide Merges;
      hide Conserves;
      s := [];
      ghost var was, n := queue.Cells(), queue.entCnt;
      ok := queue.TryEnqueueFront(val);
      if !ok {
        s := Compact();
        SortedSize(s, if n == 0 then was else was[..n]);
        ghost var mid := queue.Cells();
        ok := queue.TryEnqueueFront(val);
        if ok && CleanCells(mid, queue.entCnt - 1) && InRange(val) {
          EnqueueFrontClean(mid, queue.entCnt - 1, val);
        }
      } else if CleanCells(was, n) && InRange(val) {
        EnqueueFrontClean(was, n, val);
      }
    }

    /** One step of the search: the first entry is taken from the queue and split, or put back at the end. */
    method Probe(pages: int) returns (hit: bool, addr: nat, panicked: bool)
      requires Valid() && Entries() != []
      modifies queue`head, queue`tail, queue`entCnt, queue.cells
      ensures Valid() && !panicked && (old(Clean()) && (hit ==> 0 <= pages) ==> Clean())
      ensures hit <==> PgCnt(old(Entries())[0]) >= pages
      ensures hit ==> addr == GetAddr(old(Entries())[0]) && Entries() == Rest(old(Entries())[0], pages) + old(Entries())[1..]
      ensures !hit ==> Entries() == old(Entries())[1..] + [old(Entries())[0]]
    {
      hide CleanCells;
      hide InRange;
      hide GetAddr;
      hide BuildEntry;
      hide Int32;
      hide PgCnt;
      hide Merges;
      hide Conserves;
      hide Kept;
      hide SortedOf;
      ghost var was, n := queue.Cells(), queue.entCnt;
      if CleanCells(was, n) {
        DequeueClean(was, n);
      }
      var ok, deq := queue.TryDequeue();
      panicked := !ok;
      addr := 0;
      hit := PgCnt(deq) >= pages;
      if hit {
        addr := GetAddr(deq);
        var nAddr := (addr + pages * BTM_LEVEL) % TWO64;
        var nPgCnt := Int32(PgCnt(deq) - pages);
        if nPgCnt > 0 {
          if CleanCells(was, n) && 0 <= pages {
            Int32Small(PgCnt(deq) - pages);
            RestFields(deq, pages);
          }
          ghost var s;
          ok, s := InsertQueueFront(BuildEntry(nAddr, nPgCnt));
          panicked := panicked || !ok;
        }
      } else {
        ghost var s;
        ok, s := InsertQueue(deq);
        panicked := panicked || !ok;
      }
    }

    /** One rotation through the queue. */
    method Search(pages: int) returns (hit: bool, addr: nat, panicked: bool)
      requires Valid()
      modifies queue`head, queue`tail, queue`entCnt, queue.cells
      ensures Valid() && !panicked && (old(Clean()) && (hit ==> 0 <= pages) ==> Clean())
      ensures hit <==> HasRoom(old(Entries()), pages)
      ensures hit ==> Hit(old(Entries()), pages, addr, Entries())
      ensures !hit ==> Entries() == old(Entries())
      ensures old(Entries()) == [] ==> queue.Cells() == old(queue.Cells())
    {
      hide CleanCells;
      hide PgCnt;
      hide GetAddr;
      hide Rest;
      hide Rotated;
      ghost var c, cells := Entries(), queue.Cells();
      panicked := false;
      hit, addr := false, 0;
      var maxIter := queue.EntCnt();
      var k := 0;
      RotatedEnds(c);
      while k < maxIter
        invariant 0 <= k <= maxIter == |c| && Valid() && !panicked && (old(Clean()) ==> Clean()) && !hit
        invariant Entries() == Rotated(c, k) && (c == [] ==> queue.Cells() == cells)
        invariant forall j :: 0 <= j < k ==> PgCnt(c[j]) < pages
      {
        RotatedStep(c, k);
        var p;
        hit, addr, p := Probe(pages);
        panicked := panicked || p;
        if hit {
          assert FirstFit(c, pages, k);
          return;
        }
        k := k + 1;
      }
    }

    /** The queue holds disjoint ranges, the free cells are zero and the byte count is right. */
    ghost predicate Sound()
      requires Valid()
      reads this, queue, queue.cells
    {
      Clean() && Disjoint(Entries()) && freeMem == BTM_LEVEL * Total(Entries())
    }

    /** A compaction may do no harm to an empty queue. */
    ghost predicate Ready()
      requires Valid()
      reads this, queue, queue.cells
    {
      Entries() == [] ==> Idle(queue.Cells())
    }

    /** One search, and the compaction when it finds nothing; `s` is the sorted window. */
    method Attempt(pages: int) returns (hit: bool, addr: nat, panicked: bool, ghost s: seq<nat>)
      requires Valid() && Ready()
      modifies queue`head, queue`tail, queue`entCnt, queue.cells
      ensures Valid() && !panicked && (!hit ==> Ready())
      ensures hit <==> HasRoom(old(Entries()), pages)
      ensures hit ==> Hit(old(Entries()), pages, addr, Entries()) && (old(Clean()) && 0 <= pages ==> Clean())
      ensures !hit && old(Entries()) == [] ==> Entries() == [] && (old(Clean()) ==> Clean())
      ensures !hit && old(Entries()) != [] ==>
                && SortedOf(s, old(Entries())) && Entries() == Kept(s)
                && (old(Clean()) && Conserves(s) ==> Clean())
    {
      hide SortedOf;
      hide CleanCells;
      hide Merges;
      hide Conserves;
      hide Kept;
      hide HasRoom;
      hide Hit;
      hide Idle;
      ghost var d := Entries();
      s := [];
      hit, addr, panicked := Search(pages);
      if hit {
        return;
      }
      ghost var was := queue.Cells();
      s := Compact();
      if d == [] {
        NothingMerged(was, s);
        StillIdle(was, queue.Cells());
      } else {
        KeptSome(s, d);
      }
    }

    /** Allocation.  Only a queue that is empty over leftover words is excluded: its compaction leaves
        no valid queue behind. */
    method Alloc(size: nat) returns (addr: int, panicked: bool)
      requires Valid() && Ready() && size < TWO64
      modifies this`freeMem, queue`head, queue`tail, queue`entCnt, queue.cells
      ensures Valid() && !panicked && (addr == -1 ==> Ready())
      ensures AllocGives(old(Entries()), PageCount(size), addr, Entries())
      ensures freeMem == if addr == -1 then old(freeMem) else (old(freeMem) - Rounded(size)) % TWO64
      ensures old(Sound()) && size <= MAX_REQUEST && AllocSafe(old(Entries()), PagesFor(size)) ==>
                && Sound()
                && (addr == -1 ==> SamePages(Entries(), old(Entries())) && !HasRoom(Entries(), PagesFor(size)))
                && (addr != -1 ==> Handed(old(Entries()), Entries(), addr, PagesFor(size)))
                && (addr != -1 <==> Fits(old(Entries()), PagesFor(size)))
    {
      hide SortedOf;
      hide CleanCells;
      hide Merges;
      hide Conserves;
      hide Kept;
      hide HasRoom;
      hide Hit;
      hide Gentle;
      hide Fits;
      hide Disjoint;
      hide Total;
      hide PageCount;
      hide Rounded;
      hide PagesFor;
      var rounded := Rounded(size);
      var pages := PageCount(size);
      ghost var c := Entries();
      ghost var good := Sound() && size <= MAX_REQUEST && AllocSafe(c, PagesFor(size));
      RequestFits(size);
      if good {
        CleanEntries(queue.Cells(), queue.entCnt);
      }
      panicked := false;
      ghost var s, u := [], [];
      var j := 0;
      while j < 2
        invariant 0 <= j <= 2 && Valid() && Ready() && !panicked && freeMem == old(freeMem)
        invariant j == 0 ==> Entries() == c
        invariant j > 0 ==> !HasRoom(c, pages)
        invariant j > 0 && c == [] ==> Entries() == []
        invariant j > 0 && c != [] ==> SortedOf(s, c) && Kept(s) != []
        invariant j == 1 && c != [] ==> Entries() == Kept(s)
        invariant j == 2 && c != [] ==> !HasRoom(Kept(s), pages) && SortedOf(u, Kept(s)) && Entries() == Kept(u)
        invariant good ==> Clean()
      {
        if good && j > 0 && c != [] {
          GentleFirst(c, pages, s);
        }
        var hit, at, p;
        ghost var t;
        hit, at, p, t := Attempt(pages);
        panicked := panicked || p;
        if hit {
          freeMem := (freeMem - rounded) % TWO64;
          if good {
            AllocKeeps(c, PagesFor(size), at, Entries());
            ServedFits(c, PagesFor(size), at, Entries());
            HandedBytes(c, Entries(), at, PagesFor(size));
          }
          return at, panicked;
        }
        if c != [] {
          if j == 0 {
            s := t;
            KeptSome(s, c);
            if good {
              GentleFirst(c, pages, s);
            }
          } else {
            u := t;
          }
        }
        j := j + 1;
      }
      assert AllocGives(c, pages, -1, Entries());
      if good {
        AllocKeeps(c, PagesFor(size), -1, Entries());
        ServedFits(c, PagesFor(size), -1, Entries());
        SameTotal(Entries(), c);
      }
      return -1, panicked;
    }

    /** Queues `cur` pages from `addr` on, as one entry. */
    method FreeChunk(addr: nat, cur: nat, ghost count: nat) returns (ok: bool, ghost base: seq<nat>, ghost s: seq<nat>)
      requires Valid() && 1 <= cur == Chunk(count)
      modifies queue`head, queue`tail, queue`entCnt, queue.cells
      ensures Valid()
      ensures ok ==> Appended(old(Entries()), base, queue.size - 1, s) && Entries() == base + [BuildEntry(addr, cur)]
      ensures !ok ==> FreeGives(old(Entries()), addr, count, queue.size - 1, false, Entries())
      ensures old(Clean()) && InRange(BuildEntry(addr, cur)) && ok ==>
                (|old(Entries())| == queue.size - 1 ==> Conserves(s)) ==> Clean()
      ensures |old(Entries())| < queue.size - 1 ==> ok
      ensures |old(Entries())| == queue.size - 1 > 0 ==> SortedOf(s, old(Entries())) && (ok <==> Merges(s, 0) > 0)
    {
      hide SortedOf;
      hide CleanCells;
      hide Merges;
      hide Conserves;
      hide Kept;
      hide BuildEntry;
      hide InRange;
      hide FreeGives;
      ghost var d := Entries();
      var val := BuildEntry(addr, cur);
      ok, s := InsertQueue(val);
      base := if |d| < queue.size - 1 then d else Kept(s);
      if !ok {
        FreeGivesStuck(d, s, addr, count, queue.size - 1, Entries());
      }
    }

    /** Returning `ok == false` stands for a kernel panic. */
    method Free(addr: nat, size: nat) returns (ok: bool)
      requires Valid() && addr < TWO64 && size < TWO64
      modifies this`freeMem, queue`head, queue`tail, queue`entCnt, queue.cells
      ensures Valid()
      ensures addr % BTM_LEVEL != 0 || size % BTM_LEVEL != 0 ==>
                !ok && Entries() == old(Entries()) && freeMem == old(freeMem)
      ensures addr % BTM_LEVEL == 0 && size % BTM_LEVEL == 0 ==>
                && FreeGives(old(Entries()), addr, size / BTM_LEVEL, queue.size - 1, ok, Entries())
                && freeMem == (old(freeMem) + size) % TWO64
      ensures addr % BTM_LEVEL == 0 && size % BTM_LEVEL == 0 && old(Clean()) && addr + size <= ADDR_LIMIT
              && FreesSafely(old(Entries()), addr, size / BTM_LEVEL, queue.size - 1) ==>
                ok && Clean() && Taken(Entries(), old(Entries()), addr / BTM_LEVEL, size / BTM_LEVEL)
    {
      hide CleanCells;
      hide Taken;
      hide FreesSafely;
      hide FreeGives;
      hide Advanced;
      hide Appended;
      hide BuildEntry;
      hide SortedOf;
      hide Merges;
      hide Conserves;
      hide Kept;
      hide AllInRange;
      if addr % BTM_LEVEL != 0 {
        return false;
      }
      if size % BTM_LEVEL != 0 {
        return false;
      }
      var pageCnt := size / BTM_LEVEL;
      ghost var c, cap := Entries(), queue.size - 1;
      PageOf(size);
      ghost var good := Clean() && addr + size <= ADDR_LIMIT && FreesSafely(c, addr, pageCnt, cap);
      if good {
        CleanEntries(queue.Cells(), queue.entCnt);
        assert Freeable(c, addr, pageCnt, cap);
      }
      hide Freeable;
      hide Continues;
      freeMem := (freeMem + size) % TWO64;
      var a, pg0 := addr, 0;
      ghost var left := pageCnt;
      ContinuesStart(c, addr, pageCnt, cap);
      while pg0 < pageCnt
        invariant 0 <= pg0 && 0 <= left <= pageCnt && left == (if pg0 < pageCnt then pageCnt - pg0 else 0) && Valid()
        invariant freeMem == (old(freeMem) + size) % TWO64
        invariant Continues(c, addr, pageCnt, Entries(), a, left, cap)
        invariant good ==> Clean() && Freeable(Entries(), a, left, cap)
        decreases pageCnt - pg0
      {
        var cur := if pageCnt - pg0 >= MAX_ENTRIES then MAX_ENTRIES else pageCnt - pg0;
        ghost var d := Entries();
        if good {
          FreeableRoom(d, a, left, cap);
        }
        ghost var base, s;
        ok, base, s := FreeChunk(a, cur, left);
        if !ok {
          ContinuesEnd(c, addr, pageCnt, d, a, left, cap, false, Entries());
          return;
        }
        ContinuesNext(c, addr, pageCnt, d, a, left, cap, base, s);
        if good {
          FreeableNext(d, base, s, a, left, cap);
        }
        a := Advanced(a, cur);
        left := left - cur;
        pg0 := pg0 + MAX_ENTRIES;
      }
      ok := true;
      NoneLeft(Entries(), a, cap);
      ContinuesEnd(c, addr, pageCnt, Entries(), a, 0, cap, true, Entries());
      if good {
        FreeableKeeps(c, addr, pageCnt, cap, Entries());
      }
    }
  }

  lemma CleanEntries(x: seq<nat>, n: nat)
    requires CleanCells(x, n)
    ensures AllInRange(x[..n])
  {
  }

  /** The rest of a free is safe and in range. */
  ghost predicate Freeable(c: seq<nat>, addr: nat, count: nat, cap: nat)
  {
    AllInRange(c) && FreesSafely(c, addr, count, cap) && addr % BTM_LEVEL == 0 && addr + count * 0x1000 <= ADDR_LIMIT
  }

  lemma FreeableRoom(c: seq<nat>, addr: nat, count: nat, cap: nat)
    requires count > 0 && Freeable(c, addr, count, cap)
    ensures InRange(BuildEntry(addr, Chunk(count)))
    ensures |c| < cap || (cap > 0 && forall s :: SortedOf(s, c) ==> 0 < Merges(s, 0) && Conserves(s))
  {
    ChunkEntry(addr, count);
    FreesRoom(c, addr, count, cap);
  }

  lemma FreeableNext(c: seq<nat>, base: seq<nat>, s: seq<nat>, addr: nat, count: nat, cap: nat)
    requires count > 0 && Freeable(c, addr, count, cap) && Appended(c, base, cap, s)
    ensures var cur := Chunk(count); Freeable(base + [BuildEntry(addr, cur)], Advanced(addr, cur), count - cur, cap)
  {
    hide FreesSafely;
    hide Appended;
    hide BuildEntry;
    hide Advanced;
    hide InRange;
    ChunkEntry(addr, count);
    FreesNext(c, base, s, addr, count, cap);
  }

  lemma FreeableKeeps(c: seq<nat>, addr: nat, count: nat, cap: nat, d: seq<nat>)
    requires Freeable(c, addr, count, cap) && FreeGives(c, addr, count, cap, true, d)
    ensures Taken(d, c, addr / BTM_LEVEL, count)
  {
    hide FreesSafely;
    hide FreeGives;
    FreeKeeps(c, addr, count, cap, true, d);
  }

  lemma SameTotal(c: seq<nat>, d: seq<nat>)
    requires SamePages(c, d)
    ensures Total(c) == Total(d)
  {
  }

  lemma HandedBytes(c: seq<nat>, d: seq<nat>, addr: int, pages: nat)
    requires Handed(c, d, addr, pages)
    ensures (BTM_LEVEL * Total(c) - BTM_LEVEL * pages) % TWO64 == BTM_LEVEL * Total(d) && Disjoint(d)
  {
  }

  ghost function Rotated(c: seq<nat>, k: nat): seq<nat>
    requires k <= |c|
  {
    c[k..] + c[..k]
  }

  lemma RotatedEnds(c: seq<nat>)
    ensures Rotated(c, 0) == c && Rotated(c, |c|) == c
  {
  }

  lemma RotatedStep(c: seq<nat>, k: nat)
    requires k < |c|
    ensures var r := Rotated(c, k);
            && r != [] && r[0] == c[k] && r[1..] == c[k + 1..] + c[..k]
            && r[1..] + [r[0]] == Rotated(c, k + 1)
  {
    assert c[k + 1..] + c[..k] + [c[k]] == c[k + 1..] + c[..k + 1];
  }

  lemma NothingMerged(cells: seq<nat>, s: seq<nat>)
    requires Idle(cells) && SortedOf(s, cells)
    ensures Merges(s, 0) == 0
  {
  }

  lemma StillIdle(was: seq<nat>, cells: seq<nat>)
    requires Idle(was) && multiset(cells) == multiset(was)
    ensures Idle(cells)
  {
    forall t | SortedOf(t, cells) ensures Merges(t, 0) == 0 {
      assert SortedOf(t, was);
    }
  }

  /** What the rest of a free gives from `d` on is what the whole gives from `c` on. */
  ghost predicate Continues(c: seq<nat>, addr: nat, count: nat, d: seq<nat>, a: nat, left: nat, cap: nat)
  {
    forall ok: bool, e: seq<nat> :: FreeGives(d, a, left, cap, ok, e) ==> FreeGives(c, addr, count, cap, ok, e)
  }

  lemma ContinuesStart(c: seq<nat>, addr: nat, count: nat, cap: nat)
    ensures Continues(c, addr, count, c, addr, count, cap)
  {
  }

  lemma ContinuesNext(c: seq<nat>, addr: nat, count: nat, d: seq<nat>, a: nat, left: nat, cap: nat, base: seq<nat>, s: seq<nat>)
    requires left > 0 && Continues(c, addr, count, d, a, left, cap) && Appended(d, base, cap, s)
    ensures var cur := Chunk(left);
            Continues(c, addr, count, base + [BuildEntry(a, cur)], Advanced(a, cur), left - cur, cap)
  {
    hide FreeGives;
    hide Appended;
    var cur := Chunk(left);
    forall ok: bool, e: seq<nat> | FreeGives(base + [BuildEntry(a, cur)], Advanced(a, cur), left - cur, cap, ok, e)
      ensures FreeGives(c, addr, count, cap, ok, e)
    {
      FreeGivesNext(d, base, s, a, left, cap, ok, e);
    }
  }

  lemma ContinuesEnd(c: seq<nat>, addr: nat, count: nat, d: seq<nat>, a: nat, left: nat, cap: nat, ok: bool, e: seq<nat>)
    requires Continues(c, addr, count, d, a, left, cap) && FreeGives(d, a, left, cap, ok, e)
    ensures FreeGives(c, addr, count, cap, ok, e)
  {
  }

  lemma NoneLeft(c: seq<nat>, addr: nat, cap: nat)
    ensures FreeGives(c, addr, 0, cap, true, c)
  {
  }

  // ----- compaction of an empty queue

  const STALE: seq<nat> := [0x30_0000, 0x40_0000, 0x90_0000]

  lemma StaleSorted()
    ensures Sorted(STALE) && Increasing(STALE) && |STALE| == 3
  {
    GapWords();
    assert GetAddr(0x30_0000) == 0x3000 && GetAddr(0x40_0000) == 0x4000 && GetAddr(0x90_0000) == 0x9000;
  }

  lemma StaleMerges()
    ensures Merges(STALE, 0) == 1
  {
    GapWords();
    hide First;
    hide PgCnt;
    hide Join;
    assert Merges(MergeAt(STALE, 0), 1) == 0;
  }

  /** Sorted words of the stale ring are the stale ring. */
  lemma StaleOnce(s: seq<nat>)
    requires SortedOf(s, STALE)
    ensures s == STALE
  {
    StaleSorted();
    SortedSize(s, STALE);
    SortedWhole(s, STALE);
  }

  /** A ring that starts out with the words of pages 3, 4 and 9 left over: compacting its empty queue
      merges two of them, and the entry count drops to -1. */
  method StaleCompaction() returns (count: int)
    ensures count == -1
  {
    hide SortedOf;
    hide Merges;
    hide CleanCells;
    var memory := new nat[3];
    memory[0], memory[1], memory[2] := 0x30_0000, 0x40_0000, 0x90_0000;
    assert memory[..] == STALE;
    var allocator := new Allocator(memory);
    ghost var s := allocator.Compact();
    StaleOnce(s);
    StaleMerges();
    count := allocator.queue.entCnt;
  }
}
