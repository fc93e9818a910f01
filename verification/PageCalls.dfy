/** What the calls of the page allocator (modules/SysPhysicalMemory/src/page_allocator.c) do to the
    queue of entries, and when that keeps all pages. */
module PageCalls {
  import opened Common
  import opened PageSort
  import opened PageEntry
  import opened Compaction
  import opened RingCompaction

  ghost predicate SortedOf(s: seq<nat>, c: seq<nat>)
  {
    Sorted(s) && multiset(s) == multiset(c)
  }

  /** Compacting the entries `c` keeps all their pages. */
  ghost predicate Gentle(c: seq<nat>)
  {
    forall s :: SortedOf(s, c) ==> Conserves(s)
  }

  /** Compacting an empty queue, which sorts and merges all cells of the ring, merges nothing. */
  ghost predicate Idle(cells: seq<nat>)
  {
    forall s :: SortedOf(s, cells) ==> Merges(s, 0) == 0
  }

  lemma SortedSize(s: seq<nat>, c: seq<nat>)
    requires SortedOf(s, c)
    ensures |s| == |c|
  {
    assert |s| == |multiset(s)| == |c|;
  }

  /** A ring whose free cells are zero has nothing to merge when it is empty. */
  lemma CleanIdle(cells: seq<nat>)
    requires CleanCells(cells, 0)
    ensures Idle(cells)
  {
    assert cells[0..] == cells;
    forall s | SortedOf(s, cells) ensures Merges(s, 0) == 0 {
      ZerosPermuted(s, cells);
    }
  }

  lemma KeptSome(s: seq<nat>, c: seq<nat>)
    requires SortedOf(s, c) && c != []
    ensures Kept(s) != []
  {
    SortedSize(s, c);
  }

  /** From `c` to `d` exactly `n` pages from `first` on were taken away. */
  ghost predicate Taken(c: seq<nat>, d: seq<nat>, first: nat, n: nat)
  {
    Total(c) == Total(d) + n && forall p :: Times(c, p) == Times(d, p) + Once(Within(p, first, n))
  }

  lemma PageAddr(q: nat)
    ensures q * 0x1000 / 0x1000 == q && q * 0x1000 % 0x1000 == 0
    ensures q < PAGE_LIMIT ==> q * 0x1000 < ADDR_LIMIT
    ensures q <= PAGE_LIMIT ==> q * 0x1000 <= ADDR_LIMIT
  {
  }

  lemma PageOf(addr: nat)
    requires addr % BTM_LEVEL == 0
    ensures addr == addr / BTM_LEVEL * 0x1000
    ensures addr <= ADDR_LIMIT ==> addr / BTM_LEVEL <= PAGE_LIMIT
  {
  }

  // ----- allocation

  function Int32(x: int): int
  {
    (x + 0x8000_0000) % 0x1_0000_0000 - 0x8000_0000
  }

  lemma Int32Small(x: int)
    requires -0x8000_0000 <= x < 0x8000_0000
    ensures Int32(x) == x
  {
  }

  /** The rounded size of a request, in 64-bit arithmetic. */
  function Rounded(size: nat): nat
  {
    (size + 0xfff) % TWO64 / 0x1000 * 0x1000
  }

  /** The page count of a request, in 32-bit arithmetic. */
  function PageCount(size: nat): int
  {
    Int32(Rounded(size) / 0x1000)
  }

  /** The pages a request needs. */
  function PagesFor(size: nat): nat
  {
    (size + 0xfff) / 0x1000
  }

  const MAX_REQUEST := 0x7ff_ffff_f000

  /** The page count of a request is right exactly up to 2^43 - 4096 bytes: beyond, the 32-bit count
      or the 64-bit rounding wraps around. */
  lemma RequestFits(size: nat)
    requires size < TWO64
    ensures PageCount(size) == PagesFor(size) <==> size <= MAX_REQUEST
    ensures size <= MAX_REQUEST ==> Rounded(size) == BTM_LEVEL * PagesFor(size)
  {
    PageAddr((size + 0xfff) / 0x1000);
    PageAddr((size + 0xfff) % TWO64 / 0x1000);
    RoundedPages(size);
  }

  lemma RoundedPages(size: nat)
    requires size < TWO64
    ensures size + 0xfff < TWO64 ==> (size + 0xfff) % TWO64 == size + 0xfff
    ensures size + 0xfff >= TWO64 ==> (size + 0xfff) % TWO64 == size + 0xfff - TWO64
  {
  }

  ghost predicate HasRoom(c: seq<nat>, pages: int)
  {
    exists k :: 0 <= k < |c| && PgCnt(c[k]) >= pages
  }

  /** What is put back of an entry from which `n` pages are taken. */
  ghost function Rest(e: nat, n: int): seq<nat>
    requires n <= PgCnt(e)
  {
    var left := Int32(PgCnt(e) - n);
    if left > 0 then [BuildEntry((GetAddr(e) + n * BTM_LEVEL) % TWO64, left)] else []
  }

  lemma RestFields(e: nat, n: nat)
    requires n < PgCnt(e) && InRange(e)
    ensures Int32(PgCnt(e) - n) == PgCnt(e) - n
    ensures var r := BuildEntry((GetAddr(e) + n * BTM_LEVEL) % TWO64, PgCnt(e) - n);
            InRange(r) && First(r) == First(e) + n && PgCnt(r) == PgCnt(e) - n
  {
    hide GetAddr;
    hide First;
    hide PgCnt;
    hide BuildEntry;
    hide Int32;
    Int32Small(PgCnt(e) - n);
    AddrFits(e);
    PageAddr(First(e) + n);
    assert GetAddr(e) + n * BTM_LEVEL == (First(e) + n) * 0x1000;
    Small64((First(e) + n) * 0x1000);
    BuildFields((First(e) + n) * 0x1000, PgCnt(e) - n);
  }

  lemma Small64(x: nat)
    requires x < TWO64
    ensures x % TWO64 == x
  {
  }

  lemma RestTaken(e: nat, n: nat, p: nat)
    requires n <= PgCnt(e) && InRange(e)
    ensures Once(Holds(e, p)) == Times(Rest(e, n), p) + Once(Within(p, First(e), n))
    ensures PgCnt(e) == Total(Rest(e, n)) + n && AllInRange(Rest(e, n))
  {
    hide GetAddr;
    hide First;
    hide PgCnt;
    hide BuildEntry;
    hide Int32;
    hide InRange;
    if n < PgCnt(e) {
      RestFields(e, n);
      TimesOne(Rest(e, n)[0], p);
    } else {
      Int32Small(0);
    }
  }

  /** The entry that a search takes: the first one that is large enough. */
  ghost predicate FirstFit(c: seq<nat>, pages: int, i: nat)
  {
    i < |c| && PgCnt(c[i]) >= pages && forall k :: 0 <= k < i ==> PgCnt(c[k]) < pages
  }

  /** A search that finds an entry: what is left of it comes first, then the entries behind it, then
      those that were rotated to the end. */
  ghost predicate Hit(c: seq<nat>, pages: int, addr: int, d: seq<nat>)
  {
    exists i: nat :: FirstFit(c, pages, i) && addr == GetAddr(c[i]) && d == Rest(c[i], pages) + (c[i + 1..] + c[..i])
  }

  /** All that a call of the allocator does to the entries: a search, and if it fails a compaction, a
      second search and a second compaction. */
  ghost predicate AllocGives(c: seq<nat>, pages: int, addr: int, d: seq<nat>)
  {
    if HasRoom(c, pages) then Hit(c, pages, addr, d)
    else if c == [] then addr == -1 && d == []
    else exists s :: SortedOf(s, c) && AfterCompaction(Kept(s), pages, addr, d)
  }

  ghost predicate AfterCompaction(c: seq<nat>, pages: int, addr: int, d: seq<nat>)
  {
    if HasRoom(c, pages) then Hit(c, pages, addr, d)
    else addr == -1 && exists s :: SortedOf(s, c) && d == Kept(s)
  }

  /** An allocation that finds a large enough entry at once does not compact. */
  ghost predicate AllocSafe(c: seq<nat>, pages: int)
  {
    c == [] || HasRoom(c, pages) || Gentle(c)
  }

  /** From `c` to `d` the pages at `addr` were handed out, and the byte count can follow. */
  ghost predicate Handed(c: seq<nat>, d: seq<nat>, addr: int, pages: nat)
  {
    && 0 <= addr && addr % BTM_LEVEL == 0 && Taken(c, d, addr / BTM_LEVEL, pages) && Disjoint(d)
    && (BTM_LEVEL * Total(c) - BTM_LEVEL * pages) % TWO64 == BTM_LEVEL * Total(d)
  }

  lemma SplitTaken(c: seq<nat>, i: nat, n: nat)
    requires i < |c| && InRange(c[i]) && n <= PgCnt(c[i])
    ensures Taken(c, Rest(c[i], n) + (c[i + 1..] + c[..i]), First(c[i]), n)
  {
    var r, others := Rest(c[i], n), c[i + 1..] + c[..i];
    forall p: nat ensures Times(c, p) == Times(r + others, p) + Once(Within(p, First(c[i]), n)) {
      RestTaken(c[i], n, p);
      TimesSplit(c, i, p);
      TimesAppend(r, others, p);
      TimesAppend(c[i + 1..], c[..i], p);
    }
    RestTaken(c[i], n, 0);
    TimesSplit(c, i, 0);
    TimesAppend(r, others, 0);
    TimesAppend(c[i + 1..], c[..i], 0);
  }

  lemma HitOnly(d: seq<nat>, after: seq<nat>, addr: int, pages: nat)
    requires AllInRange(d) && Hit(d, pages, addr, after)
    ensures 0 <= addr && addr % BTM_LEVEL == 0 && Taken(d, after, addr / BTM_LEVEL, pages) && AllInRange(after)
  {
    hide Rest;
    hide Total;
    hide Times;
    hide First;
    hide GetAddr;
    hide InRange;
    var i: nat :| FirstFit(d, pages, i) && addr == GetAddr(d[i]) && after == Rest(d[i], pages) + (d[i + 1..] + d[..i]);
    AddrFits(d[i]);
    PageAddr(First(d[i]));
    SplitTaken(d, i, pages);
    RestTaken(d[i], pages, 0);
  }

  lemma HitTaken(c: seq<nat>, d: seq<nat>, after: seq<nat>, addr: int, pages: nat)
    requires SamePages(d, c) && Disjoint(c) && AllInRange(d) && Hit(d, pages, addr, after)
    ensures Handed(c, after, addr, pages) && AllInRange(after)
  {
    hide Total;
    hide Times;
    hide Hit;
    HitOnly(d, after, addr, pages);
    forall p ensures Times(after, p) <= 1 {
      assert Times(c, p) <= 1;
    }
    assert Disjoint(d);
    TotalFits(d);
  }

  lemma SameSelf(c: seq<nat>)
    ensures SamePages(c, c)
  {
  }

  lemma SamePermuted(s: seq<nat>, c: seq<nat>)
    requires SortedOf(s, c) && AllInRange(c)
    ensures SamePages(s, c) && AllInRange(s)
  {
    PermutedSame(s, c);
    InRangePermuted(s, c);
  }

  /** Such a compaction keeps the pages, and another one would change nothing. */
  lemma GentleCompaction(c: seq<nat>, s: seq<nat>)
    requires c != [] && AllInRange(c) && Disjoint(c) && SortedOf(s, c) && Conserves(s)
    ensures Disjoint(Kept(s)) && SamePages(Kept(s), c) && AllInRange(Kept(s))
    ensures forall t :: SortedOf(t, Kept(s)) ==> Kept(t) == t && Conserves(t)
  {
    hide Pass;
    hide Merges;
    hide Conserves;
    hide Sorted;
    hide Disjoint;
    assert s != [] by { SortedSize(s, c); }
    SortedDisjoint(s, c);
    KeptDisjoint(s, Kept(s));
    SameTrans(Kept(s), s, c);
    KeptInRange(s);
    forall t | SortedOf(t, Kept(s)) ensures Kept(t) == t && Conserves(t) {
      ConservesOnce(s, t);
    }
  }

  lemma GentleFirst(c: seq<nat>, pages: int, s: seq<nat>)
    requires c != [] && AllInRange(c) && Disjoint(c) && SortedOf(s, c) && AllocSafe(c, pages) && !HasRoom(c, pages)
    ensures Conserves(s) && forall t :: SortedOf(t, Kept(s)) ==> Kept(t) == t && Conserves(t)
  {
    hide HasRoom;
    hide Conserves;
    hide Disjoint;
    hide AllInRange;
    hide SortedOf;
    GentleCompaction(c, s);
  }

  lemma RoomPermuted(t: seq<nat>, c: seq<nat>, pages: int)
    requires SortedOf(t, c) && HasRoom(t, pages)
    ensures HasRoom(c, pages)
  {
    var k :| 0 <= k < |t| && PgCnt(t[k]) >= pages;
    assert t[k] in multiset(t);
    assert t[k] in c;
  }

  /** Disjoint entries have only one sorted order. */
  lemma SortedUnique(s: seq<nat>, t: seq<nat>, c: seq<nat>)
    requires SortedOf(s, c) && SortedOf(t, c) && AllInRange(c) && Disjoint(c)
    ensures s == t
  {
    hide Sorted;
    hide Increasing;
    hide Disjoint;
    SortedDisjoint(s, c);
    SortedDisjoint(t, c);
    DisjointIncreasing(s);
    DisjointIncreasing(t);
    SortedOnce(s, t);
  }

  lemma SortedDisjoint(s: seq<nat>, c: seq<nat>)
    requires SortedOf(s, c) && AllInRange(c) && Disjoint(c)
    ensures Disjoint(s) && AllInRange(s) && SamePages(s, c)
  {
    SamePermuted(s, c);
  }

  /** A safe call either hands out exactly the requested pages, or keeps all pages and leaves no entry
      that is large enough. */
  lemma AllocKeeps(c: seq<nat>, pages: nat, addr: int, d: seq<nat>)
    requires AllInRange(c) && Disjoint(c) && AllocSafe(c, pages) && AllocGives(c, pages, addr, d)
    ensures AllInRange(d) && Disjoint(d)
    ensures addr == -1 ==> SamePages(d, c) && !HasRoom(d, pages)
    ensures addr != -1 ==> Handed(c, d, addr, pages)
  {
    hide Hit;
    hide Disjoint;
    hide AllInRange;
    hide SamePages;
    hide Kept;
    hide SortedOf;
    hide Conserves;
    hide HasRoom;
    hide Handed;
    SameSelf(c);
    if HasRoom(c, pages) {
      HitTaken(c, c, d, addr, pages);
      HandedParts(c, d, addr, pages);
    } else if c != [] {
      var s :| SortedOf(s, c) && AfterCompaction(Kept(s), pages, addr, d);
      GentleCompaction(c, s);
      if HasRoom(Kept(s), pages) {
        HitTaken(c, Kept(s), d, addr, pages);
        HandedParts(c, d, addr, pages);
      } else {
        var t :| SortedOf(t, Kept(s)) && d == Kept(t);
        assert d == t;
        SortedDisjoint(t, Kept(s));
        SameTrans(d, Kept(s), c);
        if HasRoom(t, pages) {
          RoomPermuted(t, Kept(s), pages);
        }
      }
    }
  }

  lemma HandedParts(c: seq<nat>, d: seq<nat>, addr: int, pages: nat)
    requires Handed(c, d, addr, pages)
    ensures 0 <= addr && Disjoint(d)
  {
  }

  /** A page that no second compaction or allocation brings back. */
  lemma StaysLost(c: seq<nat>, pages: nat, addr: int, d: seq<nat>, p: nat)
    requires AllInRange(c) && AfterCompaction(c, pages, addr, d) && p > 0 && Times(c, p) == 0
    ensures Times(d, p) == 0 && (addr == -1 || (0 <= addr && !Within(p, addr / BTM_LEVEL, pages)))
  {
    hide Hit;
    hide Times;
    hide Kept;
    hide SortedOf;
    hide HasRoom;
    hide AllInRange;
    if HasRoom(c, pages) {
      HitOnly(c, d, addr, pages);
    } else {
      var t :| SortedOf(t, c) && d == Kept(t);
      SamePermuted(t, c);
      KeptTimes(t, p);
    }
  }

  /** An unsafe call loses a page that was queued: it is neither queued nor handed out afterwards. */
  lemma AllocLoses(c: seq<nat>, pages: nat, addr: int, d: seq<nat>) returns (p: nat)
    requires AllInRange(c) && Disjoint(c) && !AllocSafe(c, pages) && AllocGives(c, pages, addr, d)
    ensures Times(c, p) == 1 && Times(d, p) == 0
    ensures addr == -1 || (0 <= addr && !Within(p, addr / BTM_LEVEL, pages))
  {
    hide Times;
    hide SortedOf;
    hide Conserves;
    hide HasRoom;
    hide AllInRange;
    hide Disjoint;
    hide SamePages;
    var s :| SortedOf(s, c) && AfterCompaction(Kept(s), pages, addr, d);
    SortedDisjoint(s, c);
    var s' :| SortedOf(s', c) && !Conserves(s');
    SortedUnique(s, s', c);
    p := Loses(c, s);
    KeptInRange(s);
    StaysLost(Kept(s), pages, addr, d, p);
  }

  lemma Loses(c: seq<nat>, s: seq<nat>) returns (p: nat)
    requires AllInRange(c) && Disjoint(c) && SortedOf(s, c) && !Conserves(s)
    ensures p > 0 && Times(c, p) == 1 && Times(Kept(s), p) == 0
  {
    hide Times;
    hide Conserves;
    hide Kept;
    hide Sorted;
    SortedDisjoint(s, c);
    p := CompactionLoses(s);
  }

  // ----- freeing

  /** A single entry takes up to 2^20 pages. */
  function Chunk(count: nat): nat
  {
    if count >= MAX_ENTRIES then MAX_ENTRIES else count
  }

  /** The address behind `n` pages, in 64-bit arithmetic. */
  function Advanced(addr: nat, n: nat): nat
  {
    (addr + n * 0x1000) % TWO64
  }

  /** All that freeing `count` pages from `addr` on does to a queue of at most `cap` entries: one entry
      after the other is appended, after a compaction if the queue is full; `ok` says that each
      compaction made room. */
  ghost predicate FreeGives(c: seq<nat>, addr: nat, count: nat, cap: nat, ok: bool, d: seq<nat>)
    decreases count
  {
    if count == 0 then ok && d == c
    else
      var cur := Chunk(count);
      var e := BuildEntry(addr, cur);
      if |c| < cap then FreeGives(c + [e], Advanced(addr, cur), count - cur, cap, ok, d)
      else if cap == 0 then !ok && d == c
      else
        exists s :: SortedOf(s, c) &&
          if Merges(s, 0) > 0 then FreeGives(Kept(s) + [e], Advanced(addr, cur), count - cur, cap, ok, d)
          else !ok && d == Kept(s)
  }

  /** Every compaction on the way makes room and keeps all pages. */
  ghost predicate FreesSafely(c: seq<nat>, addr: nat, count: nat, cap: nat)
    decreases count
  {
    count == 0 ||
    var cur := Chunk(count);
    var e := BuildEntry(addr, cur);
    if |c| < cap then FreesSafely(c + [e], Advanced(addr, cur), count - cur, cap)
    else cap > 0 && forall s :: SortedOf(s, c) ==>
           0 < Merges(s, 0) && Conserves(s) && FreesSafely(Kept(s) + [e], Advanced(addr, cur), count - cur, cap)
  }

  /** One entry that is appended: to the entries as they are, or to what a compaction leaves. */
  ghost predicate Appended(c: seq<nat>, base: seq<nat>, cap: nat, s: seq<nat>)
  {
    if |c| < cap then base == c else cap > 0 && SortedOf(s, c) && Merges(s, 0) > 0 && base == Kept(s)
  }

  lemma FreeGivesNext(c: seq<nat>, base: seq<nat>, s: seq<nat>, addr: nat, count: nat, cap: nat, ok: bool, d: seq<nat>)
    requires count > 0 && Appended(c, base, cap, s)
    requires var cur := Chunk(count); FreeGives(base + [BuildEntry(addr, cur)], Advanced(addr, cur), count - cur, cap, ok, d)
    ensures FreeGives(c, addr, count, cap, ok, d)
  {
    hide SortedOf;
    hide Merges;
    hide Kept;
  }

  lemma FreeGivesStuck(c: seq<nat>, s: seq<nat>, addr: nat, count: nat, cap: nat, d: seq<nat>)
    requires count > 0 && |c| >= cap
    requires if cap == 0 then d == c else SortedOf(s, c) && Merges(s, 0) == 0 && d == Kept(s)
    ensures FreeGives(c, addr, count, cap, false, d)
  {
    hide SortedOf;
    hide Merges;
    hide Kept;
  }

  lemma FreesNext(c: seq<nat>, base: seq<nat>, s: seq<nat>, addr: nat, count: nat, cap: nat)
    requires count > 0 && FreesSafely(c, addr, count, cap) && Appended(c, base, cap, s) && AllInRange(c)
    ensures var cur := Chunk(count); FreesSafely(base + [BuildEntry(addr, cur)], Advanced(addr, cur), count - cur, cap)
    ensures SamePages(base, c) && AllInRange(base) && (|c| >= cap ==> Conserves(s))
  {
    hide Merges;
    hide Conserves;
    hide SamePages;
    hide Kept;
    if |c| < cap {
      SameSelf(c);
    } else {
      SamePermuted(s, c);
      ConservesSame(s);
      SameTrans(Kept(s), s, c);
      KeptInRange(s);
    }
  }

  lemma KeptInRange(s: seq<nat>)
    requires AllInRange(s)
    ensures AllInRange(Kept(s))
  {
    PassTimes(s, 0, 0);
  }

  lemma FreesRoom(c: seq<nat>, addr: nat, count: nat, cap: nat)
    requires count > 0 && FreesSafely(c, addr, count, cap)
    ensures |c| < cap || (cap > 0 && forall s :: SortedOf(s, c) ==> 0 < Merges(s, 0) && Conserves(s))
  {
  }

  lemma TakenMore(c: seq<nat>, base: seq<nat>, e: nat, d: seq<nat>, first: nat, n: nat)
    requires SamePages(base, c) && First(e) == first && Taken(d, base + [e], first + PgCnt(e), n)
    ensures Taken(d, c, first, PgCnt(e) + n)
  {
    hide Times;
    hide Total;
    hide First;
    hide PgCnt;
    forall p: nat ensures Times(d, p) == Times(c, p) + Once(Within(p, first, PgCnt(e) + n)) {
      Snoc(base, e, p);
    }
    Snoc(base, e, 0);
  }

  lemma ChunkEntry(addr: nat, count: nat)
    requires count > 0 && addr % BTM_LEVEL == 0 && addr + count * 0x1000 <= ADDR_LIMIT
    ensures var cur, e := Chunk(count), BuildEntry(addr, Chunk(count));
            && First(e) == addr / BTM_LEVEL && PgCnt(e) == cur && InRange(e)
            && Advanced(addr, cur) == addr + cur * 0x1000
            && Advanced(addr, cur) % BTM_LEVEL == 0 && Advanced(addr, cur) / BTM_LEVEL == addr / BTM_LEVEL + cur
  {
    var cur, q := Chunk(count), addr / BTM_LEVEL;
    PageOf(addr);
    PageAddr(q + cur);
    BuildFields(addr, cur);
    Small64(addr + cur * 0x1000);
    assert addr + cur * 0x1000 == (q + cur) * 0x1000;
  }

  /** A safe free succeeds and adds exactly the freed pages. */
  lemma {:induction false} FreeKeeps(c: seq<nat>, addr: nat, count: nat, cap: nat, ok: bool, d: seq<nat>)
    requires AllInRange(c) && addr % BTM_LEVEL == 0 && addr + count * 0x1000 <= ADDR_LIMIT
    requires FreesSafely(c, addr, count, cap) && FreeGives(c, addr, count, cap, ok, d)
    ensures ok && AllInRange(d) && Taken(d, c, addr / BTM_LEVEL, count)
    decreases count
  {
    hide SortedOf;
    hide Merges;
    hide Conserves;
    hide Kept;
    hide Taken;
    hide SamePages;
    hide BuildEntry;
    hide First;
    hide PgCnt;
    hide Advanced;
    hide InRange;
    if count == 0 {
      TakenNone(c, addr / BTM_LEVEL);
    } else {
      var cur := Chunk(count);
      var e, next := BuildEntry(addr, cur), Advanced(addr, cur);
      ChunkEntry(addr, count);
      FreesRoom(c, addr, count, cap);
      var base, s := c, c;
      if |c| >= cap {
        s :| SortedOf(s, c) && FreeGives(Kept(s) + [e], next, count - cur, cap, ok, d);
        base := Kept(s);
      }
      FreesNext(c, base, s, addr, count, cap);
      FreeKeeps(base + [e], next, count - cur, cap, ok, d);
      TakenMore(c, base, e, d, addr / BTM_LEVEL, count - cur);
    }
  }

  lemma TakenNone(c: seq<nat>, first: nat)
    ensures Taken(c, c, first, 0)
  {
  }

  ghost predicate NotQueued(c: seq<nat>, first: nat, n: nat)
  {
    forall p :: Within(p, first, n) ==> Times(c, p) == 0
  }

  /** Freed pages that were not queued: the ranges stay disjoint, and the byte count follows. */
  lemma FreedSound(c: seq<nat>, d: seq<nat>, first: nat, n: nat)
    requires Taken(d, c, first, n) && NotQueued(c, first, n) && Disjoint(c) && AllInRange(d)
    ensures Disjoint(d) && (BTM_LEVEL * Total(c) + BTM_LEVEL * n) % TWO64 == BTM_LEVEL * Total(d)
  {
    hide Total;
    hide Times;
    forall p ensures Times(d, p) <= 1 {
      assert Times(c, p) <= 1;
    }
    TotalFits(d);
  }

  /** A free adds no page but those it frees, and page 0. */
  lemma {:induction false} FreeAtMost(c: seq<nat>, addr: nat, count: nat, cap: nat, ok: bool, d: seq<nat>, p: nat)
    requires AllInRange(c) && addr % BTM_LEVEL == 0 && addr + count * 0x1000 <= ADDR_LIMIT
    requires FreeGives(c, addr, count, cap, ok, d) && p > 0
    ensures Times(d, p) <= Times(c, p) + Once(Within(p, addr / BTM_LEVEL, count))
    decreases count
  {
    hide SortedOf;
    hide Merges;
    hide Kept;
    hide Times;
    hide BuildEntry;
    hide First;
    hide PgCnt;
    hide Advanced;
    hide InRange;
    if count == 0 {
    } else {
      var cur := Chunk(count);
      var e, next, base := BuildEntry(addr, cur), Advanced(addr, cur), c;
      ChunkEntry(addr, count);
      if |c| >= cap > 0 {
        var s :| SortedOf(s, c) && if Merges(s, 0) > 0 then FreeGives(Kept(s) + [e], next, count - cur, cap, ok, d)
                                   else !ok && d == Kept(s);
        base := Kept(s);
        SamePermuted(s, c);
        KeptTimes(s, p);
        KeptInRange(s);
      }
      Snoc(base, e, p);
      if d != base && (|c| < cap || cap > 0) {
        FreeAtMost(base + [e], next, count - cur, cap, ok, d, p);
      }
    }
  }

  lemma NextDisjoint(c: seq<nat>, base: seq<nat>, e: nat, first: nat, count: nat)
    requires SamePages(base, c) && Disjoint(c) && NotQueued(c, first, count) && First(e) == first && PgCnt(e) <= count
    ensures Disjoint(base + [e]) && NotQueued(base + [e], first + PgCnt(e), count - PgCnt(e))
  {
    hide Times;
    hide First;
    hide PgCnt;
    forall p ensures Times(base + [e], p) == Times(c, p) + Once(Within(p, first, PgCnt(e))) {
      Snoc(base, e, p);
    }
    forall p ensures Times(base + [e], p) <= 1 {
      assert Times(c, p) <= 1;
      if Within(p, first, PgCnt(e)) {
        assert Within(p, first, count);
      }
    }
    forall p | Within(p, first + PgCnt(e), count - PgCnt(e)) ensures Times(base + [e], p) == 0 {
      assert Within(p, first, count);
    }
  }

  /** An unsafe free that does not panic loses a page that was queued or freed. */
  lemma {:induction false} FreeLoses(c: seq<nat>, addr: nat, count: nat, cap: nat, d: seq<nat>) returns (p: nat)
    requires AllInRange(c) && Disjoint(c) && addr % BTM_LEVEL == 0 && addr + count * 0x1000 <= ADDR_LIMIT
    requires NotQueued(c, addr / BTM_LEVEL, count)
    requires !FreesSafely(c, addr, count, cap) && FreeGives(c, addr, count, cap, true, d)
    ensures Times(d, p) == 0 && (Times(c, p) == 1 || Within(p, addr / BTM_LEVEL, count))
    decreases count
  {
    hide SortedOf;
    hide Merges;
    hide Conserves;
    hide Kept;
    hide Times;
    hide SamePages;
    hide Disjoint;
    hide NotQueued;
    hide BuildEntry;
    hide First;
    hide PgCnt;
    hide Advanced;
    hide InRange;
    var cur, first := Chunk(count), addr / BTM_LEVEL;
    var e, next, base := BuildEntry(addr, cur), Advanced(addr, cur), c;
    ChunkEntry(addr, count);
    SameSelf(c);
    if |c| >= cap {
      var s :| SortedOf(s, c) && Merges(s, 0) > 0 && FreeGives(Kept(s) + [e], next, count - cur, cap, true, d);
      base := Kept(s);
      var s' :| SortedOf(s', c) && !(0 < Merges(s', 0) && Conserves(s') && FreesSafely(Kept(s') + [e], next, count - cur, cap));
      SortedUnique(s, s', c);
      SamePermuted(s, c);
      KeptInRange(s);
      if !Conserves(s) {
        p := Loses(c, s);
        Snoc(base, e, p);
        FreeAtMost(base + [e], next, count - cur, cap, true, d, p);
        QueuedElsewhere(c, first, count, p);
        return;
      }
      ConservesSame(s);
      SameTrans(base, s, c);
    }
    NextDisjoint(c, base, e, first, count);
    p := FreeLoses(base + [e], next, count - cur, cap, d);
    Snoc(base, e, p);
    SameAt(base, c, p);
  }

  lemma QueuedElsewhere(c: seq<nat>, first: nat, n: nat, p: nat)
    requires NotQueued(c, first, n) && Times(c, p) == 1
    ensures !Within(p, first, n)
  {
  }

  lemma SameAt(c: seq<nat>, d: seq<nat>, p: nat)
    requires SamePages(c, d)
    ensures Times(c, p) == Times(d, p)
  {
  }
}
