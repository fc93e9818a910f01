/** Free ranges of physical pages packed into 64-bit words: the page number above a 20-bit page
    count less one (modules/SysPhysicalMemory/src/page_allocator.c). */
module PageEntry {
  import opened Common
  import PageSort

  const BTM_LEVEL := 0x1000
  const MAX_ENTRIES := 0x10_0000
  /** Addresses that survive the left shift by 8. */
  const ADDR_LIMIT := 0x100_0000_0000_0000
  const PAGE_LIMIT := 0x1000_0000_0000

  function First(e: nat): nat
  {
    e / 0x10_0000
  }

  function PgCnt(e: nat): (n: nat)
    ensures 1 <= n <= MAX_ENTRIES
  {
    e % 0x10_0000 + 1
  }

  function BuildEntry(addr: nat, pages: nat): nat
  {
    addr / 0x1000 * 0x10_0000 % 0x1_0000_0000_0000_0000 + (pages - 1) % 0x10_0000
  }

  lemma SplitWord(q: nat, r: nat)
    requires r < 0x10_0000
    ensures First(q * 0x10_0000 + r) == q && PgCnt(q * 0x10_0000 + r) == r + 1
  {
  }

  lemma ShiftFits(q: nat)
    requires q < 0x1000_0000_0000
    ensures q * 0x10_0000 % 0x1_0000_0000_0000_0000 == q * 0x10_0000
  {
  }

  /** Packing loses nothing for addresses below 2^56 and up to 2^20 pages. */
  lemma BuildFields(addr: nat, pages: nat)
    requires addr < ADDR_LIMIT && 1 <= pages <= MAX_ENTRIES
    ensures var e := BuildEntry(addr, pages);
            First(e) == addr / 0x1000 && PgCnt(e) == pages && PageSort.GetAddr(e) == addr / 0x1000 * 0x1000
  {
    var q := addr / 0x1000;
    assert q < 0x1000_0000_0000;
    ShiftFits(q);
    assert (pages - 1) % 0x10_0000 == pages - 1;
    SplitWord(q, pages - 1);
  }

  lemma AddrFits(e: nat)
    ensures PageSort.GetAddr(e) / 0x1000 == First(e) && PageSort.GetAddr(e) == First(e) * 0x1000
    ensures First(e) < PAGE_LIMIT ==> PageSort.GetAddr(e) < ADDR_LIMIT
  {
  }

  // ----- what a sequence of entries stands for

  /** Whether an entry holds page `p`. */
  ghost predicate Holds(e: nat, p: nat)
  {
    First(e) <= p < First(e) + PgCnt(e)
  }

  /** How many of the entries hold page `p`. */
  ghost function Times(c: seq<nat>, p: nat): nat
  {
    if c == [] then 0 else Times(c[..|c| - 1], p) + Once(Holds(c[|c| - 1], p))
  }

  /** The number of pages in all entries together. */
  ghost function Total(c: seq<nat>): nat
  {
    if c == [] then 0 else Total(c[..|c| - 1]) + PgCnt(c[|c| - 1])
  }

  /** No page is held twice. */
  ghost predicate Disjoint(c: seq<nat>)
  {
    forall p :: Times(c, p) <= 1
  }

  /** The range lies below 2^56. */
  ghost predicate InRange(e: nat)
  {
    First(e) + PgCnt(e) <= PAGE_LIMIT
  }

  ghost predicate AllInRange(c: seq<nat>)
  {
    forall i :: 0 <= i < |c| ==> InRange(c[i])
  }

  /** The same pages, the same number of times. */
  ghost predicate SamePages(c: seq<nat>, d: seq<nat>)
  {
    Total(c) == Total(d) && forall p :: Times(c, p) == Times(d, p)
  }

  lemma Snoc(c: seq<nat>, e: nat, p: nat)
    ensures Times(c + [e], p) == Times(c, p) + Once(Holds(e, p))
    ensures Total(c + [e]) == Total(c) + PgCnt(e)
  {
    assert (c + [e])[..|c|] == c;
  }

  lemma {:induction false} TimesAppend(c: seq<nat>, d: seq<nat>, p: nat)
    ensures Times(c + d, p) == Times(c, p) + Times(d, p)
    ensures Total(c + d) == Total(c) + Total(d)
    decreases |d|
  {
    if d == [] {
      assert c + d == c;
    } else {
      var d', e := d[..|d| - 1], d[|d| - 1];
      assert c + d == (c + d') + [e];
      assert d == d' + [e];
      TimesAppend(c, d', p);
      Snoc(c + d', e, p);
      Snoc(d', e, p);
    }
  }

  lemma TimesOne(e: nat, p: nat)
    ensures Times([e], p) == Once(Holds(e, p)) && Total([e]) == PgCnt(e)
  {
    Snoc([], e, p);
    assert [] + [e] == [e];
  }

  lemma TimesSplit(c: seq<nat>, i: nat, p: nat)
    requires i < |c|
    ensures Times(c, p) == Times(c[..i], p) + Once(Holds(c[i], p)) + Times(c[i + 1..], p)
    ensures Total(c) == Total(c[..i]) + PgCnt(c[i]) + Total(c[i + 1..])
  {
    assert c == c[..i] + [c[i]] + c[i + 1..];
    TimesAppend(c[..i] + [c[i]], c[i + 1..], p);
    Snoc(c[..i], c[i], p);
  }

  lemma TimesUpdate(c: seq<nat>, i: nat, e: nat, p: nat)
    requires i < |c|
    ensures Times(c[i := e], p) + Once(Holds(c[i], p)) == Times(c, p) + Once(Holds(e, p))
    ensures Total(c[i := e]) + PgCnt(c[i]) == Total(c) + PgCnt(e)
  {
    TimesSplit(c, i, p);
    TimesSplit(c[i := e], i, p);
    assert c[i := e][..i] == c[..i] && c[i := e][i + 1..] == c[i + 1..];
  }

  lemma WithoutOne(c: seq<nat>, e: nat, d: seq<nat>, i: nat)
    requires i < |d| && d[i] == e && multiset(c + [e]) == multiset(d)
    ensures multiset(c) == multiset(d[..i] + d[i + 1..])
  {
    assert d == d[..i] + [e] + d[i + 1..];
    assert multiset(c + [e]) == multiset(c) + multiset{e};
    assert multiset(d) == multiset(d[..i]) + multiset{e} + multiset(d[i + 1..]);
    assert multiset(c) == multiset(d) - multiset{e};
  }

  lemma {:induction false} TimesPermuted(c: seq<nat>, d: seq<nat>, p: nat)
    requires multiset(c) == multiset(d)
    ensures Times(c, p) == Times(d, p) && Total(c) == Total(d)
    decreases |c|
  {
    if c == [] {
      assert d == [] by {
        assert |multiset(d)| == 0;
      }
    } else {
      var c', e := c[..|c| - 1], c[|c| - 1];
      assert c == c' + [e];
      assert e in multiset(d);
      var i :| 0 <= i < |d| && d[i] == e;
      WithoutOne(c', e, d, i);
      TimesPermuted(c', d[..i] + d[i + 1..], p);
      TimesSplit(d, i, p);
      TimesAppend(d[..i], d[i + 1..], p);
    }
  }

  lemma PermutedSame(c: seq<nat>, d: seq<nat>)
    requires multiset(c) == multiset(d)
    ensures SamePages(c, d)
  {
    forall p ensures Times(c, p) == Times(d, p) {
      TimesPermuted(c, d, p);
    }
    TimesPermuted(c, d, 0);
  }

  lemma SameTrans(c: seq<nat>, d: seq<nat>, e: seq<nat>)
    requires SamePages(c, d) && SamePages(d, e)
    ensures SamePages(c, e)
  {
  }

  // ----- disjoint ranges fill no more pages than there are

  ghost function CountBelow(c: seq<nat>, limit: nat): nat
  {
    if limit == 0 then 0 else CountBelow(c, limit - 1) + Times(c, limit - 1)
  }

  lemma {:induction false} CountEmpty(limit: nat)
    ensures CountBelow([], limit) == 0
  {
    if limit > 0 {
      CountEmpty(limit - 1);
    }
  }

  lemma {:induction false} CountSnoc(c: seq<nat>, e: nat, limit: nat)
    ensures CountBelow(c + [e], limit) == CountBelow(c, limit)
              + if limit <= First(e) then 0 else if limit < First(e) + PgCnt(e) then limit - First(e) else PgCnt(e)
  {
    if limit > 0 {
      CountSnoc(c, e, limit - 1);
      Snoc(c, e, limit - 1);
    }
  }

  lemma {:induction false} CountAll(c: seq<nat>, limit: nat)
    requires forall i :: 0 <= i < |c| ==> First(c[i]) + PgCnt(c[i]) <= limit
    ensures CountBelow(c, limit) == Total(c)
  {
    if c == [] {
      CountEmpty(limit);
    } else {
      var c', e := c[..|c| - 1], c[|c| - 1];
      CountAll(c', limit);
      assert c == c' + [e];
      CountSnoc(c', e, limit);
    }
  }

  lemma {:induction false} CountDisjoint(c: seq<nat>, limit: nat)
    requires Disjoint(c)
    ensures CountBelow(c, limit) <= limit
  {
    if limit > 0 {
      CountDisjoint(c, limit - 1);
      assert Times(c, limit - 1) <= 1;
    }
  }

  lemma TotalFits(c: seq<nat>)
    requires Disjoint(c) && AllInRange(c)
    ensures Total(c) <= PAGE_LIMIT
  {
    var limit: nat := PAGE_LIMIT;
    CountAll(c, limit);
    CountDisjoint(c, limit);
  }
}
