/** What a compaction of the page queue joins, in page numbers, and which requests are served because of it. */
module PageJoins {
  import opened PageSort
  import opened PageEntry
  import opened Compaction
  import opened PageCalls

  /** After a compaction that keeps the pages: of the sorted entries, none but the last two can end where the next one
      starts unless both together hold 2^20 pages or more. */
  lemma JoinedUp(c: seq<nat>, s: seq<nat>, u: seq<nat>, i: nat)
    requires c != [] && AllInRange(c) && Disjoint(c) && SortedOf(s, c) && Conserves(s) && SortedOf(u, Kept(s)) && i + 2 < |u|
    ensures First(u[i]) + PgCnt(u[i]) != First(u[i + 1]) || PgCnt(u[i]) + PgCnt(u[i + 1]) >= 0x10_0000
  {
    hide Pass;
    hide Merges;
    hide Sorted;
    hide Disjoint;
    SortedSize(s, c);
    SortedDisjoint(s, c);
    ConservesOnce(s, u);
    QuietPass(u, 0);
  }

  // ----- the joined ranges

  /** The pages that end up in one entry with entry `i` of the sorted window and those before it: an entry joins the range
      it continues while that stays below 2^20 pages, except for the last entry. */
  ghost function Filled(s: seq<nat>, i: nat): nat
    requires i < |s|
  {
    if i > 0 && i + 1 < |s| && First(s[i - 1]) + PgCnt(s[i - 1]) == First(s[i])
       && Filled(s, i - 1) + PgCnt(s[i]) < 0x10_0000
    then Filled(s, i - 1) + PgCnt(s[i])
    else PgCnt(s[i])
  }

  ghost predicate FilledFrom(s: seq<nat>, k: nat, n: nat)
  {
    exists i: nat :: k <= i < |s| && Filled(s, i) >= n
  }

  ghost predicate RoomFrom(v: seq<nat>, k: nat, n: nat)
  {
    exists i: nat :: k <= i < |v| && PgCnt(v[i]) >= n
  }

  /** The pass is at place `k`: behind it the window is untouched, and here is the range joined so far. */
  ghost predicate Joining(s: seq<nat>, v: seq<nat>, k: nat)
  {
    && k < |s| == |v| && AllInRange(v) && v[k + 1..] == s[k + 1..]
    && First(v[k]) + PgCnt(v[k]) == First(s[k]) + PgCnt(s[k]) && PgCnt(v[k]) == Filled(s, k)
  }

  lemma JoiningNext(s: seq<nat>, v: seq<nat>, k: nat)
    requires Joining(s, v, k) && k + 2 < |s|
    ensures Joining(s, if Mergeable(v[k], v[k + 1]) then MergeAt(v, k) else v, k + 1)
    ensures Mergeable(v[k], v[k + 1]) ==> Filled(s, k) <= Filled(s, k + 1)
  {
    hide First;
    hide PgCnt;
    hide Join;
    hide InRange;
    assert v[k + 1] == v[k + 1..][0] == s[k + 1];
    assert v[k + 2..] == v[k + 1..][1..] == s[k + 2..];
    if Mergeable(v[k], v[k + 1]) {
      JoinHolds(v[k], v[k + 1], 0);
      MergeAtTimes(v, k, 0);
      assert MergeAt(v, k)[k + 2..] == v[k + 2..];
    }
  }

  lemma {:induction false} PassFills(s: seq<nat>, v: seq<nat>, k: nat, n: nat)
    requires Joining(s, v, k) && n >= 2
    ensures RoomFrom(Pass(v, k), k, n) <==> FilledFrom(s, k, n)
    decreases |v| - k
  {
    hide Filled;
    hide Mergeable;
    hide MergeAt;
    hide PgCnt;
    hide First;
    PassHere(v, k);
    ZeroHolds(0);
    if k + 2 < |v| {
      var next := if Mergeable(v[k], v[k + 1]) then MergeAt(v, k) else v;
      JoiningNext(s, v, k);
      PassFills(s, next, k + 1, n);
      PassUnfold(v, k);
      var w := Pass(v, k);
      if RoomFrom(w, k, n) {
        var i: nat :| k <= i < |w| && PgCnt(w[i]) >= n;
        if i == k {
          assert Filled(s, k) >= n;
        } else {
          assert RoomFrom(w, k + 1, n);
        }
      }
      if FilledFrom(s, k, n) {
        var i: nat :| k <= i < |s| && Filled(s, i) >= n;
        if i == k {
          assert RoomFrom(w, k, n) by {
            if Mergeable(v[k], v[k + 1]) {
              assert Filled(s, k + 1) >= n;
              assert FilledFrom(s, k + 1, n);
            } else {
              assert PgCnt(w[k]) >= n;
            }
          }
        } else {
          assert FilledFrom(s, k + 1, n);
        }
      }
    } else {
      LastFills(s, v, k);
    }
  }

  lemma LastFills(s: seq<nat>, v: seq<nat>, k: nat)
    requires Joining(s, v, k) && k + 2 >= |s|
    ensures Pass(v, k) == v && forall i: nat :: k <= i < |s| ==> PgCnt(v[i]) == Filled(s, i)
  {
    if k + 1 < |s| {
      assert v[k + 1] == v[k + 1..][0] == s[k + 1];
    }
  }

  /** After a compaction that keeps the pages, some entry holds `n` pages if and only if some joined range does. */
  lemma KeptFills(s: seq<nat>, n: nat)
    requires s != [] && AllInRange(s) && Conserves(s)
    ensures HasRoom(Kept(s), n) <==> FilledFrom(s, 0, n)
  {
    hide Filled;
    hide Conserves;
    hide PgCnt;
    var w, m := Pass(s, 0), Merges(s, 0);
    FirstFilled(s);
    if n >= 2 {
      PassFills(s, s, 0, n);
      ZerosAhead(s);
      ZeroHolds(0);
      if RoomFrom(w, 0, n) {
        var i: nat :| i < |w| && PgCnt(w[i]) >= n;
        assert w[m..][i - m] == w[i];
      }
      if HasRoom(w[m..], n) {
        var i :| 0 <= i < |w[m..]| && PgCnt(w[m..][i]) >= n;
        assert w[m + i] == w[m..][i];
      }
    } else {
      assert m < |w| && PgCnt(w[m..][0]) >= n;
    }
  }

  lemma FirstFilled(s: seq<nat>)
    requires s != []
    ensures Filled(s, 0) == PgCnt(s[0]) >= 1
  {
  }

  // ----- which requests are served

  /** In sorted order, some joined range of the entries holds `n` pages. */
  ghost predicate Fits(c: seq<nat>, n: nat)
  {
    c != [] && forall s :: SortedOf(s, c) ==> FilledFrom(s, 0, n)
  }

  lemma {:induction false} FilledAtLeast(s: seq<nat>, i: nat)
    requires i < |s|
    ensures Filled(s, i) >= PgCnt(s[i])
  {
  }

  lemma RoomFits(c: seq<nat>, s: seq<nat>, n: nat)
    requires SortedOf(s, c) && HasRoom(c, n)
    ensures FilledFrom(s, 0, n)
  {
    hide Filled;
    var k :| 0 <= k < |c| && PgCnt(c[k]) >= n;
    assert c[k] in multiset(s);
    var i: nat :| i < |s| && s[i] == c[k];
    FilledAtLeast(s, i);
  }

  /** A safe request of `n` pages is served if and only if some joined range of the queue holds `n` pages. */
  lemma ServedIff(c: seq<nat>, n: nat, addr: int, d: seq<nat>, s: seq<nat>)
    requires AllInRange(c) && Disjoint(c) && AllocSafe(c, n) && AllocGives(c, n, addr, d) && SortedOf(s, c)
    ensures addr != -1 <==> FilledFrom(s, 0, n)
  {
    hide Filled;
    hide Disjoint;
    hide Kept;
    hide Conserves;
    hide PgCnt;
    hide SortedOf;
    hide FilledFrom;
    SortedSize(s, c);
    if HasRoom(c, n) {
      RoomFits(c, s, n);
    } else if c != [] {
      var t :| SortedOf(t, c) && AfterCompaction(Kept(t), n, addr, d);
      SortedUnique(s, t, c);
      SortedDisjoint(s, c);
      KeptFills(s, n);
    } else {
      NothingFills(s, n);
    }
  }

  lemma NothingFills(s: seq<nat>, n: nat)
    requires |s| == 0
    ensures !FilledFrom(s, 0, n)
  {
  }

  lemma ServedFits(c: seq<nat>, n: nat, addr: int, d: seq<nat>)
    requires AllInRange(c) && Disjoint(c) && AllocSafe(c, n) && AllocGives(c, n, addr, d)
    ensures addr != -1 <==> Fits(c, n)
  {
    hide FilledFrom;
    hide Disjoint;
    hide AllInRange;
    hide AllocSafe;
    hide SortedOf;
    hide Hit;
    hide HasRoom;
    forall s | SortedOf(s, c) ensures addr != -1 <==> FilledFrom(s, 0, n) {
      ServedIff(c, n, addr, d, s);
    }
    if c != [] && addr == -1 {
      NotHit(c, n, d);
      var t :| SortedOf(t, c) && AfterCompaction(Kept(t), n, addr, d);
    } else if c == [] {
      NoRoomInNone(n);
    }
  }

  lemma NotHit(c: seq<nat>, n: nat, d: seq<nat>)
    requires AllocGives(c, n, -1, d)
    ensures !HasRoom(c, n)
  {
  }

  lemma NoRoomInNone(n: nat)
    ensures !HasRoom([], n)
  {
  }

  // ----- contiguous pages

  /** The entries from place `a` to place `b` follow each other without a gap. */
  ghost predicate Contiguous(s: seq<nat>, a: nat, b: nat)
  {
    a <= b < |s| && forall i: nat :: a < i <= b ==> First(s[i - 1]) + PgCnt(s[i - 1]) == First(s[i])
  }

  /** A range either takes its continuation in, or one of the two holds 2^19 pages. */
  lemma FilledStep(s: seq<nat>, b: nat)
    requires 0 < b && b + 1 < |s| && First(s[b - 1]) + PgCnt(s[b - 1]) == First(s[b])
    ensures Filled(s, b) == Filled(s, b - 1) + PgCnt(s[b]) || Filled(s, b - 1) >= 0x8_0000 || Filled(s, b) >= 0x8_0000
  {
    hide First;
    hide PgCnt;
  }

  /** Up to 2^19 pages, a run of contiguous entries that hold them, and none of which is the last, is joined far enough. */
  lemma {:induction false} ContiguousFills(s: seq<nat>, a: nat, b: nat, n: nat)
    requires Contiguous(s, a, b) && b + 1 < |s| && n <= 0x8_0000
    ensures Filled(s, b) >= Total(s[a..b + 1]) || FilledFrom(s, 0, n)
    decreases b - a
  {
    hide First;
    hide PgCnt;
    hide Filled;
    hide Total;
    hide Times;
    if a == b {
      assert s[a..b + 1] == [s[b]];
      TimesOne(s[b], 0);
      FilledAtLeast(s, b);
    } else {
      ContiguousFills(s, a, b - 1, n);
      FilledStep(s, b);
      assert s[a..b + 1] == s[a..b] + [s[b]];
      Snoc(s[a..b], s[b], 0);
    }
  }

  /** A safe request of up to 2^19 pages is served if so many contiguous pages lie in entries before the last. */
  lemma ServesContiguous(c: seq<nat>, n: nat, addr: int, d: seq<nat>, s: seq<nat>, a: nat, b: nat)
    requires AllInRange(c) && Disjoint(c) && AllocSafe(c, n) && AllocGives(c, n, addr, d) && SortedOf(s, c)
    requires Contiguous(s, a, b) && b + 1 < |s| && Total(s[a..b + 1]) >= n && n <= 0x8_0000
    ensures addr != -1
  {
    hide Filled;
    hide Disjoint;
    hide AllocGives;
    hide AllocSafe;
    hide SortedOf;
    hide Total;
    ServedIff(c, n, addr, d, s);
    ContiguousFills(s, a, b, n);
  }

  // ----- more than 2^19 pages

  /** 2^19 pages from page 1, as many behind them, and page 2^21. */
  const HALVES: seq<nat> := [0x10_0000 + 0x7_ffff, 0x8_0001 * 0x10_0000 + 0x7_ffff, 0x20_0000 * 0x10_0000]

  lemma HalvesWords()
    ensures |HALVES| == 3 && First(HALVES[0]) == 1 && First(HALVES[1]) == 0x8_0001 && First(HALVES[2]) == 0x20_0000
    ensures PgCnt(HALVES[0]) == PgCnt(HALVES[1]) == 0x8_0000 && PgCnt(HALVES[2]) == 1
  {
    SplitWord(1, 0x7_ffff);
    SplitWord(0x8_0001, 0x7_ffff);
    SplitWord(0x20_0000, 0);
  }

  lemma HalvesSorted()
    ensures AllInRange(HALVES) && Disjoint(HALVES) && SortedOf(HALVES, HALVES)
  {
    HalvesWords();
    hide First;
    hide PgCnt;
    hide GetAddr;
    var s := HALVES;
    AddrFits(s[0]);
    AddrFits(s[1]);
    AddrFits(s[2]);
    forall p ensures Times(s, p) <= 1 {
      assert s == [s[0]] + [s[1]] + [s[2]];
      Snoc([s[0]] + [s[1]], s[2], p);
      Snoc([s[0]], s[1], p);
      TimesOne(s[0], p);
    }
  }

  lemma HalvesGentle()
    ensures Gentle(HALVES)
  {
    HalvesSorted();
    HalvesWords();
    hide First;
    hide PgCnt;
    hide Disjoint;
    hide AllInRange;
    hide SortedOf;
    assert Merges(HALVES, 0) == 0;
    forall t | SortedOf(t, HALVES) ensures Conserves(t) {
      SortedUnique(HALVES, t, HALVES);
    }
  }

  /** The bound is tight: of 2^20 contiguous pages in two entries, neither the last, 2^19 + 1 are not served. */
  lemma HalfIsTight(addr: int, d: seq<nat>)
    requires AllocGives(HALVES, 0x8_0001, addr, d)
    ensures addr == -1 && Contiguous(HALVES, 0, 1) && Total(HALVES[..2]) == 0x10_0000
  {
    HalvesSorted();
    HalvesGentle();
    HalvesWords();
    hide First;
    hide PgCnt;
    hide AllocGives;
    hide Disjoint;
    var s := HALVES;
    ServedIff(s, 0x8_0001, addr, d, s);
    assert Filled(s, 0) == Filled(s, 1) == 0x8_0000 && Filled(s, 2) == 1;
    assert s[..2] == [s[0]] + [s[1]];
    Snoc([s[0]], s[1], 0);
    TimesOne(s[0], 0);
  }
}
