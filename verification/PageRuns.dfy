/** Whole runs of the page allocator (modules/SysPhysicalMemory/src/page_allocator.c): any sequence of
    allocations and frees, as served by its methods. */
module PageRuns {
  import opened Common
  import opened Compaction
  import opened PageSort
  import opened RingCompaction
  import opened PageEntry
  import opened PageCalls
  import opened PageAllocator

  datatype State = State(entries: seq<nat>, freeMem: nat)

  datatype Request = AllocRequest(size: nat) | FreeRequest(addr: nat, size: nat)

  datatype Event = Freed(first: nat, n: nat) | Allocated(first: nat, n: nat) | Refused

  /** What a call does, exactly as `Alloc` and `Free` promise it; `cap` is the capacity of the queue. */
  ghost predicate Served(s: State, r: Request, event: Event, s': State, cap: nat)
  {
    match r
    case AllocRequest(size) =>
      (match event
       case Allocated(first, n) =>
         && n == PageCount(size) && AllocGives(s.entries, n, first * BTM_LEVEL, s'.entries)
         && s'.freeMem == (s.freeMem - Rounded(size)) % TWO64
       case Refused => AllocGives(s.entries, PageCount(size), -1, s'.entries) && s'.freeMem == s.freeMem
       case Freed(_, _) => false)
    case FreeRequest(addr, size) =>
      && event == Freed(addr / BTM_LEVEL, size / BTM_LEVEL)
      && FreeGives(s.entries, addr, size / BTM_LEVEL, cap, true, s'.entries)
      && s'.freeMem == (s.freeMem + size) % TWO64
  }

  // ----- who holds which pages

  ghost function Range(first: nat, n: nat): set<nat>
  {
    set p: nat | p < first + n && Within(p, first, n)
  }

  /** The pages that were allocated and not freed since. */
  ghost function Outstanding(events: seq<Event>): set<nat>
  {
    if events == [] then {}
    else
      var before := Outstanding(events[..|events| - 1]);
      match events[|events| - 1]
      case Freed(first, n) => before - Range(first, n)
      case Allocated(first, n) => before + Range(first, n)
      case Refused => before
  }

  /** The pages that were ever given to the allocator. */
  ghost function Donated(events: seq<Event>): set<nat>
  {
    if events == [] then {}
    else
      var before := Donated(events[..|events| - 1]);
      match events[|events| - 1]
      case Freed(first, n) => before + Range(first, n)
      case Allocated(_, _) => before
      case Refused => before
  }

  /** Callers free only pages they were given, or memory the allocator has not seen yet. */
  ghost predicate Owned(events: seq<Event>, first: nat, n: nat)
  {
    forall p :: p in Range(first, n) ==> p in Outstanding(events) || p !in Donated(events)
  }

  /** What is asked of callers: requests in range, and they own what they free. */
  ghost predicate Proper(events: seq<Event>, r: Request)
  {
    match r
    case AllocRequest(size) => size <= MAX_REQUEST
    case FreeRequest(addr, size) =>
      && addr % BTM_LEVEL == 0 && size % BTM_LEVEL == 0 && addr + size <= ADDR_LIMIT
      && Owned(events, addr / BTM_LEVEL, size / BTM_LEVEL)
  }

  /** Each compaction that the call makes on these entries conserves their pages. */
  ghost predicate Spared(s: State, r: Request, cap: nat)
  {
    match r
    case AllocRequest(size) => AllocSafe(s.entries, PagesFor(size))
    case FreeRequest(addr, size) => FreesSafely(s.entries, addr, size / BTM_LEVEL, cap)
  }

  ghost predicate Allowed(s: State, events: seq<Event>, r: Request, cap: nat)
  {
    Proper(events, r) && Spared(s, r, cap)
  }

  /** Every donated page is either outstanding or held by exactly one queue entry, and the byte count is
      that of the queued pages. */
  ghost predicate Conserved(s: State, events: seq<Event>)
  {
    && Outstanding(events) <= Donated(events) && AllInRange(s.entries)
    && (forall p :: Times(s.entries, p) == Once(p in Donated(events) && p !in Outstanding(events)))
    && s.freeMem == BTM_LEVEL * Total(s.entries)
  }

  lemma ConservedDisjoint(s: State, events: seq<Event>)
    requires Conserved(s, events)
    ensures Disjoint(s.entries) && AllInRange(s.entries)
  {
  }

  lemma OwnedNotQueued(s: State, events: seq<Event>, first: nat, n: nat)
    requires Conserved(s, events) && Owned(events, first, n)
    ensures NotQueued(s.entries, first, n)
  {
    hide Times;
    forall p | Within(p, first, n) ensures Times(s.entries, p) == 0 {
      assert p in Range(first, n);
    }
  }

  lemma HistoryStep(events: seq<Event>, event: Event)
    ensures Outstanding(events + [event]) ==
            if event.Refused? then Outstanding(events)
            else if event.Freed? then Outstanding(events) - Range(event.first, event.n)
            else Outstanding(events) + Range(event.first, event.n)
    ensures Donated(events + [event]) ==
            if event.Freed? then Donated(events) + Range(event.first, event.n) else Donated(events)
  {
    var all := events + [event];
    assert all[..|all| - 1] == events;
  }

  lemma FreedConserves(s: State, first: nat, n: nat, s': State, events: seq<Event>)
    requires Conserved(s, events) && Owned(events, first, n) && Taken(s'.entries, s.entries, first, n)
    requires AllInRange(s'.entries) && s'.freeMem == BTM_LEVEL * Total(s'.entries)
    ensures Conserved(s', events + [Freed(first, n)])
  {
    hide Times;
    hide Total;
    hide Outstanding;
    hide Donated;
    hide AllInRange;
    HistoryStep(events, Freed(first, n));
    forall p ensures Times(s'.entries, p)
                     == Once(p in Donated(events) + Range(first, n) && p !in Outstanding(events) - Range(first, n)) {
      assert Times(s.entries, p) == Once(p in Donated(events) && p !in Outstanding(events));
      assert p in Range(first, n) <==> Within(p, first, n);
    }
  }

  lemma AllocatedConserves(s: State, first: nat, n: nat, s': State, events: seq<Event>)
    requires Conserved(s, events) && Taken(s.entries, s'.entries, first, n)
    requires AllInRange(s'.entries) && s'.freeMem == BTM_LEVEL * Total(s'.entries)
    ensures Conserved(s', events + [Allocated(first, n)])
    ensures Range(first, n) <= Donated(events) - Outstanding(events)
  {
    hide Times;
    hide Total;
    hide Outstanding;
    hide Donated;
    hide AllInRange;
    HistoryStep(events, Allocated(first, n));
    forall p ensures Times(s'.entries, p) == Once(p in Donated(events) && p !in Outstanding(events) + Range(first, n))
             ensures p in Range(first, n) ==> p in Donated(events) && p !in Outstanding(events) {
      assert Times(s.entries, p) == Once(p in Donated(events) && p !in Outstanding(events));
      assert p in Range(first, n) <==> Within(p, first, n);
    }
  }

  lemma RefusedConserves(s: State, s': State, events: seq<Event>)
    requires Conserved(s, events) && SamePages(s'.entries, s.entries) && AllInRange(s'.entries) && s'.freeMem == s.freeMem
    ensures Conserved(s', events + [Refused])
  {
    hide Outstanding;
    hide Donated;
    HistoryStep(events, Refused);
  }

  lemma AllocConserves(s: State, size: nat, event: Event, s': State, events: seq<Event>, cap: nat)
    requires Conserved(s, events) && Allowed(s, events, AllocRequest(size), cap)
    requires Served(s, AllocRequest(size), event, s', cap)
    ensures Conserved(s', events + [event])
    ensures event.Allocated? ==>
              event.n == PagesFor(size) && Range(event.first, event.n) <= Donated(events) - Outstanding(events)
    ensures event.Refused? ==> !HasRoom(s'.entries, PagesFor(size))
  {
    hide AllocGives;
    hide AllocSafe;
    hide Conserved;
    hide PagesFor;
    hide PageCount;
    hide Rounded;
    hide Taken;
    hide SamePages;
    hide AllInRange;
    hide Disjoint;
    ConservedDisjoint(s, events);
    RequestFits(size);
    var pages := PagesFor(size);
    if event.Allocated? {
      AllocKeeps(s.entries, pages, event.first * BTM_LEVEL, s'.entries);
      PageAddr(event.first);
      ConservedBytes(s, events);
      AllocatedConserves(s, event.first, pages, s', events);
    } else {
      AllocKeeps(s.entries, pages, -1, s'.entries);
      RefusedConserves(s, s', events);
    }
  }

  lemma ConservedBytes(s: State, events: seq<Event>)
    requires Conserved(s, events)
    ensures s.freeMem == BTM_LEVEL * Total(s.entries)
  {
  }

  lemma FreeConserves(s: State, addr: nat, size: nat, event: Event, s': State, events: seq<Event>, cap: nat)
    requires Conserved(s, events) && Allowed(s, events, FreeRequest(addr, size), cap)
    requires Served(s, FreeRequest(addr, size), event, s', cap)
    ensures Conserved(s', events + [event])
  {
    hide FreeGives;
    hide FreesSafely;
    hide Conserved;
    hide Taken;
    hide AllInRange;
    hide Disjoint;
    hide NotQueued;
    hide Owned;
    var first, n := addr / BTM_LEVEL, size / BTM_LEVEL;
    PageOf(size);
    ConservedDisjoint(s, events);
    ConservedBytes(s, events);
    OwnedNotQueued(s, events, first, n);
    FreeKeeps(s.entries, addr, n, cap, true, s'.entries);
    FreedSound(s.entries, s'.entries, first, n);
    FreedConserves(s, first, n, s', events);
  }

  /** One call: queued and outstanding pages stay a partition of the donated ones, an allocation hands
      out exactly the requested number of pages, none of them outstanding, and a refusal means that no
      entry is large enough. */
  lemma CallConserves(s: State, r: Request, event: Event, s': State, events: seq<Event>, cap: nat)
    requires Conserved(s, events) && Allowed(s, events, r, cap) && Served(s, r, event, s', cap)
    ensures Conserved(s', events + [event])
    ensures event.Allocated? ==>
              && r.AllocRequest? && event.n == PagesFor(r.size)
              && Range(event.first, event.n) <= Donated(events) - Outstanding(events)
    ensures event.Refused? ==> r.AllocRequest? && !HasRoom(s'.entries, PagesFor(r.size))
  {
    hide Conserved;
    hide Allowed;
    match r
    case AllocRequest(size) => AllocConserves(s, size, event, s', events, cap);
    case FreeRequest(addr, size) => FreeConserves(s, addr, size, event, s', events, cap);
  }

  lemma AllocMisses(s: State, size: nat, event: Event, s': State, events: seq<Event>, cap: nat)
    requires Conserved(s, events) && size <= MAX_REQUEST && !AllocSafe(s.entries, PagesFor(size))
    requires Served(s, AllocRequest(size), event, s', cap)
    ensures !Conserved(s', events + [event])
  {
    hide AllocGives;
    hide AllocSafe;
    hide PagesFor;
    hide PageCount;
    hide Rounded;
    hide Times;
    hide Outstanding;
    hide Donated;
    ConservedDisjoint(s, events);
    RequestFits(size);
    var pages := PagesFor(size);
    HistoryStep(events, event);
    if event.Allocated? {
      PageAddr(event.first);
      var p := AllocLoses(s.entries, pages, event.first * BTM_LEVEL, s'.entries);
      assert p !in Range(event.first, pages);
      assert Times(s.entries, p) == 1;
    } else {
      var p := AllocLoses(s.entries, pages, -1, s'.entries);
      assert Times(s.entries, p) == 1;
    }
  }

  lemma FreeMisses(s: State, addr: nat, size: nat, event: Event, s': State, events: seq<Event>, cap: nat)
    requires Conserved(s, events) && Proper(events, FreeRequest(addr, size))
    requires !FreesSafely(s.entries, addr, size / BTM_LEVEL, cap) && Served(s, FreeRequest(addr, size), event, s', cap)
    ensures !Conserved(s', events + [event])
  {
    hide FreeGives;
    hide FreesSafely;
    hide Times;
    hide Outstanding;
    hide Donated;
    hide Owned;
    hide NotQueued;
    var first, n := addr / BTM_LEVEL, size / BTM_LEVEL;
    PageOf(size);
    ConservedDisjoint(s, events);
    OwnedNotQueued(s, events, first, n);
    HistoryStep(events, event);
    var p := FreeLoses(s.entries, addr, n, cap, s'.entries);
    assert p in Range(first, n) <==> Within(p, first, n);
    assert Times(s.entries, p) == 1 ==> p in Donated(events) && p !in Outstanding(events);
  }

  /** A proper call keeps the partition if and only if its compactions conserve the pages they find. */
  lemma CallConservesIff(s: State, r: Request, event: Event, s': State, events: seq<Event>, cap: nat)
    requires Conserved(s, events) && Proper(events, r) && Served(s, r, event, s', cap)
    ensures Conserved(s', events + [event]) <==> Spared(s, r, cap)
  {
    hide Conserved;
    hide Proper;
    hide AllocSafe;
    hide FreesSafely;
    hide Served;
    if Spared(s, r, cap) {
      CallConserves(s, r, event, s', events, cap);
    } else {
      CallMisses(s, r, event, s', events, cap);
    }
  }

  lemma CallMisses(s: State, r: Request, event: Event, s': State, events: seq<Event>, cap: nat)
    requires Conserved(s, events) && Proper(events, r) && !Spared(s, r, cap) && Served(s, r, event, s', cap)
    ensures !Conserved(s', events + [event])
  {
    hide Conserved;
    hide Served;
    match r
    case AllocRequest(size) => AllocMisses(s, size, event, s', events, cap);
    case FreeRequest(addr, size) => FreeMisses(s, addr, size, event, s', events, cap);
  }

  // ----- runs

  /** A run of proper calls from an empty allocator on. */
  ghost predicate Behaviour(states: seq<State>, requests: seq<Request>, events: seq<Event>, cap: nat)
  {
    && |states| == |requests| + 1 && |events| == |requests| && states[0] == State([], 0)
    && forall i: nat {:trigger requests[i]} :: i < |requests| ==>
         Proper(events[..i], requests[i]) && Served(states[i], requests[i], events[i], states[i + 1], cap)
  }

  ghost predicate SparedUpTo(states: seq<State>, requests: seq<Request>, cap: nat, n: nat)
    requires n <= |requests| < |states|
  {
    forall i: nat {:trigger requests[i]} :: i < n ==> Spared(states[i], requests[i], cap)
  }

  ghost predicate ConservedUpTo(states: seq<State>, events: seq<Event>, n: nat)
    requires n <= |events| < |states|
  {
    forall i: nat {:trigger states[i]} :: i <= n ==> Conserved(states[i], events[..i])
  }

  lemma {:induction false} RunConserves(states: seq<State>, requests: seq<Request>, events: seq<Event>, cap: nat, i: nat)
    requires Behaviour(states, requests, events, cap) && i <= |requests| && SparedUpTo(states, requests, cap, i)
    ensures Conserved(states[i], events[..i]) && Disjoint(states[i].entries)
    ensures i < |requests| && Spared(states[i], requests[i], cap) && events[i].Allocated? ==>
              && requests[i].AllocRequest? && events[i].n == PagesFor(requests[i].size)
              && Range(events[i].first, events[i].n) <= Donated(events[..i]) - Outstanding(events[..i])
  {
    hide Proper;
    hide Spared;
    hide Served;
    if i == 0 {
      assert events[..0] == [];
    } else {
      RunConserves(states, requests, events, cap, i - 1);
      assert events[..i] == events[..i - 1] + [events[i - 1]];
      CallConserves(states[i - 1], requests[i - 1], events[i - 1], states[i], events[..i - 1], cap);
    }
    hide Conserved;
    ConservedDisjoint(states[i], events[..i]);
    if i < |requests| && Spared(states[i], requests[i], cap) {
      CallConserves(states[i], requests[i], events[i], states[i + 1], events[..i], cap);
    }
  }

  /** Over a whole run: queued and outstanding pages partition the donated ones at every point if and
      only if each compaction on the way conserves the pages it finds. */
  lemma {:induction false} RunConservesIff(states: seq<State>, requests: seq<Request>, events: seq<Event>, cap: nat, n: nat)
    requires Behaviour(states, requests, events, cap) && n <= |requests|
    ensures ConservedUpTo(states, events, n) <==> SparedUpTo(states, requests, cap, n)
    decreases n
  {
    hide Proper;
    hide Spared;
    hide Served;
    hide Conserved;
    if n == 0 {
      RunConserves(states, requests, events, cap, 0);
    } else {
      RunConservesIff(states, requests, events, cap, n - 1);
      assert ConservedUpTo(states, events, n) <==> ConservedUpTo(states, events, n - 1) && Conserved(states[n], events[..n]);
      if ConservedUpTo(states, events, n - 1) {
        assert events[..n] == events[..n - 1] + [events[n - 1]];
        CallConservesIff(states[n - 1], requests[n - 1], events[n - 1], states[n], events[..n - 1], cap);
      }
    }
  }

  // ----- the allocator serves such runs

  ghost function StateOf(a: Allocator): State
    requires a.Valid()
    reads a, a.queue, a.queue.cells
  {
    State(a.Entries(), a.freeMem)
  }

  /** One call, safe or not; `ok == false` stands for a kernel panic. */
  method Serve(a: Allocator, r: Request, ghost events: seq<Event>) returns (ok: bool, event: Event)
    requires a.Valid() && a.Ready() && Proper(events, r)
    modifies a`freeMem, a.queue`head, a.queue`tail, a.queue`entCnt, a.queue.cells
    ensures a.Valid()
    ensures ok ==> Served(old(StateOf(a)), r, event, StateOf(a), a.queue.size - 1)
    ensures !ok ==> r.FreeRequest? && FreeGives(old(a.Entries()), r.addr, r.size / BTM_LEVEL, a.queue.size - 1, false, a.Entries())
    ensures old(a.Clean()) && Conserved(old(StateOf(a)), events) && Spared(old(StateOf(a)), r, a.queue.size - 1) ==>
              ok && a.Clean() && Conserved(StateOf(a), events + [event])
  {
    hide Conserved;
    hide CleanCells;
    hide AllocGives;
    hide AllocSafe;
    hide FreeGives;
    hide FreesSafely;
    hide Idle;
    hide Disjoint;
    hide Owned;
    hide Taken;
    hide SamePages;
    hide HasRoom;
    hide Total;
    hide Times;
    hide PagesFor;
    hide PageCount;
    hide Rounded;
    ghost var s := StateOf(a);
    ghost var good := a.Clean() && Conserved(s, events) && Spared(s, r, a.queue.size - 1);
    if good {
      ConservedDisjoint(s, events);
      ConservedBytes(s, events);
    }
    match r
    case AllocRequest(size) =>
      RequestFits(size);
      var addr, panicked := a.Alloc(size);
      ok := true;
      if addr == -1 {
        event := Refused;
      } else {
        AllocAddr(s.entries, PageCount(size), addr, a.Entries());
        PageOf(addr);
        event := Allocated(addr / BTM_LEVEL, PageCount(size));
      }
      if good {
        CallConserves(s, r, event, StateOf(a), events, a.queue.size - 1);
      }
    case FreeRequest(addr, size) =>
      ok := a.Free(addr, size);
      event := Freed(addr / BTM_LEVEL, size / BTM_LEVEL);
      if good {
        CallConserves(s, r, event, StateOf(a), events, a.queue.size - 1);
      }
  }

  lemma AllocAddr(c: seq<nat>, pages: int, addr: int, d: seq<nat>)
    requires AllocGives(c, pages, addr, d) && addr != -1
    ensures 0 <= addr && addr % BTM_LEVEL == 0
  {
    hide SortedOf;
    hide Kept;
    hide Rest;
    hide HasRoom;
    if HasRoom(c, pages) {
      HitAddr(c, pages, addr, d);
    } else {
      var s :| SortedOf(s, c) && AfterCompaction(Kept(s), pages, addr, d);
      HitAddr(Kept(s), pages, addr, d);
    }
  }

  lemma HitAddr(c: seq<nat>, pages: int, addr: int, d: seq<nat>)
    requires Hit(c, pages, addr, d)
    ensures 0 <= addr && addr % BTM_LEVEL == 0
  {
    hide Rest;
    hide GetAddr;
    hide First;
    var i: nat :| FirstFit(c, pages, i) && addr == GetAddr(c[i]) && d == Rest(c[i], pages) + (c[i + 1..] + c[..i]);
    AddrFits(c[i]);
    PageAddr(First(c[i]));
  }

  lemma EmptyIdle(cells: seq<nat>, n: nat)
    requires CleanCells(cells, n)
    ensures n == 0 ==> Idle(cells)
  {
    if n == 0 {
      CleanIdle(cells);
    }
  }

  /** Whatever the calls answer, each one is allowed when its turn comes. */
  ghost predicate AllowedRun(s: State, events: seq<Event>, requests: seq<Request>, cap: nat)
    decreases |requests|
  {
    requests == [] ||
    (&& Allowed(s, events, requests[0], cap)
     && forall event, s' {:trigger Served(s, requests[0], event, s', cap)} ::
          Served(s, requests[0], event, s', cap) ==> AllowedRun(s', events + [event], requests[1..], cap))
  }

  lemma AllowedNext(s: State, events: seq<Event>, requests: seq<Request>, cap: nat, event: Event, s': State)
    requires requests != [] && AllowedRun(s, events, requests, cap) && Served(s, requests[0], event, s', cap)
    ensures AllowedRun(s', events + [event], requests[1..], cap)
  {
  }

  /** The first `i` calls of a run. */
  ghost predicate Steps(states: seq<State>, requests: seq<Request>, events: seq<Event>, cap: nat, i: nat)
  {
    && |states| == i + 1 && |events| == i <= |requests| && states[0] == State([], 0)
    && forall k: nat {:trigger requests[k]} :: k < i ==>
         Allowed(states[k], events[..k], requests[k], cap) && Served(states[k], requests[k], events[k], states[k + 1], cap)
  }

  lemma StepsNext(states: seq<State>, requests: seq<Request>, events: seq<Event>, cap: nat, event: Event, s: State)
    requires Steps(states, requests, events, cap, |events|) && |events| < |requests|
    requires Allowed(states[|events|], events, requests[|events|], cap)
    requires Served(states[|events|], requests[|events|], event, s, cap)
    ensures Steps(states + [s], requests, events + [event], cap, |events| + 1)
  {
    hide Allowed;
    hide Served;
    var after := events + [event];
    assert forall k :: 0 <= k <= |events| ==> after[..k] == events[..k];
    assert events[..|events|] == events;
  }

  lemma StepsAll(states: seq<State>, requests: seq<Request>, events: seq<Event>, cap: nat)
    requires Steps(states, requests, events, cap, |requests|)
    ensures Behaviour(states, requests, events, cap) && SparedUpTo(states, requests, cap, |requests|)
  {
    hide Proper;
    hide Spared;
    hide Served;
  }

  /** Serves a sequence of requests on a fresh allocator: the run is one of those above, so nothing is
      lost, handed out twice or miscounted at any point of it. */
  method ServeAll(a: Allocator, requests: seq<Request>) returns (events: seq<Event>, ghost states: seq<State>)
    requires a.Valid() && a.Clean() && StateOf(a) == State([], 0)
    requires AllowedRun(StateOf(a), [], requests, a.queue.size - 1)
    modifies a`freeMem, a.queue`head, a.queue`tail, a.queue`entCnt, a.queue.cells
    ensures a.Valid() && a.Clean() && Behaviour(states, requests, events, a.queue.size - 1)
    ensures SparedUpTo(states, requests, a.queue.size - 1, |requests|)
    ensures states[|requests|] == StateOf(a) && Conserved(StateOf(a), events)
  {
    hide Allowed;
    hide Proper;
    hide Spared;
    hide Idle;
    hide Served;
    hide AllowedRun;
    hide CleanCells;
    ghost var cap := a.queue.size - 1;
    events, states := [], [StateOf(a)];
    assert requests[0..] == requests;
    assert Steps(states, requests, events, cap, 0);
    Fresh();
    hide Conserved;
    hide Steps;
    for i := 0 to |requests|
      invariant a.Valid() && a.Clean() && |events| == i && |states| == i + 1
      invariant states[i] == StateOf(a) && Conserved(StateOf(a), events) && a.queue.size - 1 == cap
      invariant AllowedRun(StateOf(a), events, requests[i..], cap) && Steps(states, requests, events, cap, i)
    {
      AllowedNow(StateOf(a), events, requests[i..], cap);
      EmptyIdle(a.queue.Cells(), a.queue.entCnt);
      assert Allowed(StateOf(a), events, requests[i], cap);
      AllowedParts(StateOf(a), events, requests[i], cap);
      var ok, event := Serve(a, requests[i], events);
      AllowedNext(states[i], events, requests[i..], cap, event, StateOf(a));
      assert requests[i..][1..] == requests[i + 1..];
      StepsNext(states, requests, events, cap, event, StateOf(a));
      events := events + [event];
      states := states + [StateOf(a)];
    }
    StepsAll(states, requests, events, cap);
  }

  lemma AllowedParts(s: State, events: seq<Event>, r: Request, cap: nat)
    requires Allowed(s, events, r, cap)
    ensures Proper(events, r) && Spared(s, r, cap)
  {
  }

  lemma AllowedNow(s: State, events: seq<Event>, requests: seq<Request>, cap: nat)
    requires requests != [] && AllowedRun(s, events, requests, cap)
    ensures Allowed(s, events, requests[0], cap)
  {
  }

  lemma Fresh()
    ensures Conserved(State([], 0), [])
  {
  }

  // ----- a run that loses a page

  lemma OnePage(page: nat)
    requires page <= 12
    ensures Range(page, 1) == {page} && BuildEntry(page * 0x1000, 1) == page * 0x10_0000
    ensures page * 0x1000 / BTM_LEVEL == page && Chunk(1) == 1
  {
  }

  /** One page is queued at once while there is room. */
  lemma OneFreed(c: seq<nat>, page: nat, cap: nat, ok: bool, d: seq<nat>)
    requires page <= 12 && |c| < cap && FreeGives(c, page * 0x1000, 1, cap, ok, d)
    ensures ok && d == c + [page * 0x10_0000]
  {
    OnePage(page);
  }

  lemma OneSpared(c: seq<nat>, page: nat, cap: nat)
    requires page <= 12 && |c| < cap
    ensures FreesSafely(c, page * 0x1000, 1, cap)
  {
    OnePage(page);
  }

  /** Gives a page to the allocator that it has not seen yet. */
  method Donate(a: Allocator, page: nat, ghost events: seq<Event>, ghost pages: set<nat>) returns (ok: bool, ghost events': seq<Event>)
    requires a.Valid() && a.Clean() && page <= 12 && page !in pages
    requires Conserved(StateOf(a), events) && Outstanding(events) == {} && Donated(events) == pages
    modifies a`freeMem, a.queue`head, a.queue`tail, a.queue`entCnt, a.queue.cells
    ensures a.Valid() && Outstanding(events') == {} && Donated(events') == pages + {page}
    ensures FreeGives(old(a.Entries()), page * 0x1000, 1, a.queue.size - 1, ok, a.Entries())
    ensures |old(a.Entries())| < a.queue.size - 1 ==>
              && ok && a.Entries() == old(a.Entries()) + [page * 0x10_0000]
              && a.Clean() && Conserved(StateOf(a), events')
  {
    hide Conserved;
    hide CleanCells;
    hide Outstanding;
    hide Donated;
    hide FreeGives;
    hide FreesSafely;
    hide BuildEntry;
    hide Idle;
    ghost var c, cap := a.Entries(), a.queue.size - 1;
    OnePage(page);
    HistoryStep(events, Freed(page, 1));
    EmptyIdle(a.queue.Cells(), a.queue.entCnt);
    if |c| < cap {
      OneSpared(c, page, cap);
    }
    var event;
    ok, event := Serve(a, FreeRequest(page * 0x1000, 0x1000), events);
    events' := events + [Freed(page, 1)];
    if |c| < cap {
      OneFreed(c, page, cap, ok, a.Entries());
    }
  }

  method DonateTwo(a: Allocator, p: nat, q: nat, ghost events: seq<Event>, ghost pages: set<nat>) returns (ghost events': seq<Event>)
    requires a.Valid() && a.Clean() && p <= 12 && q <= 12 && p !in pages && q !in pages && p != q
    requires Conserved(StateOf(a), events) && Outstanding(events) == {} && Donated(events) == pages
    requires |a.Entries()| + 2 <= a.queue.size - 1
    modifies a`freeMem, a.queue`head, a.queue`tail, a.queue`entCnt, a.queue.cells
    ensures a.Valid() && Outstanding(events') == {} && Donated(events') == pages + {p, q}
    ensures a.Entries() == old(a.Entries()) + [p * 0x10_0000, q * 0x10_0000] && a.Clean() && Conserved(StateOf(a), events')
  {
    hide Conserved;
    hide CleanCells;
    hide Outstanding;
    hide Donated;
    hide FreeGives;
    var ok;
    ok, events' := Donate(a, p, events, pages);
    ok, events' := Donate(a, q, events', pages + {p});
    assert pages + {p} + {q} == pages + {p, q};
  }

  /** Compacting the full queue of pages 1, 3, 4 and 9 drops page 1. */
  lemma GapLoses(c: seq<nat>, ok: bool, d: seq<nat>)
    requires c == [0x10_0000, 0x30_0000, 0x40_0000, 0x90_0000] && AllInRange(c) && Disjoint(c)
    requires FreeGives(c, 12 * 0x1000, 1, 4, ok, d)
    ensures Times(d, 1) == 0
  {
    hide Sorted;
    hide Times;
    hide Disjoint;
    hide Kept;
    hide Merges;
    MergeBehindGap();
    OnePage(12);
    var e := 12 * 0x10_0000;
    var s :| SortedOf(s, c) && if Merges(s, 0) > 0 then FreeGives(Kept(s) + [e], Advanced(12 * 0x1000, 1), 0, 4, ok, d)
                               else !ok && d == Kept(s);
    SortedUnique(s, c, c);
    Snoc(Kept(c), e, 1);
  }

  /** A fresh allocator over `cells` zeroed cells that is given four pages. */
  method DonateFour(cells: nat, p: nat, q: nat, r: nat, t: nat) returns (a: Allocator, ghost events: seq<Event>)
    requires 5 <= cells <= 8 && p < q < r < t <= 12
    ensures fresh(a) && fresh(a.queue) && fresh(a.queue.cells) && a.Valid() && a.queue.size == cells && a.Clean()
    ensures a.Entries() == [p * 0x10_0000, q * 0x10_0000, r * 0x10_0000, t * 0x10_0000]
    ensures Conserved(StateOf(a), events) && Outstanding(events) == {} && Donated(events) == {p, q} + {r, t}
  {
    hide Conserved;
    hide CleanCells;
    hide Outstanding;
    hide Donated;
    var memory := new nat[cells](_ => 0);
    a := new Allocator(memory);
    Fresh();
    NothingDonated();
    events := DonateTwo(a, p, q, [], {});
    events := DonateTwo(a, r, t, events, {p, q});
  }

  /** Five pages given to an allocator whose queue holds four: afterwards page 1 is neither outstanding
      nor queued. */
  method LosesPage() returns (a: Allocator, ghost events: seq<Event>)
    ensures a.Valid() && 1 in Donated(events) && 1 !in Outstanding(events) && Times(a.Entries(), 1) == 0
  {
    hide Conserved;
    hide CleanCells;
    hide Outstanding;
    hide Donated;
    hide Times;
    hide FreeGives;
    hide AllInRange;
    hide Disjoint;
    a, events := DonateFour(5, 1, 3, 4, 9);
    ConservedDisjoint(StateOf(a), events);
    ghost var c := a.Entries();
    var ok;
    ok, events := Donate(a, 12, events, {1, 3} + {4, 9});
    GapLoses(c, ok, a.Entries());
  }

  // ----- a request that compaction makes possible

  const FIVE: seq<nat> := [0x30_0000, 0x40_0000, 0x50_0000, 0x60_0000, 0x90_0000]

  lemma FiveWords()
    ensures First(0x30_0000) == 3 && First(0x40_0000) == 4 && First(0x50_0000) == 5 && First(0x60_0000) == 6
    ensures First(0x30_0001) == 3 && First(0x30_0002) == 3 && First(0x30_0003) == 3 && First(0x90_0000) == 9
    ensures PgCnt(0x30_0000) == PgCnt(0x40_0000) == PgCnt(0x50_0000) == PgCnt(0x60_0000) == PgCnt(0x90_0000) == 1
    ensures PgCnt(0x30_0001) == 2 && PgCnt(0x30_0002) == 3 && PgCnt(0x30_0003) == 4
    ensures GetAddr(0x30_0000) == GetAddr(0x30_0001) == GetAddr(0x30_0002) == GetAddr(0x30_0003) == 0x3000
    ensures Join(0x30_0000, 0x40_0000) == 0x30_0001 && Join(0x30_0001, 0x50_0000) == 0x30_0002
    ensures Join(0x30_0002, 0x60_0000) == 0x30_0003
  {
  }

  lemma FiveKept()
    ensures Kept(FIVE) == [0x30_0003, 0x90_0000]
  {
    FiveWords();
    hide First;
    hide PgCnt;
    hide Join;
    var v0 := FIVE;
    var v1, v2, v3 := MergeAt(v0, 0), MergeAt(MergeAt(v0, 0), 1), MergeAt(MergeAt(MergeAt(v0, 0), 1), 2);
    assert v1 == [0, 0x30_0001, 0x50_0000, 0x60_0000, 0x90_0000];
    assert v2 == [0, 0, 0x30_0002, 0x60_0000, 0x90_0000];
    assert v3 == [0, 0, 0, 0x30_0003, 0x90_0000];
    assert Pass(v3, 3) == v3 && Merges(v3, 3) == 0;
    assert Pass(v2, 2) == v3 && Merges(v2, 2) == 1;
    assert Pass(v1, 1) == v3 && Merges(v1, 1) == 2;
    assert Pass(v0, 0) == v3 && Merges(v0, 0) == 3;
  }

  lemma JoinedServes(addr: int, d: seq<nat>)
    requires AfterCompaction([0x30_0003, 0x90_0000], 4, addr, d)
    ensures addr == 0x3000
  {
    FiveWords();
    hide First;
    hide PgCnt;
    hide GetAddr;
    hide Rest;
    var u: seq<nat> := [0x30_0003, 0x90_0000];
    assert PgCnt(u[0]) >= 4;
    assert HasRoom(u, 4);
    var i: nat :| FirstFit(u, 4, i) && addr == GetAddr(u[i]);
    assert i == 0;
  }

  lemma FiveTooSmall()
    ensures !HasRoom(FIVE, 4)
  {
    FiveWords();
    hide PgCnt;
  }

  /** Four pages are served from the joined pages 3 to 6. */
  lemma FiveServes(addr: int, d: seq<nat>)
    requires AllInRange(FIVE) && Disjoint(FIVE) && AllocGives(FIVE, 4, addr, d)
    ensures addr == 0x3000
  {
    FiveKept();
    FiveSorted();
    FiveTooSmall();
    hide Kept;
    hide HasRoom;
    hide SortedOf;
    hide AllInRange;
    hide Disjoint;
    hide AfterCompaction;
    var s :| SortedOf(s, FIVE) && AfterCompaction(Kept(s), 4, addr, d);
    SortedUnique(s, FIVE, FIVE);
    JoinedServes(addr, d);
  }

  lemma FiveSorted()
    ensures SortedOf(FIVE, FIVE)
  {
    assert GetAddr(0x30_0000) == 0x3000 && GetAddr(0x40_0000) == 0x4000 && GetAddr(0x50_0000) == 0x5000;
    assert GetAddr(0x60_0000) == 0x6000 && GetAddr(0x90_0000) == 0x9000;
  }

  method DonateFive() returns (a: Allocator)
    ensures fresh(a) && fresh(a.queue) && fresh(a.queue.cells)
    ensures a.Valid() && a.Entries() == FIVE && AllInRange(FIVE) && Disjoint(FIVE)
  {
    hide Conserved;
    hide CleanCells;
    hide Outstanding;
    hide Donated;
    hide Times;
    hide FreeGives;
    hide AllInRange;
    hide Disjoint;
    var ok;
    ghost var events;
    a, events := DonateFour(8, 3, 4, 5, 6);
    ok, events := Donate(a, 9, events, {3, 4} + {5, 6});
    ConservedDisjoint(StateOf(a), events);
    assert a.Entries() == FIVE;
  }

  /** Pages 3, 4, 5, 6 and 9 given one by one to a fresh allocator: a request of four pages gets those from page 3. */
  method ServesJoined() returns (addr: int)
    ensures addr == 0x3000
  {
    hide AllocGives;
    hide CleanCells;
    hide AllInRange;
    hide Disjoint;
    var a := DonateFive();
    var panicked;
    addr, panicked := a.Alloc(0x4000);
    assert PageCount(0x4000) == 4;
    FiveServes(addr, a.Entries());
  }

  lemma NothingDonated()
    ensures Outstanding([]) == {} && Donated([]) == {}
  {
  }
}
