/** Whole runs of the kernel heap: blocks handed out and not yet freed never overlap each other, a
    header, or anything the allocator writes. */
module HeapRuns {
  import opened HeapNodes
  import opened Heap

  datatype State = State(nodes: seq<Node>, owned: set<nat>)

  datatype Call = MallocCall(want: nat, base: nat, p: nat) | FreeCall(p: nat)

  /** One call that does not panic; new pages are mapped only where the heap owns nothing yet. */
  ghost predicate Step(s: State, call: Call, s': State)
  {
    match call
    case MallocCall(want, base, p) =>
      && want > 0 && want % 8 == 0
      && (NoneFits(s.nodes, want) ==> base > 0 && base % 0x1000 == 0 && s.owned !! Bytes(base, AllocSize(want)))
      && Allocated(s.nodes, s'.nodes, s.owned, s'.owned, want, base, p)
    case FreeCall(p) => s'.owned == s.owned && Released(s.nodes, s'.nodes, p, false)
  }

  ghost predicate Behaviour(states: seq<State>, calls: seq<Call>)
  {
    && |states| == |calls| + 1 && states[0] == State([], {})
    && forall i: nat {:trigger calls[i]} :: i < |calls| ==> Step(states[i], calls[i], states[i + 1])
  }

  /** The block in use whose payload starts at `p`. */
  ghost predicate InUse(nodes: seq<Node>, n: Node, p: nat)
  {
    n in nodes && !n.isFree && n.addr + HEADER == p
  }

  // ----- one malloc

  lemma SameAddress(nodes: seq<Node>, owned: set<nat>, n: Node, i: nat)
    requires Tiled(nodes, owned) && n in nodes && i < |nodes| && nodes[i].addr == n.addr
    ensures nodes[i] == n
  {
    var j :| 0 <= j < |nodes| && nodes[j] == n;
    if i < j {
      Apart(nodes, owned, i, j);
    } else if j < i {
      Apart(nodes, owned, j, i);
    }
  }

  lemma UsedHere(nodes: seq<Node>, at: nat, want: nat) returns (n: Node)
    requires at < |nodes| && want <= nodes[at].len
    ensures n in Used(nodes, at, want) && !n.isFree && n.addr == nodes[at].addr && n.len >= want
  {
    n := Used(nodes, at, want)[at];
  }

  /** Blocks in use stay; the block handed out is none of them. */
  lemma BestKeeps(nodes: seq<Node>, owned: set<nat>, at: nat, want: nat) returns (n: Node)
    requires Tiled(nodes, owned) && BestAt(nodes, want, at)
    ensures LiveKept(nodes, Used(nodes, at, want))
    ensures InUse(Used(nodes, at, want), n, nodes[at].addr + HEADER) && n.len >= want
    ensures forall m :: m in nodes && !m.isFree ==> m.addr != n.addr
  {
    hide Used;
    hide Tiled;
    BestFits(nodes, want, at);
    UsedKeeps(nodes, at, want);
    n := UsedHere(nodes, at, want);
    forall m | m in nodes && !m.isFree ensures m.addr != n.addr {
      if m.addr == n.addr {
        SameAddress(nodes, owned, m, at);
      }
    }
  }

  lemma GrownKeepsLive(nodes: seq<Node>, owned: set<nat>, base: nat, want: nat) returns (n: Node)
    requires Tiled(nodes, owned) && want > 0 && want % 8 == 0
    requires base > 0 && base % 8 == 0 && owned !! Bytes(base, AllocSize(want))
    ensures var all, at := Grown(nodes, Node(base, AllocSize(want) - HEADER, false)), if nodes == [] then 0 else 1;
            && at < |all| && LiveKept(nodes, Used(all, at, want))
            && InUse(Used(all, at, want), n, base + HEADER) && n.len >= want
            && Tiled(Used(all, at, want), owned + Bytes(base, AllocSize(want)))
    ensures forall m :: m in nodes && !m.isFree ==> m.addr != base
  {
    hide Used;
    hide Tiled;
    hide AllocSize;
    AllocSizeFits(want);
    var size := AllocSize(want);
    var new_ := Node(base, size - HEADER, false);
    var all, at := Grown(nodes, new_), if nodes == [] then 0 else 1;
    GrownAt(nodes, new_);
    GrownTiled(nodes, owned, base, size);
    forall m | m in nodes ensures m.addr != base {
      var j :| 0 <= j < |nodes| && nodes[j] == m;
      assert base in Bytes(base, size);
      if m.addr == base {
        InsideOwned(nodes, owned, j, base);
      }
    }
    hide Bytes;
    UsedTiled(all, owned + Bytes(base, size), at, want);
    GrownKeeps(nodes, new_);
    UsedKeeps(all, at, want);
    n := UsedHere(all, at, want);
  }

  /** What a malloc gives its caller. */
  lemma MallocGives(s: State, want: nat, base: nat, p: nat, s': State) returns (n: Node)
    requires Tiled(s.nodes, s.owned) && Step(s, MallocCall(want, base, p), s')
    ensures Tiled(s'.nodes, s'.owned) && LiveKept(s.nodes, s'.nodes)
    ensures InUse(s'.nodes, n, p) && n.len >= want
    ensures forall m :: m in s.nodes && !m.isFree ==> m.addr + HEADER != p
  {
    hide Tiled;
    hide Used;
    hide Grown;
    hide Bytes;
    hide AllocSize;
    hide NoneFits;
    if NoneFits(s.nodes, want) {
      PageAligned(base);
      n := GrownKeepsLive(s.nodes, s.owned, base, want);
    } else {
      var at: nat :| BestAt(s.nodes, want, at) && s'.nodes == Used(s.nodes, at, want) && p == s.nodes[at].addr + HEADER;
      BestFits(s.nodes, want, at);
      UsedTiled(s.nodes, s.owned, at, want);
      n := BestKeeps(s.nodes, s.owned, at, want);
    }
  }

  /** The block behind the header at `p - 16`, of `len` bytes, is in use with just the wanted bytes, and the rest of it is a
      free block, unless no more than a header of 16 bytes would be left; all other blocks stay. */
  ghost predicate Cut(nodes: seq<Node>, after: seq<Node>, len: nat, want: nat, p: nat)
  {
    && p >= 16 && want <= len
    && (len <= want + 16 ==> Node(p - 16, len, false) in after)
    && (len > want + 16 ==> Node(p - 16, want, false) in after && Node(p + want, len - want - 16, true) in after)
    && forall m :: m in nodes && m.addr != p - 16 ==> m in after
  }

  lemma UsedCuts(nodes: seq<Node>, at: nat, want: nat)
    requires at < |nodes| && want <= nodes[at].len
    ensures Cut(nodes, Used(nodes, at, want), nodes[at].len, want, nodes[at].addr + 16)
  {
    var n, after := nodes[at], Used(nodes, at, want);
    UsedKeeps(nodes, at, want);
    assert after[at] == Node(n.addr, if n.len > want + 16 then want else n.len, false);
    if n.len > want + 16 {
      assert after[at + 1] == Node(n.addr + 16 + want, n.len - want - 16, true);
    }
  }

  /** The fewest pages of 4096 bytes that hold the wanted bytes behind a header of 16. */
  ghost predicate WholePages(len: nat, want: nat)
  {
    (len + 16) % 4096 == 0 && want <= len < want + 4096
  }

  lemma PagesCut(nodes: seq<Node>, want: nat, base: nat)
    ensures var len, at := AllocSize(want) - 16, if nodes == [] then 0 else 1;
            var all := Grown(nodes, Node(base, len, false));
            at < |all| && Cut(nodes, Used(all, at, want), len, want, base + 16) && WholePages(len, want)
  {
    hide Used;
    hide AllocSize;
    AllocSizeFits(want);
    var n := Node(base, AllocSize(want) - 16, false);
    var all, at := Grown(nodes, n), if nodes == [] then 0 else 1;
    GrownAt(nodes, n);
    GrownKeeps(nodes, n);
    hide Grown;
    UsedCuts(all, at, want);
  }

  lemma BestCut(nodes: seq<Node>, want: nat, at: nat, p: nat)
    requires BestAt(nodes, want, at) && p == nodes[at].addr + 16
    ensures Cut(nodes, Used(nodes, at, want), nodes[at].len, want, p) && nodes[at] == Node(p - 16, nodes[at].len, true)
    ensures forall j :: 0 <= j < |nodes| && nodes[j].isFree && nodes[j].len >= want ==> nodes[at].len <= nodes[j].len
  {
    hide Used;
    hide Cut;
    UsedCuts(nodes, at, want);
  }

  /** A malloc takes the smallest free block that is large enough, and only if there is none new pages. */
  lemma MallocCuts(s: State, want: nat, base: nat, p: nat, s': State) returns (len: nat)
    requires Allocated(s.nodes, s'.nodes, s.owned, s'.owned, want, base, p)
    ensures Cut(s.nodes, s'.nodes, len, want, p)
    ensures NoneFits(s.nodes, want) ==> p == base + 16 && WholePages(len, want)
    ensures !NoneFits(s.nodes, want) ==>
              && (exists i :: 0 <= i < |s.nodes| && s.nodes[i] == Node(p - 16, len, true))
              && forall j :: 0 <= j < |s.nodes| && s.nodes[j].isFree && s.nodes[j].len >= want ==> len <= s.nodes[j].len
  {
    hide Used;
    hide Bytes;
    hide Cut;
    hide WholePages;
    hide AllocSize;
    hide Grown;
    hide NoneFits;
    if NoneFits(s.nodes, want) {
      PagesCut(s.nodes, want, base);
      AllocSizeFits(want);
      len := AllocSize(want) - 16;
    } else {
      hide BestAt;
      var at: nat :| BestAt(s.nodes, want, at) && s'.nodes == Used(s.nodes, at, want) && p == s.nodes[at].addr + 16;
      BestCut(s.nodes, want, at, p);
      len := s.nodes[at].len;
    }
  }

  /** Freeing one block leaves all others in use. */
  lemma FreeGives(s: State, p: nat, s': State)
    requires Tiled(s.nodes, s.owned) && Step(s, FreeCall(p), s')
    ensures Tiled(s'.nodes, s'.owned)
    ensures forall m :: m in s.nodes && !m.isFree && m.addr + HEADER != p ==> m in s'.nodes
  {
    hide Tiled;
    var at: nat :| at < |s.nodes| && s.nodes[at].addr + HEADER == p && !s.nodes[at].isFree
                   && s'.nodes == s.nodes[at := s.nodes[at].(isFree := true)];
    FlagTiled(s.nodes, s.owned, at, true);
    forall m | m in s.nodes && !m.isFree && m.addr + HEADER != p ensures m in s'.nodes {
      var j :| 0 <= j < |s.nodes| && s.nodes[j] == m;
      assert s'.nodes[j] == m;
    }
  }

  // ----- whole runs

  lemma NoneTiled()
    ensures Tiled([], {})
  {
  }

  lemma {:induction false} RunTiled(states: seq<State>, calls: seq<Call>, i: nat)
    requires Behaviour(states, calls) && i <= |calls|
    ensures Tiled(states[i].nodes, states[i].owned)
  {
    hide Tiled;
    hide Step;
    if i == 0 {
      NoneTiled();
    } else {
      RunTiled(states, calls, i - 1);
      var call := calls[i - 1];
      match call
      case MallocCall(want, base, p) =>
        var _ := MallocGives(states[i - 1], want, base, p, states[i]);
      case FreeCall(p) =>
        FreeGives(states[i - 1], p, states[i]);
    }
  }

  /** A block in use stays, at its address and with its length, until it is freed. */
  lemma {:induction false} LiveUntilFreed(states: seq<State>, calls: seq<Call>, i: nat, j: nat, n: Node, p: nat)
    requires Behaviour(states, calls) && i <= j <= |calls| && InUse(states[i].nodes, n, p)
    requires forall k :: i <= k < j ==> calls[k] != FreeCall(p)
    ensures InUse(states[j].nodes, n, p)
    decreases j - i
  {
    hide Tiled;
    hide Step;
    if i < j {
      LiveUntilFreed(states, calls, i, j - 1, n, p);
      RunTiled(states, calls, j - 1);
      var call := calls[j - 1];
      match call
      case MallocCall(want, base, q) =>
        var _ := MallocGives(states[j - 1], want, base, q, states[j]);
      case FreeCall(q) =>
        FreeGives(states[j - 1], q, states[j]);
    }
  }

  /** Two requests that are both still in use have disjoint payloads. */
  lemma RequestsDisjoint(states: seq<State>, calls: seq<Call>, i: nat, k: nat)
    requires Behaviour(states, calls) && i < k < |calls| && calls[i].MallocCall? && calls[k].MallocCall?
    requires forall l :: i < l < k ==> calls[l] != FreeCall(calls[i].p)
    ensures calls[i].p + calls[i].want <= calls[k].p || calls[k].p + calls[k].want <= calls[i].p
  {
    hide Tiled;
    hide Step;
    var a, b := calls[i], calls[k];
    RunTiled(states, calls, i);
    var n := MallocGives(states[i], a.want, a.base, a.p, states[i + 1]);
    LiveUntilFreed(states, calls, i + 1, k, n, a.p);
    RunTiled(states, calls, k);
    var m := MallocGives(states[k], b.want, b.base, b.p, states[k + 1]);
    assert n in states[k + 1].nodes && n != m;
    NodesApart(states[k + 1].nodes, states[k + 1].owned, n, m);
  }

  lemma NodesApart(nodes: seq<Node>, owned: set<nat>, n: Node, m: Node)
    requires Tiled(nodes, owned) && n in nodes && m in nodes && n != m
    ensures End(n) <= m.addr || End(m) <= n.addr
  {
    hide Tiled;
    var i :| 0 <= i < |nodes| && nodes[i] == n;
    var j :| 0 <= j < |nodes| && nodes[j] == m;
    if i < j {
      Apart(nodes, owned, i, j);
    } else {
      Apart(nodes, owned, j, i);
    }
  }

  /** No header ever lies in a payload that is in use, so no header write reaches one. */
  lemma HeadersClear(states: seq<State>, calls: seq<Call>, i: nat, j: nat, h: Node)
    requires Behaviour(states, calls) && i < j <= |calls| && calls[i].MallocCall? && h in states[j].nodes
    requires forall l :: i < l < j ==> calls[l] != FreeCall(calls[i].p)
    ensures h.addr + HEADER <= calls[i].p || calls[i].p + calls[i].want <= h.addr
  {
    hide Tiled;
    hide Step;
    var a := calls[i];
    RunTiled(states, calls, i);
    var n := MallocGives(states[i], a.want, a.base, a.p, states[i + 1]);
    LiveUntilFreed(states, calls, i + 1, j, n, a.p);
    RunTiled(states, calls, j);
    if h != n {
      NodesApart(states[j].nodes, states[j].owned, n, h);
    }
  }

  // ----- 16-byte alignment

  /** A malloc that cuts a block at an odd multiple of 8. */
  ghost predicate Misaligns(s: State, call: Call)
  {
    call.MallocCall? && Splits(s.nodes, call.want) && call.want % 16 != 0
  }

  lemma StepSixteen(s: State, call: Call, s': State)
    requires AllSixteen(s.nodes) && Step(s, call, s')
    ensures AllSixteen(s'.nodes) <==> !Misaligns(s, call)
  {
    hide Used;
    hide Grown;
    hide Bytes;
    hide AllocSize;
    hide NoneFits;
    match call
    case MallocCall(want, base, p) =>
      if NoneFits(s.nodes, want) {
        AllocSizeFits(want);
        var n := Node(base, AllocSize(want) - HEADER, false);
        PageAligned(base);
        GrownSixteen(s.nodes, n);
        GrownAt(s.nodes, n);
        UsedSixteen(Grown(s.nodes, n), if s.nodes == [] then 0 else 1, want);
      } else {
        var at: nat :| BestAt(s.nodes, want, at) && s'.nodes == Used(s.nodes, at, want) && p == s.nodes[at].addr + HEADER;
        UsedSixteen(s.nodes, at, want);
        forall b: nat | BestAt(s.nodes, want, b) ensures b == at {
          BestOnce(s.nodes, want, at, b);
        }
      }
    case FreeCall(_) =>
  }

  lemma {:induction false} SixteenUntil(states: seq<State>, calls: seq<Call>, j: nat)
    requires Behaviour(states, calls) && j <= |calls|
    requires forall i: nat {:trigger calls[i]} :: i < j ==> !Misaligns(states[i], calls[i])
    ensures AllSixteen(states[j].nodes)
  {
    hide Step;
    hide Misaligns;
    if j > 0 {
      SixteenUntil(states, calls, j - 1);
      StepSixteen(states[j - 1], calls[j - 1], states[j]);
    }
  }

  /** All blocks are 16-byte aligned throughout a run if and only if no malloc of the run cuts a block
      at an odd multiple of 8; then every pointer handed out is 16-byte aligned. */
  lemma RunSixteen(states: seq<State>, calls: seq<Call>)
    requires Behaviour(states, calls)
    ensures (forall j :: 0 <= j < |states| ==> AllSixteen(states[j].nodes))
            <==> forall i: nat {:trigger calls[i]} :: i < |calls| ==> !Misaligns(states[i], calls[i])
    ensures (forall j :: 0 <= j < |states| ==> AllSixteen(states[j].nodes)) ==>
              forall i: nat {:trigger calls[i]} :: i < |calls| && calls[i].MallocCall? ==> calls[i].p % 16 == 0
  {
    hide Step;
    hide Misaligns;
    if forall i: nat {:trigger calls[i]} :: i < |calls| ==> !Misaligns(states[i], calls[i]) {
      forall j: nat | j < |states| ensures AllSixteen(states[j].nodes) {
        SixteenUntil(states, calls, j);
      }
    }
    if forall j :: 0 <= j < |states| ==> AllSixteen(states[j].nodes) {
      forall i: nat | i < |calls| ensures !Misaligns(states[i], calls[i]) {
        StepSixteen(states[i], calls[i], states[i + 1]);
      }
      forall i: nat | i < |calls| && calls[i].MallocCall? ensures calls[i].p % 16 == 0 {
        RunTiled(states, calls, i);
        var call := calls[i];
        var n := MallocGives(states[i], call.want, call.base, call.p, states[i + 1]);
        SixteenMore(n.addr, 0);
      }
    }
  }

  // ----- the heap serves such runs

  /** A request of a caller; `base` is where new pages would be mapped. */
  datatype Request = MallocRequest(sz: nat, base: nat) | FreeRequest(p: nat)

  ghost predicate Answers(r: Request, call: Call)
  {
    match r
    case MallocRequest(sz, base) => call.MallocCall? && call.want == RoundUp8(sz) && call.base == base
    case FreeRequest(p) => call == FreeCall(p)
  }

  /** Callers ask for something, free what they have, and new pages are mapped where the heap owns nothing. */
  ghost predicate Allowed(s: State, r: Request)
  {
    match r
    case MallocRequest(sz, base) =>
      && sz > 0 && AllocSize(RoundUp8(sz)) - HEADER < 0x1_0000_0000
      && (NoneFits(s.nodes, RoundUp8(sz)) ==>
            base > 0 && base % 0x1000 == 0 && s.owned !! Bytes(base, AllocSize(RoundUp8(sz))))
    case FreeRequest(p) => exists n :: InUse(s.nodes, n, p)
  }

  /** Whatever the calls answer, each one is allowed when its turn comes. */
  ghost predicate AllowedRun(s: State, requests: seq<Request>)
    decreases |requests|
  {
    requests == [] ||
    (&& Allowed(s, requests[0])
     && forall call, s' {:trigger Step(s, call, s')} ::
          Answers(requests[0], call) && Step(s, call, s') ==> AllowedRun(s', requests[1..]))
  }

  ghost function StateOf(heap: KernelHeap): State
    requires heap.Valid()
    reads heap
  {
    State(heap.Nodes(), heap.owned)
  }

  lemma NodeInMemory(mem: map<nat, Header>, order: seq<nat>, root: nat, n: Node)
    requires Linked(mem, order, root) && n in NodesOf(mem, order)
    ensures n.addr in mem
  {
    var i :| 0 <= i < |order| && NodesOf(mem, order)[i] == n;
    assert order[i] in mem;
  }

  /** A block in use is freed without a panic. */
  lemma OnlyInUse(nodes: seq<Node>, owned: set<nat>, n: Node, p: nat, nodes': seq<Node>, panicked: bool)
    requires Tiled(nodes, owned) && InUse(nodes, n, p) && Released(nodes, nodes', p, panicked)
    ensures !panicked
  {
    hide Tiled;
    var at: nat :| at < |nodes| && nodes[at].addr + HEADER == p && panicked == nodes[at].isFree
                   && nodes' == (if panicked then nodes else nodes[at := nodes[at].(isFree := true)]);
    SameAddress(nodes, owned, n, at);
  }

  /** One request on the heap is a step of such a run. */
  method Serve(heap: KernelHeap, r: Request) returns (call: Call)
    requires heap.Valid() && Allowed(StateOf(heap), r)
    modifies heap
    ensures heap.Valid() && Answers(r, call) && Step(old(StateOf(heap)), call, StateOf(heap))
  {
    hide Tiled;
    hide Linked;
    hide NodesOf;
    hide NoneFits;
    hide Bytes;
    hide AllocSize;
    match r
    case MallocRequest(sz, base) =>
      RoundUpFits(sz);
      var p := heap.Malloc(sz, base);
      call := MallocCall(RoundUp8(sz), base, p);
    case FreeRequest(p) =>
      ghost var n :| InUse(heap.Nodes(), n, p);
      NodeInMemory(heap.mem, heap.order, heap.root, n);
      ghost var s := StateOf(heap);
      var panicked := heap.Free(p);
      OnlyInUse(s.nodes, heap.owned, n, p, StateOf(heap).nodes, panicked);
      call := FreeCall(p);
  }

  lemma AllowedNext(s: State, requests: seq<Request>, call: Call, s': State)
    requires requests != [] && AllowedRun(s, requests) && Answers(requests[0], call) && Step(s, call, s')
    ensures AllowedRun(s', requests[1..])
  {
  }

  lemma AllowedNow(s: State, requests: seq<Request>)
    requires requests != [] && AllowedRun(s, requests)
    ensures Allowed(s, requests[0])
  {
  }

  /** Serves a sequence of requests on a fresh heap: the run is one of those above, so blocks in use never
      overlap each other or a header at any point of it. */
  method ServeAll(heap: KernelHeap, requests: seq<Request>) returns (calls: seq<Call>, ghost states: seq<State>)
    requires heap.Valid() && StateOf(heap) == State([], {}) && AllowedRun(State([], {}), requests)
    modifies heap
    ensures heap.Valid() && Behaviour(states, calls) && states[|calls|] == StateOf(heap)
    ensures |calls| == |requests| && forall i :: 0 <= i < |calls| ==> Answers(requests[i], calls[i])
  {
    hide Tiled;
    hide Linked;
    hide NodesOf;
    hide Step;
    hide Allowed;
    hide AllowedRun;
    calls, states := [], [StateOf(heap)];
    assert requests[0..] == requests;
    for i := 0 to |requests|
      invariant heap.Valid() && |calls| == i && |states| == i + 1 && states[0] == State([], {})
      invariant states[i] == StateOf(heap) && AllowedRun(StateOf(heap), requests[i..])
      invariant forall k :: 0 <= k < i ==> Answers(requests[k], calls[k])
      invariant forall k: nat {:trigger calls[k]} :: k < i ==> Step(states[k], calls[k], states[k + 1])
    {
      AllowedNow(StateOf(heap), requests[i..]);
      var call := Serve(heap, requests[i]);
      AllowedNext(states[i], requests[i..], call, StateOf(heap));
      assert requests[i..][1..] == requests[i + 1..];
      calls, states := calls + [call], states + [StateOf(heap)];
    }
  }
}
