/** The transmit ring of the RTL8169 driver (drivers/rtl8169/src/driver.c) as a protocol between any
    number of senders, which take turns under a spinlock, and the network card, which walks the ring
    by itself.  Every memory access of the driver that matters to the card is one step. */
module TxRing {
  import opened Ring

  const TX_DESC_COUNT := 1024
  const TX_PACKET_SIZE := 2048

  type Packet = seq<int>

  /** What the sender that holds the lock does next. */
  datatype Stage = Check | Copy(done: nat) | SetLength | SetOwn | Advance | Unlock

  datatype Holder = Free | Held(id: nat, packet: Packet, stage: Stage)

  /** The descriptors with their buffers, the driver's index, the lock, and the card's cursor.
      `submitted` and `sent` record the packets handed over and those that left. */
  datatype State = State(
    own: seq<bool>, length: seq<nat>, buffer: seq<seq<int>>, freeIdx: nat,
    waiting: map<nat, Packet>, lock: Holder, cursor: nat,
    submitted: seq<Packet>, sent: seq<Packet>)

  datatype Event =
    | Call(id: nat, packet: Packet)
    | Acquire(id: nat)
    | Drive
    | Nic

  predicate Sendable(packet: Packet)
  {
    0 < |packet| <= TX_PACKET_SIZE
  }

  ghost predicate Shaped(s: State)
  {
    && |s.own| == |s.length| == |s.buffer| == TX_DESC_COUNT
    && s.freeIdx < TX_DESC_COUNT && s.cursor < TX_DESC_COUNT
    && (forall i :: 0 <= i < TX_DESC_COUNT ==> |s.buffer[i]| == TX_PACKET_SIZE)
    && (forall id :: id in s.waiting ==> Sendable(s.waiting[id]))
    && (s.lock.Held? ==> Sendable(s.lock.packet) && (s.lock.stage.Copy? ==> s.lock.stage.done <= |s.lock.packet|))
  }

  /** After setting up the ring: nothing is owned by the card. */
  function Initial(buffer: seq<seq<int>>, length: seq<nat>): State
  {
    State(seq(TX_DESC_COUNT, _ => false), length, buffer, 0, map[], Free, 0, [], [])
  }

  // ----- steps

  /** The next step of the sender that holds the lock. */
  function DriveStep(s: State): State
    requires Shaped(s) && s.lock.Held?
  {
    var i, packet := s.freeIdx, s.lock.packet;
    match s.lock.stage
    case Check =>
      if s.own[i] then s.(lock := Free, waiting := s.waiting[s.lock.id := packet])
      else s.(lock := s.lock.(stage := Copy(0)))
    case Copy(k) =>
      if k < |packet|
      then s.(buffer := s.buffer[i := s.buffer[i][k := packet[k]]], lock := s.lock.(stage := Copy(k + 1)))
      else s.(lock := s.lock.(stage := SetLength))
    case SetLength => s.(length := s.length[i := |packet|], lock := s.lock.(stage := SetOwn))
    case SetOwn => s.(own := s.own[i := true], submitted := s.submitted + [packet], lock := s.lock.(stage := Advance))
    case Advance => s.(freeIdx := (i + 1) % TX_DESC_COUNT, lock := s.lock.(stage := Unlock))
    case Unlock => s.(lock := Free)
  }

  /** The card sends the packet at its cursor and gives the descriptor back. */
  function NicStep(s: State): State
    requires Shaped(s)
  {
    var i := s.cursor;
    s.(own := s.own[i := false], cursor := (i + 1) % TX_DESC_COUNT, sent := s.sent + [Frame(s, i)])
  }

  /** What the card reads from a descriptor's buffer. */
  function Frame(s: State, i: nat): Packet
    requires Shaped(s) && i < TX_DESC_COUNT
  {
    if s.length[i] <= TX_PACKET_SIZE then s.buffer[i][..s.length[i]] else s.buffer[i]
  }

  ghost predicate Step(s: State, event: Event, s': State)
    requires Shaped(s)
  {
    match event
    case Call(id, packet) =>
      && id !in s.waiting && !(s.lock.Held? && s.lock.id == id)
      && s' == if Sendable(packet) then s.(waiting := s.waiting[id := packet]) else s
    case Acquire(id) =>
      && id in s.waiting && s.lock == Free
      && s' == s.(waiting := s.waiting - {id}, lock := Held(id, s.waiting[id], Check))
    case Drive => s.lock.Held? && s' == DriveStep(s)
    case Nic => s.own[s.cursor] && s' == NicStep(s)
  }

  // ----- the invariant

  function At(k: nat): (i: nat)
    ensures i < TX_DESC_COUNT
  {
    Cell(k, TX_DESC_COUNT)
  }

  /** Packets submitted, not counting one whose index has not been advanced yet. */
  ghost function Advanced(s: State): int
  {
    if s.lock.Held? && s.lock.stage == Advance then |s.submitted| - 1 else |s.submitted|
  }

  /** Counting descriptors from the first packet on: the card owns exactly those of the packets that
      are submitted and not sent, and each of them holds its packet. */
  ghost predicate Window(s: State)
    requires Shaped(s)
  {
    && |s.sent| <= |s.submitted| <= |s.sent| + TX_DESC_COUNT && s.sent <= s.submitted
    && (forall k: nat {:trigger At(k)} :: |s.sent| <= k < |s.submitted| ==> s.own[At(k)] && Frame(s, At(k)) == s.submitted[k])
    && (forall k: nat {:trigger At(k)} :: |s.submitted| <= k < |s.sent| + TX_DESC_COUNT ==> !s.own[At(k)])
    && s.cursor == At(|s.sent|) && 0 <= Advanced(s) && s.freeIdx == At(Advanced(s))
  }

  /** What the holder of the lock has done so far. */
  ghost predicate Prepared(s: State)
    requires Shaped(s)
  {
    s.lock.Held? ==>
      var i, packet := s.freeIdx, s.lock.packet;
      match s.lock.stage
      case Check => true
      case Copy(k) => !s.own[i] && s.buffer[i][..k] == packet[..k]
      case SetLength => !s.own[i] && s.buffer[i][..|packet|] == packet
      case SetOwn => !s.own[i] && s.buffer[i][..|packet|] == packet && s.length[i] == |packet|
      case Advance => true
      case Unlock => true
  }

  ghost predicate Inv(s: State)
  {
    Shaped(s) && Window(s) && Prepared(s)
  }

  lemma AtNext(k: nat)
    ensures (At(k) + 1) % TX_DESC_COUNT == At(k + 1)
  {
    hide Cell;
    CellAdd(k, 1, TX_DESC_COUNT);
    CellIs(At(k) + 1);
  }

  lemma CellIs(j: nat)
    ensures Cell(j, TX_DESC_COUNT) == j % TX_DESC_COUNT
  {
  }

  lemma AtApart(j: nat, k: nat)
    requires j < k < j + TX_DESC_COUNT
    ensures At(j) != At(k)
  {
    hide Cell;
    CellsApart(j, k, TX_DESC_COUNT);
  }

  lemma AtAround(k: nat)
    ensures At(k + TX_DESC_COUNT) == At(k)
  {
    hide Cell;
    CellStep(k + TX_DESC_COUNT, TX_DESC_COUNT);
  }

  lemma InitialInv(buffer: seq<seq<int>>, length: seq<nat>)
    requires |buffer| == |length| == TX_DESC_COUNT && forall i :: 0 <= i < TX_DESC_COUNT ==> |buffer[i]| == TX_PACKET_SIZE
    ensures Inv(Initial(buffer, length))
  {
    CellSmall(0, TX_DESC_COUNT);
  }

  // ----- every step keeps it

  lemma OwnedBelow(s: State, k: nat)
    requires Shaped(s) && Window(s) && |s.sent| <= k < |s.sent| + TX_DESC_COUNT && s.own[At(k)]
    ensures k < |s.submitted|
  {
  }

  lemma NicKeeps(s: State)
    requires Inv(s) && s.own[s.cursor]
    ensures Inv(NicStep(s)) && |s.sent| < |s.submitted|
  {
    hide At;
    var n := |s.sent|;
    AtNext(n);
    OwnedBelow(s, n);
    var s' := NicStep(s);
    forall k: nat | |s'.sent| <= k < |s'.submitted| ensures s'.own[At(k)] && Frame(s', At(k)) == s'.submitted[k] {
      AtApart(n, k);
    }
    forall k: nat | |s'.submitted| <= k < |s'.sent| + TX_DESC_COUNT ensures !s'.own[At(k)] {
      if k == n + TX_DESC_COUNT {
        AtAround(n);
      }
    }
    assert s.own[At(n)];
  }

  lemma CopyKeeps(s: State)
    requires Inv(s) && s.lock.Held? && s.lock.stage.Copy?
    ensures Inv(DriveStep(s))
  {
    hide At;
    var s', i, k := DriveStep(s), s.freeIdx, s.lock.stage.done;
    if k < |s.lock.packet| {
      assert s'.buffer[i][..k + 1] == s.buffer[i][..k] + [s.lock.packet[k]] == s.lock.packet[..k + 1];
    } else {
      assert s.lock.packet[..k] == s.lock.packet;
    }
    KeepsWindow(s, s');
  }

  /** A step of the driver that leaves the card's descriptors alone. */
  lemma KeepsWindow(s: State, s': State)
    requires Shaped(s) && Window(s) && Shaped(s') && s'.own == s.own && s'.sent == s.sent && s'.submitted == s.submitted
    requires s'.cursor == s.cursor && 0 <= Advanced(s') && s'.freeIdx == At(Advanced(s'))
    requires forall i :: 0 <= i < TX_DESC_COUNT && s.own[i] ==> s'.buffer[i] == s.buffer[i] && s'.length[i] == s.length[i]
    ensures Window(s')
  {
    hide At;
    forall k: nat | |s.sent| <= k < |s.submitted| ensures s'.own[At(k)] && Frame(s', At(k)) == s'.submitted[k] {
      assert s.own[At(k)];
    }
  }

  lemma SetOwnKeeps(s: State)
    requires Inv(s) && s.lock.Held? && s.lock.stage == SetOwn
    ensures Inv(DriveStep(s))
  {
    hide At;
    var s', i, n := DriveStep(s), s.freeIdx, |s.submitted|;
    RoomLeft(s);
    forall k: nat | |s'.sent| <= k < |s'.submitted| ensures s'.own[At(k)] && Frame(s', At(k)) == s'.submitted[k] {
      if k < n {
        assert s.own[At(k)];
      }
    }
    forall k: nat | |s'.submitted| <= k < |s'.sent| + TX_DESC_COUNT ensures !s'.own[At(k)] {
      AtApart(n, k);
    }
  }

  /** A free descriptor at the index means that the ring is not full. */
  lemma RoomLeft(s: State)
    requires Shaped(s) && Window(s) && !s.own[s.freeIdx] && Advanced(s) == |s.submitted|
    ensures |s.submitted| < |s.sent| + TX_DESC_COUNT
  {
    hide At;
    AtAround(|s.sent|);
    assert |s.sent| < |s.submitted| ==> s.own[At(|s.sent|)];
  }

  lemma DriveKeeps(s: State)
    requires Inv(s) && s.lock.Held?
    ensures Inv(DriveStep(s))
  {
    hide At;
    match s.lock.stage
    case Copy(_) => CopyKeeps(s);
    case SetOwn => SetOwnKeeps(s);
    case Advance =>
      AtNext(|s.submitted| - 1);
      KeepsWindow(s, DriveStep(s));
    case Check => KeepsWindow(s, DriveStep(s));
    case SetLength => KeepsWindow(s, DriveStep(s));
    case Unlock => KeepsWindow(s, DriveStep(s));
  }

  lemma StepKeeps(s: State, event: Event, s': State)
    requires Inv(s) && Step(s, event, s')
    ensures Inv(s')
  {
    hide At;
    match event
    case Call(_, _) => KeepsWindow(s, s');
    case Acquire(_) => KeepsWindow(s, s');
    case Drive => DriveKeeps(s);
    case Nic => NicKeeps(s);
  }

  // ----- what it means

  /** The descriptors of the card are exactly the window from its cursor to the driver's index. */
  lemma OwnedWindow(s: State, i: nat)
    requires Inv(s) && i < TX_DESC_COUNT
    ensures s.own[i] <==> exists k: nat :: |s.sent| <= k < |s.submitted| && At(k) == i
  {
    hide At;
    var n, d := |s.sent|, if i >= s.cursor then i - s.cursor else i + TX_DESC_COUNT - s.cursor;
    Places(n, d, i);
    if n + d < |s.submitted| {
      assert At(n + d) == i;
    } else {
      forall k: nat | |s.sent| <= k < |s.submitted| ensures At(k) != i {
        AtApart(k, n + d);
      }
    }
  }

  lemma Places(n: nat, d: nat, i: nat)
    requires i < TX_DESC_COUNT && d < TX_DESC_COUNT && (At(n) + d == i || At(n) + d == i + TX_DESC_COUNT)
    ensures At(n + d) == i
  {
    hide Cell;
    CellAdd(n, d, TX_DESC_COUNT);
    CellSmall(i, TX_DESC_COUNT);
    if At(n) + d == i + TX_DESC_COUNT {
      CellStep(i + TX_DESC_COUNT, TX_DESC_COUNT);
    }
  }

  /** The driver never writes the buffer or the length of a descriptor that the card owns. */
  lemma NoOwnedWrite(s: State, event: Event, s': State, i: nat)
    requires Inv(s) && Step(s, event, s') && i < TX_DESC_COUNT && s.own[i]
    ensures s'.buffer[i] == s.buffer[i] && s'.length[i] == s.length[i]
    ensures !event.Nic? ==> s'.own[i]
  {
    hide At;
  }

  /** While the ring is full the card can go on, so a waiting sender is not stuck. */
  lemma FullRingMoves(s: State)
    requires Inv(s) && s.own[s.freeIdx]
    ensures s.own[s.cursor]
  {
    hide At;
    OwnedWindow(s, s.freeIdx);
    assert s.own[At(|s.sent|)];
  }

  ghost predicate Behaviour(states: seq<State>, events: seq<Event>)
  {
    && |states| == |events| + 1 && Inv(states[0]) && states[0].submitted == []
    && forall i: nat {:trigger events[i]} :: i < |events| ==> Shaped(states[i]) && Step(states[i], events[i], states[i + 1])
  }

  /** In every interleaving, the packets on the wire are the submitted ones, in order and unchanged. */
  lemma {:induction false} RunSends(states: seq<State>, events: seq<Event>, i: nat)
    requires Behaviour(states, events) && i <= |events|
    ensures Inv(states[i]) && states[i].sent <= states[i].submitted
  {
    hide Shaped;
    hide Prepared;
    hide Step;
    if i > 0 {
      RunSends(states, events, i - 1);
      StepKeeps(states[i - 1], events[i - 1], states[i]);
    }
  }
}
