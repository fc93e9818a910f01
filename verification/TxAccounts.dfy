/** What the transmit ring does with the packets it is called with, from the calls alone: each is waiting, in the
    hands of one sender, or handed to the card, as often as it was called with. */
module TxAccounts {
  import opened Common
  import opened TxRing

  /** The senders that wait with packet `p`. */
  ghost function Waiters(waiting: map<nat, Packet>, p: Packet): set<nat>
  {
    set id | id in waiting && waiting[id] == p
  }

  lemma WaitersPut(waiting: map<nat, Packet>, id: nat, packet: Packet, p: Packet)
    requires id !in waiting
    ensures |Waiters(waiting[id := packet], p)| == |Waiters(waiting, p)| + Once(packet == p)
  {
    var was, now := Waiters(waiting, p), Waiters(waiting[id := packet], p);
    assert now == if packet == p then was + {id} else was;
  }

  lemma WaitersTake(waiting: map<nat, Packet>, id: nat, p: Packet)
    requires id in waiting
    ensures |Waiters(waiting, p)| == |Waiters(waiting - {id}, p)| + Once(waiting[id] == p)
  {
    WaitersPut(waiting - {id}, id, waiting[id], p);
    assert (waiting - {id})[id := waiting[id]] == waiting;
  }

  /** How often packet `p` is in a sequence. */
  ghost function Times(packets: seq<Packet>, p: Packet): nat
  {
    multiset(packets)[p]
  }

  lemma TimesMore(packets: seq<Packet>, q: Packet, p: Packet)
    ensures Times(packets + [q], p) == Times(packets, p) + Once(q == p)
  {
  }

  lemma TimesSplit(a: seq<Packet>, b: seq<Packet>, p: Packet)
    ensures Times(a + b, p) == Times(a, p) + Times(b, p)
  {
  }

  /** Whether the holder of the lock has packet `p` and has not submitted it. */
  ghost predicate InHand(s: State, p: Packet)
  {
    s.lock.Held? && s.lock.packet == p && s.lock.stage != Advance && s.lock.stage != Unlock
  }

  /** How often the ring has packet `p` in its books. */
  ghost function Accepted(s: State, p: Packet): nat
  {
    Times(s.submitted, p) + |Waiters(s.waiting, p)| + Once(InHand(s, p))
  }

  /** How often the first `n` events call with packet `p`; only 1 to 2048 bytes are taken. */
  ghost function Called(events: seq<Event>, n: nat, p: Packet): nat
    requires n <= |events|
  {
    if n == 0 then 0
    else Called(events, n - 1, p) + Once(events[n - 1].Call? && events[n - 1].packet == p && 1 <= |p| <= 2048)
  }

  /** No sender waits for the lock while it holds it. */
  ghost predicate Apart(s: State)
  {
    s.lock.Held? ==> s.lock.id !in s.waiting
  }

  lemma DriveAccounts(s: State, p: Packet)
    requires Shaped(s) && Apart(s) && s.lock.Held?
    ensures Apart(DriveStep(s)) && Accepted(DriveStep(s), p) == Accepted(s, p)
  {
    hide Times;
    hide Waiters;
    if s.lock.stage == Check && s.own[s.freeIdx] {
      WaitersPut(s.waiting, s.lock.id, s.lock.packet, p);
    } else if s.lock.stage == SetOwn {
      TimesMore(s.submitted, s.lock.packet, p);
    }
  }

  /** One step adds what it calls with, and loses nothing. */
  lemma StepAccounts(s: State, events: seq<Event>, n: nat, s': State, p: Packet)
    requires n < |events| && Shaped(s) && Apart(s) && Step(s, events[n], s')
    ensures Apart(s') && Accepted(s', p) + Called(events, n, p) == Accepted(s, p) + Called(events, n + 1, p)
  {
    hide Times;
    hide Waiters;
    hide DriveStep;
    match events[n]
    case Call(id, packet) =>
      if Sendable(packet) {
        WaitersPut(s.waiting, id, packet, p);
      }
    case Acquire(id) => WaitersTake(s.waiting, id, p);
    case Drive => DriveAccounts(s, p);
    case Nic =>
  }

  /** In every interleaving and for every packet: submitted, waiting and in hand it is as often as it was called with. */
  lemma {:induction false} RunAccounts(states: seq<State>, events: seq<Event>, i: nat, p: Packet)
    requires Behaviour(states, events) && i <= |events| && Apart(states[0])
    ensures Apart(states[i]) && Accepted(states[i], p) == Accepted(states[0], p) + Called(events, i, p)
  {
    hide Step;
    hide Accepted;
    if i > 0 {
      RunAccounts(states, events, i - 1, p);
      RunSends(states, events, i - 1);
      assert Step(states[i - 1], events[i - 1], states[i]);
      StepAccounts(states[i - 1], events, i - 1, states[i], p);
    }
  }

  /** From the ring as set up: a packet is sent whole and no more often than it was called with, and a call that is not
      sent yet is waiting, in hand or in the ring. */
  lemma RunDelivers(states: seq<State>, events: seq<Event>, i: nat, buffer: seq<seq<int>>, length: seq<nat>, p: Packet)
    requires Behaviour(states, events) && i <= |events| && states[0] == Initial(buffer, length)
    ensures var s := states[i];
            && |s.sent| <= |s.submitted| <= |s.sent| + 1024 && Times(s.sent, p) <= Called(events, i, p)
            && Times(s.sent, p) + Times(s.submitted[|s.sent|..], p) + |Waiters(s.waiting, p)| + Once(InHand(s, p))
               == Called(events, i, p)
  {
    RunAccounts(states, events, i, p);
    RunSends(states, events, i);
    var s := states[i];
    assert Waiters(states[0].waiting, p) == {};
    TimesSplit(s.sent, s.submitted[|s.sent|..], p);
    assert s.submitted == s.sent + s.submitted[|s.sent|..];
  }

  /** Every sender is done and the card has caught up. */
  ghost predicate Idle(s: State)
  {
    s.waiting == map[] && s.lock == Free && s.cursor < |s.own| && !s.own[s.cursor]
  }

  /** In an idle ring, every packet has been sent as often as it was called with. */
  lemma AllSent(states: seq<State>, events: seq<Event>, i: nat, buffer: seq<seq<int>>, length: seq<nat>, p: Packet)
    requires Behaviour(states, events) && i <= |events| && states[0] == Initial(buffer, length) && Idle(states[i])
    ensures Times(states[i].sent, p) == Called(events, i, p)
  {
    var s := states[i];
    RunDelivers(states, events, i, buffer, length, p);
    RunSends(states, events, i);
    assert Waiters(s.waiting, p) == {};
    assert |s.sent| == |s.submitted|;
    assert s.submitted[|s.sent|..] == [];
  }

  /** Between two packets the driver finds its descriptor taken exactly when 1024 packets are on their way. */
  lemma FullIs(s: State)
    requires Inv(s) && !(s.lock.Held? && s.lock.stage == Advance)
    ensures s.own[s.freeIdx] <==> |s.submitted| == |s.sent| + 1024
  {
    hide At;
    var n := |s.submitted|;
    if n == |s.sent| + 1024 {
      AtAround(|s.sent|);
      assert s.own[At(|s.sent|)];
    } else {
      assert !s.own[At(n)];
    }
  }
}
