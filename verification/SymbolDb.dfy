/** The kernel symbol table (kernel/src/symbol_db.c): every name has two candidate slots, given by two
    hash functions about which nothing is assumed; a weak definition gives way to a later one. */
module SymbolDb {
  import opened Common

  const MAX_SYMBOL_CNT := 65413

  /** A symbol: its name, its binding, and which definition it is. */
  datatype Symbol = Symbol(name: string, weak: bool, id: nat)

  // ----- what a lookup should give

  /** The first strong definition of a name, or else its last weak one. */
  ghost function Resolve(log: seq<Symbol>, name: string): Option<Symbol>
  {
    if log == [] then None
    else
      var before, s := Resolve(log[..|log| - 1], name), log[|log| - 1];
      if s.name != name || (before.Some? && !before.value.weak) then before else Some(s)
  }

  ghost predicate DefinedAt(log: seq<Symbol>, name: string, i: nat)
  {
    i < |log| && log[i].name == name
  }

  /** `Resolve` is the weak-binding rule: nothing without a definition; the first strong definition if
      there is one; otherwise the last definition. */
  lemma {:induction false} ResolveRule(log: seq<Symbol>, name: string)
    ensures Resolve(log, name).None? <==> forall i: nat :: !DefinedAt(log, name, i)
    ensures Resolve(log, name).Some? ==>
              exists i: nat :: DefinedAt(log, name, i) && log[i] == Resolve(log, name).value
                && (if log[i].weak then forall j: nat :: DefinedAt(log, name, j) ==> log[j].weak && j <= i
                    else forall j: nat :: DefinedAt(log, name, j) && j < i ==> log[j].weak)
    decreases |log|
  {
    if log != [] {
      var n := |log| - 1;
      var before := log[..n];
      ResolveRule(before, name);
      assert forall j: nat :: j < n ==> (DefinedAt(log, name, j) <==> DefinedAt(before, name, j));
      if log[n].name == name {
        assert DefinedAt(log, name, n);
      }
      if Resolve(log, name) == Resolve(before, name) && Resolve(before, name).Some? {
        var i: nat :| DefinedAt(before, name, i) && before[i] == Resolve(before, name).value
                      && (if before[i].weak then forall j: nat :: DefinedAt(before, name, j) ==> before[j].weak && j <= i
                          else forall j: nat :: DefinedAt(before, name, j) && j < i ==> before[j].weak);
        assert DefinedAt(log, name, i);
      }
    }
  }

  lemma ResolveNext(log: seq<Symbol>, s: Symbol, name: string)
    ensures Resolve(log + [s], name)
            == if s.name != name || (Resolve(log, name).Some? && !Resolve(log, name).value.weak) then Resolve(log, name)
               else Some(s)
  {
    assert (log + [s])[..|log|] == log;
  }

  // ----- the table

  type Slots = seq<Option<Symbol>>

  predicate HoldsName(slot: Option<Symbol>, name: string)
  {
    slot.Some? && slot.value.name == name
  }

  /** Whether `symboldb_addentry` accepts: an empty slot, or a weak definition of the same name. */
  predicate Accepts(slot: Option<Symbol>, name: string)
  {
    slot.None? || (slot.value.name == name && slot.value.weak)
  }

  /** The two slots of a name: a lookup in them gives what it should, and the second one is used only
      when the first is taken. */
  ghost predicate NameOk(first: Option<Symbol>, second: Option<Symbol>, want: Option<Symbol>, name: string)
  {
    && (if HoldsName(first, name) then first == want
        else if HoldsName(second, name) then second == want
        else want == None)
    && (HoldsName(second, name) ==> first.Some?)
  }

  ghost predicate Agrees(slots: Slots, log: seq<Symbol>, hash1: string -> nat, hash2: string -> nat)
    requires |slots| == MAX_SYMBOL_CNT
  {
    forall name :: NameOk(slots[Slot(hash1, name)], slots[Slot(hash2, name)], Resolve(log, name), name)
  }

  function Slot(hash: string -> nat, name: string): (i: nat)
    ensures i < MAX_SYMBOL_CNT
  {
    hash(name) % MAX_SYMBOL_CNT
  }

  /** Where a definition goes, if anywhere. */
  ghost predicate GoesTo(slots: Slots, s: Symbol, hash1: string -> nat, hash2: string -> nat, i: nat)
    requires |slots| == MAX_SYMBOL_CNT
  {
    var first, second := Slot(hash1, s.name), Slot(hash2, s.name);
    if Accepts(slots[first], s.name) then i == first
    else i == second && Accepts(slots[second], s.name)
  }

  lemma AddAgrees(slots: Slots, log: seq<Symbol>, hash1: string -> nat, hash2: string -> nat, s: Symbol, i: nat)
    requires |slots| == MAX_SYMBOL_CNT && Agrees(slots, log, hash1, hash2) && GoesTo(slots, s, hash1, hash2, i)
    ensures i < MAX_SYMBOL_CNT && Agrees(slots[i := Some(s)], log + [s], hash1, hash2)
  {
    hide Resolve;
    hide Slot;
    var after := slots[i := Some(s)];
    forall name ensures NameOk(after[Slot(hash1, name)], after[Slot(hash2, name)], Resolve(log + [s], name), name) {
      ResolveNext(log, s, name);
      var first, second := Slot(hash1, name), Slot(hash2, name);
      assert NameOk(slots[first], slots[second], Resolve(log, name), name);
      assert NameOk(slots[Slot(hash1, s.name)], slots[Slot(hash2, s.name)], Resolve(log, s.name), s.name);
    }
  }

  /** Some definition has place `k` of the table as one of its two places. */
  ghost predicate Touched(log: seq<Symbol>, hash1: string -> nat, hash2: string -> nat, k: nat)
  {
    exists j: nat :: j < |log| && (hash1(log[j].name) % 65413 == k || hash2(log[j].name) % 65413 == k)
  }

  /** Only places of the names that were defined are taken. */
  ghost predicate Sourced(slots: Slots, log: seq<Symbol>, hash1: string -> nat, hash2: string -> nat)
  {
    forall k: nat :: k < |slots| && slots[k].Some? ==> Touched(log, hash1, hash2, k)
  }

  lemma SourcedNext(slots: Slots, log: seq<Symbol>, hash1: string -> nat, hash2: string -> nat, s: Symbol, i: nat)
    requires |slots| == MAX_SYMBOL_CNT && Sourced(slots, log, hash1, hash2) && GoesTo(slots, s, hash1, hash2, i)
    ensures i < MAX_SYMBOL_CNT && Sourced(slots[i := Some(s)], log + [s], hash1, hash2)
  {
    var after, more := slots[i := Some(s)], log + [s];
    forall k: nat | k < |after| && after[k].Some? ensures Touched(more, hash1, hash2, k) {
      if k == i {
        assert more[|log|] == s;
      } else {
        var j: nat :| j < |log| && (hash1(log[j].name) % 65413 == k || hash2(log[j].name) % 65413 == k);
        assert more[j] == log[j];
      }
    }
  }

  /** A definition is refused only if both its places are places of names defined before it; one that replaces a weak
      definition never is. */
  lemma RefusedOnly(slots: Slots, log: seq<Symbol>, hash1: string -> nat, hash2: string -> nat, s: Symbol)
    requires |slots| == MAX_SYMBOL_CNT && Agrees(slots, log, hash1, hash2) && Sourced(slots, log, hash1, hash2)
    requires forall i :: !GoesTo(slots, s, hash1, hash2, i)
    ensures Touched(log, hash1, hash2, hash1(s.name) % 65413) && Touched(log, hash1, hash2, hash2(s.name) % 65413)
    ensures Resolve(log, s.name).None? || !Resolve(log, s.name).value.weak
  {
    hide Resolve;
    hide Touched;
    var first, second := Slot(hash1, s.name), Slot(hash2, s.name);
    assert !GoesTo(slots, s, hash1, hash2, first) && !GoesTo(slots, s, hash1, hash2, second);
    assert NameOk(slots[first], slots[second], Resolve(log, s.name), s.name);
  }

  class SymbolTable {
    const slots: array<Option<Symbol>>
    const hash1: string -> nat
    const hash2: string -> nat
    var symbolCnt: nat
    ghost var log: seq<Symbol>

    ghost predicate Valid()
      reads this, slots
    {
      && slots.Length == MAX_SYMBOL_CNT && symbolCnt == |log| <= MAX_SYMBOL_CNT
      && Agrees(slots[..], log, hash1, hash2) && Sourced(slots[..], log, hash1, hash2)
    }

    constructor (hash1: string -> nat, hash2: string -> nat)
      ensures Valid() && log == [] && fresh(slots) && this.hash1 == hash1 && this.hash2 == hash2
    {
      this.hash1 := hash1;
      this.hash2 := hash2;
      slots := new Option<Symbol>[MAX_SYMBOL_CNT](_ => None);
      symbolCnt := 0;
      log := [];
    }

    method AddEntry(i: nat, s: Symbol) returns (ok: bool)
      requires i < slots.Length
      modifies slots
      ensures ok <==> old(Accepts(slots[i], s.name))
      ensures slots[..] == if ok then old(slots[..])[i := Some(s)] else old(slots[..])
    {
      if slots[i].None? {
        slots[i] := Some(s);
        return true;
      }
      var entry := slots[i].value;
      if s.name != entry.name {
        return false;
      }
      if entry.weak {
        slots[i] := Some(s);
        return true;
      }
      return false;
    }

    /** Returning false stands for a kernel panic: the table is full, or neither slot takes the symbol. */
    method Add(s: Symbol) returns (ok: bool)
      requires Valid()
      modifies this`symbolCnt, this`log, slots
      ensures Valid() && log == (if ok then old(log) + [s] else old(log))
      ensures ok <==> old(symbolCnt) < MAX_SYMBOL_CNT && exists i :: GoesTo(old(slots[..]), s, hash1, hash2, i)
      ensures !ok && |old(log)| < 65413 ==>
                && Touched(old(log), hash1, hash2, hash1(s.name) % 65413)
                && Touched(old(log), hash1, hash2, hash2(s.name) % 65413)
                && (Resolve(old(log), s.name).None? || !Resolve(old(log), s.name).value.weak)
      ensures forall k :: 0 <= k < MAX_SYMBOL_CNT && old(slots[k]).Some? ==>
                slots[k].Some? && slots[k].value.name == old(slots[k]).value.name
    {
      hide Agrees;
      hide Sourced;
      hide Touched;
      hide Slot;
      if symbolCnt == MAX_SYMBOL_CNT {
        return false;
      }
      ghost var was := slots[..];
      var i := Slot(hash1, s.name);
      ok := AddEntry(i, s);
      if !ok {
        i := Slot(hash2, s.name);
        ok := AddEntry(i, s);
        if !ok {
          assert forall k :: !GoesTo(was, s, hash1, hash2, k);
          RefusedOnly(was, log, hash1, hash2, s);
          return false;
        }
      }
      assert GoesTo(was, s, hash1, hash2, i);
      AddAgrees(was, log, hash1, hash2, s, i);
      SourcedNext(was, log, hash1, hash2, s, i);
      symbolCnt := symbolCnt + 1;
      log := log + [s];
      return true;
    }

    method FindFunc(name: string) returns (found: Option<Symbol>)
      requires Valid()
      ensures found == Resolve(log, name)
    {
      hide Resolve;
      hide Slot;
      var i := Slot(hash1, name);
      assert NameOk(slots[..][i], slots[..][Slot(hash2, name)], Resolve(log, name), name);
      if slots[i].Some? {
        if slots[i].value.name == name {
          return slots[i];
        }
      }
      i := Slot(hash2, name);
      if slots[i].Some? {
        if slots[i].value.name == name {
          return slots[i];
        }
      }
      return None;
    }

    method EntryMatch(i: nat, name: string) returns (found: Option<Symbol>)
      requires i < slots.Length
      ensures found == if HoldsName(slots[i], name) then slots[i] else None
    {
      if slots[i].None? {
        return None;
      }
      if slots[i].value.name == name {
        return slots[i];
      }
      return None;
    }

    /** Panics on an unknown name, unless the table is still empty. */
    method FindMatch(name: string) returns (found: Option<Symbol>, panicked: bool)
      requires Valid()
      ensures found == Resolve(log, name)
      ensures panicked <==> found.None? && log != []
    {
      hide Slot;
      if symbolCnt == 0 {
        return None, false;
      }
      hide Resolve;
      var i := Slot(hash1, name);
      assert NameOk(slots[..][i], slots[..][Slot(hash2, name)], Resolve(log, name), name);
      found := EntryMatch(i, name);
      if found.Some? {
        return found, false;
      }
      i := Slot(hash2, name);
      found := EntryMatch(i, name);
      if found.Some? {
        return found, false;
      }
      return None, true;
    }
  }
}
