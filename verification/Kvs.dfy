/** The key-value chain (libs/kvs/kvs.c): entries linked behind a head entry, found by a 32-bit hash
    and a comparison over the shorter of two keys.  Nothing is assumed about the hash. */
module Kvs {

  const KEY_LEN := 228

  datatype ValType = Uninit | NoType | Sint | Uint | Str | Ptr | Child | Bool

  datatype Code = Ok | OutOfMemory | InvalidArgs | NotFound | Exists

  /** What an entry stands for. */
  datatype Item = Item(key: string, valType: ValType, value: int)

  /** The part of a key that is looked at. */
  function Clip(key: string): (k: string)
    ensures |k| <= KEY_LEN
  {
    if |key| <= KEY_LEN then key else key[..KEY_LEN]
  }

  /** The comparison over the shorter length. */
  predicate Prefixed(a: string, b: string)
  {
    a <= b || b <= a
  }

  /** Equal hashes, and equal characters as far as both keys go. */
  predicate Matches(hash: string -> nat, a: string, b: string)
  {
    hash(a) == hash(b) && Prefixed(a, b)
  }

  /** Keys match exactly when their hashes are equal and so are their characters, as far as both go; two different keys
      of one length never match. */
  lemma MatchRule(hash: string -> nat, a: string, b: string)
    ensures Matches(hash, a, b) <==> hash(a) == hash(b) && forall i :: 0 <= i < |a| && i < |b| ==> a[i] == b[i]
    ensures |a| == |b| && a != b ==> !Matches(hash, a, b)
    ensures Matches(hash, a, a) && (Matches(hash, a, b) <==> Matches(hash, b, a))
  {
    if forall i :: 0 <= i < |a| && i < |b| ==> a[i] == b[i] {
      assert if |a| <= |b| then a <= b else b <= a;
    }
  }

  /** Two keys are stored as one exactly when they are equal or agree in 228 characters. */
  lemma ClipRule(a: string, b: string)
    ensures Clip(a) == Clip(b) <==> a == b || (|a| >= 228 && |b| >= 228 && a[..228] == b[..228])
  {
    if |a| >= 228 && |b| >= 228 {
      assert |a| == 228 ==> a[..228] == a;
      assert |b| == 228 ==> b[..228] == b;
    }
  }

  ghost predicate MatchAt(hash: string -> nat, items: seq<Item>, key: string, i: nat)
  {
    i < |items| && Matches(hash, items[i].key, key)
  }

  /** No two entries match each other. */
  ghost predicate Apart(hash: string -> nat, items: seq<Item>)
  {
    && (forall i: nat :: i < |items| ==> Clip(items[i].key) == items[i].key && items[i].valType != Uninit)
    && (forall i: nat, j: nat :: i < j < |items| ==> !Matches(hash, items[i].key, items[j].key))
  }

  /** Where a search ends: at the first match. */
  ghost predicate FirstMatch(hash: string -> nat, items: seq<Item>, key: string, i: nat)
  {
    MatchAt(hash, items, key, i) && forall j: nat :: j < i ==> !MatchAt(hash, items, key, j)
  }

  ghost predicate NoMatch(hash: string -> nat, items: seq<Item>, key: string)
  {
    forall j: nat :: !MatchAt(hash, items, key, j)
  }

  /** The search for a key that was added ends at its own entry and nowhere else. */
  lemma FindsOwn(hash: string -> nat, items: seq<Item>, i: nat, j: nat)
    requires Apart(hash, items) && i < |items|
    ensures FirstMatch(hash, items, items[i].key, j) <==> i == j
  {
    assert MatchAt(hash, items, items[i].key, i);
  }

  /** Adding an entry that matches none keeps every other one findable. */
  lemma AddKeepsOthers(hash: string -> nat, items: seq<Item>, new_: Item, i: nat, j: nat)
    requires Apart(hash, items) && i < |items| && NoMatch(hash, items, new_.key)
    requires Clip(new_.key) == new_.key && new_.valType != Uninit
    ensures Apart(hash, [new_] + items)
    ensures FirstMatch(hash, [new_] + items, items[i].key, j) <==> j == i + 1
  {
    var all := [new_] + items;
    AddApart(hash, items, new_);
    assert all[i + 1] == items[i];
    FindsOwn(hash, all, i + 1, j);
  }

  // ----- the chain

  class Entry {
    var key: string
    var keyHash: nat
    var valType: ValType
    var value: int
    var next: Entry?

    constructor (key: string, keyHash: nat, valType: ValType, value: int, next: Entry?)
      ensures this.key == key && this.keyHash == keyHash && this.valType == valType && this.value == value && this.next == next
    {
      this.key, this.keyHash, this.valType, this.value, this.next := key, keyHash, valType, value, next;
    }
  }

  ghost function EntryAt(spine: seq<Entry>, i: int): Entry?
  {
    if 0 <= i < |spine| then spine[i] else null
  }

  ghost predicate LinkedAt(spine: seq<Entry>, i: nat)
    requires i < |spine|
    reads spine[i]
  {
    spine[i].next == EntryAt(spine, i + 1)
  }

  ghost predicate Linked(spine: seq<Entry>)
    reads spine
  {
    && (forall i, j :: 0 <= i < j < |spine| ==> spine[i] != spine[j])
    && (forall i: nat {:trigger LinkedAt(spine, i)} :: i < |spine| ==> LinkedAt(spine, i))
  }

  ghost function ItemOf(e: Entry): Item
    reads e
  {
    Item(e.key, e.valType, e.value)
  }

  /** The entries behind the head. */
  ghost function ItemsOf(spine: seq<Entry>): (items: seq<Item>)
    requires |spine| > 0
    reads spine
    ensures |items| == |spine| - 1
  {
    seq(|spine| - 1, i requires 0 <= i < |spine| - 1 reads spine => ItemOf(spine[i + 1]))
  }

  ghost predicate Hashed(hash: string -> nat, spine: seq<Entry>)
    reads spine
  {
    forall i :: 1 <= i < |spine| ==> spine[i].keyHash == hash(spine[i].key)
  }

  class Store {
    const hash: string -> nat
    const head: Entry
    ghost var spine: seq<Entry>

    ghost predicate Valid()
      reads this, spine
    {
      && |spine| > 0 && spine[0] == head && head.valType == Uninit
      && Linked(spine) && Hashed(hash, spine) && Apart(hash, ItemsOf(spine))
    }

    ghost function Items(): seq<Item>
      requires |spine| > 0
      reads this, spine
    {
      ItemsOf(spine)
    }

    /** The store as a map from keys to entries. */
    ghost function Map(): map<string, Item>
      requires |spine| > 0
      reads this, spine
    {
      MapOf(Items())
    }

    /** The head's key hash is whatever the memory held. */
    constructor (hash: string -> nat, stale: nat)
      ensures Valid() && Items() == [] && Map() == map[] && fresh(head) && this.hash == hash && spine == [head]
    {
      this.hash := hash;
      var h := new Entry("", stale, Uninit, 0, null);
      head := h;
      spine := [h];
      new;
      assert LinkedAt(spine, 0);
    }

    method Find(key: string) returns (code: Code, found: Entry?, ghost at: nat)
      requires Valid()
      ensures code == Ok <==> !NoMatch(hash, Items(), Clip(key))
      ensures code == Ok ==> FirstMatch(hash, Items(), Clip(key), at) && at + 1 < |spine| && found == spine[at + 1]
      ensures code != Ok ==> code == NotFound && found == null
      ensures Clip(key) in Map() ==> code == Ok && Items()[at] == Map()[Clip(key)] == ItemOf(found) && Items()[at].key == Clip(key)
    {
      hide Linked;
      hide Apart;
      hide MapOf;
      MapFinds(hash, Items(), Clip(key));
      var keyHash := hash(Clip(key));
      var iter: Entry? := head;
      ghost var k := 0;
      while iter != null
        invariant 0 <= k <= |spine| && iter == EntryAt(spine, k)
        invariant forall j: nat :: j + 1 < k ==> !MatchAt(hash, Items(), Clip(key), j)
        decreases |spine| - k
      {
        LinkAt(spine, k);
        assert k > 0 ==> Items()[k - 1] == ItemOf(iter);
        assert k > 0 ==> iter.valType != Uninit by { TypeSet(hash, Items(), k - 1); }
        if iter.keyHash == keyHash && iter.valType != Uninit {
          if Prefixed(Clip(key), iter.key) {
            assert MatchAt(hash, Items(), Clip(key), k - 1);
            return Ok, iter, k - 1;
          }
        }
        assert k > 0 ==> !MatchAt(hash, Items(), Clip(key), k - 1);
        iter := iter.next;
        k := k + 1;
      }
      return NotFound, null, 0;
    }

    /** `memory` says whether the allocation of a zeroed entry succeeds. */
    method Add(key: string, value: int, valType: ValType, memory: bool) returns (code: Code)
      requires Valid() && valType != Uninit
      modifies this`spine, head
      ensures Valid()
      ensures code == if !NoMatch(hash, old(Items()), Clip(key)) then Exists else if memory then Ok else OutOfMemory
      ensures Items() == (if code == Ok then [Item(Clip(key), valType, value)] + old(Items()) else old(Items()))
      ensures Map() == (if code == Ok then old(Map())[Clip(key) := Item(Clip(key), valType, value)] else old(Map()))
      ensures code == Ok ==> Clip(key) !in old(Map())
      ensures if code == Ok then |spine| > 1 && fresh(spine[1]) && spine == [head, spine[1]] + old(spine)[1..]
              else spine == old(spine)
    {
      hide Apart;
      hide NoMatch;
      hide Clip;
      hide MapOf;
      hide Linked;
      hide Hashed;
      var found, e;
      ghost var at;
      found, e, at := Find(key);
      if found == Ok {
        return Exists;
      }
      if !memory {
        return OutOfMemory;
      }
      var v := new Entry(Clip(key), hash(Clip(key)), valType, value, head.next);
      ClipTwice(key);
      Push(v);
      return Ok;
    }

    /** Links a new entry behind the head. */
    method Push(v: Entry)
      requires Valid() && v !in spine && v.next == head.next && v.keyHash == hash(v.key)
      requires NoMatch(hash, Items(), v.key) && Clip(v.key) == v.key && v.valType != Uninit
      modifies this`spine, head
      ensures Valid() && spine == [head, v] + old(spine)[1..] && Items() == [ItemOf(v)] + old(Items())
      ensures Map() == old(Map())[v.key := ItemOf(v)] && v.key !in old(Map())
    {
      hide Apart;
      hide NoMatch;
      hide Clip;
      ghost var was, items := spine, Items();
      assert LinkedAt(was, 0);
      head.next := v;
      spine := [head, v] + was[1..];
      forall i: nat | i < |spine| ensures LinkedAt(spine, i) {
        assert i > 1 ==> old(LinkedAt(was, i - 1)) && spine[i] == was[i - 1];
      }
      assert Items() == [ItemOf(v)] + items by {
        forall i | 0 < i < |Items()| ensures Items()[i] == items[i - 1] {
          assert spine[i + 1] == was[i] && items[i - 1] == old(ItemOf(was[i]));
        }
      }
      AddApart(hash, items, ItemOf(v));
      AddMap(hash, items, ItemOf(v));
    }

    /** Reads the value of an entry, only under the type its key was added with. */
    method Get(e: Entry, valType: ValType, ghost at: nat) returns (code: Code, value: int)
      requires Valid() && at + 1 < |spine| && e == spine[at + 1]
      ensures Items()[at].key in Map()
      ensures code == if Map()[Items()[at].key].valType == valType then Ok else InvalidArgs
      ensures code == Ok ==> value == Map()[Items()[at].key].value
    {
      MapHas(hash, Items(), at);
      if e.valType != valType {
        return InvalidArgs, 0;
      }
      return Ok, e.value;
    }

    /** A lookup and a read: for a key of the map, exactly its type and value. */
    method Fetch(key: string, valType: ValType) returns (code: Code, value: int)
      requires Valid()
      ensures Clip(key) in Map() ==>
                var item := Map()[Clip(key)];
                if item.valType == valType then code == Ok && value == item.value else code == InvalidArgs
    {
      hide Linked;
      hide Apart;
      hide Hashed;
      hide MapOf;
      hide Clip;
      var e;
      ghost var at;
      code, e, at := Find(key);
      value := 0;
      if e != null {
        code, value := Get(e, valType, at);
      }
    }

    /** Overwrites the value of an entry behind the head; the type has to be the same. */
    method Set(e: Entry, value: int, valType: ValType, ghost at: nat) returns (code: Code)
      requires Valid() && at + 1 < |spine| && e == spine[at + 1]
      modifies e
      ensures Valid() && spine == old(spine)
      ensures code == if old(e.valType) == valType then Ok else InvalidArgs
      ensures Items() == old(if code == Ok then Items()[at := Items()[at].(value := value)] else Items())
      ensures Map() == old(if code == Ok then Map()[Items()[at].key := Items()[at].(value := value)] else Map())
    {
      hide Apart;
      if e.valType != valType {
        return InvalidArgs;
      }
      ghost var items := Items();
      assert items[at] == ItemOf(e);
      e.value := value;
      forall i: nat | i < |spine| ensures LinkedAt(spine, i) {
        assert old(LinkedAt(spine, i));
      }
      assert Items() == items[at := items[at].(value := value)] by {
        forall i | 0 <= i < |items| ensures Items()[i] == items[at := items[at].(value := value)][i] {
          assert items[i] == old(ItemOf(spine[i + 1]));
        }
      }
      SetApart(hash, items, at, value);
      SetMap(hash, items, at, value);
      return Ok;
    }

    /** Any sequence of adds: a key is refused or stays in the map with its own type and value, and
        nothing that was there before changes. */
    method AddAll(items: seq<Item>, memory: seq<bool>) returns (codes: seq<Code>)
      requires Valid() && |memory| == |items| && forall i :: 0 <= i < |items| ==> items[i].valType != Uninit
      modifies this`spine, head
      ensures Valid() && |codes| == |items|
      ensures forall key :: key in old(Map()) ==> key in Map() && Map()[key] == old(Map())[key]
      ensures forall i :: 0 <= i < |items| && codes[i] == Ok ==>
                Clip(items[i].key) in Map() && Map()[Clip(items[i].key)] == items[i].(key := Clip(items[i].key))
    {
      hide Linked;
      hide Apart;
      hide Hashed;
      hide MapOf;
      codes := [];
      for i := 0 to |items|
        invariant Valid() && |codes| == i
        invariant forall key :: key in old(Map()) ==> key in Map() && Map()[key] == old(Map())[key]
        invariant forall j :: 0 <= j < i && codes[j] == Ok ==>
                    Clip(items[j].key) in Map() && Map()[Clip(items[j].key)] == items[j].(key := Clip(items[j].key))
      {
        var code := Add(items[i].key, items[i].value, items[i].valType, memory[i]);
        codes := codes + [code];
      }
    }

    /** Takes an entry out of the chain.  The walk starts one entry behind the head and looks only at
        what follows, so the first entry is never found. */
    method Remove(idx: Entry) returns (code: Code, ghost at: nat)
      requires Valid()
      modifies this`spine, spine
      ensures Valid()
      ensures code == Ok <==> exists k :: 2 <= k < |old(spine)| && old(spine)[k] == idx
      ensures code != Ok ==> code == NotFound && spine == old(spine) && Items() == old(Items())
      ensures code == Ok ==>
                && 1 <= at < old(|Items()|) && old(spine)[at + 1] == idx
                && Items() == old(Items())[..at] + old(Items())[at + 1..]
                && Map() == old(Map()) - {old(Items())[at].key}
    {
      hide Apart;
      hide Hashed;
      var iter: Entry? := head;
      ghost var k := 0;
      assert LinkedAt(spine, 0);
      while true
        invariant 0 <= k < |spine| && iter == spine[k]
        invariant forall j :: 2 <= j <= k + 1 && j < |spine| ==> spine[j] != idx || k == 0
        decreases |spine| - k
      {
        assert LinkedAt(spine, k);
        iter := iter.next;
        k := k + 1;
        if iter == null {
          return NotFound, 0;
        }
        assert LinkedAt(spine, k);
        if iter.next == idx {
          break;
        }
      }
      Unlink(iter, idx, k);
      return Ok, k;
    }

    method Unlink(iter: Entry, idx: Entry, ghost k: nat)
      requires Valid() && 1 <= k && k + 1 < |spine| && spine[k] == iter && spine[k + 1] == idx
      modifies this`spine, iter
      ensures Valid() && spine == old(spine)[..k + 1] + old(spine)[k + 2..]
      ensures Items() == old(Items())[..k] + old(Items())[k + 1..]
      ensures Map() == old(Map()) - {old(Items())[k].key}
    {
      hide Apart;
      hide MapOf;
      ghost var was, items := spine, Items();
      ghost var rest := was[..k + 1] + was[k + 2..];
      CutApart(hash, items, k);
      CutMap(hash, items, k);
      assert LinkedAt(was, k + 1);
      iter.next := idx.next;
      spine := rest;
      assert forall i: nat :: i < |rest| ==> rest[i] == was[if i <= k then i else i + 1];
      assert Linked(rest) by {
        forall i: nat | i < |rest| ensures LinkedAt(rest, i) {
          var j := if i <= k then i else i + 1;
          assert old(LinkedAt(was, j));
        }
      }
      assert Hashed(hash, rest);
      assert Items() == items[..k] + items[k + 1..] by {
        forall i | 0 <= i < |rest| - 1 ensures Items()[i] == (items[..k] + items[k + 1..])[i] {
          var j := if i < k then i else i + 1;
          assert rest[i + 1] == was[j + 1] && items[j] == old(ItemOf(was[j + 1]));
        }
      }
    }
  }

  lemma LinkAt(spine: seq<Entry>, k: nat)
    requires Linked(spine) && k < |spine|
    ensures spine[k].next == EntryAt(spine, k + 1)
  {
    assert LinkedAt(spine, k);
  }

  lemma TypeSet(hash: string -> nat, items: seq<Item>, i: int)
    requires Apart(hash, items)
    ensures 0 <= i < |items| ==> items[i].valType != Uninit
  {
  }

  lemma ClipTwice(key: string)
    ensures Clip(Clip(key)) == Clip(key)
  {
  }

  lemma AddApart(hash: string -> nat, items: seq<Item>, new_: Item)
    requires Apart(hash, items) && NoMatch(hash, items, new_.key) && Clip(new_.key) == new_.key && new_.valType != Uninit
    ensures Apart(hash, [new_] + items)
  {
    forall k: nat | k < |items| ensures !Matches(hash, new_.key, items[k].key) {
      assert !MatchAt(hash, items, new_.key, k);
    }
  }

  lemma SetApart(hash: string -> nat, items: seq<Item>, at: nat, value: int)
    requires Apart(hash, items) && at < |items|
    ensures Apart(hash, items[at := items[at].(value := value)])
  {
  }

  lemma CutApart(hash: string -> nat, items: seq<Item>, k: nat)
    requires Apart(hash, items) && k < |items|
    ensures Apart(hash, items[..k] + items[k + 1..])
  {
    var rest := items[..k] + items[k + 1..];
    assert forall i: nat :: i < |rest| ==> rest[i] == items[if i < k then i else i + 1];
  }

  // ----- the map

  ghost function MapOf(items: seq<Item>): map<string, Item>
  {
    if items == [] then map[] else MapOf(items[1..])[items[0].key := items[0]]
  }

  lemma TailApart(hash: string -> nat, items: seq<Item>)
    requires Apart(hash, items) && items != []
    ensures Apart(hash, items[1..]) && forall i: nat :: i < |items| - 1 ==> items[1..][i].key != items[0].key
  {
    var rest := items[1..];
    assert forall i: nat :: i < |rest| ==> rest[i] == items[i + 1];
    forall i: nat | i < |rest| ensures rest[i].key != items[0].key {
      assert !Matches(hash, items[0].key, items[i + 1].key);
    }
  }

  lemma {:induction false} MapHas(hash: string -> nat, items: seq<Item>, i: nat)
    requires Apart(hash, items) && i < |items|
    ensures items[i].key in MapOf(items) && MapOf(items)[items[i].key] == items[i]
    decreases |items|
  {
    hide Apart;
    if i > 0 {
      TailApart(hash, items);
      MapHas(hash, items[1..], i - 1);
      assert items[1..][i - 1] == items[i];
    }
  }

  lemma {:induction false} MapOnly(items: seq<Item>, key: string) returns (i: nat)
    requires key in MapOf(items)
    ensures i < |items| && items[i].key == key && MapOf(items)[key] == items[i]
    decreases |items|
  {
    if items[0].key == key {
      i := 0;
    } else {
      i := MapOnly(items[1..], key);
      i := i + 1;
    }
  }

  /** For a key of the map the search ends at its entry. */
  lemma MapFinds(hash: string -> nat, items: seq<Item>, key: string)
    requires Apart(hash, items)
    ensures key in MapOf(items) ==>
              MapOf(items)[key].key == key && !NoMatch(hash, items, key)
              && forall j: nat :: FirstMatch(hash, items, key, j) ==> items[j] == MapOf(items)[key]
  {
    hide Apart;
    if key in MapOf(items) {
      var i := MapOnly(items, key);
      assert MatchAt(hash, items, key, i);
      forall j: nat | FirstMatch(hash, items, key, j) ensures items[j] == MapOf(items)[key] {
        FindsOwn(hash, items, i, j);
      }
    }
  }

  lemma AddMap(hash: string -> nat, items: seq<Item>, new_: Item)
    requires Apart(hash, items) && NoMatch(hash, items, new_.key)
    ensures MapOf([new_] + items) == MapOf(items)[new_.key := new_] && new_.key !in MapOf(items)
  {
    assert ([new_] + items)[1..] == items;
    if new_.key in MapOf(items) {
      var i := MapOnly(items, new_.key);
      assert MatchAt(hash, items, new_.key, i);
    }
  }

  lemma {:induction false} SetMap(hash: string -> nat, items: seq<Item>, at: nat, value: int)
    requires Apart(hash, items) && at < |items|
    ensures MapOf(items[at := items[at].(value := value)]) == MapOf(items)[items[at].key := items[at].(value := value)]
    decreases |items|
  {
    hide Apart;
    var after := items[at := items[at].(value := value)];
    if at == 0 {
      assert after[1..] == items[1..];
    } else {
      TailApart(hash, items);
      SetMap(hash, items[1..], at - 1, value);
      assert after[1..] == items[1..][at - 1 := items[1..][at - 1].(value := value)];
      assert items[1..][at - 1] == items[at];
    }
  }

  lemma HeadNotIn(hash: string -> nat, items: seq<Item>)
    requires Apart(hash, items) && items != []
    ensures items[0].key !in MapOf(items[1..])
  {
    hide Apart;
    TailApart(hash, items);
    if items[0].key in MapOf(items[1..]) {
      var i := MapOnly(items[1..], items[0].key);
    }
  }

  lemma MapCut(m: map<string, Item>, key: string, item: Item, other: string)
    ensures key !in m ==> m[key := item] - {key} == m
    ensures key != other ==> m[key := item] - {other} == (m - {other})[key := item]
  {
  }

  lemma {:induction false} CutMap(hash: string -> nat, items: seq<Item>, k: nat)
    requires Apart(hash, items) && k < |items|
    ensures MapOf(items[..k] + items[k + 1..]) == MapOf(items) - {items[k].key}
    decreases |items|
  {
    hide Apart;
    var rest, tail := items[..k] + items[k + 1..], items[1..];
    MapCut(MapOf(tail), items[0].key, items[0], items[k].key);
    if k == 0 {
      HeadNotIn(hash, items);
      assert rest == tail;
    } else {
      TailApart(hash, items);
      CutMap(hash, tail, k - 1);
      assert rest[0] == items[0] && rest[1..] == tail[..k - 1] + tail[k..];
      assert tail[k - 1] == items[k];
    }
  }
}
