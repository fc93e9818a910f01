/** The fixed-size double-ended queue of 64-bit words (common/src/queue.c). */
module RingQueue {
  import opened Ring

  class Queue {
    var cells: array<nat>
    var size: int
    var entCnt: int
    var head: int
    var tail: int

    ghost predicate Valid()
      reads this, cells
    {
      && cells.Length == size && 1 <= size
      && 0 <= head < size && 0 <= entCnt < size
      && tail == Cell(head + entCnt, size)
    }

    /** All cells, read from the head on. */
    ghost function Cells(): (v: seq<nat>)
      requires Valid()
      reads this, cells
      ensures |v| == size
    {
      Whole(cells[..], head)
    }

    ghost function Contents(): (v: seq<nat>)
      requires Valid()
      reads this, cells
      ensures |v| == entCnt
    {
      Cells()[..entCnt]
    }

    /** Takes over freshly allocated memory, whatever it holds. */
    constructor (memory: array<nat>)
      requires memory.Length >= 1
      ensures Valid() && cells == memory && size == memory.Length && entCnt == 0 && head == 0
      ensures Contents() == [] && Cells() == memory[..]
    {
      cells := memory;
      size := memory.Length;
      entCnt := 0;
      head := 0;
      tail := 0;
      new;
      CellSmall(0, size);
      WholeFromStart(memory[..]);
    }

    method EntCnt() returns (n: int)
      requires Valid()
      ensures n == |Contents()|
    {
      n := entCnt;
    }

    method Full() returns (full: bool)
      requires Valid()
      ensures !full
    {
      full := entCnt == size;
    }

    method TryEnqueue(val: nat) returns (ok: bool)
      requires Valid()
      modifies this`tail, this`entCnt, cells
      ensures Valid()
      ensures ok <==> |old(Contents())| < size - 1
      ensures ok ==> Contents() == old(Contents()) + [val]
      ensures ok ==> Cells() == old(Cells())[old(entCnt) := val] && entCnt == old(entCnt) + 1
      ensures !ok ==> Cells() == old(Cells()) && Contents() == old(Contents())
    {
      hide Cell;
      hide Whole;
      FullTest(head, entCnt, size);
      var curTail := tail;
      if head == Cell(curTail + 1, size) {
        return false;
      }
      WholeUpdate(cells[..], head, entCnt, val);
      CellAdd(head + entCnt, 1, size);
      ghost var was := cells[..];
      cells[curTail] := val;
      assert cells[..] == was[curTail := val];
      tail := Cell(curTail + 1, size);
      entCnt := entCnt + 1;
      return true;
    }

    method TryEnqueueFront(val: nat) returns (ok: bool)
      requires Valid()
      modifies this`head, this`entCnt, cells
      ensures Valid()
      ensures ok <==> |old(Contents())| < size - 1
      ensures ok ==> Contents() == [val] + old(Contents())
      ensures ok ==> Cells() == [val] + old(Cells())[..size - 1] && entCnt == old(entCnt) + 1
      ensures !ok ==> Cells() == old(Cells()) && Contents() == old(Contents())
    {
      hide Cell;
      hide Whole;
      FullTest(head, entCnt, size);
      var curTail := tail;
      var curHead := head;
      if curHead == Cell(curTail + 1, size) {
        return false;
      }
      ghost var was := cells[..];
      if curHead > 0 {
        CellSmall(curHead - 1, size);
        head := Cell(curHead - 1, size);
      } else {
        CellStep(size + entCnt, size);
        head := size - 1;
      }
      assert tail == Cell(head + (entCnt + 1), size);
      PutBefore(was, curHead, head, val);
      cells[head] := val;
      assert cells[..] == was[head := val];
      entCnt := entCnt + 1;
      return true;
    }

    method TryDequeue() returns (ok: bool, val: nat)
      requires Valid()
      modifies this`head, this`entCnt, cells
      ensures Valid()
      ensures ok <==> old(Contents()) != []
      ensures ok ==> val == old(Contents())[0] && Contents() == old(Contents())[1..]
      ensures ok ==> Cells() == old(Cells())[1..] + [0] && entCnt == old(entCnt) - 1
      ensures !ok ==> val == 0 && Cells() == old(Cells()) && Contents() == old(Contents())
    {
      hide Cell;
      hide Whole;
      EmptyTest(head, entCnt, size);
      var curHead := head;
      if curHead == tail {
        return false, 0;
      }
      ghost var was := cells[..];
      CellSmall(head, size);
      WholeAt(was, head, 0);
      val := cells[curHead];
      WholeUpdate(was, head, 0, 0);
      cells[curHead] := 0;
      assert cells[..] == was[curHead := 0];
      WholeRotated(cells[..], curHead, 1);
      WholeReduced(cells[..], curHead + 1);
      CellAdd(curHead + 1, entCnt - 1, size);
      head := Cell(curHead + 1, size);
      entCnt := entCnt - 1;
      return true, val;
    }

    method Peek() returns (ok: bool, val: nat)
      requires Valid()
      ensures ok <==> Contents() != []
      ensures ok ==> val == Contents()[0]
      ensures !ok ==> val == 0
    {
      hide Cell;
      hide Whole;
      EmptyTest(head, entCnt, size);
      var curHead := head;
      if curHead == tail {
        return false, 0;
      }
      CellSmall(head, size);
      WholeAt(cells[..], head, 0);
      val := cells[curHead];
      return true, val;
    }
  }

  /** One free cell is kept to tell a full ring from an empty one. */
  lemma FullTest(head: nat, n: nat, size: nat)
    requires head < size && n < size
    ensures head == Cell(Cell(head + n, size) + 1, size) <==> n == size - 1
  {
    hide Cell;
    CellAdd(head + n, 1, size);
    CellSmall(head, size);
    if n == size - 1 {
      CellStep(head + size, size);
    } else {
      CellsApart(head, head + n + 1, size);
    }
  }

  lemma EmptyTest(head: nat, n: nat, size: nat)
    requires head < size && n < size
    ensures head == Cell(head + n, size) <==> n == 0
  {
    hide Cell;
    CellSmall(head, size);
    if n > 0 {
      CellsApart(head, head + n, size);
    }
  }

  /** Writing before the head, around the end when it stands at 0. */
  lemma PutBefore(data: seq<nat>, head: nat, before: nat, val: nat)
    requires head < |data| && before == if head > 0 then head - 1 else |data| - 1
    ensures Whole(data[before := val], before) == [val] + Whole(data, head)[..|data| - 1]
  {
    hide Cell;
    WholeRotated(data, before, 1);
    if head == 0 {
      CellSmall(0, |data|);
      CellStep(|data|, |data|);
      WholeReduced(data, |data|);
    }
    assert Whole(data, head) == Whole(data, before)[1..] + Whole(data, before)[..1];
    CellSmall(before, |data|);
    WholeUpdate(data, before, 0, val);
  }
}
