/** Windows of a ring buffer as sequences.  A window is given by its first and last index; indices
    are reduced modulo the ring size, so a window may wrap around. */
module Ring {

  function Cell(j: nat, size: nat): (c: nat)
    requires size > 0
    ensures c < size
  {
    j % size
  }

  lemma MulStep(a: nat, b: nat, c: nat)
    requires a < b
    ensures a * c + c <= b * c
  {
    var d := b - a - 1;
    assert b * c == (a + 1 + d) * c == a * c + c + d * c;
  }

  lemma DivBounds(x: nat, m: nat)
    requires m > 0
    ensures x / m * m <= x < x / m * m + m
    ensures x == x / m * m + x % m
  {
  }

  lemma Quotient(r: nat, q: nat, m: nat)
    requires r < m
    ensures (q * m + r) % m == r
  {
    var x := q * m + r;
    DivBounds(x, m);
    if x / m < q {
      MulStep(x / m, q, m);
    } else if q < x / m {
      MulStep(q, x / m, m);
    }
  }

  lemma CellStep(j: nat, size: nat)
    requires 0 < size <= j
    ensures Cell(j, size) == Cell(j - size, size)
  {
    var q, r := (j - size) / size, (j - size) % size;
    DivBounds(j - size, size);
    assert (q + 1) * size == q * size + size;
    Quotient(r, q + 1, size);
  }

  lemma CellSmall(j: nat, size: nat)
    requires j < size
    ensures Cell(j, size) == j
  {
  }

  /** Indices less than a ring apart address different cells. */
  lemma {:induction false} CellsApart(j: nat, k: nat, size: nat)
    requires j < k < j + size
    ensures Cell(j, size) != Cell(k, size)
  {
    hide Cell;
    if k < size {
      CellSmall(j, size);
      CellSmall(k, size);
    } else {
      CellStep(k, size);
      if j < size {
        CellSmall(j, size);
        CellSmall(k - size, size);
      } else {
        CellStep(j, size);
        CellsApart(j - size, k - size, size);
      }
    }
  }

  ghost predicate Window(data: seq<nat>, lo: int, hi: int)
  {
    |data| > 0 && 0 <= lo && hi - lo < |data| && lo <= hi + 1
  }

  /** The entries of the window, in order. */
  ghost function View(data: seq<nat>, lo: int, hi: int): (v: seq<nat>)
    requires Window(data, lo, hi)
    ensures |v| == hi - lo + 1
  {
    seq(hi - lo + 1, i requires 0 <= i < hi - lo + 1 => data[Cell(lo + i, |data|)])
  }

  ghost predicate InWindow(size: nat, lo: int, hi: int, c: int)
    requires size > 0 && 0 <= lo
  {
    exists j: nat :: lo <= j <= hi && Cell(j, size) == c
  }

  /** Cells outside the window are as before. */
  ghost predicate SameOutside(data: seq<nat>, was: seq<nat>, lo: int, hi: int)
    requires 0 <= lo
  {
    |data| == |was| && forall c :: 0 <= c < |data| ==> data[c] == was[c] || InWindow(|data|, lo, hi, c)
  }

  lemma ViewSlice(data: seq<nat>, lo: int, hi: int, l: int, h: int)
    requires Window(data, lo, hi) && lo <= l <= h + 1 <= hi + 1
    ensures View(data, l, h) == View(data, lo, hi)[l - lo..h - lo + 1]
  {
  }

  /** Changes inside an inner window do not show in the rest of the outer one. */
  lemma ViewOutside(data: seq<nat>, was: seq<nat>, lo: int, hi: int, l: int, h: int)
    requires Window(data, lo, hi) && |was| == |data| && lo <= l <= h + 1 <= hi + 1
    requires SameOutside(data, was, l, h)
    ensures forall i :: 0 <= i <= hi - lo && !(l <= lo + i <= h) ==> View(data, lo, hi)[i] == View(was, lo, hi)[i]
    ensures SameOutside(data, was, lo, hi)
  {
    forall i | 0 <= i <= hi - lo && !(l <= lo + i <= h) ensures View(data, lo, hi)[i] == View(was, lo, hi)[i] {
      var c := Cell(lo + i, |data|);
      if data[c] != was[c] {
        var j: nat :| l <= j <= h && Cell(j, |data|) == c;
        if j < lo + i {
          CellsApart(j, lo + i, |data|);
        } else {
          CellsApart(lo + i, j, |data|);
        }
      }
    }
  }

  lemma ViewUpdate(data: seq<nat>, lo: int, hi: int, j: int, v: nat)
    requires Window(data, lo, hi) && lo <= j <= hi
    ensures View(data[Cell(j, |data|) := v], lo, hi) == View(data, lo, hi)[j - lo := v]
    ensures SameOutside(data[Cell(j, |data|) := v], data, lo, hi)
  {
    var after := data[Cell(j, |data|) := v];
    forall i | 0 <= i <= hi - lo ensures View(after, lo, hi)[i] == View(data, lo, hi)[j - lo := v][i] {
      if lo + i < j {
        CellsApart(lo + i, j, |data|);
      } else if j < lo + i {
        CellsApart(j, lo + i, |data|);
      }
    }
  }

  lemma ViewAt(data: seq<nat>, lo: int, hi: int, j: int)
    requires Window(data, lo, hi) && lo <= j <= hi
    ensures View(data, lo, hi)[j - lo] == data[Cell(j, |data|)]
  {
  }

  lemma SameTwice(a: seq<nat>, b: seq<nat>, c: seq<nat>, lo: int, hi: int)
    requires 0 <= lo && SameOutside(b, a, lo, hi) && SameOutside(c, b, lo, hi)
    ensures SameOutside(c, a, lo, hi)
  {
  }

  lemma SameItself(data: seq<nat>, lo: int, hi: int)
    requires 0 <= lo
    ensures SameOutside(data, data, lo, hi)
  {
  }

  // ----- the whole ring, read from some place on

  lemma {:induction false} CellAdd(j: nat, i: nat, size: nat)
    requires size > 0
    ensures Cell(Cell(j, size) + i, size) == Cell(j + i, size)
  {
    if j >= size {
      CellStep(j, size);
      CellStep(j + i, size);
      CellAdd(j - size, i, size);
    }
  }

  ghost function Whole(data: seq<nat>, lo: nat): (v: seq<nat>)
    requires |data| > 0
    ensures |v| == |data|
  {
    View(data, lo, lo + |data| - 1)
  }

  lemma WholeAt(data: seq<nat>, lo: nat, i: nat)
    requires i < |data|
    ensures Whole(data, lo)[i] == data[Cell(lo + i, |data|)]
  {
  }

  lemma WholeReduced(data: seq<nat>, lo: nat)
    requires |data| > 0
    ensures Whole(data, Cell(lo, |data|)) == Whole(data, lo)
  {
    hide Cell;
    forall i: nat | i < |data| ensures Whole(data, Cell(lo, |data|))[i] == Whole(data, lo)[i] {
      CellAdd(lo, i, |data|);
    }
  }

  /** Starting `m` places later rotates the sequence by `m`. */
  lemma WholeRotated(data: seq<nat>, lo: nat, m: nat)
    requires 0 < |data| && m <= |data|
    ensures Whole(data, lo + m) == Whole(data, lo)[m..] + Whole(data, lo)[..m]
  {
    hide Cell;
    var v := Whole(data, lo);
    forall i: nat | i < |data| ensures Whole(data, lo + m)[i] == (v[m..] + v[..m])[i] {
      if i + m >= |data| {
        CellStep(lo + m + i, |data|);
        assert lo + m + i - |data| == lo + (m + i - |data|);
      } else {
        assert lo + m + i == lo + (m + i);
      }
    }
  }

  lemma WholeUpdate(data: seq<nat>, lo: nat, i: nat, v: nat)
    requires i < |data|
    ensures Whole(data[Cell(lo + i, |data|) := v], lo) == Whole(data, lo)[i := v]
  {
    ViewUpdate(data, lo, lo + |data| - 1, lo + i, v);
  }

  lemma WholeFromStart(data: seq<nat>)
    requires |data| > 0
    ensures Whole(data, 0) == data
  {
    hide Cell;
    forall i: nat | i < |data| ensures Whole(data, 0)[i] == data[i] {
      CellSmall(i, |data|);
    }
  }
}
