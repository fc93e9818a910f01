/** The in-place quicksort of the page allocator, which sorts a window of a ring of packed entries
    by address.  Ring indices are reduced modulo the ring size, so a window may wrap around. */
module PageSort {
  import opened Ring

  /** The address packed in an entry: 4096 times the part above the 20-bit page count. */
  function GetAddr(e: nat): nat
  {
    e / 0x10_0000 * 0x1000
  }

  // ----- exclusive or, for the swap

  function Xor(a: nat, b: nat): nat
  {
    if a == 0 && b == 0 then 0 else (a % 2 + b % 2) % 2 + 2 * Xor(a / 2, b / 2)
  }

  lemma Halves(x: nat, y: nat)
    requires x < 2
    ensures (x + 2 * y) % 2 == x && (x + 2 * y) / 2 == y
  {
  }

  lemma XorHalves(a: nat, b: nat)
    ensures Xor(a, b) % 2 == (a % 2 + b % 2) % 2
    ensures Xor(a, b) / 2 == Xor(a / 2, b / 2)
  {
    hide Xor;
    XorUnfold(a, b);
    var x := (a % 2 + b % 2) % 2;
    Halves(x, Xor(a / 2, b / 2));
  }

  lemma XorUnfold(a: nat, b: nat)
    ensures Xor(a, b) == (a % 2 + b % 2) % 2 + 2 * Xor(a / 2, b / 2)
  {
  }

  lemma SameHalves(x: nat, y: nat)
    requires x % 2 == y % 2 && x / 2 == y / 2
    ensures x == y
  {
  }

  lemma {:induction false} XorCancel(a: nat, b: nat)
    ensures Xor(b, Xor(a, b)) == a
    ensures Xor(Xor(a, b), a) == b
  {
    hide Xor;
    if a == 0 && b == 0 {
      assert Xor(0, 0) == 0 by { XorNone(); }
    } else {
      var c := Xor(a, b);
      XorCancel(a / 2, b / 2);
      XorHalves(a, b);
      XorHalves(b, c);
      XorHalves(c, a);
      SameHalves(Xor(b, c), a);
      SameHalves(Xor(c, a), b);
    }
  }

  lemma XorNone()
    ensures Xor(0, 0) == 0
  {
  }

  // ----- sorting

  ghost function Swapped(v: seq<nat>, a: int, b: int): seq<nat>
    requires 0 <= a < |v| && 0 <= b < |v|
  {
    v[a := v[b]][b := v[a]]
  }

  lemma SwappedPermutes(v: seq<nat>, a: int, b: int)
    requires 0 <= a < b < |v|
    ensures multiset(Swapped(v, a, b)) == multiset(v)
  {
  }

  /** The exclusive-or swap of two different places of the window. */
  method Swap(data: array<nat>, lo: int, hi: int, i: int, j: int)
    requires Window(data[..], lo, hi) && lo <= i < j <= hi
    modifies data
    ensures View(data[..], lo, hi) == Swapped(old(View(data[..], lo, hi)), i - lo, j - lo)
    ensures SameOutside(data[..], old(data[..]), lo, hi)
  {
    hide Xor;
    hide View;
    hide SameOutside;
    hide Cell;
    var a, b := Cell(i, data.Length), Cell(j, data.Length);
    CellsApart(i, j, data.Length);
    ghost var was := data[..];
    ghost var x, y := data[a], data[b];
    XorCancel(x, y);
    ViewUpdate(was, lo, hi, i, y);
    ViewUpdate(was[a := y], lo, hi, j, x);
    ViewAt(was, lo, hi, i);
    ViewAt(was, lo, hi, j);
    data[a] := Xor(data[a], data[b]);
    data[b] := Xor(data[b], data[a]);
    data[a] := Xor(data[a], data[b]);
    assert data[..] == was[a := y][b := x];
    SameTwice(was, was[a := y], data[..], lo, hi);
  }

  /** Everything up to `p` is at or before everything after it. */
  ghost predicate Divided(v: seq<nat>, p: int)
  {
    forall a, b :: 0 <= a <= p < b < |v| ==> GetAddr(v[a]) <= GetAddr(v[b])
  }

  /** Between scans: addresses left of `i` and right of `j` lie on their sides of the pivot. */
  ghost predicate Scanning(v: seq<nat>, pivot: nat, i: int, j: int)
  {
    && (forall a :: 0 <= a <= i && a < |v| ==> GetAddr(v[a]) <= pivot)
    && (forall b :: 0 <= b && j <= b < |v| ==> pivot <= GetAddr(v[b]))
  }

  /** Both scans of one round; `l` and `r` are places where they stop at the latest. */
  method Scan(data: array<nat>, lo: int, hi: int, pivot: nat, i0: int, j0: int, ghost l: int, ghost r: int)
    returns (i: int, j: int)
    requires Window(data[..], lo, hi) && lo - 1 <= i0 < j0 <= hi + 1
    requires lo <= l < j0 && i0 < r <= hi
    requires var v := View(data[..], lo, hi);
             Scanning(v, pivot, i0 - lo, j0 - lo) && GetAddr(v[l - lo]) <= pivot <= GetAddr(v[r - lo])
    ensures l <= j < j0 && i0 < i <= r
    ensures var v := View(data[..], lo, hi);
            && Scanning(v, pivot, i - 1 - lo, j + 1 - lo)
            && GetAddr(v[j - lo]) <= pivot <= GetAddr(v[i - lo])
  {
    hide GetAddr;
    hide View;
    hide Cell;
    ghost var v := View(data[..], lo, hi);
    i, j := i0 + 1, j0 - 1;
    ViewAt(data[..], lo, hi, j);
    while GetAddr(data[Cell(j, data.Length)]) > pivot
      invariant l <= j < j0 && GetAddr(data[Cell(j, data.Length)]) == GetAddr(v[j - lo])
      invariant forall b :: j - lo < b < |v| ==> pivot <= GetAddr(v[b])
      decreases j
    {
      j := j - 1;
      ViewAt(data[..], lo, hi, j);
    }
    ViewAt(data[..], lo, hi, i);
    while GetAddr(data[Cell(i, data.Length)]) < pivot
      invariant i0 < i <= r && GetAddr(data[Cell(i, data.Length)]) == GetAddr(v[i - lo])
      invariant forall a :: 0 <= a < i - lo ==> GetAddr(v[a]) <= pivot
      decreases r - i
    {
      i := i + 1;
      ViewAt(data[..], lo, hi, i);
    }
  }

  /** Hoare's partition. */
  method Partition(data: array<nat>, lo: int, hi: int) returns (p: int)
    requires Window(data[..], lo, hi) && lo < hi && lo + hi < 0x8000_0000
    modifies data
    ensures lo <= p < hi && Divided(View(data[..], lo, hi), p - lo)
    ensures multiset(View(data[..], lo, hi)) == multiset(old(View(data[..], lo, hi)))
    ensures SameOutside(data[..], old(data[..]), lo, hi)
  {
    hide GetAddr;
    hide View;
    hide SameOutside;
    hide Cell;
    hide Scanning;
    hide Divided;
    hide Swapped;
    var pivLoc := (lo + hi) / 2;
    var pivot := GetAddr(data[Cell(pivLoc, data.Length)]);
    var i, j := lo - 1, hi + 1;
    ViewAt(data[..], lo, hi, pivLoc);
    SameItself(data[..], lo, hi);
    NothingScanned(View(data[..], lo, hi), pivot);
    ghost var l, r := pivLoc, pivLoc;
    while true
      invariant lo - 1 <= i < j <= hi + 1 && lo <= l < j && i < r <= hi && (r < hi || j <= hi)
      invariant multiset(View(data[..], lo, hi)) == multiset(old(View(data[..], lo, hi)))
      invariant SameOutside(data[..], old(data[..]), lo, hi)
      invariant Scanning(View(data[..], lo, hi), pivot, i - lo, j - lo)
      invariant var v := View(data[..], lo, hi); GetAddr(v[l - lo]) <= pivot <= GetAddr(v[r - lo])
      decreases j - i
    {
      i, j := Scan(data, lo, hi, pivot, i, j, l, r);
      ghost var v, before := View(data[..], lo, hi), data[..];
      if i >= j {
        ScanDivides(v, pivot, i - lo, j - lo);
        return j;
      }
      Swap(data, lo, hi, i, j);
      SwappedPermutes(v, i - lo, j - lo);
      SwapScanned(v, pivot, i - lo, j - lo);
      SameTwice(old(data[..]), before, data[..], lo, hi);
      l, r := i, j;
    }
  }

  lemma NothingScanned(v: seq<nat>, pivot: nat)
    ensures Scanning(v, pivot, -1, |v|)
  {
  }

  /** When the scans have met, the place where the right one stopped divides the window. */
  lemma ScanDivides(v: seq<nat>, pivot: nat, i: int, j: int)
    requires 0 <= j <= i < |v| && Scanning(v, pivot, i - 1, j + 1)
    requires GetAddr(v[j]) <= pivot <= GetAddr(v[i])
    ensures Divided(v, j)
  {
  }

  lemma SwapScanned(v: seq<nat>, pivot: nat, i: int, j: int)
    requires 0 <= i < j < |v| && Scanning(v, pivot, i - 1, j + 1)
    requires GetAddr(v[j]) <= pivot <= GetAddr(v[i])
    ensures Scanning(Swapped(v, i, j), pivot, i, j)
    ensures GetAddr(Swapped(v, i, j)[i]) <= pivot <= GetAddr(Swapped(v, i, j)[j])
  {
  }

  // ----- quicksort

  ghost predicate Sorted(v: seq<nat>)
  {
    forall a, b :: 0 <= a < b < |v| ==> GetAddr(v[a]) <= GetAddr(v[b])
  }

  /** All pairs are in order except possibly those inside `[a..b]`. */
  ghost predicate SortedExcept(v: seq<nat>, a: int, b: int)
  {
    forall k, l :: 0 <= k < l < |v| && !(a <= k && l <= b) ==> GetAddr(v[k]) <= GetAddr(v[l])
  }

  /** `v'` is `v` with the entries of `[a..b]` permuted. */
  ghost predicate PermutedInside(v: seq<nat>, v': seq<nat>, a: int, b: int)
  {
    && 0 <= a <= b + 1 <= |v| == |v'|
    && (forall k :: 0 <= k < |v| && !(a <= k <= b) ==> v'[k] == v[k])
    && multiset(v'[a..b + 1]) == multiset(v[a..b + 1])
  }

  lemma FoundInside(v: seq<nat>, v': seq<nat>, a: int, b: int, k: int) returns (m: int)
    requires PermutedInside(v, v', a, b) && 0 <= k < |v|
    ensures 0 <= m < |v| && v'[k] == v[m] && if a <= k <= b then a <= m <= b else m == k
  {
    m := k;
    if a <= k <= b {
      var part, part' := v[a..b + 1], v'[a..b + 1];
      assert part'[k - a] in multiset(part');
      assert part'[k - a] in part;
      var n :| 0 <= n < |part| && part[n] == part'[k - a];
      m := a + n;
    }
  }

  lemma PermutedWhole(v: seq<nat>, v': seq<nat>, a: int, b: int)
    requires PermutedInside(v, v', a, b)
    ensures multiset(v') == multiset(v)
  {
    assert v == v[..a] + v[a..b + 1] + v[b + 1..];
    assert v' == v'[..a] + v'[a..b + 1] + v'[b + 1..];
    assert v[..a] == v'[..a];
    assert v[b + 1..] == v'[b + 1..];
  }

  /** A partition step keeps the entries of `[a..b]` in order with all others. */
  lemma PartitionKeeps(v: seq<nat>, v': seq<nat>, a: int, b: int)
    requires PermutedInside(v, v', a, b) && SortedExcept(v, a, b)
    ensures SortedExcept(v', a, b)
  {
    hide GetAddr;
    forall k, l | 0 <= k < l < |v'| && !(a <= k && l <= b) ensures GetAddr(v'[k]) <= GetAddr(v'[l]) {
      var m := FoundInside(v, v', a, b, k);
      var n := FoundInside(v, v', a, b, l);
      assert m < n && !(a <= m && n <= b);
    }
  }

  /** Sorting one side of a divided window leaves only the other side to sort. */
  lemma SideSorted(v: seq<nat>, v': seq<nat>, a: int, p: int, b: int, left: bool)
    requires 0 <= a <= p < b < |v| == |v'| && SortedExcept(v, a, b) && Divided(v[a..b + 1], p - a)
    requires if left then PermutedInside(v, v', a, p) && Sorted(v'[a..p + 1])
             else PermutedInside(v, v', p + 1, b) && Sorted(v'[p + 1..b + 1])
    ensures if left then SortedExcept(v', p + 1, b) else SortedExcept(v', a, p)
  {
    hide GetAddr;
    hide PermutedInside;
    var s, t := if left then a else p + 1, if left then p else b;
    var c, d := if left then p + 1 else a, if left then b else p;
    forall k, l | 0 <= k < l < |v'| && !(c <= k && l <= d) ensures GetAddr(v'[k]) <= GetAddr(v'[l]) {
      if s <= k && l <= t {
        SortedAt(v', s, t, k, l);
      } else {
        var m := FoundInside(v, v', s, t, k);
        var n := FoundInside(v, v', s, t, l);
        assert m < n;
        if a <= m && n <= b {
          DividedAt(v, a, p, b, m, n);
        }
      }
    }
  }

  lemma SortedAt(v: seq<nat>, s: int, t: int, k: int, l: int)
    requires 0 <= s <= k < l <= t < |v| && Sorted(v[s..t + 1])
    ensures GetAddr(v[k]) <= GetAddr(v[l])
  {
    var part := v[s..t + 1];
    assert part[k - s] == v[k] && part[l - s] == v[l];
  }

  lemma DividedAt(v: seq<nat>, a: int, p: int, b: int, m: int, n: int)
    requires 0 <= a <= m <= p < n <= b < |v| && Divided(v[a..b + 1], p - a)
    ensures GetAddr(v[m]) <= GetAddr(v[n])
  {
    var part := v[a..b + 1];
    assert part[m - a] == v[m] && part[n - a] == v[n];
  }

  /** What was done in an inner window, seen from the outer one. */
  lemma FromOutside(data: seq<nat>, was: seq<nat>, lo: int, hi: int, l: int, h: int)
    requires Window(data, lo, hi) && |was| == |data| && lo <= l <= h + 1 <= hi + 1
    requires SameOutside(data, was, l, h) && multiset(View(data, l, h)) == multiset(View(was, l, h))
    ensures SameOutside(data, was, lo, hi)
    ensures PermutedInside(View(was, lo, hi), View(data, lo, hi), l - lo, h - lo)
    ensures View(data, l, h) == View(data, lo, hi)[l - lo..h - lo + 1]
  {
    ViewSlice(data, lo, hi, l, h);
    ViewSlice(was, lo, hi, l, h);
    ViewOutside(data, was, lo, hi, l, h);
  }

  method Quicksort(data: array<nat>, lo0: int, hi0: int)
    requires Window(data[..], lo0, hi0) && hi0 < 0x4000_0000
    modifies data
    ensures Sorted(View(data[..], lo0, hi0))
    ensures multiset(View(data[..], lo0, hi0)) == multiset(old(View(data[..], lo0, hi0)))
    ensures SameOutside(data[..], old(data[..]), lo0, hi0)
    decreases hi0 + 1 - lo0
  {
    hide GetAddr;
    hide View;
    hide SameOutside;
    hide PermutedInside;
    hide SortedExcept;
    hide Divided;
    hide Sorted;
    var lo, hi := lo0, hi0;
    ghost var first := View(data[..], lo0, hi0);
    SameItself(data[..], lo0, hi0);
    AllExcepted(first);
    while hi > lo
      invariant lo0 <= lo <= hi + 1 <= hi0 + 1
      invariant SortedExcept(View(data[..], lo0, hi0), lo - lo0, hi - lo0)
      invariant multiset(View(data[..], lo0, hi0)) == multiset(first)
      invariant SameOutside(data[..], old(data[..]), lo0, hi0)
      decreases hi - lo
    {
      ghost var was := data[..];
      var p := Partition(data, lo, hi);
      ghost var mid := data[..];
      PartitionSeen(old(data[..]), was, mid, lo0, hi0, lo, hi, p);
      if p - lo > hi - p {
        Quicksort(data, lo, p);
        SideSeen(old(data[..]), mid, data[..], lo0, hi0, lo, hi, p, lo, p, true);
        lo := p + 1;
      } else {
        Quicksort(data, p + 1, hi);
        SideSeen(old(data[..]), mid, data[..], lo0, hi0, lo, hi, p, p + 1, hi, false);
        hi := p;
      }
    }
    NoneExcepted(View(data[..], lo0, hi0), lo - lo0, hi - lo0);
  }

  lemma PartitionSeen(old0: seq<nat>, was: seq<nat>, data: seq<nat>, lo0: int, hi0: int, lo: int, hi: int, p: int)
    requires Window(data, lo0, hi0) && |data| == |was| == |old0| && lo0 <= lo <= p < hi <= hi0
    requires SameOutside(was, old0, lo0, hi0) && SameOutside(data, was, lo, hi)
    requires SortedExcept(View(was, lo0, hi0), lo - lo0, hi - lo0)
    requires multiset(View(data, lo, hi)) == multiset(View(was, lo, hi)) && Divided(View(data, lo, hi), p - lo)
    ensures SortedExcept(View(data, lo0, hi0), lo - lo0, hi - lo0)
    ensures Divided(View(data, lo0, hi0)[lo - lo0..hi - lo0 + 1], p - lo)
    ensures multiset(View(data, lo0, hi0)) == multiset(View(was, lo0, hi0))
    ensures SameOutside(data, old0, lo0, hi0)
  {
    hide SortedExcept;
    hide Divided;
    hide SameOutside;
    hide PermutedInside;
    hide View;
    FromOutside(data, was, lo0, hi0, lo, hi);
    PartitionKeeps(View(was, lo0, hi0), View(data, lo0, hi0), lo - lo0, hi - lo0);
    PermutedWhole(View(was, lo0, hi0), View(data, lo0, hi0), lo - lo0, hi - lo0);
    SameTwice(old0, was, data, lo0, hi0);
  }

  lemma SideSeen(old0: seq<nat>, was: seq<nat>, data: seq<nat>, lo0: int, hi0: int, lo: int, hi: int, p: int,
                 l: int, h: int, left: bool)
    requires Window(data, lo0, hi0) && |data| == |was| == |old0| && lo0 <= lo <= p < hi <= hi0
    requires if left then l == lo && h == p else l == p + 1 && h == hi
    requires SameOutside(was, old0, lo0, hi0) && SameOutside(data, was, l, h)
    requires SortedExcept(View(was, lo0, hi0), lo - lo0, hi - lo0)
    requires Divided(View(was, lo0, hi0)[lo - lo0..hi - lo0 + 1], p - lo)
    requires multiset(View(data, l, h)) == multiset(View(was, l, h)) && Sorted(View(data, l, h))
    ensures if left then SortedExcept(View(data, lo0, hi0), p + 1 - lo0, hi - lo0)
            else SortedExcept(View(data, lo0, hi0), lo - lo0, p - lo0)
    ensures multiset(View(data, lo0, hi0)) == multiset(View(was, lo0, hi0))
    ensures SameOutside(data, old0, lo0, hi0)
  {
    hide SortedExcept;
    hide Divided;
    hide Sorted;
    hide SameOutside;
    hide PermutedInside;
    hide View;
    FromOutside(data, was, lo0, hi0, l, h);
    SideSorted(View(was, lo0, hi0), View(data, lo0, hi0), lo - lo0, p - lo0, hi - lo0, left);
    PermutedWhole(View(was, lo0, hi0), View(data, lo0, hi0), l - lo0, h - lo0);
    SameTwice(old0, was, data, lo0, hi0);
  }

  lemma AllExcepted(v: seq<nat>)
    ensures SortedExcept(v, 0, |v| - 1)
  {
  }

  lemma NoneExcepted(v: seq<nat>, a: int, b: int)
    requires b <= a && SortedExcept(v, a, b)
    ensures Sorted(v)
  {
  }
}
