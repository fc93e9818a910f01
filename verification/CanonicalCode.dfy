/** Canonical Huffman codes (section 3.2.2 of RFC 1951), as both halves of miniz derive them from
    a vector of code lengths, where length 0 marks an unused symbol.

    Every code is read as an interval of 15-bit windows: a code of length `l` owns the
    `Pow2(15 - l)` windows that begin with it.  The codes, taken by length and then by symbol,
    own consecutive intervals starting at 0, and everything else follows from that. */
module CanonicalCode {
  import opened Bits

  const MAX_LENGTH: nat := 15

  predicate Lengths(lens: seq<nat>)
  {
    forall i :: 0 <= i < |lens| ==> lens[i] <= MAX_LENGTH
  }

  predicate Used(lens: seq<nat>, i: int)
  {
    0 <= i < |lens| && lens[i] > 0
  }

  /** The number of windows owned by a code of length `l`. */
  function Width(l: nat): (w: nat)
    requires l <= MAX_LENGTH
  {
    Pow2(MAX_LENGTH - l)
  }

  /** The number of symbols of length `l`. */
  function Count(lens: seq<nat>, l: nat): (n: nat)
    ensures n <= |lens|
  {
    if lens == [] then 0
    else Count(lens[..|lens| - 1], l) + (if lens[|lens| - 1] == l then 1 else 0)
  }

  /** The number of windows owned by codes shorter than `l`. */
  function Mass(lens: seq<nat>, l: nat): nat
    requires 1 <= l <= MAX_LENGTH + 1
  {
    if l == 1 then 0 else Mass(lens, l - 1) + Shl(Count(lens, l - 1), MAX_LENGTH + 1 - l)
  }

  /** The Kraft sum of the lengths, in units of one window. */
  function Kraft(lens: seq<nat>): nat
  {
    Mass(lens, MAX_LENGTH + 1)
  }

  const WINDOWS: nat := 0x8000

  predicate Fits(lens: seq<nat>)
  {
    Lengths(lens) && Kraft(lens) <= WINDOWS
  }

  predicate Complete(lens: seq<nat>)
  {
    Lengths(lens) && Kraft(lens) == WINDOWS
  }

  /** The smallest code of length `l`. */
  function FirstCode(lens: seq<nat>, l: nat): nat
    requires l >= 1
  {
    if l == 1 then 0 else 2 * (FirstCode(lens, l - 1) + Count(lens, l - 1))
  }

  lemma FirstCodeStep(lens: seq<nat>, l: nat)
    requires l >= 1
    ensures FirstCode(lens, l + 1) == 2 * (FirstCode(lens, l) + Count(lens, l))
    ensures l == 1 ==> FirstCode(lens, l) == 0
  {
    hide Count;
  }

  lemma CountStep(lens: seq<nat>, s: nat, l: nat)
    requires s < |lens|
    ensures Count(lens[..s + 1], l) == Count(lens[..s], l) + (if lens[s] == l then 1 else 0)
  {
    assert lens[..s + 1][..s] == lens[..s];
  }

  function Code(lens: seq<nat>, i: nat): nat
    requires Used(lens, i)
  {
    FirstCode(lens, lens[i]) + Count(lens[..i], lens[i])
  }

  /** The first window owned by symbol `i`. */
  function Start(lens: seq<nat>, i: nat): nat
    requires Lengths(lens) && Used(lens, i)
  {
    Shl(Code(lens, i), MAX_LENGTH - lens[i])
  }

  function CodePath(lens: seq<nat>, i: nat): (p: Path)
    requires Used(lens, i)
    ensures |p| == lens[i]
  {
    PathOf(Code(lens, i), lens[i])
  }

  lemma AllWindows()
    ensures Width(0) == WINDOWS
  {
    assert Pow2(5) == 32;
    ShlShl(1, 5, 5);
    assert Pow2(10) == 1024;
    ShlShl(1, 10, 5);
  }

  lemma {:induction false} FirstCodeMass(lens: seq<nat>, l: nat)
    requires 1 <= l <= MAX_LENGTH
    ensures Shl(FirstCode(lens, l), MAX_LENGTH - l) == Mass(lens, l)
  {
    if l == 1 {
      ShlZero(MAX_LENGTH - 1);
    } else {
      FirstCodeMass(lens, l - 1);
      var f, c, n := FirstCode(lens, l - 1), Count(lens, l - 1), MAX_LENGTH - l;
      ShlDouble(f + c, n);
      ShlAdd(f, c, n + 1);
    }
  }

  /** The number the decompressor compares with 65536 is twice the Kraft sum. */
  lemma TotalIsTwiceKraft(lens: seq<nat>)
    ensures FirstCode(lens, MAX_LENGTH + 1) == 2 * Kraft(lens)
  {
    FirstCodeMass(lens, MAX_LENGTH);
    var m := MAX_LENGTH;
    assert Mass(lens, m + 1) == Mass(lens, m) + Shl(Count(lens, m), 0);
  }

  /** The code counters of `n` symbols stay far below 2^32. */
  lemma {:induction false} FirstCodeBound(lens: seq<nat>, l: nat)
    requires 1 <= l <= MAX_LENGTH + 1
    ensures FirstCode(lens, l) + 2 * |lens| <= Shl(|lens|, l)
  {
    if l > 1 {
      FirstCodeBound(lens, l - 1);
    }
  }

  /** So they fit 32-bit integers, signed or not. */
  lemma FirstCodeFits(lens: seq<nat>, l: nat)
    requires 1 <= l <= MAX_LENGTH + 1 && |lens| <= 0x4000
    ensures FirstCode(lens, l) + 2 * |lens| < 0x8000_0000
  {
    hide FirstCode;
    FirstCodeBound(lens, l);
    ShlShl(|lens|, l, MAX_LENGTH + 1 - l);
    ShlGrows(Shl(|lens|, l), MAX_LENGTH + 1 - l);
    SixteenTimes(|lens|);
  }

  lemma {:induction false} ShlGrows(x: nat, n: nat)
    ensures x <= Shl(x, n)
  {
    if n > 0 {
      ShlGrows(x, n - 1);
    }
  }

  lemma SixteenTimes(x: nat)
    ensures Shl(x, MAX_LENGTH + 1) == 0x10000 * x
  {
    var m: nat := MAX_LENGTH;
    FourTimes(x, m - 15);
    FourTimes(x, m - 11);
    FourTimes(x, m - 7);
    FourTimes(x, m - 3);
  }

  lemma FourTimes(x: nat, n: nat)
    ensures Shl(x, n + 4) == 16 * Shl(x, n) && Shl(x, 0) == x
  {
    assert Shl(x, n + 1) == 2 * Shl(x, n);
    assert Shl(x, n + 2) == 2 * Shl(x, n + 1);
    assert Shl(x, n + 3) == 2 * Shl(x, n + 2);
  }

  lemma {:induction false} MassMono(lens: seq<nat>, l: nat, m: nat)
    requires 1 <= l <= m <= MAX_LENGTH + 1
    ensures Mass(lens, l) <= Mass(lens, m)
  {
    if l < m {
      MassMono(lens, l, m - 1);
    }
  }

  lemma {:induction false} CountMono(lens: seq<nat>, l: nat, i: nat, j: nat)
    requires i <= j <= |lens|
    ensures Count(lens[..i], l) <= Count(lens[..j], l)
    ensures i < j && lens[i] == l ==> Count(lens[..i], l) < Count(lens[..j], l)
  {
    if i < j {
      CountMono(lens, l, i, j - 1);
      assert lens[..j][..j - 1] == lens[..j - 1];
    }
  }

  /** Symbols are laid out by length, and within one length by index. */
  lemma StartForm(lens: seq<nat>, i: nat)
    requires Lengths(lens) && Used(lens, i)
    ensures Start(lens, i) == Mass(lens, lens[i]) + Shl(Count(lens[..i], lens[i]), MAX_LENGTH - lens[i])
  {
    FirstCodeMass(lens, lens[i]);
    ShlAdd(FirstCode(lens, lens[i]), Count(lens[..i], lens[i]), MAX_LENGTH - lens[i]);
  }

  lemma StartEnd(lens: seq<nat>, i: nat)
    requires Lengths(lens) && Used(lens, i)
    ensures Start(lens, i) + Width(lens[i]) <= Mass(lens, lens[i] + 1) <= Kraft(lens)
  {
    var l := lens[i];
    StartForm(lens, i);
    CountMono(lens, l, i, |lens|);
    assert lens[..|lens|] == lens;
    ShlStep(Count(lens[..i], l), Count(lens, l), MAX_LENGTH - l);
    MassMono(lens, l + 1, MAX_LENGTH + 1);
  }

  lemma Shorter(lens: seq<nat>, i: nat, j: nat)
    requires Lengths(lens) && Used(lens, i) && Used(lens, j) && lens[i] < lens[j]
    ensures Start(lens, i) + Width(lens[i]) <= Start(lens, j)
  {
    StartEnd(lens, i);
    MassMono(lens, lens[i] + 1, lens[j]);
    StartForm(lens, j);
  }

  lemma Earlier(lens: seq<nat>, i: nat, j: nat)
    requires Lengths(lens) && Used(lens, i) && Used(lens, j) && lens[i] == lens[j] && i < j
    ensures Start(lens, i) + Width(lens[i]) <= Start(lens, j)
  {
    StartForm(lens, i);
    StartForm(lens, j);
    CountMono(lens, lens[i], i, j);
    ShlStep(Count(lens[..i], lens[i]), Count(lens[..j], lens[i]), MAX_LENGTH - lens[i]);
  }

  lemma CodeFits(lens: seq<nat>, i: nat)
    requires Fits(lens) && Used(lens, i)
    ensures Code(lens, i) < Pow2(lens[i])
    ensures Lo(CodePath(lens, i), MAX_LENGTH) == Start(lens, i)
  {
    hide Code;
    var l := lens[i];
    StartEnd(lens, i);
    AllWindows();
    Pow2Positive(MAX_LENGTH - l);
    ShlShl(1, l, MAX_LENGTH - l);
    if Code(lens, i) > Pow2(l) {
      ShlStep(Pow2(l), Code(lens, i), MAX_LENGTH - l);
    }
    MsbPathOf(Code(lens, i), l);
  }

  /** No code begins another one. */
  lemma PrefixFree(lens: seq<nat>, i: nat, j: nat)
    requires Fits(lens) && Used(lens, i) && Used(lens, j) && i != j
    ensures !(CodePath(lens, i) <= CodePath(lens, j))
  {
    hide CodePath;
    hide Start;
    hide Lo;
    CodeFits(lens, i);
    CodeFits(lens, j);
    if lens[i] <= lens[j] {
      PrefixIsContainment(CodePath(lens, i), CodePath(lens, j), MAX_LENGTH);
      if lens[i] < lens[j] {
        Shorter(lens, i, j);
      } else if i < j {
        Earlier(lens, i, j);
      } else {
        Earlier(lens, j, i);
      }
    }
  }

  lemma {:induction false} NthOfLength(lens: seq<nat>, l: nat, k: nat) returns (i: nat)
    requires k < Count(lens, l)
    ensures i < |lens| && lens[i] == l && Count(lens[..i], l) == k
  {
    var n := |lens| - 1;
    if Count(lens[..n], l) <= k {
      i := n;
    } else {
      i := NthOfLength(lens[..n], l, k);
      assert lens[..n][..i] == lens[..i];
    }
  }

  lemma {:induction false} LengthOwning(lens: seq<nat>, x: nat, m: nat) returns (l: nat)
    requires 1 <= m <= MAX_LENGTH + 1 && x < Mass(lens, m)
    ensures 1 <= l < m && Mass(lens, l) <= x < Mass(lens, l + 1)
  {
    if Mass(lens, m - 1) <= x {
      l := m - 1;
    } else {
      l := LengthOwning(lens, x, m - 1);
    }
  }

  /** Every window below the Kraft sum is owned by a symbol. */
  lemma Covered(lens: seq<nat>, x: nat) returns (i: nat)
    requires Lengths(lens) && x < Kraft(lens)
    ensures Used(lens, i) && Start(lens, i) <= x < Start(lens, i) + Width(lens[i])
  {
    var l := LengthOwning(lens, x, MAX_LENGTH + 1);
    var n := MAX_LENGTH - l;
    var d := x - Mass(lens, l);
    var k := Shr(d, n);
    MaskShr(d, n);
    if k > Count(lens, l) {
      ShlStep(Count(lens, l), k, n);
    }
    i := NthOfLength(lens, l, k);
    StartForm(lens, i);
  }

  ghost predicate Begins(lens: seq<nat>, i: nat, window: Path)
  {
    Used(lens, i) && CodePath(lens, i) <= window
  }

  lemma OwnerBegins(lens: seq<nat>, i: nat, window: Path)
    requires Fits(lens) && Used(lens, i) && |window| == MAX_LENGTH
    ensures Begins(lens, i, window) <==>
            Start(lens, i) <= Msb(window) < Start(lens, i) + Width(lens[i])
  {
    hide CodePath;
    hide Start;
    hide Msb;
    CodeFits(lens, i);
    PrefixIsContainment(CodePath(lens, i), window, MAX_LENGTH);
  }

  /** Every 15-bit window begins with some code exactly when the Kraft sum is one. */
  lemma CompleteIffCovering(lens: seq<nat>)
    requires Fits(lens)
    ensures Complete(lens) <==>
            forall window: Path :: |window| == MAX_LENGTH ==> exists i: nat :: Begins(lens, i, window)
  {
    AllWindows();
    if Complete(lens) {
      forall window: Path | |window| == MAX_LENGTH
        ensures exists i: nat :: Begins(lens, i, window)
      {
        MsbBound(window);
        var i := Covered(lens, Msb(window));
        OwnerBegins(lens, i, window);
      }
    } else {
      var free := PathOf(Kraft(lens), MAX_LENGTH);
      MsbPathOf(Kraft(lens), MAX_LENGTH);
      forall i: nat ensures !Begins(lens, i, free) {
        if Used(lens, i) {
          OwnerBegins(lens, i, free);
          StartEnd(lens, i);
        }
      }
    }
  }

  // ----- the Kraft sum by symbol

  /** What a symbol of length `l` adds to the Kraft sum. */
  function Share(l: nat): nat
    requires l <= MAX_LENGTH
  {
    if l == 0 then 0 else Width(l)
  }

  lemma {:induction false} MassOfLast(lens: seq<nat>, m: nat)
    requires lens != [] && Lengths(lens) && 1 <= m <= MAX_LENGTH + 1
    ensures var l := lens[|lens| - 1];
            Mass(lens, m) == Mass(lens[..|lens| - 1], m) + (if l < m then Share(l) else 0)
  {
    if m > 1 {
      MassOfLast(lens, m - 1);
      ShlAdd(Count(lens[..|lens| - 1], m - 1), 1, MAX_LENGTH + 1 - m);
    }
  }

  lemma {:induction false} MassOfNone(m: nat)
    requires 1 <= m <= MAX_LENGTH + 1
    ensures Mass([], m) == 0
  {
    if m > 1 {
      MassOfNone(m - 1);
      ShlZero(MAX_LENGTH + 1 - m);
    }
  }

  /** The number of symbols in use. */
  function UsedCount(lens: seq<nat>): (n: nat)
    ensures n <= |lens|
  {
    if lens == [] then 0
    else UsedCount(lens[..|lens| - 1]) + (if lens[|lens| - 1] > 0 then 1 else 0)
  }

  /** What the table builder of the decompressor accepts. */
  ghost predicate Accepted(lens: seq<nat>)
  {
    Lengths(lens) && (Complete(lens) || UsedCount(lens) <= 1)
  }

  /** A symbol in use is counted. */
  lemma {:induction false} UsedCounts(lens: seq<nat>, i: nat)
    requires Used(lens, i)
    ensures UsedCount(lens) >= 1
  {
    if i < |lens| - 1 {
      UsedCounts(lens[..|lens| - 1], i);
    }
  }

  lemma {:induction false} TwoUsed(lens: seq<nat>, i: nat, j: nat)
    requires Used(lens, i) && Used(lens, j) && i < j
    ensures UsedCount(lens) >= 2
  {
    if j < |lens| - 1 {
      TwoUsed(lens[..|lens| - 1], i, j);
    } else {
      UsedCounts(lens[..|lens| - 1], i);
    }
  }

  lemma {:induction false} FewCodesMass(lens: seq<nat>)
    requires Lengths(lens) && UsedCount(lens) <= 1
    ensures Kraft(lens) <= if UsedCount(lens) == 0 then 0 else Width(1)
  {
    if lens == [] {
      MassOfNone(MAX_LENGTH + 1);
    } else {
      var n := |lens| - 1;
      FewCodesMass(lens[..n]);
      MassOfLast(lens, MAX_LENGTH + 1);
      if lens[n] > 0 {
        Pow2Mono(MAX_LENGTH - lens[n], MAX_LENGTH - 1);
      }
    }
  }

  /** At most one code always fits, whatever its length. */
  lemma FewCodesFit(lens: seq<nat>)
    requires Lengths(lens) && UsedCount(lens) <= 1
    ensures Fits(lens)
    ensures forall i: nat, j: nat :: Used(lens, i) && Used(lens, j) ==> i == j
  {
    FewCodesMass(lens);
    AllWindows();
    forall i: nat, j: nat | Used(lens, i) && Used(lens, j) ensures i == j {
      if i < j {
        TwoUsed(lens, i, j);
      } else if j < i {
        TwoUsed(lens, j, i);
      }
    }
  }

  lemma AcceptedFits(lens: seq<nat>)
    requires Accepted(lens)
    ensures Fits(lens)
  {
    if !Complete(lens) {
      FewCodesFit(lens);
    }
  }

  /** The used symbols counted by length. */
  function UsedUpTo(lens: seq<nat>, m: nat): nat
  {
    if m == 0 then 0 else UsedUpTo(lens, m - 1) + Count(lens, m)
  }

  lemma {:induction false} UsedUpToOfLast(lens: seq<nat>, m: nat)
    requires lens != []
    ensures UsedUpTo(lens, m) ==
            UsedUpTo(lens[..|lens| - 1], m) + (if 0 < lens[|lens| - 1] <= m then 1 else 0)
  {
    if m > 0 {
      UsedUpToOfLast(lens, m - 1);
    }
  }

  lemma {:induction false} UsedUpToNone(m: nat)
    ensures UsedUpTo([], m) == 0
  {
    if m > 0 {
      UsedUpToNone(m - 1);
    }
  }

  lemma {:induction false} UsedByLength(lens: seq<nat>)
    requires Lengths(lens)
    ensures UsedUpTo(lens, MAX_LENGTH) == UsedCount(lens)
  {
    if lens == [] {
      UsedUpToNone(MAX_LENGTH);
    } else {
      UsedByLength(lens[..|lens| - 1]);
      UsedUpToOfLast(lens, MAX_LENGTH);
    }
  }
}
