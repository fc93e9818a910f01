/** The compressor's length limiter, which works on a histogram of code lengths: `num[l]` symbols
    have a code of length `l`. */
module LengthLimiter {
  import opened Bits
  import opened Common

  const MAX_SUPPORTED: nat := 32

  /** The number of codes of length at most `D`. */
  function Codes(h: seq<nat>, D: nat): nat
    requires D < |h|
  {
    if D == 0 then 0 else Codes(h, D - 1) + h[D]
  }

  /** Their Kraft sum, on a scale where the empty code counts `Pow2(N)`. */
  function CodeMass(h: seq<nat>, D: nat, N: nat): nat
    requires D < |h| && D <= N
  {
    if D == 0 then 0 else CodeMass(h, D - 1, N) + Shl(h[D], N - D)
  }

  // ----- how the two sums change

  lemma {:induction false} CodesOfUpdate(h: seq<nat>, i: nat, v: nat, D: nat)
    requires D < |h| && 0 < i < |h|
    ensures Codes(h[i := v], D) == if i <= D then Codes(h, D) - h[i] + v else Codes(h, D)
  {
    if D > 0 {
      CodesOfUpdate(h, i, v, D - 1);
    }
  }

  lemma {:induction false} MassOfUpdate(h: seq<nat>, i: nat, v: nat, D: nat, N: nat)
    requires D < |h| && D <= N && 0 < i < |h|
    ensures i <= D ==> CodeMass(h[i := v], D, N) + Shl(h[i], N - i) == CodeMass(h, D, N) + Shl(v, N - i)
    ensures i > D ==> CodeMass(h[i := v], D, N) == CodeMass(h, D, N)
  {
    if D > 0 {
      MassOfUpdate(h, i, v, D - 1, N);
    }
  }

  lemma {:induction false} MassRescaled(h: seq<nat>, D: nat, m: nat, N: nat)
    requires D < |h| && D <= m <= N
    ensures CodeMass(h, D, N) == Shl(CodeMass(h, D, m), N - m)
  {
    if D == 0 {
      ShlZero(N - m);
    } else {
      MassRescaled(h, D - 1, m, N);
      ShlAdd(CodeMass(h, D - 1, m), Shl(h[D], m - D), N - m);
      ShlShl(h[D], m - D, N - m);
    }
  }

  lemma {:induction false} ShlLess(x: nat, m: nat, n: nat)
    requires m <= n
    ensures Shl(x, m) <= Shl(x, n)
  {
    if m < n {
      ShlLess(x, m, n - 1);
    }
  }

  lemma {:induction false} CodesMono(h: seq<nat>, m: nat, D: nat)
    requires m <= D < |h|
    ensures Codes(h, m) <= Codes(h, D)
  {
    if m < D {
      CodesMono(h, m, D - 1);
    }
  }

  lemma {:induction false} MassMono(h: seq<nat>, m: nat, D: nat, N: nat)
    requires m <= D < |h| && D <= N
    ensures CodeMass(h, m, N) <= CodeMass(h, D, N)
  {
    if m < D {
      MassMono(h, m, D - 1, N);
    }
  }

  /** Shortening all codes longer than `m` to `m` can only increase the Kraft sum. */
  lemma {:induction false} FoldMass(h: seq<nat>, m: nat, D: nat, N: nat)
    requires m <= D < |h| && D <= N
    ensures Codes(h, m) <= Codes(h, D)
    ensures CodeMass(h, D, N) <= CodeMass(h, m, N) + Shl(Codes(h, D) - Codes(h, m), N - m)
  {
    CodesMono(h, m, D);
    if m == D {
      ShlZero(N - m);
    } else {
      FoldMass(h, m, D - 1, N);
      CodesMono(h, m, D - 1);
      ShlAdd(Codes(h, D - 1) - Codes(h, m), h[D], N - m);
      ShlLess(h[D], N - D, N - m);
    }
  }

  /** If no shorter code exists, every code has length `m`. */
  lemma {:induction false} NoneShorter(h: seq<nat>, D: nat, N: nat)
    requires D < |h| && D <= N && forall i :: 0 < i <= D ==> h[i] == 0
    ensures Codes(h, D) == 0 && CodeMass(h, D, N) == 0
  {
    if D > 0 {
      NoneShorter(h, D - 1, N);
      ShlZero(N - D);
    }
  }

  // ----- the limiter

  /** At least the whole code space is claimed, but the codes shorter than `max` alone fit. */
  ghost predicate Crowded(h: seq<nat>, n: nat, max: nat)
  {
    && 0 < max < |h|
    && Codes(h, max) == n
    && CodeMass(h, max - 1, max) <= Pow2(max) <= CodeMass(h, max, max)
  }

  /** Makes a complete code of `n` symbols complete again with no code longer than `max`. */
  method EnforceMaxCodeSize(num: array<nat>, n: nat, max: nat)
    requires num.Length == MAX_SUPPORTED + 1 && 1 <= max < 31
    requires n >= 2 ==> Codes(num[..], MAX_SUPPORTED) == n <= Pow2(max)
    requires n >= 2 ==> CodeMass(num[..], MAX_SUPPORTED, MAX_SUPPORTED) == Pow2(MAX_SUPPORTED)
    modifies num
    ensures n <= 1 ==> num[..] == old(num[..])
    ensures n >= 2 ==> Codes(num[..], max) == n && CodeMass(num[..], max, max) == Pow2(max)
    ensures n >= 2 && Codes(old(num[..]), max) == n ==> num[..] == old(num[..])
  {
    if n <= 1 {
      return;
    }
    FoldLong(num, max);
    Folded(old(num[..]), num[..], n, max, MAX_SUPPORTED);
    TotalFits(num[..], n, max);
    WrapSmall(CodeMass(num[..], max, max));
    var total := SumUp(num, max);
    while total != Pow2(max)
      invariant total == CodeMass(num[..], max, max) && Crowded(num[..], n, max)
      invariant Codes(old(num[..]), max) == n ==> num[..] == old(num[..])
      decreases total
    {
      SplitOne(num, n, max);
      total := total - 1;
    }
  }

  /** Counts every code longer than `max` as one of length `max`. */
  method FoldLong(num: array<nat>, max: nat)
    requires num.Length == MAX_SUPPORTED + 1 && max <= MAX_SUPPORTED
    modifies num
    ensures Codes(old(num[..]), max) <= Codes(old(num[..]), MAX_SUPPORTED)
    ensures num[..] == old(num[..])[max := old(num[max]) + (Codes(old(num[..]), MAX_SUPPORTED) - Codes(old(num[..]), max))]
  {
    ghost var h := num[..];
    for i := max + 1 to MAX_SUPPORTED + 1
      invariant Codes(h, max) <= Codes(h, i - 1)
      invariant num[..] == h[max := h[max] + (Codes(h, i - 1) - Codes(h, max))]
    {
      num[max] := num[max] + num[i];
    }
  }

  lemma Folded(h: seq<nat>, g: seq<nat>, n: nat, max: nat, N: nat)
    requires |h| == N + 1 && 0 < max < N && Codes(h, N) == n && Codes(h, max) <= n
    requires CodeMass(h, N, N) == Pow2(N)
    requires g == h[max := h[max] + (n - Codes(h, max))]
    ensures Crowded(g, n, max)
    ensures Codes(h, max) == n ==> g == h && CodeMass(g, max, max) == Pow2(max)
  {
    hide Pow2;
    var extra := n - Codes(h, max);
    CodesOfUpdate(h, max, h[max] + extra, max);
    MassOfUpdate(h, max, h[max] + extra, max - 1, max);
    MassOfUpdate(h, max, h[max] + extra, max, max);
    ShortFit(h, max - 1, max, N);
    AllClaimed(h, n, max, N);
    ShlAdd(h[max], extra, 0);
    assert CodeMass(g, max, max) == CodeMass(h, max, max) + extra;
    if extra == 0 {
      ShortFit(h, max, max, N);
    }
  }

  /** The shorter codes of a complete code fit by themselves. */
  lemma ShortFit(h: seq<nat>, m: nat, max: nat, N: nat)
    requires |h| == N + 1 && m <= max < N && CodeMass(h, N, N) == Pow2(N)
    ensures CodeMass(h, m, max) <= Pow2(max)
  {
    MassMono(h, m, N, N);
    MassRescaled(h, m, max, N);
    ShlShl(1, max, N - max);
    NotLess(Pow2(max), CodeMass(h, m, max), N - max);
  }

  lemma AllClaimed(h: seq<nat>, n: nat, max: nat, N: nat)
    requires |h| == N + 1 && max < N && CodeMass(h, N, N) == Pow2(N)
    requires Codes(h, N) == n && Codes(h, max) <= n
    ensures CodeMass(h, max, max) + (n - Codes(h, max)) >= Pow2(max)
  {
    FoldMass(h, max, N, N);
    MassRescaled(h, max, max, N);
    ShlAdd(CodeMass(h, max, max), n - Codes(h, max), N - max);
    ShlShl(1, max, N - max);
    NotLess(CodeMass(h, max, max) + (n - Codes(h, max)), Pow2(max), N - max);
  }

  lemma NotLess(x: nat, y: nat, n: nat)
    requires Shl(x, n) >= Shl(y, n)
    ensures x >= y
  {
    if x < y {
      ShlStep(x, y, n);
      Pow2Positive(n);
    }
  }

  /** Sums up the claimed code space in 32-bit arithmetic. */
  method SumUp(num: array<nat>, max: nat) returns (total: nat)
    requires 0 < max < num.Length
    ensures total == Wrap32(CodeMass(num[..], max, max))
  {
    hide Wrap32;
    hide Shl;
    WrapSmall(0);
    total := 0;
    ghost var h := num[..];
    ghost var sum: nat := 0;
    var i := max;
    while i > 0
      invariant 0 <= i <= max
      invariant sum + CodeMass(h, i, max) == CodeMass(h, max, max) && total == Wrap32(sum)
    {
      WrapAdd(sum, Shl(num[i], max - i));
      sum := sum + Shl(num[i], max - i);
      total := Add32(total, Wrap32(Shl(num[i], max - i)));
      i := i - 1;
    }
  }

  /** The codes that were too long claim at most one unit each, so the total fits 32 bits. */
  lemma TotalFits(h: seq<nat>, n: nat, max: nat)
    requires max < 31 && Crowded(h, n, max) && n <= Pow2(max)
    ensures CodeMass(h, max, max) < TWO32
  {
    assert h[max] <= n;
    assert CodeMass(h, max, max) == CodeMass(h, max - 1, max) + h[max];
    ShlLess(1, max, 30);
    TopBit();
  }

  lemma TopBit()
    ensures Shl(1, 30) == 0x4000_0000
  {
    assert Shl(1, 8) == 256;
    assert Shl(1, 16) == 65536;
    assert Shl(1, 24) == 16777216;
  }

  /** Drops one longest code and splits the longest code that is shorter than `max`. */
  method SplitOne(num: array<nat>, n: nat, max: nat)
    requires max < num.Length && Crowded(num[..], n, max) && n <= Pow2(max)
    requires CodeMass(num[..], max, max) > Pow2(max)
    modifies num
    ensures Crowded(num[..], n, max)
    ensures CodeMass(num[..], max, max) == CodeMass(old(num[..]), max, max) - 1
  {
    ghost var h := num[..];
    num[max] := num[max] - 1;
    var i := max - 1;
    while i > 0 && num[i] == 0
      invariant 0 <= i < max
      invariant forall j :: i < j < max ==> h[j] == 0
      invariant num[..] == h[max := h[max] - 1]
    {
      i := i - 1;
    }
    if i > 0 {
      num[i] := num[i] - 1;
      num[i + 1] := num[i + 1] + 2;
    }
    Split(h, num[..], n, max, i);
  }

  lemma Split(h: seq<nat>, g: seq<nat>, n: nat, max: nat, i: nat)
    requires max < |h| && Crowded(h, n, max) && n <= Pow2(max) && CodeMass(h, max, max) > Pow2(max)
    requires i < max && (i > 0 ==> h[i] > 0) && forall j :: i < j < max ==> h[j] == 0
    requires g == if i == 0 then h[max := h[max] - 1]
                  else var h1 := h[max := h[max] - 1];
                       var h2 := h1[i := h1[i] - 1];
                       h2[i + 1 := h2[i + 1] + 2]
    ensures Crowded(g, n, max)
    ensures CodeMass(g, max, max) == CodeMass(h, max, max) - 1
  {
    if i == 0 {
      NoneShorter(h, max - 1, max);
      assert false;
    }
    var h1 := h[max := h[max] - 1];
    DropLongest(h, max);
    SplitCode(h1, i, max);
  }

  lemma DropLongest(h: seq<nat>, max: nat)
    requires 0 < max < |h| && h[max] > 0
    ensures var g := h[max := h[max] - 1];
            && Codes(g, max) == Codes(h, max) - 1
            && CodeMass(g, max, max) == CodeMass(h, max, max) - 1
            && CodeMass(g, max - 1, max) == CodeMass(h, max - 1, max)
  {
    CodesOfUpdate(h, max, h[max] - 1, max);
    MassOfUpdate(h, max, h[max] - 1, max - 1, max);
    MassOfUpdate(h, max, h[max] - 1, max, max);
  }

  lemma SplitCode(h: seq<nat>, i: nat, max: nat)
    requires 0 < i < max < |h| && h[i] > 0
    ensures var h2 := h[i := h[i] - 1];
            var g := h2[i + 1 := h2[i + 1] + 2];
            && Codes(g, max) == Codes(h, max) + 1
            && CodeMass(g, max, max) == CodeMass(h, max, max)
            && CodeMass(g, max - 1, max) <= CodeMass(h, max - 1, max)
  {
    hide Codes;
    hide CodeMass;
    var h2 := h[i := h[i] - 1];
    CodesOfUpdate(h, i, h[i] - 1, max);
    MassOfUpdate(h, i, h[i] - 1, max - 1, max);
    MassOfUpdate(h, i, h[i] - 1, max, max);
    CodesOfUpdate(h2, i + 1, h2[i + 1] + 2, max);
    MassOfUpdate(h2, i + 1, h2[i + 1] + 2, max - 1, max);
    MassOfUpdate(h2, i + 1, h2[i + 1] + 2, max, max);
    ShlAdd(h[i] - 1, 1, max - i);
    ShlAdd(h2[i + 1], 2, max - i - 1);
    ShlDouble(1, max - i - 1);
  }
}
