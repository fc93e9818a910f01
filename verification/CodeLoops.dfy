/** Two loops that the compressor and the decompressor both run over code lengths. */
module CodeLoops {
  import opened Bits
  import opened CanonicalCode

  /** Counts how often each length occurs. */
  method CountLengths(lens: seq<nat>, slots: nat) returns (hist: array<nat>)
    requires forall i :: 0 <= i < |lens| ==> lens[i] < slots
    ensures fresh(hist) && hist.Length == slots
    ensures forall l :: 0 <= l < slots ==> hist[l] == Count(lens, l)
  {
    hist := new nat[slots](_ => 0);
    for i := 0 to |lens|
      invariant forall l :: 0 <= l < slots ==> hist[l] == Count(lens[..i], l)
    {
      hist[lens[i]] := hist[lens[i]] + 1;
      assert lens[..i + 1][..i] == lens[..i];
    }
    assert lens[..|lens|] == lens;
  }

  /** Reverses the `size` low bits of `code`, for a stream that sends low bits first. */
  method ReverseBits(code: nat, size: nat) returns (rev: nat)
    ensures rev == Lsb(PathOf(code, size))
  {
    rev := 0;
    ghost var p := PathOf(code, size);
    var rest := code;
    var l := size;
    while l > 0
      invariant 0 <= l <= size
      invariant PathOf(rest, l) == p[..l]
      invariant rev == Lsb(p[l..])
    {
      assert p[..l][..l - 1] == p[..l - 1];
      assert p[..l][l - 1] == p[l - 1];
      assert p[l - 1..][1..] == p[l..];
      rev := 2 * rev + rest % 2;
      rest := rest / 2;
      l := l - 1;
    }
    assert p[0..] == p;
  }
}
