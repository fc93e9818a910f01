/** Shifts, masks and bit strings, shared by the DEFLATE models.

    A `Path` lists the bits of a code in the order in which they are sent.  A canonical Huffman
    code counts its first bit as the most significant one (`Msb`), while the bit buffers of the
    compressor and of the decompressor keep the first bit lowest (`Lsb`). */
module Bits {

  type Path = seq<bool>

  function Bit(b: bool): (v: nat)
  {
    if b then 1 else 0
  }

  /** `x << n` without overflow. */
  function Shl(x: nat, n: nat): (y: nat)
  {
    if n == 0 then x else 2 * Shl(x, n - 1)
  }

  /** `x >> n`. */
  function Shr(x: nat, n: nat): (y: nat)
  {
    if n == 0 then x else Shr(x / 2, n - 1)
  }

  /** `x & ((1 << n) - 1)`. */
  function Mask(x: nat, n: nat): (y: nat)
  {
    if n == 0 then 0 else x % 2 + 2 * Mask(x / 2, n - 1)
  }

  function Pow2(n: nat): (p: nat)
  {
    Shl(1, n)
  }

  /** The number written by `p` with its first bit least significant. */
  function Lsb(p: Path): nat
  {
    if p == [] then 0 else Bit(p[0]) + 2 * Lsb(p[1..])
  }

  /** The number written by `p` with its first bit most significant. */
  function Msb(p: Path): nat
  {
    if p == [] then 0 else 2 * Msb(p[..|p| - 1]) + Bit(p[|p| - 1])
  }

  /** The `n` low bits of `code`, most significant first. */
  function PathOf(code: nat, n: nat): (p: Path)
    ensures |p| == n
  {
    if n == 0 then [] else PathOf(code / 2, n - 1) + [code % 2 == 1]
  }

  /** The `n` low bits of `buf`, least significant first. */
  function Low(buf: nat, n: nat): (p: Path)
    ensures |p| == n
  {
    if n == 0 then [] else [buf % 2 == 1] + Low(buf / 2, n - 1)
  }

  // ----- shifts

  lemma {:induction false} ShlAdd(x: nat, y: nat, n: nat)
    ensures Shl(x + y, n) == Shl(x, n) + Shl(y, n)
  {
    if n > 0 {
      ShlAdd(x, y, n - 1);
    }
  }

  lemma {:induction false} ShlShl(x: nat, m: nat, n: nat)
    ensures Shl(Shl(x, m), n) == Shl(x, m + n)
  {
    if n > 0 {
      ShlShl(x, m, n - 1);
    }
  }

  /** Larger numbers stay larger by at least one whole unit. */
  lemma ShlStep(x: nat, y: nat, n: nat)
    requires x < y
    ensures Shl(x, n) + Pow2(n) <= Shl(y, n)
  {
    ShlAdd(x + 1, y - x - 1, n);
    ShlAdd(x, 1, n);
  }

  lemma {:induction false} ShlDouble(x: nat, n: nat)
    ensures Shl(2 * x, n) == 2 * Shl(x, n)
  {
    if n > 0 {
      ShlDouble(x, n - 1);
    }
  }

  lemma {:induction false} ShlZero(n: nat)
    ensures Shl(0, n) == 0
  {
    if n > 0 {
      ShlZero(n - 1);
    }
  }

  lemma {:induction false} Pow2Positive(n: nat)
    ensures Pow2(n) >= 1
  {
    if n > 0 {
      Pow2Positive(n - 1);
    }
  }

  lemma {:induction false} Pow2Mono(m: nat, n: nat)
    requires m <= n
    ensures Pow2(m) <= Pow2(n)
  {
    if m < n {
      Pow2Mono(m, n - 1);
    }
  }

  lemma {:induction false} ShrFits(x: nat, k: nat, n: nat)
    requires k <= n && x < Pow2(n)
    ensures Shr(x, k) < Pow2(n - k)
  {
    if k > 0 {
      ShrFits(x / 2, k - 1, n - 1);
    }
  }

  /** A number is its low bits and its high bits. */
  lemma {:induction false} MaskShr(x: nat, n: nat)
    ensures x == Mask(x, n) + Shl(Shr(x, n), n)
    ensures Mask(x, n) < Pow2(n)
  {
    if n > 0 {
      MaskShr(x / 2, n - 1);
    }
  }

  /** Low and high bits are determined by their sum. */
  lemma {:induction false} MaskShrUnique(r: nat, q: nat, n: nat)
    requires r < Pow2(n)
    ensures Mask(r + Shl(q, n), n) == r
    ensures Shr(r + Shl(q, n), n) == q
  {
    var x := r + Shl(q, n);
    MaskShr(x, n);
    if Shr(x, n) < q {
      ShlStep(Shr(x, n), q, n);
    } else if q < Shr(x, n) {
      ShlStep(q, Shr(x, n), n);
    }
  }

  /** Adding one unit of the high part leaves the low bits alone. */
  lemma MaskPeriod(x: nat, n: nat)
    ensures Mask(x + Pow2(n), n) == Mask(x, n)
  {
    MaskShr(x, n);
    ShlAdd(Shr(x, n), 1, n);
    MaskShrUnique(Mask(x, n), Shr(x, n) + 1, n);
  }

  /** Between two numbers with the same low bits lies a whole unit. */
  lemma MaskApart(x: nat, y: nat, n: nat)
    requires x < y && Mask(x, n) == Mask(y, n)
    ensures x + Pow2(n) <= y
  {
    MaskShr(x, n);
    MaskShr(y, n);
    if Shr(x, n) < Shr(y, n) {
      ShlStep(Shr(x, n), Shr(y, n), n);
    } else if Shr(y, n) < Shr(x, n) {
      ShlStep(Shr(y, n), Shr(x, n), n);
    }
  }

  // ----- bit strings as numbers

  lemma LsbSplit(p: Path)
    requires p != []
    ensures Lsb(p) / 2 == Lsb(p[1..])
    ensures Lsb(p) % 2 == Bit(p[0])
  {
    var x := Lsb(p[1..]);
    assert Lsb(p) == Bit(p[0]) + 2 * x;
  }

  lemma MsbSplit(p: Path)
    requires p != []
    ensures Msb(p) / 2 == Msb(p[..|p| - 1])
    ensures Msb(p) % 2 == Bit(p[|p| - 1])
  {
    var x := Msb(p[..|p| - 1]);
    assert Msb(p) == 2 * x + Bit(p[|p| - 1]);
  }

  lemma MsbAdd(p: Path, b: bool)
    ensures Msb(p + [b]) == 2 * Msb(p) + Bit(b)
  {
    assert (p + [b])[..|p|] == p;
  }

  lemma {:induction false} LsbBound(p: Path)
    ensures Lsb(p) < Pow2(|p|)
  {
    if p != [] {
      LsbBound(p[1..]);
    }
  }

  lemma {:induction false} MsbBound(p: Path)
    ensures Msb(p) < Pow2(|p|)
  {
    if p != [] {
      MsbBound(p[..|p| - 1]);
    }
  }

  lemma {:induction false} LsbConcat(p: Path, q: Path)
    ensures Lsb(p + q) == Lsb(p) + Shl(Lsb(q), |p|)
  {
    if p == [] {
      assert p + q == q;
    } else {
      var p' := p[1..];
      assert (p + q)[1..] == p' + q;
      LsbConcat(p', q);
      assert Lsb(p + q) == Bit(p[0]) + 2 * Lsb(p' + q);
      assert Lsb(p) == Bit(p[0]) + 2 * Lsb(p');
    }
  }

  lemma {:induction false} MsbConcat(p: Path, q: Path)
    ensures Msb(p + q) == Shl(Msb(p), |q|) + Msb(q)
  {
    if q == [] {
      assert p + q == p;
    } else {
      var q' := q[..|q| - 1];
      assert (p + q)[..|p + q| - 1] == p + q';
      MsbConcat(p, q');
      assert Msb(p + q) == 2 * Msb(p + q') + Bit(q[|q| - 1]);
      assert Msb(q) == 2 * Msb(q') + Bit(q[|q| - 1]);
    }
  }

  lemma {:induction false} LowLsb(p: Path)
    ensures Low(Lsb(p), |p|) == p
  {
    if p != [] {
      var p' := p[1..];
      LowLsb(p');
      LsbSplit(p);
      assert Low(Lsb(p), |p|) == [p[0]] + Low(Lsb(p'), |p'|);
      assert p == [p[0]] + p';
    }
  }

  lemma {:induction false} LsbLow(buf: nat, n: nat)
    ensures Lsb(Low(buf, n)) == Mask(buf, n)
  {
    if n > 0 {
      var q := Low(buf / 2, n - 1);
      LsbLow(buf / 2, n - 1);
      assert Low(buf, n) == [buf % 2 == 1] + q;
      assert ([buf % 2 == 1] + q)[1..] == q;
    }
  }

  /** Reading fewer bits reads a prefix. */
  lemma {:induction false} LowTake(buf: nat, k: nat, n: nat)
    requires k <= n
    ensures Low(buf, n)[..k] == Low(buf, k)
  {
    if k > 0 {
      var q := Low(buf / 2, n - 1);
      LowTake(buf / 2, k - 1, n - 1);
      assert Low(buf, n) == [buf % 2 == 1] + q;
      assert ([buf % 2 == 1] + q)[..k] == [buf % 2 == 1] + q[..k - 1];
    }
  }

  /** Reading after a shift reads from further on. */
  lemma {:induction false} LowDrop(buf: nat, k: nat, n: nat)
    requires k <= n
    ensures Low(buf, n)[k..] == Low(Shr(buf, k), n - k)
  {
    if k > 0 {
      var q := Low(buf / 2, n - 1);
      LowDrop(buf / 2, k - 1, n - 1);
      assert Low(buf, n) == [buf % 2 == 1] + q;
      assert ([buf % 2 == 1] + q)[k..] == q[k - 1..];
    }
  }

  lemma {:induction false} PathOfMsb(p: Path)
    ensures PathOf(Msb(p), |p|) == p
  {
    if p != [] {
      var p' := p[..|p| - 1];
      PathOfMsb(p');
      MsbSplit(p);
      assert PathOf(Msb(p), |p|) == PathOf(Msb(p'), |p'|) + [p[|p| - 1]];
      assert p == p' + [p[|p| - 1]];
    }
  }

  lemma {:induction false} PathFor(code: nat, n: nat) returns (p: Path)
    requires code < Pow2(n)
    ensures |p| == n && Msb(p) == code
  {
    p := [];
    if n > 0 {
      p := PathFor(code / 2, n - 1);
      MsbAdd(p, code % 2 == 1);
      p := p + [code % 2 == 1];
    }
  }

  lemma MsbPathOf(code: nat, n: nat)
    requires code < Pow2(n)
    ensures Msb(PathOf(code, n)) == code
  {
    var p := PathFor(code, n);
    PathOfMsb(p);
  }

  lemma LsbInjective(p: Path, q: Path)
    requires |p| == |q| && Lsb(p) == Lsb(q)
    ensures p == q
  {
    LowLsb(p);
    LowLsb(q);
  }

  lemma MsbInjective(p: Path, q: Path)
    requires |p| == |q|
    ensures Msb(p) == Msb(q) ==> p == q
  {
    PathOfMsb(p);
    PathOfMsb(q);
  }

  /** A buffer begins with `p` exactly when its low bits spell `p`. */
  lemma LowBegins(buf: nat, p: Path, n: nat)
    requires |p| <= n
    ensures p <= Low(buf, n) <==> Mask(buf, |p|) == Lsb(p)
  {
    LowTake(buf, |p|, n);
    LsbLow(buf, |p|);
    PrefixByValue(p, Low(buf, n));
  }

  lemma PrefixByValue(p: Path, w: Path)
    requires |p| <= |w|
    ensures p <= w <==> Lsb(w[..|p|]) == Lsb(p)
  {
    if p <= w {
      assert w[..|p|] == p;
    } else if Lsb(w[..|p|]) == Lsb(p) {
      LsbInjective(w[..|p|], p);
    }
  }

  lemma LsbTake(p: Path, k: nat)
    requires k <= |p|
    ensures Mask(Lsb(p), k) == Lsb(p[..k])
    ensures Shr(Lsb(p), k) == Lsb(p[k..])
  {
    assert p == p[..k] + p[k..];
    LsbSplitAt(p[..k], p[k..]);
  }

  lemma LsbSplitAt(p: Path, q: Path)
    ensures Mask(Lsb(p + q), |p|) == Lsb(p)
    ensures Shr(Lsb(p + q), |p|) == Lsb(q)
  {
    LsbConcat(p, q);
    LsbBound(p);
    MaskShrUnique(Lsb(p), Lsb(q), |p|);
  }

  /** One shift of a reversed code. */
  lemma LsbStep(p: Path, k: nat)
    requires 0 < k < |p|
    ensures Lsb(p[k - 1..]) / 2 == Lsb(p[k..])
    ensures Lsb(p[k..]) % 2 == Bit(p[k])
  {
    assert p[k - 1..][1..] == p[k..];
    LsbSplit(p[k - 1..]);
    LsbSplit(p[k..]);
  }

  // ----- codes as intervals

  /** The position at which the interval of codes extending `p` begins, on a scale where `n`-bit
      strings are single points. */
  function Lo(p: Path, n: nat): nat
    requires |p| <= n
  {
    Shl(Msb(p), n - |p|)
  }

  /** A code is a prefix of another exactly when its interval contains the other's start. */
  lemma PrefixIsContainment(p: Path, q: Path, n: nat)
    requires |p| <= |q| <= n
    ensures p <= q <==> Lo(p, n) <= Lo(q, n) < Lo(p, n) + Pow2(n - |p|)
  {
    var h, t := q[..|p|], q[|p|..];
    assert q == h + t;
    LoConcat(h, t, n);
    if h == p {
      assert p <= q;
    } else {
      LoSeparated(p, h, n);
    }
  }

  /** Different codes of one length have disjoint intervals. */
  lemma LoSeparated(p: Path, q: Path, n: nat)
    requires |p| == |q| <= n && p != q
    ensures Lo(p, n) + Pow2(n - |p|) <= Lo(q, n) || Lo(q, n) + Pow2(n - |p|) <= Lo(p, n)
  {
    hide Msb;
    MsbInjective(p, q);
    if Msb(p) < Msb(q) {
      ShlStep(Msb(p), Msb(q), n - |p|);
    } else {
      ShlStep(Msb(q), Msb(p), n - |p|);
    }
  }

  lemma LoConcat(h: Path, t: Path, n: nat)
    requires |h| + |t| <= n
    ensures Lo(h, n) <= Lo(h + t, n) < Lo(h, n) + Pow2(n - |h|)
  {
    var u := n - |h| - |t|;
    MsbConcat(h, t);
    MsbBound(t);
    ShlShl(Msb(h), |t|, u);
    ShlShl(1, |t|, u);
    ShlAdd(Shl(Msb(h), |t|), Msb(t), u);
    ShlStep(Msb(t), Pow2(|t|), u);
    Pow2Positive(u);
  }
}
