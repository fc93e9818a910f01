/** Arithmetic in GF(2^8) as the cipher uses it (section 4.2 of FIPS 197), and the mixing of one
    column (section 5.1.3) with its inverse (section 5.3.3). */
module GaloisField {

  /** A byte as its eight bits, the lowest first. */
  datatype Byte = Byte(b0: bool, b1: bool, b2: bool, b3: bool, b4: bool, b5: bool, b6: bool, b7: bool)

  const ZERO := Byte(false, false, false, false, false, false, false, false)
  const NINE := Byte(true, false, false, true, false, false, false, false)
  const ELEVEN := Byte(true, true, false, true, false, false, false, false)
  const THIRTEEN := Byte(true, false, true, true, false, false, false, false)
  const FOURTEEN := Byte(false, true, true, true, false, false, false, false)

  function Xor(a: Byte, b: Byte): Byte
  {
    Byte(a.b0 != b.b0, a.b1 != b.b1, a.b2 != b.b2, a.b3 != b.b3, a.b4 != b.b4, a.b5 != b.b5, a.b6 != b.b6, a.b7 != b.b7)
  }

  /** Multiplication by x: a shift, and the reduction by 0x1b when the top bit falls out. */
  function XTime(x: Byte): Byte
  {
    Byte(x.b7, x.b0 != x.b7, x.b1, x.b2 != x.b7, x.b3 != x.b7, x.b4, x.b5, x.b6)
  }

  function Pick(bit: bool, x: Byte): Byte
  {
    if bit then x else ZERO
  }

  /** Multiplication by a constant of up to five bits. */
  function Multiply(x: Byte, y: Byte): Byte
  {
    var x1 := XTime(x);
    var x2 := XTime(x1);
    var x3 := XTime(x2);
    var x4 := XTime(x3);
    Xor(Xor(Xor(Xor(Pick(y.b0, x), Pick(y.b1, x1)), Pick(y.b2, x2)), Pick(y.b3, x3)), Pick(y.b4, x4))
  }

  // ----- exclusive or

  lemma XorSwap(a: Byte, b: Byte, c: Byte, d: Byte)
    ensures Xor(Xor(a, b), Xor(c, d)) == Xor(Xor(a, c), Xor(b, d))
  {
  }

  lemma XorCancel(a: Byte, b: Byte)
    ensures Xor(Xor(a, b), b) == a
  {
  }

  lemma XorZero(a: Byte)
    ensures Xor(a, ZERO) == a && Xor(ZERO, a) == a
  {
  }

  lemma XTimeXor(a: Byte, b: Byte)
    ensures XTime(Xor(a, b)) == Xor(XTime(a), XTime(b))
  {
  }

  lemma PickXor(bit: bool, a: Byte, b: Byte)
    ensures Pick(bit, Xor(a, b)) == Xor(Pick(bit, a), Pick(bit, b))
  {
  }

  // ----- multiplication

  /** Multiplication by a constant is linear. */
  lemma MultiplyXor(a: Byte, b: Byte, y: Byte)
    ensures Multiply(Xor(a, b), y) == Xor(Multiply(a, y), Multiply(b, y))
  {
    hide Xor;
    hide XTime;
    hide Pick;
    var a1, b1 := XTime(a), XTime(b);
    var a2, b2 := XTime(a1), XTime(b1);
    var a3, b3 := XTime(a2), XTime(b2);
    var a4, b4 := XTime(a3), XTime(b3);
    XTimeXor(a, b);
    XTimeXor(a1, b1);
    XTimeXor(a2, b2);
    XTimeXor(a3, b3);
    PickXor(y.b0, a, b);
    PickXor(y.b1, a1, b1);
    PickXor(y.b2, a2, b2);
    PickXor(y.b3, a3, b3);
    PickXor(y.b4, a4, b4);
    var s0, t0 := Pick(y.b0, a), Pick(y.b0, b);
    var s1, t1 := Xor(s0, Pick(y.b1, a1)), Xor(t0, Pick(y.b1, b1));
    var s2, t2 := Xor(s1, Pick(y.b2, a2)), Xor(t1, Pick(y.b2, b2));
    var s3, t3 := Xor(s2, Pick(y.b3, a3)), Xor(t2, Pick(y.b3, b3));
    XorSwap(s0, t0, Pick(y.b1, a1), Pick(y.b1, b1));
    XorSwap(s1, t1, Pick(y.b2, a2), Pick(y.b2, b2));
    XorSwap(s2, t2, Pick(y.b3, a3), Pick(y.b3, b3));
    XorSwap(s3, t3, Pick(y.b4, a4), Pick(y.b4, b4));
  }

  /** The four multipliers of the inverse mixing. */
  lemma Multipliers(x: Byte, x1: Byte, x2: Byte, x3: Byte)
    requires x1 == XTime(x) && x2 == XTime(x1) && x3 == XTime(x2)
    ensures Multiply(x, FOURTEEN) == Xor(Xor(x1, x2), x3) && Multiply(x, ELEVEN) == Xor(Xor(x, x1), x3)
    ensures Multiply(x, THIRTEEN) == Xor(Xor(x, x2), x3) && Multiply(x, NINE) == Xor(x, x3)
  {
    hide XTime;
    hide Xor;
    XorZero(x);
    XorZero(x1);
    XorZero(x2);
    XorZero(Xor(x, x1));
    XorZero(Xor(x, x2));
    XorZero(Xor(x1, x2));
    XorZero(Xor(x, x3));
    XorZero(Xor(Xor(x1, x2), x3));
    XorZero(Xor(Xor(x, x1), x3));
    XorZero(Xor(Xor(x, x2), x3));
  }

  // ----- one column

  function Triple(x: Byte): Byte
  {
    Xor(XTime(x), x)
  }

  /** The byte of a mixed column that belongs to `a`; `b`, `c`, `d` follow it around the column. */
  function Mixed(a: Byte, b: Byte, c: Byte, d: Byte): Byte
  {
    Xor(Xor(XTime(a), Triple(b)), Xor(c, d))
  }

  function Unmixed(a: Byte, b: Byte, c: Byte, d: Byte): Byte
  {
    Xor(Xor(Multiply(a, FOURTEEN), Multiply(b, ELEVEN)), Xor(Multiply(c, THIRTEEN), Multiply(d, NINE)))
  }

  /** The form in which the code computes a mixed byte. */
  lemma MixedByTotal(a: Byte, b: Byte, c: Byte, d: Byte, total: Byte)
    requires total == Xor(Xor(Xor(a, b), c), d)
    ensures Xor(a, Xor(XTime(Xor(a, b)), total)) == Mixed(a, b, c, d)
  {
    hide Xor;
    hide XTime;
    var p, q := XTime(a), XTime(b);
    XTimeXor(a, b);
    XorAssoc(Xor(a, b), c, d);
    XorAssoc(Xor(p, q), Xor(a, b), Xor(c, d));
    XorAssoc(a, Xor(Xor(p, q), Xor(a, b)), Xor(c, d));
    XorSwap(p, q, a, b);
    XorAssoc(a, Xor(p, a), Xor(q, b));
    XorComm(a, Xor(p, a));
    XorCancel(p, a);
  }

  lemma UnmixedXor(a: Byte, b: Byte, c: Byte, d: Byte, e: Byte, f: Byte, g: Byte, h: Byte)
    ensures Unmixed(Xor(a, e), Xor(b, f), Xor(c, g), Xor(d, h)) == Xor(Unmixed(a, b, c, d), Unmixed(e, f, g, h))
  {
    hide Xor;
    hide Multiply;
    MultiplyXor(a, e, FOURTEEN);
    MultiplyXor(b, f, ELEVEN);
    MultiplyXor(c, g, THIRTEEN);
    MultiplyXor(d, h, NINE);
    var a', b', c', d' := Multiply(a, FOURTEEN), Multiply(b, ELEVEN), Multiply(c, THIRTEEN), Multiply(d, NINE);
    var e', f', g', h' := Multiply(e, FOURTEEN), Multiply(f, ELEVEN), Multiply(g, THIRTEEN), Multiply(h, NINE);
    XorSwap(a', e', b', f');
    XorSwap(c', g', d', h');
    XorSwap(Xor(a', b'), Xor(e', f'), Xor(c', d'), Xor(g', h'));
  }

  lemma XorComm(a: Byte, b: Byte)
    ensures Xor(a, b) == Xor(b, a)
  {
  }

  lemma XorAssoc(a: Byte, b: Byte, c: Byte)
    ensures Xor(Xor(a, b), c) == Xor(a, Xor(b, c))
  {
  }

  lemma XorSelf(a: Byte)
    ensures Xor(a, a) == ZERO
  {
  }

  /** Equal parts of two sums cancel, wherever they stand. */
  lemma XorDrop(a: Byte, b: Byte, c: Byte)
    ensures Xor(Xor(a, c), Xor(b, c)) == Xor(a, b)
    ensures Xor(Xor(c, a), Xor(b, c)) == Xor(a, b)
    ensures Xor(Xor(c, a), Xor(c, b)) == Xor(a, b)
  {
    hide Xor;
    XorSwap(a, c, b, c);
    XorSelf(c);
    XorZero(Xor(a, b));
    XorComm(a, c);
    XorComm(b, c);
  }

  lemma ShareOwn(x: Byte, x1: Byte, x2: Byte, x3: Byte, x4: Byte)
    ensures Xor(Xor(Xor(Xor(x2, x3), x4), Xor(Xor(x, x1), x3)), Xor(Xor(Xor(x, x2), x3), Xor(Xor(x1, x4), Xor(x, x3)))) == x
  {
    hide Xor;
    var d, e := Xor(x, x1), Xor(x1, x4);
    XorComm(d, x3);
    XorSwap(Xor(x2, x3), x4, x3, d);
    XorCancel(x2, x3);
    XorAssoc(e, x, x3);
    XorDrop(Xor(x, x2), Xor(e, x), x3);
    XorDrop(x2, e, x);
    XorDrop(Xor(x4, d), e, x2);
    XorDrop(d, x1, x4);
    XorCancel(x, x1);
  }

  lemma ShareNext(x: Byte, x1: Byte, x2: Byte, x3: Byte, x4: Byte)
    ensures Xor(Xor(Xor(Xor(Xor(x2, x3), x4), Xor(Xor(x1, x2), x3)), Xor(Xor(x1, x2), x4)), Xor(Xor(Xor(x, x2), x3), Xor(x, x3))) == ZERO
  {
    hide Xor;
    XorDrop(Xor(x, x2), x, x3);
    XorComm(x, x2);
    XorCancel(x2, x);
    XorSwap(Xor(x2, x3), x4, Xor(x1, x2), x3);
    XorDrop(x3, x1, x2);
    XorComm(x3, x1);
    XorDrop(x1, x4, x3);
    XorDrop(x1, Xor(x1, x2), x4);
    XorComm(x1, x2);
    XorComm(x1, Xor(x2, x1));
    XorCancel(x2, x1);
    XorSelf(x2);
  }

  lemma ShareOpposite(x: Byte, x1: Byte, x2: Byte, x3: Byte, x4: Byte)
    ensures Xor(Xor(Xor(Xor(x1, x2), x3), Xor(Xor(Xor(x1, x2), x4), Xor(Xor(x, x1), x3))), Xor(Xor(Xor(x1, x3), x4), Xor(x, x3))) == ZERO
  {
    hide Xor;
    var m, a, b, c := Xor(Xor(x1, x2), x3), Xor(x4, x3), Xor(x2, x), Xor(Xor(x1, x3), x);
    XorSwap(Xor(x1, x2), x4, Xor(x, x1), x3);
    XorDrop(x2, x, x1);
    XorSwap(Xor(x1, x3), x4, x, x3);
    XorAssoc(m, b, a);
    XorDrop(Xor(m, b), c, a);
    XorSwap(Xor(x1, x2), x3, x2, x);
    XorCancel(x1, x2);
    XorAssoc(x1, x3, x);
    XorSelf(c);
  }

  lemma ShareLast(x: Byte, x1: Byte, x2: Byte, x3: Byte, x4: Byte)
    ensures Xor(Xor(Xor(Xor(x1, x2), x3), Xor(Xor(x, x1), x3)), Xor(Xor(Xor(Xor(x1, x3), x4), Xor(Xor(x, x2), x3)), Xor(x1, x4))) == ZERO
  {
    hide Xor;
    var d, e := Xor(x, x2), Xor(x1, x4);
    XorDrop(Xor(x1, x2), Xor(x, x1), x3);
    XorDrop(x2, x, x1);
    XorComm(d, x3);
    XorSwap(Xor(x1, x3), x4, x3, d);
    XorCancel(x1, x3);
    XorAssoc(x1, x4, d);
    XorComm(e, d);
    XorCancel(d, e);
    XorComm(x2, x);
    XorSelf(d);
  }

  /** Cancellation for a single byte: its own share is the byte itself, the other three vanish. */
  lemma Shares(x: Byte)
    ensures Unmixed(XTime(x), x, x, Triple(x)) == x
    ensures Unmixed(Triple(x), XTime(x), x, x) == ZERO
    ensures Unmixed(x, Triple(x), XTime(x), x) == ZERO
    ensures Unmixed(x, x, Triple(x), XTime(x)) == ZERO
  {
    hide XTime;
    hide Multiply;
    hide Xor;
    var x1 := XTime(x);
    var x2 := XTime(x1);
    var x3 := XTime(x2);
    var x4 := XTime(x3);
    Multipliers(x, x1, x2, x3);
    Multipliers(x1, x2, x3, x4);
    MultiplyXor(x1, x, NINE);
    MultiplyXor(x1, x, FOURTEEN);
    MultiplyXor(x1, x, ELEVEN);
    MultiplyXor(x1, x, THIRTEEN);
    ShareOwn(x, x1, x2, x3, x4);
    ShareNext(x, x1, x2, x3, x4);
    ShareOpposite(x, x1, x2, x3, x4);
    ShareLast(x, x1, x2, x3, x4);
  }

  /** The inverse mixing undoes the mixing. */
  lemma MixRoundTrip(a: Byte, b: Byte, c: Byte, d: Byte)
    ensures Unmixed(Mixed(a, b, c, d), Mixed(b, c, d, a), Mixed(c, d, a, b), Mixed(d, a, b, c)) == a
  {
    hide Xor;
    hide XTime;
    hide Unmixed;
    hide Triple;
    var a2, a3, b2, b3 := XTime(a), Triple(a), XTime(b), Triple(b);
    var c2, c3, d2, d3 := XTime(c), Triple(c), XTime(d), Triple(d);
    // each mixed byte as (share of a, share of b) and (share of c, share of d)
    XorSwap(b2, c3, d, a);
    XorSwap(c2, d3, a, b);
    XorParts(b2, c3, d, a);
    XorParts(c2, d3, a, b);
    XorParts(d2, a3, b, c);
    UnmixedXor(Xor(a2, b3), Xor(a, b2), Xor(a, b), Xor(a3, b), Xor(c, d), Xor(c3, d), Xor(c2, d3), Xor(c, d2));
    UnmixedXor(a2, a, a, a3, b3, b2, b, b);
    UnmixedXor(c, c3, c2, c, d, d, d3, d2);
    Shares(a);
    Shares(b);
    Shares(c);
    Shares(d);
    XorZero(a);
    XorZero(ZERO);
  }

  lemma XorParts(p: Byte, q: Byte, r: Byte, s: Byte)
    ensures Xor(Xor(p, q), Xor(r, s)) == Xor(Xor(s, p), Xor(q, r))
    ensures Xor(Xor(p, q), Xor(r, s)) == Xor(Xor(r, s), Xor(p, q))
    ensures Xor(Xor(p, q), Xor(r, s)) == Xor(Xor(q, r), Xor(s, p))
  {
    hide Xor;
    XorComm(r, s);
    XorSwap(p, q, s, r);
    XorComm(p, s);
    XorComm(q, r);
    XorComm(Xor(p, q), Xor(r, s));
    XorComm(Xor(s, p), Xor(q, r));
  }

  /** A sum of four is the same wherever it starts. */
  lemma XorTurn(p: Byte, q: Byte, r: Byte, s: Byte)
    ensures Xor(Xor(Xor(p, q), r), s) == Xor(Xor(p, q), Xor(r, s))
    ensures Xor(Xor(Xor(p, q), r), s) == Xor(Xor(q, r), Xor(s, p)) == Xor(Xor(Xor(q, r), s), p)
    ensures Xor(Xor(Xor(p, q), r), s) == Xor(Xor(r, s), Xor(p, q)) == Xor(Xor(Xor(r, s), p), q)
    ensures Xor(Xor(Xor(p, q), r), s) == Xor(Xor(s, p), Xor(q, r)) == Xor(Xor(Xor(s, p), q), r)
  {
    hide Xor;
    XorAssoc(Xor(p, q), r, s);
    XorAssoc(Xor(q, r), s, p);
    XorAssoc(Xor(r, s), p, q);
    XorAssoc(Xor(s, p), q, r);
    XorParts(p, q, r, s);
  }
}
