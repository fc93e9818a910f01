/** The field of section 4.2 of FIPS 197, defined by polynomials over the two-element field, and what the
    arithmetic of the cipher is in it. */
module AesField {
  import opened GaloisField

  /** A polynomial of degree below 16: bit `k` is the coefficient of x^k. */
  datatype Poly = Poly(bits: bv16)

  const NONE := Poly(0)
  const ONE := Poly(1)

  /** The sum of coefficients, place by place. */
  function Sum(a: bv16, b: bv16): bv16
  {
    a ^ b
  }

  function Plus(p: Poly, q: Poly): Poly
  {
    Poly(Sum(p.bits, q.bits))
  }

  /** The product by x. */
  function Up(p: Poly): Poly
  {
    Poly(p.bits << 1)
  }

  /** The product by x^k. */
  function Shifted(p: Poly, k: nat): Poly
  {
    if k == 0 then p else Up(Shifted(p, k - 1))
  }

  function Term(b: bool, p: Poly): Poly
  {
    if b then p else NONE
  }

  /** Bit `k` of a byte. */
  predicate At(x: Byte, k: nat)
  {
    if k == 0 then x.b0 else if k == 1 then x.b1 else if k == 2 then x.b2 else if k == 3 then x.b3
    else if k == 4 then x.b4 else if k == 5 then x.b5 else if k == 6 then x.b6 else x.b7
  }

  function BitOf(b: bool, k: bv16): bv16
  {
    if b then k else 0
  }

  function LowBits(x: Byte): bv16
  {
    (BitOf(x.b0, 0x01) | BitOf(x.b1, 0x02)) | (BitOf(x.b2, 0x04) | BitOf(x.b3, 0x08))
  }

  function HighBits(x: Byte): bv16
  {
    (BitOf(x.b4, 0x10) | BitOf(x.b5, 0x20)) | (BitOf(x.b6, 0x40) | BitOf(x.b7, 0x80))
  }

  /** The polynomial of a byte. */
  function PolyOf(x: Byte): Poly
  {
    Poly(LowBits(x) | HighBits(x))
  }

  /** The product of polynomials of degree below 8. */
  function PolyTimes(p: Poly, y: Byte): Poly
  {
    Plus(Plus(Plus(Term(y.b0, p), Term(y.b1, Shifted(p, 1))), Plus(Term(y.b2, Shifted(p, 2)), Term(y.b3, Shifted(p, 3)))),
         Plus(Plus(Term(y.b4, Shifted(p, 4)), Term(y.b5, Shifted(p, 5))),
             Plus(Term(y.b6, Shifted(p, 6)), Term(y.b7, Shifted(p, 7)))))
  }

  /** x^8 + x^4 + x^3 + x + 1. */
  const MODULUS := Poly(0x11b)

  predicate Has(a: bv16, m: bv16)
  {
    a & m != 0
  }

  predicate Leads(p: Poly, top: bv16)
  {
    Has(p.bits, top)
  }

  /** One step of the division: a leading term is cleared by a multiple of the modulus. */
  function Divided(p: Poly, top: bv16, multiple: Poly): Poly
  {
    if Leads(p, top) then Plus(p, multiple) else p
  }

  function Remainder(p: Poly): Poly
  {
    var p14 := Divided(p, 0x4000, Shifted(MODULUS, 6));
    var p13 := Divided(p14, 0x2000, Shifted(MODULUS, 5));
    var p12 := Divided(p13, 0x1000, Shifted(MODULUS, 4));
    var p11 := Divided(p12, 0x0800, Shifted(MODULUS, 3));
    var p10 := Divided(p11, 0x0400, Shifted(MODULUS, 2));
    var p9 := Divided(p10, 0x0200, Shifted(MODULUS, 1));
    Divided(p9, 0x0100, MODULUS)
  }

  /** The product in the field. */
  function Product(x: Byte, y: Byte): Poly
  {
    Remainder(PolyTimes(PolyOf(x), y))
  }

  /** The byte of a number. */
  function Hex(n: bv8): Byte
  {
    Byte(n & 0x01 != 0, n & 0x02 != 0, n & 0x04 != 0, n & 0x08 != 0,
         n & 0x10 != 0, n & 0x20 != 0, n & 0x40 != 0, n & 0x80 != 0)
  }

  // ----- the map of section 5.1.1

  /** Turned left by `k` places. */
  function Turned(n: bv8, k: bv4): bv8
    requires k < 8
  {
    (n << k) | (n >> (8 - k))
  }

  /** The affine map of the substitution table. */
  function Affine(n: bv8): bv8
  {
    n ^ Turned(n, 1) ^ Turned(n, 2) ^ Turned(n, 3) ^ Turned(n, 4) ^ 0x63
  }

  function Bit(n: bv8, i: bv8): bv8
    requires i < 8
  {
    (n >> i) & 1
  }

  /** Equation 5.1: bit i of the map is the sum of bits i, i + 4, i + 5, i + 6, i + 7 and of bit i of 01100011. */
  lemma AffineIs(n: bv8, i: bv8)
    requires i < 8
    ensures Bit(Affine(n), i)
            == Bit(n, i) ^ Bit(n, (i + 4) % 8) ^ Bit(n, (i + 5) % 8) ^ Bit(n, (i + 6) % 8) ^ Bit(n, (i + 7) % 8)
                ^ Bit(0x63, i)
  {
  }

  /** Of degree below 8. */
  predicate Small(p: Poly)
  {
    p.bits < 0x100
  }

  // ----- sums

  lemma SumAssoc(a: bv16, b: bv16, c: bv16)
    ensures Sum(Sum(a, b), c) == Sum(a, Sum(b, c))
  {
  }

  lemma SumComm(a: bv16, b: bv16)
    ensures Sum(a, b) == Sum(b, a)
  {
  }

  lemma SumSelf(a: bv16)
    ensures Sum(a, a) == 0 && Sum(a, 0) == a == Sum(0, a)
  {
  }

  lemma SumSwap(a: bv16, b: bv16, c: bv16, d: bv16)
    ensures Sum(Sum(a, b), Sum(c, d)) == Sum(Sum(a, c), Sum(b, d))
  {
    hide Sum;
    SumAssoc(a, b, Sum(c, d));
    SumAssoc(b, c, d);
    SumComm(b, c);
    SumAssoc(c, b, d);
    SumAssoc(a, c, Sum(b, d));
  }

  lemma SumCancels(p: bv16, q: bv16, m: bv16)
    ensures Sum(Sum(p, m), Sum(q, m)) == Sum(p, q) && Sum(Sum(p, m), q) == Sum(Sum(p, q), m) == Sum(p, Sum(q, m))
  {
    hide Sum;
    SumSwap(p, m, q, m);
    SumSelf(m);
    SumSelf(Sum(p, q));
    SumAssoc(p, m, q);
    SumComm(m, q);
    SumAssoc(p, q, m);
  }

  lemma PlusSwap(a: Poly, b: Poly, c: Poly, d: Poly)
    ensures Plus(Plus(a, b), Plus(c, d)) == Plus(Plus(a, c), Plus(b, d))
  {
    hide Sum;
    SumSwap(a.bits, b.bits, c.bits, d.bits);
  }

  lemma PlusCancels(p: Poly, q: Poly, m: Poly)
    ensures Plus(Plus(p, m), Plus(q, m)) == Plus(p, q)
    ensures Plus(Plus(p, m), q) == Plus(Plus(p, q), m) && Plus(p, Plus(q, m)) == Plus(Plus(p, q), m)
  {
    hide Sum;
    SumCancels(p.bits, q.bits, m.bits);
  }

  lemma TermXor(x: Byte, y: Byte, k: nat, p: Poly)
    ensures Term(At(Xor(x, y), k), p) == Plus(Term(At(x, k), p), Term(At(y, k), p))
  {
    hide Plus;
    PlusZero(p);
    PlusZero(NONE);
  }

  lemma PlusZero(p: Poly)
    ensures Plus(p, NONE) == p && Plus(NONE, p) == p && Plus(p, p) == NONE
  {
  }

  /** Bits in different places add up to a sum. */
  lemma LowSum(x: Byte)
    ensures LowBits(x) & 0x0f == LowBits(x)
    ensures Poly(LowBits(x)) == Plus(Plus(Term(At(x, 0), Poly(0x01)), Term(At(x, 1), Poly(0x02))),
                                     Plus(Term(At(x, 2), Poly(0x04)), Term(At(x, 3), Poly(0x08))))
  {
  }

  lemma HighSum(x: Byte)
    ensures HighBits(x) & 0xf0 == HighBits(x)
    ensures Poly(HighBits(x)) == Plus(Plus(Term(At(x, 4), Poly(0x10)), Term(At(x, 5), Poly(0x20))),
                                      Plus(Term(At(x, 6), Poly(0x40)), Term(At(x, 7), Poly(0x80))))
  {
  }

  lemma SumOf(a: bv16, b: bv16)
    requires a & 0x0f == a && b & 0xf0 == b
    ensures Poly(a | b) == Plus(Poly(a), Poly(b))
  {
  }

  lemma PolySum(x: Byte)
    ensures PolyOf(x) ==
            Plus(Plus(Plus(Term(At(x, 0), Poly(0x01)), Term(At(x, 1), Poly(0x02))),
                Plus(Term(At(x, 2), Poly(0x04)), Term(At(x, 3), Poly(0x08)))),
                 Plus(Plus(Term(At(x, 4), Poly(0x10)), Term(At(x, 5), Poly(0x20))),
                     Plus(Term(At(x, 6), Poly(0x40)), Term(At(x, 7), Poly(0x80)))))
  {
    hide LowBits;
    hide HighBits;
    hide Term;
    hide Plus;
    hide At;
    LowSum(x);
    HighSum(x);
    SumOf(LowBits(x), HighBits(x));
  }

  lemma XorIs(x: Byte, y: Byte)
    ensures PolyOf(Xor(x, y)) == Plus(PolyOf(x), PolyOf(y))
  {
    hide Plus;
    hide Term;
    hide At;
    hide PolyOf;
    hide Xor;
    PolySum(x);
    PolySum(y);
    PolySum(Xor(x, y));
    TermXor(x, y, 0, Poly(0x01));
    TermXor(x, y, 1, Poly(0x02));
    TermXor(x, y, 2, Poly(0x04));
    TermXor(x, y, 3, Poly(0x08));
    TermXor(x, y, 4, Poly(0x10));
    TermXor(x, y, 5, Poly(0x20));
    TermXor(x, y, 6, Poly(0x40));
    TermXor(x, y, 7, Poly(0x80));
    var s0, s1, s2, s3 := Term(At(x, 0), Poly(0x01)), Term(At(x, 1), Poly(0x02)), Term(At(x, 2), Poly(0x04)),
        Term(At(x, 3), Poly(0x08));
    var s4, s5, s6, s7 := Term(At(x, 4), Poly(0x10)), Term(At(x, 5), Poly(0x20)), Term(At(x, 6), Poly(0x40)),
        Term(At(x, 7), Poly(0x80));
    var t0, t1, t2, t3 := Term(At(y, 0), Poly(0x01)), Term(At(y, 1), Poly(0x02)), Term(At(y, 2), Poly(0x04)),
        Term(At(y, 3), Poly(0x08));
    var t4, t5, t6, t7 := Term(At(y, 4), Poly(0x10)), Term(At(y, 5), Poly(0x20)), Term(At(y, 6), Poly(0x40)),
        Term(At(y, 7), Poly(0x80));
    PlusSwap(s0, t0, s1, t1);
    PlusSwap(s2, t2, s3, t3);
    PlusSwap(s4, t4, s5, t5);
    PlusSwap(s6, t6, s7, t7);
    PlusSwap(Plus(s0, s1), Plus(t0, t1), Plus(s2, s3), Plus(t2, t3));
    PlusSwap(Plus(s4, s5), Plus(t4, t5), Plus(s6, s7), Plus(t6, t7));
    PlusSwap(Plus(Plus(s0, s1), Plus(s2, s3)), Plus(Plus(t0, t1), Plus(t2, t3)),
             Plus(Plus(s4, s5), Plus(s6, s7)), Plus(Plus(t4, t5), Plus(t6, t7)));
  }

  // ----- remainders

  ghost predicate Adds(p: Poly, q: Poly, top: bv16)
  {
    Leads(Plus(p, q), top) == (Leads(p, top) != Leads(q, top))
  }

  lemma BitsAdd(p: bv16, q: bv16, m: bv16)
    requires m == 0x4000 || m == 0x2000 || m == 0x1000 || m == 0x0800 || m == 0x0400 || m == 0x0200 || m == 0x0100
    ensures Has(Sum(p, q), m) == (Has(p, m) != Has(q, m))
  {
  }

  lemma AddsAt(p: Poly, q: Poly)
    ensures Adds(p, q, 0x4000) && Adds(p, q, 0x2000) && Adds(p, q, 0x1000) && Adds(p, q, 0x0800)
    ensures Adds(p, q, 0x0400) && Adds(p, q, 0x0200) && Adds(p, q, 0x0100)
  {
    hide Sum;
    hide Has;
    BitsAdd(p.bits, q.bits, 0x4000);
    BitsAdd(p.bits, q.bits, 0x2000);
    BitsAdd(p.bits, q.bits, 0x1000);
    BitsAdd(p.bits, q.bits, 0x0800);
    BitsAdd(p.bits, q.bits, 0x0400);
    BitsAdd(p.bits, q.bits, 0x0200);
    BitsAdd(p.bits, q.bits, 0x0100);
  }

  lemma DividedPlus(p: Poly, q: Poly, top: bv16, multiple: Poly)
    requires Adds(p, q, top)
    ensures Divided(Plus(p, q), top, multiple) == Plus(Divided(p, top, multiple), Divided(q, top, multiple))
  {
    hide Plus;
    hide Leads;
    PlusCancels(p, q, multiple);
  }

  /** Taking the remainder is linear. */
  lemma RemainderPlus(p: Poly, q: Poly)
    ensures Remainder(Plus(p, q)) == Plus(Remainder(p), Remainder(q))
  {
    hide Divided;
    hide Adds;
    hide Plus;
    AddsAt(p, q);
    DividedPlus(p, q, 0x4000, Shifted(MODULUS, 6));
    var p14, q14 := Divided(p, 0x4000, Shifted(MODULUS, 6)), Divided(q, 0x4000, Shifted(MODULUS, 6));
    AddsAt(p14, q14);
    DividedPlus(p14, q14, 0x2000, Shifted(MODULUS, 5));
    var p13, q13 := Divided(p14, 0x2000, Shifted(MODULUS, 5)), Divided(q14, 0x2000, Shifted(MODULUS, 5));
    AddsAt(p13, q13);
    DividedPlus(p13, q13, 0x1000, Shifted(MODULUS, 4));
    var p12, q12 := Divided(p13, 0x1000, Shifted(MODULUS, 4)), Divided(q13, 0x1000, Shifted(MODULUS, 4));
    AddsAt(p12, q12);
    DividedPlus(p12, q12, 0x0800, Shifted(MODULUS, 3));
    var p11, q11 := Divided(p12, 0x0800, Shifted(MODULUS, 3)), Divided(q12, 0x0800, Shifted(MODULUS, 3));
    AddsAt(p11, q11);
    DividedPlus(p11, q11, 0x0400, Shifted(MODULUS, 2));
    var p10, q10 := Divided(p11, 0x0400, Shifted(MODULUS, 2)), Divided(q11, 0x0400, Shifted(MODULUS, 2));
    AddsAt(p10, q10);
    DividedPlus(p10, q10, 0x0200, Shifted(MODULUS, 1));
    var p9, q9 := Divided(p10, 0x0200, Shifted(MODULUS, 1)), Divided(q10, 0x0200, Shifted(MODULUS, 1));
    AddsAt(p9, q9);
    DividedPlus(p9, q9, 0x0100, MODULUS);
  }

  lemma ShiftOne(p: Poly)
    requires Small(p)
    ensures Remainder(p) == p && Remainder(Up(p)) == if Leads(p, 0x80) then Plus(Up(p), MODULUS) else Up(p)
  {
  }

  lemma UpPlus(p: Poly, q: Poly)
    ensures Up(Plus(p, q)) == Plus(Up(p), Up(q))
  {
  }

  lemma Multiples()
    ensures Remainder(MODULUS) == NONE && Remainder(Shifted(MODULUS, 1)) == NONE && Remainder(Shifted(MODULUS, 2)) == NONE
    ensures Remainder(Shifted(MODULUS, 3)) == NONE && Remainder(Shifted(MODULUS, 4)) == NONE
    ensures Remainder(Shifted(MODULUS, 5)) == NONE && Remainder(Shifted(MODULUS, 6)) == NONE
  {
  }

  /** Dividing before or after a shift leaves the same remainder. */
  lemma DividedShift(p: Poly, top: bv16, multiple: Poly)
    requires Remainder(Up(multiple)) == NONE
    ensures Remainder(Up(Divided(p, top, multiple))) == Remainder(Up(p))
  {
    hide Plus;
    hide Remainder;
    hide Up;
    UpPlus(p, multiple);
    RemainderPlus(Up(p), Up(multiple));
    PlusZero(Remainder(Up(p)));
  }

  /** Shifting before or after taking the remainder makes no difference. */
  lemma RemainderShift(p: Poly)
    requires !Leads(p, 0x4000)
    ensures Remainder(Up(p)) == Remainder(Up(Remainder(p)))
  {
    Multiples();
    var p13 := Divided(p, 0x2000, Shifted(MODULUS, 5));
    var p12 := Divided(p13, 0x1000, Shifted(MODULUS, 4));
    var p11 := Divided(p12, 0x0800, Shifted(MODULUS, 3));
    var p10 := Divided(p11, 0x0400, Shifted(MODULUS, 2));
    var p9 := Divided(p10, 0x0200, Shifted(MODULUS, 1));
    var p8 := Divided(p9, 0x0100, MODULUS);
    assert Remainder(p) == p8;
    hide Remainder;
    hide Divided;
    hide Up;
    DividedShift(p, 0x2000, Shifted(MODULUS, 5));
    DividedShift(p13, 0x1000, Shifted(MODULUS, 4));
    DividedShift(p12, 0x0800, Shifted(MODULUS, 3));
    DividedShift(p11, 0x0400, Shifted(MODULUS, 2));
    DividedShift(p10, 0x0200, Shifted(MODULUS, 1));
    DividedShift(p9, 0x0100, MODULUS);
  }

  // ----- the arithmetic of the cipher

  lemma TopBit(x: Byte)
    ensures Small(PolyOf(x)) && (Leads(PolyOf(x), 0x80) <==> x.b7)
  {
  }

  lemma XTimeShifts(x: Byte)
    ensures PolyOf(XTime(x)) == if x.b7 then Plus(Up(PolyOf(x)), MODULUS) else Up(PolyOf(x))
  {
  }

  const TWO := Byte(false, true, false, false, false, false, false, false)

  lemma TimesTwo(p: Poly)
    ensures PolyTimes(p, TWO) == Up(p)
  {
    hide Plus;
    assert Shifted(p, 1) == Up(Shifted(p, 0));
    PlusZero(NONE);
    PlusZero(Up(p));
  }

  /** The shift of the code is multiplication by x. */
  lemma XTimeIs(x: Byte)
    ensures PolyOf(XTime(x)) == Product(x, TWO) == Remainder(Up(PolyOf(x)))
  {
    hide PolyOf;
    hide Remainder;
    hide PolyTimes;
    hide XTime;
    TimesTwo(PolyOf(x));
    XTimeShifts(x);
    TopBit(x);
    ShiftOne(PolyOf(x));
  }

  lemma PickIs(b: bool, x: Byte)
    ensures PolyOf(Pick(b, x)) == Term(b, PolyOf(x))
  {
  }

  lemma TermRemainder(b: bool, p: Poly)
    ensures Remainder(Term(b, p)) == Term(b, Remainder(p))
  {
  }

  lemma Shifts(p: Poly)
    requires Small(p)
    ensures Remainder(Shifted(p, 2)) == Remainder(Up(Remainder(Shifted(p, 1))))
    ensures Remainder(Shifted(p, 3)) == Remainder(Up(Remainder(Shifted(p, 2))))
    ensures Remainder(Shifted(p, 4)) == Remainder(Up(Remainder(Shifted(p, 3))))
  {
    hide Remainder;
    assert Shifted(p, 1) == Up(Shifted(p, 0)) && Shifted(p, 2) == Up(Shifted(p, 1));
    assert Shifted(p, 3) == Up(Shifted(p, 2)) && Shifted(p, 4) == Up(Shifted(p, 3));
    RemainderShift(Shifted(p, 1));
    RemainderShift(Shifted(p, 2));
    RemainderShift(Shifted(p, 3));
  }

  /** The multiplication of the code, by up to five bits, is the product in the field. */
  lemma MultiplyIs(x: Byte, y: Byte)
    requires !y.b5 && !y.b6 && !y.b7
    ensures PolyOf(Multiply(x, y)) == Product(x, y)
  {
    hide PolyOf;
    hide Remainder;
    hide XTime;
    hide Xor;
    hide Pick;
    hide Plus;
    var p := PolyOf(x);
    var x1 := XTime(x);
    var x2 := XTime(x1);
    var x3 := XTime(x2);
    var x4 := XTime(x3);
    TopBit(x);
    XTimeIs(x);
    XTimeIs(x1);
    XTimeIs(x2);
    XTimeIs(x3);
    ShiftOne(p);
    Shifts(p);
    PickIs(y.b0, x);
    PickIs(y.b1, x1);
    PickIs(y.b2, x2);
    PickIs(y.b3, x3);
    PickIs(y.b4, x4);
    TermRemainder(y.b0, p);
    TermRemainder(y.b1, Shifted(p, 1));
    TermRemainder(y.b2, Shifted(p, 2));
    TermRemainder(y.b3, Shifted(p, 3));
    TermRemainder(y.b4, Shifted(p, 4));
    var t0, t1, t2, t3, t4 := Pick(y.b0, x), Pick(y.b1, x1), Pick(y.b2, x2), Pick(y.b3, x3), Pick(y.b4, x4);
    XorIs(t0, t1);
    XorIs(Xor(t0, t1), t2);
    XorIs(Xor(Xor(t0, t1), t2), t3);
    XorIs(Xor(Xor(Xor(t0, t1), t2), t3), t4);
    var r0, r1, r2, r3, r4 := Term(y.b0, p), Term(y.b1, Shifted(p, 1)), Term(y.b2, Shifted(p, 2)),
        Term(y.b3, Shifted(p, 3)), Term(y.b4, Shifted(p, 4));
    RemainderPlus(r0, r1);
    RemainderPlus(r2, r3);
    RemainderPlus(Plus(r0, r1), Plus(r2, r3));
    RemainderPlus(Plus(Plus(r0, r1), Plus(r2, r3)), r4);
    PlusAssoc(PolyOf(Xor(t0, t1)), PolyOf(t2), PolyOf(t3));
    FiveTerms(r0, r1, r2, r3, r4);
    assert Term(y.b5, Shifted(p, 5)) == Term(y.b6, Shifted(p, 6)) == Term(y.b7, Shifted(p, 7)) == NONE;
  }

  lemma PlusAssoc(a: Poly, b: Poly, c: Poly)
    ensures Plus(Plus(a, b), c) == Plus(a, Plus(b, c))
  {
    hide Sum;
    SumCancels(a.bits, b.bits, c.bits);
  }

  lemma FiveTerms(a: Poly, b: Poly, c: Poly, d: Poly, e: Poly)
    ensures Plus(Plus(Plus(a, b), Plus(c, d)), Plus(Plus(e, NONE), Plus(NONE, NONE)))
            == Plus(Plus(Plus(a, b), Plus(c, d)), e)
  {
    hide Plus;
    PlusZero(e);
    PlusZero(NONE);
  }
}
