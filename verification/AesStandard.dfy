/** The steps of the cipher as FIPS 197 states them, by row and column and by polynomials over the field. */
module AesStandard {
  import opened GaloisField
  import opened AesField
  import opened SBox
  import opened AesRounds
  import opened AesCbc

  // ----- one byte of a block

  function ByteOf(a: Column, r: nat): Byte
    requires r < 4
  {
    if r == 0 then a.r0 else if r == 1 then a.r1 else if r == 2 then a.r2 else a.r3
  }

  function ColumnOf(a: Block, c: nat): Column
    requires c < 4
  {
    if c == 0 then a.c0 else if c == 1 then a.c1 else if c == 2 then a.c2 else a.c3
  }

  /** Row `r` of column `c`. */
  function State(a: Block, r: nat, c: nat): Byte
    requires r < 4 && c < 4
  {
    ByteOf(ColumnOf(a, c), r)
  }

  // ----- the steps

  /** Section 5.1.2: row r turns left by r columns, and back by the inverse. */
  lemma ShiftIs(a: Block, r: nat, c: nat)
    requires r < 4 && c < 4
    ensures State(ShiftBlock(a), r, c) == State(a, r, (c + r) % 4)
    ensures State(InvShiftBlock(a), r, (c + r) % 4) == State(a, r, c)
  {
  }

  /** Section 5.1.1: every byte becomes the affine map of its inverse. */
  lemma SubIs(a: Block, r: nat, c: nat)
    requires r < 4 && c < 4
    ensures exists y :: (if State(a, r, c) == ZERO then y == 0 else Product(State(a, r, c), Hex(y)) == ONE)
                        && State(SubBlock(a), r, c) == Hex(Affine(y))
    ensures InvSubByte(State(SubBlock(a), r, c)) == State(a, r, c)
  {
    hide SubByte;
    hide InvSubByte;
    hide Affine;
    hide Product;
    SubByteIs(State(a, r, c));
    SubRoundTrip(State(a, r, c));
  }

  const THREE := Byte(true, true, false, false, false, false, false, false)

  lemma TimesThree(p: Poly)
    ensures PolyTimes(p, THREE) == Plus(p, Up(p))
  {
    hide Plus;
    assert Shifted(p, 1) == Up(Shifted(p, 0));
    PlusZero(NONE);
    PlusZero(Plus(p, Up(p)));
  }

  lemma TripleIs(x: Byte)
    ensures PolyOf(Triple(x)) == Product(x, THREE)
  {
    hide PolyOf;
    hide Remainder;
    hide PolyTimes;
    hide Plus;
    hide XTime;
    hide Xor;
    var p := PolyOf(x);
    TimesThree(p);
    XTimeIs(x);
    XorIs(XTime(x), x);
    TopBit(x);
    ShiftOne(p);
    RemainderPlus(p, Up(p));
    PlusComm(p, Remainder(Up(p)));
  }

  lemma PlusComm(p: Poly, q: Poly)
    ensures Plus(p, q) == Plus(q, p)
  {
  }

  /** Section 5.1.3: the product with the matrix of 02, 03, 01, 01. */
  lemma MixIs(a: Column, r: nat)
    requires r < 4
    ensures PolyOf(ByteOf(MixColumn(a), r))
            == Plus(Plus(Product(ByteOf(a, r), TWO), Product(ByteOf(a, (r + 1) % 4), THREE)),
                    Plus(PolyOf(ByteOf(a, (r + 2) % 4)), PolyOf(ByteOf(a, (r + 3) % 4))))
  {
    hide PolyOf;
    hide Product;
    hide Plus;
    hide XTime;
    hide Xor;
    hide Triple;
    var x0, x1, x2, x3 := ByteOf(a, r), ByteOf(a, (r + 1) % 4), ByteOf(a, (r + 2) % 4), ByteOf(a, (r + 3) % 4);
    assert ByteOf(MixColumn(a), r) == Mixed(x0, x1, x2, x3);
    XTimeIs(x0);
    TripleIs(x1);
    XorIs(XTime(x0), Triple(x1));
    XorIs(x2, x3);
    XorIs(Xor(XTime(x0), Triple(x1)), Xor(x2, x3));
  }

  /** Section 5.3.3: the product with the matrix of 0e, 0b, 0d, 09. */
  lemma InvMixIs(a: Column, r: nat)
    requires r < 4
    ensures PolyOf(ByteOf(InvMixColumn(a), r))
            == Plus(Plus(Product(ByteOf(a, r), Hex(0x0e)), Product(ByteOf(a, (r + 1) % 4), Hex(0x0b))),
                    Plus(Product(ByteOf(a, (r + 2) % 4), Hex(0x0d)), Product(ByteOf(a, (r + 3) % 4), Hex(0x09))))
  {
    Constants();
    hide PolyOf;
    hide Product;
    hide Plus;
    hide Multiply;
    hide Xor;
    hide Hex;
    var x0, x1, x2, x3 := ByteOf(a, r), ByteOf(a, (r + 1) % 4), ByteOf(a, (r + 2) % 4), ByteOf(a, (r + 3) % 4);
    assert ByteOf(InvMixColumn(a), r) == Unmixed(x0, x1, x2, x3);
    MultiplyIs(x0, FOURTEEN);
    MultiplyIs(x1, ELEVEN);
    MultiplyIs(x2, THIRTEEN);
    MultiplyIs(x3, NINE);
    var p0, p1, p2, p3 := Multiply(x0, FOURTEEN), Multiply(x1, ELEVEN), Multiply(x2, THIRTEEN), Multiply(x3, NINE);
    XorIs(p0, p1);
    XorIs(p2, p3);
    XorIs(Xor(p0, p1), Xor(p2, p3));
  }

  lemma Constants()
    ensures TWO == Hex(2) && THREE == Hex(3) && NINE == Hex(9) && ELEVEN == Hex(11) && THIRTEEN == Hex(13)
            && FOURTEEN == Hex(14)
  {
  }

  // ----- the round constants

  /** The power x^n in the field. */
  ghost function Power(n: nat): Poly
  {
    if n == 0 then ONE else Remainder(Up(Power(n - 1)))
  }

  /** Section 5.2: round constant i is x^(i-1). */
  lemma RconIs(i: nat)
    requires 1 <= i <= 10
    ensures PolyOf(Rcon(i)) == Power(i - 1)
  {
    hide Rcon;
    hide PolyOf;
    RconFirst();
    if i > 1 {
      RconIs(i - 1);
      RconNext(i - 1);
      XTimeIs(Rcon(i - 1));
    }
  }

  lemma RconFirst()
    ensures PolyOf(Rcon(1)) == ONE
  {
  }

  lemma RconNext(i: nat)
    requires 1 <= i < 10
    ensures Rcon(i + 1) == XTime(Rcon(i))
  {
  }
}
