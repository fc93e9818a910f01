/** The functions and the byte order of SHA-256 against FIPS 180-4, bit by bit. */
module Sha256Standard {
  import opened Common
  import opened Sha256Block
  import opened Sha256

  // ----- the functions of section 4.1.2, bit by bit

  /** Bit `i` of a word, the least significant first. */
  predicate Bit(w: word, i: bv5)
  {
    (w >> i) & 1 != 0
  }

  // A rotation moves every bit down, around the end; places are numbers modulo 32.

  lemma Rotated2(x: word, i: bv5)
    ensures Bit(RotRight(x, 2), i) == Bit(x, i + 2)
  {
  }

  lemma Rotated13(x: word, i: bv5)
    ensures Bit(RotRight(x, 13), i) == Bit(x, i + 13)
  {
  }

  lemma Rotated22(x: word, i: bv5)
    ensures Bit(RotRight(x, 22), i) == Bit(x, i + 22)
  {
  }

  lemma Rotated6(x: word, i: bv5)
    ensures Bit(RotRight(x, 6), i) == Bit(x, i + 6)
  {
  }

  lemma Rotated11(x: word, i: bv5)
    ensures Bit(RotRight(x, 11), i) == Bit(x, i + 11)
  {
  }

  lemma Rotated25(x: word, i: bv5)
    ensures Bit(RotRight(x, 25), i) == Bit(x, i + 25)
  {
  }

  lemma Rotated7(x: word, i: bv5)
    ensures Bit(RotRight(x, 7), i) == Bit(x, i + 7)
  {
  }

  lemma Rotated18(x: word, i: bv5)
    ensures Bit(RotRight(x, 18), i) == Bit(x, i + 18)
  {
  }

  lemma Rotated17(x: word, i: bv5)
    ensures Bit(RotRight(x, 17), i) == Bit(x, i + 17)
  {
  }

  lemma Rotated19(x: word, i: bv5)
    ensures Bit(RotRight(x, 19), i) == Bit(x, i + 19)
  {
  }

  lemma Shifted3(x: word, i: bv5)
    ensures Bit(x >> 3, i) == (i < 29 && Bit(x, i + 3))
  {
  }

  lemma Shifted10(x: word, i: bv5)
    ensures Bit(x >> 10, i) == (i < 22 && Bit(x, i + 10))
  {
  }

  lemma RawAt(x: word, y: word, i: bv5)
    ensures Bit(x ^ y, i) == (Bit(x, i) != Bit(y, i))
    ensures Bit(x & y, i) == (Bit(x, i) && Bit(y, i))
  {
  }

  lemma NotAt(x: word, i: bv5)
    ensures Bit(!x, i) == !Bit(x, i)
  {
  }

  lemma XorAndAt(x: word, y: word, i: bv5)
    ensures Bit(Xor(x, y), i) == (Bit(x, i) != Bit(y, i))
    ensures Bit(And(x, y), i) == (Bit(x, i) && Bit(y, i))
  {
    hide Bit;
    RawAt(x, y, i);
  }

  lemma SumAt(a: word, b: word, c: word, i: bv5)
    ensures Bit(Xor(Xor(a, b), c), i) == (Bit(a, i) != (Bit(b, i) != Bit(c, i)))
  {
    hide Bit;
    hide Xor;
    XorAndAt(a, b, i);
    XorAndAt(Xor(a, b), c, i);
  }

  /** The two sums of rotations. */
  lemma BigSums(x: word, i: bv5)
    ensures Bit(Ep0(x), i) == (Bit(x, i + 2) != (Bit(x, i + 13) != Bit(x, i + 22)))
    ensures Bit(Ep1(x), i) == (Bit(x, i + 6) != (Bit(x, i + 11) != Bit(x, i + 25)))
  {
    hide Bit;
    hide Xor;
    hide RotRight;
    Rotated2(x, i);
    Rotated13(x, i);
    Rotated22(x, i);
    Rotated6(x, i);
    Rotated11(x, i);
    Rotated25(x, i);
    SumAt(RotRight(x, 2), RotRight(x, 13), RotRight(x, 22), i);
    SumAt(RotRight(x, 6), RotRight(x, 11), RotRight(x, 25), i);
  }

  /** The two sums of rotations and a shift. */
  lemma SmallSums(x: word, i: bv5)
    ensures Bit(Sig0(x), i) == (Bit(x, i + 7) != (Bit(x, i + 18) != (i < 29 && Bit(x, i + 3))))
    ensures Bit(Sig1(x), i) == (Bit(x, i + 17) != (Bit(x, i + 19) != (i < 22 && Bit(x, i + 10))))
  {
    hide Bit;
    hide Xor;
    hide RotRight;
    Rotated7(x, i);
    Rotated18(x, i);
    Rotated17(x, i);
    Rotated19(x, i);
    Shifted3(x, i);
    Shifted10(x, i);
    SumAt(RotRight(x, 7), RotRight(x, 18), x >> 3, i);
    SumAt(RotRight(x, 17), RotRight(x, 19), x >> 10, i);
  }

  /** The choice by the first word, and the majority. */
  lemma Choices(x: word, y: word, z: word, i: bv5)
    ensures Bit(Ch(x, y, z), i) == if Bit(x, i) then Bit(y, i) else Bit(z, i)
    ensures Bit(Maj(x, y, z), i) <==> Once(Bit(x, i)) + Once(Bit(y, i)) + Once(Bit(z, i)) >= 2
  {
    hide Bit;
    hide And;
    hide Xor;
    XorAndAt(x, y, i);
    NotAt(x, i);
    XorAndAt(!x, z, i);
    XorAndAt(And(x, y), And(!x, z), i);
    XorAndAt(x, z, i);
    XorAndAt(y, z, i);
    SumAt(And(x, y), And(x, z), And(y, z), i);
  }

  // ----- the order of bytes

  predicate Has(w: word, place: word)
  {
    w & place != 0
  }

  function Digit(w: word, place: word, value: nat): nat
  {
    if Has(w, place) then value else 0
  }

  /** The number a word stands for, by its binary digits. */
  function Number(w: word): nat
  {
    Top(w) + Third(w) + Second(w) + Low(w)
  }

  function Top(w: word): nat
  {
    Digit(w, 0x80000000, 0x80000000) + Digit(w, 0x40000000, 0x40000000) + Digit(w, 0x20000000, 0x20000000) +
        Digit(w, 0x10000000, 0x10000000) +
    Digit(w, 0x8000000, 0x8000000) + Digit(w, 0x4000000, 0x4000000) + Digit(w, 0x2000000, 0x2000000) +
        Digit(w, 0x1000000, 0x1000000)
  }

  function Third(w: word): nat
  {
    Digit(w, 0x800000, 0x800000) + Digit(w, 0x400000, 0x400000) + Digit(w, 0x200000, 0x200000) +
        Digit(w, 0x100000, 0x100000) +
    Digit(w, 0x80000, 0x80000) + Digit(w, 0x40000, 0x40000) + Digit(w, 0x20000, 0x20000) + Digit(w, 0x10000, 0x10000)
  }

  function Second(w: word): nat
  {
    Digit(w, 0x8000, 0x8000) + Digit(w, 0x4000, 0x4000) + Digit(w, 0x2000, 0x2000) + Digit(w, 0x1000, 0x1000) +
    Digit(w, 0x800, 0x800) + Digit(w, 0x400, 0x400) + Digit(w, 0x200, 0x200) + Digit(w, 0x100, 0x100)
  }

  function Low(w: word): nat
  {
    Digit(w, 0x80, 0x80) + Digit(w, 0x40, 0x40) + Digit(w, 0x20, 0x20) + Digit(w, 0x10, 0x10) +
    Digit(w, 0x8, 0x8) + Digit(w, 0x4, 0x4) + Digit(w, 0x2, 0x2) + Digit(w, 0x1, 0x1)
  }

  predicate ByteHas(b: bv8, place: bv8)
  {
    b & place != 0
  }

  function ByteDigit(b: bv8, place: bv8, value: nat): nat
  {
    if ByteHas(b, place) then value else 0
  }

  function ByteNumber(b: bv8): nat
  {
    ByteDigit(b, 0x80, 0x80) + ByteDigit(b, 0x40, 0x40) + ByteDigit(b, 0x20, 0x20) + ByteDigit(b, 0x10, 0x10) +
    ByteDigit(b, 0x8, 0x8) + ByteDigit(b, 0x4, 0x4) + ByteDigit(b, 0x2, 0x2) + ByteDigit(b, 0x1, 0x1)
  }

  lemma ByteNumberIs(b: bv8)
    ensures ByteNumber(b) == b as int
  {
  }

  lemma {:induction false} Counted(b: byte) returns (x: bv8)
    ensures x as int == b
  {
    if b == 0 {
      x := 0;
    } else {
      x := Counted(b - 1);
      CountedNext(x, b - 1);
      x := x + 1;
    }
  }

  lemma CountedNext(x: bv8, b: int)
    requires x as int == b < 255
    ensures (x + 1) as int == b + 1
  {
  }

  lemma CastBack(b: byte)
    ensures (b as bv8) as int == b
  {
    var x := Counted(b);
    assert (x as int) as bv8 == x;
  }

  /** Eight bits of a word are the bits of a byte. */
  ghost predicate Same(w: word, b: bv8, p7: word, p6: word, p5: word, p4: word, p3: word, p2: word, p1: word, p0: word)
  {
    && Has(w, p7) == ByteHas(b, 0x80) && Has(w, p6) == ByteHas(b, 0x40)
    && Has(w, p5) == ByteHas(b, 0x20) && Has(w, p4) == ByteHas(b, 0x10)
    && Has(w, p3) == ByteHas(b, 0x8) && Has(w, p2) == ByteHas(b, 0x4)
    && Has(w, p1) == ByteHas(b, 0x2) && Has(w, p0) == ByteHas(b, 0x1)
  }

  lemma SameTop(w: word, b: bv8)
    requires Same(w, b, 0x80000000, 0x40000000, 0x20000000, 0x10000000, 0x8000000, 0x4000000, 0x2000000, 0x1000000)
    ensures Top(w) == 0x1000000 * ByteNumber(b)
  {
    hide Has;
    hide ByteHas;
  }

  lemma SameThird(w: word, b: bv8)
    requires Same(w, b, 0x800000, 0x400000, 0x200000, 0x100000, 0x80000, 0x40000, 0x20000, 0x10000)
    ensures Third(w) == 0x10000 * ByteNumber(b)
  {
    hide Has;
    hide ByteHas;
  }

  lemma SameSecond(w: word, b: bv8)
    requires Same(w, b, 0x8000, 0x4000, 0x2000, 0x1000, 0x800, 0x400, 0x200, 0x100)
    ensures Second(w) == 0x100 * ByteNumber(b)
  {
    hide Has;
    hide ByteHas;
  }

  lemma SameLow(w: word, b: bv8)
    requires Same(w, b, 0x80, 0x40, 0x20, 0x10, 0x8, 0x4, 0x2, 0x1)
    ensures Low(w) == 0x1 * ByteNumber(b)
  {
    hide Has;
    hide ByteHas;
  }

  lemma PackedTop(b0: bv8, b1: bv8, b2: bv8, b3: bv8)
    ensures Same(Packed(b0, b1, b2, b3), b0, 0x80000000, 0x40000000, 0x20000000, 0x10000000, 0x8000000, 0x4000000,
            0x2000000, 0x1000000)
  {
  }

  lemma PackedThird(b0: bv8, b1: bv8, b2: bv8, b3: bv8)
    ensures Same(Packed(b0, b1, b2, b3), b1, 0x800000, 0x400000, 0x200000, 0x100000, 0x80000, 0x40000, 0x20000, 0x10000)
  {
  }

  lemma PackedSecond(b0: bv8, b1: bv8, b2: bv8, b3: bv8)
    ensures Same(Packed(b0, b1, b2, b3), b2, 0x8000, 0x4000, 0x2000, 0x1000, 0x800, 0x400, 0x200, 0x100)
  {
  }

  lemma PackedLow(b0: bv8, b1: bv8, b2: bv8, b3: bv8)
    ensures Same(Packed(b0, b1, b2, b3), b3, 0x80, 0x40, 0x20, 0x10, 0x8, 0x4, 0x2, 0x1)
  {
  }

  lemma ByteTop(w: word)
    ensures Same(w, Low8(w >> 24), 0x80000000, 0x40000000, 0x20000000, 0x10000000, 0x8000000, 0x4000000, 0x2000000,
            0x1000000)
  {
  }

  lemma ByteThird(w: word)
    ensures Same(w, Low8(w >> 16), 0x800000, 0x400000, 0x200000, 0x100000, 0x80000, 0x40000, 0x20000, 0x10000)
  {
  }

  lemma ByteSecond(w: word)
    ensures Same(w, Low8(w >> 8), 0x8000, 0x4000, 0x2000, 0x1000, 0x800, 0x400, 0x200, 0x100)
  {
  }

  lemma ByteLow(w: word)
    ensures Same(w, Low8(w), 0x80, 0x40, 0x20, 0x10, 0x8, 0x4, 0x2, 0x1)
  {
  }

  lemma ValueOfFour(b0: byte, b1: byte, b2: byte, b3: byte)
    ensures Value([b0, b1, b2, b3]) == 0x1000000 * b0 + 0x10000 * b1 + 0x100 * b2 + b3
  {
    var s := [b0, b1, b2, b3];
    assert s[..3] == [b0, b1, b2] && [b0, b1, b2][..2] == [b0, b1] && [b0, b1][..1] == [b0] && [b0][..0] == [];
    assert Value([b0]) == b0 && Value([b0, b1]) == 256 * b0 + b1;
    assert Value([b0, b1, b2]) == 0x10000 * b0 + 0x100 * b1 + b2;
  }

  /** A word of the message is the number its four bytes write, the most significant first. */
  lemma ToWordIs(b0: byte, b1: byte, b2: byte, b3: byte)
    ensures Number(ToWord(b0, b1, b2, b3)) == Value([b0, b1, b2, b3])
  {
    hide Value;
    hide Packed;
    hide ByteNumber;
    hide Same;
    hide Top;
    hide Third;
    hide Second;
    hide Low;
    var c0, c1, c2, c3 := b0 as bv8, b1 as bv8, b2 as bv8, b3 as bv8;
    var w := Packed(c0, c1, c2, c3);
    PackedTop(c0, c1, c2, c3);
    SameTop(w, c0);
    PackedThird(c0, c1, c2, c3);
    SameThird(w, c1);
    PackedSecond(c0, c1, c2, c3);
    SameSecond(w, c2);
    PackedLow(c0, c1, c2, c3);
    SameLow(w, c3);
    ByteNumberIs(c0);
    ByteNumberIs(c1);
    ByteNumberIs(c2);
    ByteNumberIs(c3);
    CastBack(b0);
    CastBack(b1);
    CastBack(b2);
    CastBack(b3);
    ValueOfFour(b0, b1, b2, b3);
  }

  lemma BytesOfWord(w: word)
    ensures Value([ByteOf(w, 0), ByteOf(w, 1), ByteOf(w, 2), ByteOf(w, 3)]) == Number(w)
  {
    hide Value;
    hide Low8;
    hide ByteNumber;
    hide Same;
    hide Top;
    hide Third;
    hide Second;
    hide Low;
    ByteTop(w);
    SameTop(w, Low8(w >> 24));
    ByteThird(w);
    SameThird(w, Low8(w >> 16));
    ByteSecond(w);
    SameSecond(w, Low8(w >> 8));
    ByteLow(w);
    SameLow(w, Low8(w));
    ByteNumberIs(Low8(w >> 24));
    ByteNumberIs(Low8(w >> 16));
    ByteNumberIs(Low8(w >> 8));
    ByteNumberIs(Low8(w));
    ValueOfFour(ByteOf(w, 0), ByteOf(w, 1), ByteOf(w, 2), ByteOf(w, 3));
  }

  /** Four bytes of the digest write a word of the state, the most significant first. */
  lemma DigestIs(v: Vars, j: nat)
    requires j < 8
    ensures Value(Digest(v)[4 * j..4 * j + 4]) == Number(WordAt(v, j))
  {
    hide Value;
    hide Number;
    hide ByteOf;
    var w := WordAt(v, j);
    BytesOfWord(w);
    var s := Digest(v)[4 * j..4 * j + 4];
    assert s == [ByteOf(w, 0), ByteOf(w, 1), ByteOf(w, 2), ByteOf(w, 3)] by {
      assert forall i :: 0 <= i < 4 ==> (4 * j + i) / 4 == j && (4 * j + i) % 4 == i && s[i] == Digest(v)[4 * j + i];
    }
  }
}
