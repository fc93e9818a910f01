/** Lengths and distances of repeated strings: the symbol and the extra bits that stand for each. */
module LzTables {
  import opened Bits

  /** The literal-table symbol of a match of length `m + 3`. */
  function LenSym(m: nat): nat
    requires m < 256
  {
    if m < 1 then 257 else if m < 2 then 258 else if m < 3 then 259 else if m < 4 then 260 else
    if m < 5 then 261 else if m < 6 then 262 else if m < 7 then 263 else if m < 8 then 264 else
    if m < 10 then 265 else if m < 12 then 266 else if m < 14 then 267 else if m < 16 then 268 else
    if m < 20 then 269 else if m < 24 then 270 else if m < 28 then 271 else if m < 32 then 272 else
    if m < 40 then 273 else if m < 48 then 274 else if m < 56 then 275 else if m < 64 then 276 else
    if m < 80 then 277 else if m < 96 then 278 else if m < 112 then 279 else if m < 128 then 280 else
    if m < 160 then 281 else if m < 192 then 282 else if m < 224 then 283 else if m < 255 then 284 else
    285
  }

  /** How many extra bits follow that symbol. */
  function LenExtra(m: nat): nat
    requires m < 256
  {
    if m < 8 then 0 else if m < 16 then 1 else if m < 32 then 2 else if m < 64 then 3 else
    if m < 128 then 4 else if m < 255 then 5 else 0
  }

  /** The distance symbol of the distance `d + 1`. */
  function DistSym(d: nat): nat
    requires d < 0x8000
  {
    if d < 512 then SmallDistSym(d) else LargeDistSym(d / 256)
  }

  function SmallDistSym(d: nat): nat
    requires d < 512
  {
    if d < 1 then 0 else if d < 2 then 1 else if d < 3 then 2 else if d < 4 then 3 else
    if d < 6 then 4 else if d < 8 then 5 else if d < 12 then 6 else if d < 16 then 7 else
    if d < 24 then 8 else if d < 32 then 9 else if d < 48 then 10 else if d < 64 then 11 else
    if d < 96 then 12 else if d < 128 then 13 else if d < 192 then 14 else if d < 256 then 15 else
    if d < 384 then 16 else 17
  }

  function LargeDistSym(h: nat): nat
    requires h < 128
  {
    if h < 2 then 0 else if h < 3 then 18 else if h < 4 then 19 else if h < 6 then 20 else
    if h < 8 then 21 else if h < 12 then 22 else if h < 16 then 23 else if h < 24 then 24 else
    if h < 32 then 25 else if h < 48 then 26 else if h < 64 then 27 else if h < 96 then 28 else
    29
  }

  function DistExtra(d: nat): nat
    requires d < 0x8000
  {
    if d < 512 then SmallDistExtra(d) else LargeDistExtra(d / 256)
  }

  function SmallDistExtra(d: nat): nat
    requires d < 512
  {
    if d < 4 then 0 else if d < 8 then 1 else if d < 16 then 2 else if d < 32 then 3 else
    if d < 64 then 4 else if d < 128 then 5 else if d < 256 then 6 else 7
  }

  function LargeDistExtra(h: nat): nat
    requires h < 128
  {
    if h < 2 then 0 else if h < 4 then 8 else if h < 8 then 9 else if h < 16 then 10 else
    if h < 32 then 11 else if h < 64 then 12 else 13
  }

  // ----- the decompressor's tables

  /** The least length of the length symbol `257 + c`. */
  const LENGTH_BASE: seq<nat> :=
    [3, 4, 5, 6, 7, 8, 9, 10, 11, 13, 15, 17, 19, 23, 27, 31,
     35, 43, 51, 59, 67, 83, 99, 115, 131, 163, 195, 227, 258, 0, 0]

  function LengthExtra(c: nat): nat
    requires c < 31
  {
    if c < 8 then 0 else if c < 12 then 1 else if c < 16 then 2 else if c < 20 then 3 else
    if c < 24 then 4 else if c < 28 then 5 else 0
  }

  /** The least distance of each distance symbol. */
  const DIST_BASE: seq<nat> :=
    [1, 2, 3, 4, 5, 7, 9, 13, 17, 25, 33, 49, 65, 97, 129, 193,
     257, 385, 513, 769, 1025, 1537, 2049, 3073, 4097, 6145, 8193, 12289, 16385, 24577, 0, 0]

  function DistanceExtra(c: nat): nat
    requires c < 32
  {
    if c < 4 then 0 else if c < 6 then 1 else if c < 8 then 2 else if c < 10 then 3 else
    if c < 12 then 4 else if c < 14 then 5 else if c < 16 then 6 else if c < 18 then 7 else
    if c < 20 then 8 else if c < 22 then 9 else if c < 24 then 10 else if c < 26 then 11 else
    if c < 28 then 12 else if c < 30 then 13 else 0
  }

  // ----- the two sets of tables agree

  lemma {:induction false} ShlTimes(q: nat, e: nat)
    ensures Shl(q, e) == q * Pow2(e)
  {
    if e > 0 {
      ShlTimes(q, e - 1);
      ShlDouble(q, e - 1);
      ShlDouble(1, e - 1);
    }
  }

  lemma Powers()
    ensures Pow2(0) == 1 && Pow2(1) == 2 && Pow2(2) == 4 && Pow2(3) == 8 && Pow2(4) == 16 && Pow2(5) == 32
    ensures Pow2(6) == 64 && Pow2(7) == 128 && Pow2(8) == 256 && Pow2(9) == 512 && Pow2(10) == 1024
    ensures Pow2(11) == 2048 && Pow2(12) == 4096 && Pow2(13) == 8192
  {
  }

  /** The low bits of a number are its distance from the multiple of 2^e below it. */
  lemma LowPart(x: nat, q: nat, e: nat, p: nat)
    requires p == Pow2(e) && q * p <= x < q * p + p
    ensures Mask(x, e) == x - q * p
  {
    ShlTimes(q, e);
    MaskShrUnique(x - q * p, q, e);
  }

  /** The decompressor's base and extra bits give back the length. */
  lemma LengthBack(m: nat)
    requires m < 256
    ensures 257 <= LenSym(m) <= 285
    ensures var c := LenSym(m) - 257;
            LengthExtra(c) == LenExtra(m) && LENGTH_BASE[c] + Mask(m, LenExtra(m)) == m + 3
  {
    hide Mask;
    hide Pow2;
    Powers();
    var c, e := LenSym(m) - 257, LenExtra(m);
    if 4 <= c < 28 {
      assert c / 4 == e + 1;
      LowPart(m, 4 + c % 4, e, Pow2(e));
    } else {
      LowPart(m, m, 0, 1);
    }
  }

  /** The decompressor's base and extra bits give back the distance. */
  lemma DistanceBack(d: nat)
    requires d < 0x8000
    ensures DistSym(d) <= 29
    ensures var c := DistSym(d);
            DistanceExtra(c) == DistExtra(d) && DIST_BASE[c] + Mask(d, DistExtra(d)) == d + 1
  {
    hide Mask;
    hide Pow2;
    Powers();
    var c, e := DistSym(d), DistExtra(d);
    if 2 <= c {
      assert c / 2 == e + 1;
      LowPart(d, 2 + c % 2, e, Pow2(e));
    } else {
      LowPart(d, d, 0, 1);
    }
  }

  /** Base and extra bits of a length symbol give 0 or a length from 3 to 258. */
  lemma LengthRange(c: nat, extra: nat)
    requires c < 31 && extra < Pow2(LengthExtra(c))
    ensures if c >= 29 then LENGTH_BASE[c] + extra == 0 else 3 <= LENGTH_BASE[c] + extra <= 258
  {
    hide Pow2;
    Powers();
  }
}
