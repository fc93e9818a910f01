/** The tables and fixed codes of DEFLATE against RFC 1951, number by number. */
module DeflateStandard {
  import opened Bits
  import opened CanonicalCode
  import opened CodeLengthRle
  import opened Common
  import opened DynamicHeader
  import opened LzTables
  import opened StaticCode

  // ----- section 3.2.2: canonical codes

  /** Symbols in the order of their codes: by length, and within one length by number. */
  predicate Before(lens: seq<nat>, i: nat, j: nat)
    requires i < |lens| && j < |lens|
  {
    lens[i] < lens[j] || (lens[i] == lens[j] && i < j)
  }

  lemma {:induction false} CountNone(lens: seq<nat>, l: nat, p: nat, q: nat)
    requires p <= q <= |lens| && forall k :: p <= k < q ==> lens[k] != l
    ensures Count(lens[..q], l) == Count(lens[..p], l)
  {
    hide Count;
    if p < q {
      CountNone(lens, l, p, q - 1);
      CountStep(lens, q - 1, l);
    }
  }

  /** Behind the codes of one length, lengths without codes only append zeros. */
  lemma {:induction false} FirstCodeSkips(lens: seq<nat>, a: nat, b: nat)
    requires 1 <= a < b && forall l :: a < l < b ==> Count(lens, l) == 0
    ensures FirstCode(lens, b) == Shl(FirstCode(lens, a) + Count(lens, a), b - a)
  {
    hide Count;
    hide FirstCode;
    FirstCodeStep(lens, b - 1);
    if a + 1 < b {
      FirstCodeSkips(lens, a, b - 1);
      ShlDouble(FirstCode(lens, a) + Count(lens, a), b - 1 - a);
    } else {
      ShlDouble(FirstCode(lens, a) + Count(lens, a), 0);
    }
  }

  /** The first code is all zeros. */
  lemma FirstCodeZero(lens: seq<nat>, i: nat)
    requires Used(lens, i) && forall k: nat :: k < |lens| && lens[k] > 0 && k != i ==> Before(lens, i, k)
    ensures Code(lens, i) == 0
  {
    hide Count;
    hide FirstCode;
    CountNone(lens, lens[i], 0, i);
    NoCodesBelow(lens, lens[i]);
    CountNothing(lens[..0], lens[i]);
  }

  lemma {:induction false} NoCodesBelow(lens: seq<nat>, l: nat)
    requires 1 <= l && forall k: nat :: k < |lens| && lens[k] > 0 ==> lens[k] >= l
    ensures FirstCode(lens, l) == 0
  {
    hide Count;
    hide FirstCode;
    FirstCodeStep(lens, 1);
    if l > 1 {
      NoCodesBelow(lens, l - 1);
      FirstCodeStep(lens, l - 1);
      NoneOfLength(lens, l - 1);
    }
  }

  lemma NoneOfLength(lens: seq<nat>, l: nat)
    requires forall k: nat :: k < |lens| ==> lens[k] != l
    ensures Count(lens, l) == 0
  {
    hide Count;
    CountNone(lens, l, 0, |lens|);
    assert lens[..|lens|] == lens;
    CountNothing(lens[..0], l);
  }

  /** Each code is the one before it plus one, with a zero appended for every bit that it is longer. */
  lemma NextCode(lens: seq<nat>, i: nat, j: nat)
    requires Used(lens, i) && Used(lens, j) && Before(lens, i, j)
    requires forall k: nat :: k < |lens| && lens[k] > 0 ==> !(Before(lens, i, k) && Before(lens, k, j))
    ensures Code(lens, j) == Shl(Code(lens, i) + 1, lens[j] - lens[i])
  {
    hide Count;
    hide FirstCode;
    var a, b := lens[i], lens[j];
    CountStep(lens, i, a);
    if a == b {
      CountNone(lens, a, i + 1, j);
    } else {
      CountNone(lens, a, i + 1, |lens|);
      assert lens[..|lens|] == lens;
      CountNone(lens, b, 0, j);
      CountNothing(lens[..0], b);
      forall l | a < l < b ensures Count(lens, l) == 0 {
        NoneOfLength(lens, l);
      }
      FirstCodeSkips(lens, a, b);
    }
  }

  // ----- section 3.2.6: the fixed codes

  /** Literals 0 to 143 have 8 bits from 00110000 on, 144 to 255 have 9 from 110010000 on, 256 to 279 have 7 from
      0000000 on, and 280 to 287 have 8 from 11000000 on. */
  lemma StaticCodes(i: nat)
    requires i < 288
    ensures Used(StaticLit(), i)
    ensures 0 <= i <= 143 ==> StaticLit()[i] == 8 && Code(StaticLit(), i) == 48 + i
    ensures 144 <= i <= 255 ==> StaticLit()[i] == 9 && Code(StaticLit(), i) == 400 + (i - 144)
    ensures 256 <= i <= 279 ==> StaticLit()[i] == 7 && Code(StaticLit(), i) == i - 256
    ensures 280 <= i <= 287 ==> StaticLit()[i] == 8 && Code(StaticLit(), i) == 192 + (i - 280)
  {
    hide FirstCode;
    hide Count;
    LitFirst(StaticLit()[i]);
    CountStatic(i, StaticLit()[i]);
  }

  /** Distance codes have 5 bits. */
  lemma StaticDistances(i: nat)
    requires i < 32
    ensures Used(StaticDist(), i) && StaticDist()[i] == 5 && Code(StaticDist(), i) == i
  {
    hide FirstCode;
    hide Count;
    DistFirst(5);
    CountFives(i, 5);
  }

  // ----- section 3.2.5: lengths and distances

  /** The first length of symbol 257 + c and its number of extra bits. */
  lemma LengthSymbols(c: nat)
    requires c < 29
    ensures c < 8 ==> LENGTH_BASE[c] == 3 + c && LengthExtra(c) == 0
    ensures 8 <= c < 28 ==> LengthExtra(c) == c / 4 - 1 && LENGTH_BASE[c] == 3 + (4 + c % 4) * Pow2(c / 4 - 1)
    ensures c == 28 ==> LENGTH_BASE[c] == 258 && LengthExtra(c) == 0
  {
    hide Pow2;
    Powers();
  }

  /** The first distance of symbol c and its number of extra bits. */
  lemma DistanceSymbols(c: nat)
    requires c < 30
    ensures c < 4 ==> DIST_BASE[c] == 1 + c && DistanceExtra(c) == 0
    ensures 4 <= c ==> DistanceExtra(c) == c / 2 - 1 && DIST_BASE[c] == 1 + (2 + c % 2) * Pow2(c / 2 - 1)
  {
    hide Pow2;
    Powers();
  }

  /** The compressor's symbol for a length is the one whose range it lies in; 258 has its own. */
  lemma LengthInRange(m: nat)
    requires m < 256
    ensures var c := LenSym(m) - 257;
            && 0 <= c < 29 && LENGTH_BASE[c] <= m + 3 < LENGTH_BASE[c] + Pow2(LengthExtra(c))
            && LenExtra(m) == LengthExtra(c) && (m + 3 == 258 <==> c == 28)
  {
    hide Pow2;
    Powers();
  }

  lemma DistanceInRange(d: nat)
    requires d < 0x8000
    ensures var c := DistSym(d);
            c < 30 && DIST_BASE[c] <= d + 1 < DIST_BASE[c] + Pow2(DistanceExtra(c)) && DistExtra(d) == DistanceExtra(c)
  {
    hide Pow2;
    Powers();
  }

  // ----- section 3.2.7: the header of a dynamic block

  /** The three bits that hold the length of each symbol of the code-length code, of which `n` lengths are sent. */
  lemma SizesPlaces(rest: Path, n: nat)
    requires 4 <= n <= 19 && 3 * n <= |rest|
    ensures var s := SizesOf(rest, n);
            && |s| == 19
            && s[16] == Lsb(rest[0..3]) && s[17] == Lsb(rest[3..6]) && s[18] == Lsb(rest[6..9]) && s[0] == Lsb(rest[9..12])
            && (if n > 4 then s[8] == Lsb(rest[12..15]) else s[8] == 0)
            && (if n > 5 then s[7] == Lsb(rest[15..18]) else s[7] == 0)
            && (if n > 6 then s[9] == Lsb(rest[18..21]) else s[9] == 0)
            && (if n > 7 then s[6] == Lsb(rest[21..24]) else s[6] == 0)
            && (if n > 8 then s[10] == Lsb(rest[24..27]) else s[10] == 0)
            && (if n > 9 then s[5] == Lsb(rest[27..30]) else s[5] == 0)
            && (if n > 10 then s[11] == Lsb(rest[30..33]) else s[11] == 0)
            && (if n > 11 then s[4] == Lsb(rest[33..36]) else s[4] == 0)
            && (if n > 12 then s[12] == Lsb(rest[36..39]) else s[12] == 0)
            && (if n > 13 then s[3] == Lsb(rest[39..42]) else s[3] == 0)
            && (if n > 14 then s[13] == Lsb(rest[42..45]) else s[13] == 0)
            && (if n > 15 then s[2] == Lsb(rest[45..48]) else s[2] == 0)
            && (if n > 16 then s[14] == Lsb(rest[48..51]) else s[14] == 0)
            && (if n > 17 then s[1] == Lsb(rest[51..54]) else s[1] == 0)
            && (if n > 18 then s[15] == Lsb(rest[54..57]) else s[15] == 0)
  {
    hide Lsb;
    assert forall k: nat :: 3 * k + 3 <= |rest| ==> rest[3 * k..][..3] == rest[3 * k..3 * k + 3];
  }

  /** A code-length symbol below 16 is a length; 16 repeats the length before it 3 to 6 times, 17 stands for 3 to 10 zeros
      and 18 for 11 to 138, with 2, 3 and 7 bits to say how many. */
  lemma TokenMeaning(out: seq<nat>, t: Token)
    requires ValidToken(t)
    ensures t.code < 16 ==> ExtraBits(t.code) == 0 && Apply(out, t) == Some(out + [t.code])
    ensures t.code == 16 && out == [] ==> Apply(out, t) == None
    ensures t.code == 16 && out != [] ==>
              && ExtraBits(t.code) == 2 && Apply(out, t).Some? && out < Apply(out, t).value
              && |Apply(out, t).value| == |out| + 3 + t.extra
              && forall i :: |out| <= i < |Apply(out, t).value| ==> Apply(out, t).value[i] == out[|out| - 1]
    ensures t.code == 17 || t.code == 18 ==>
              && ExtraBits(t.code) == (if t.code == 17 then 3 else 7) && Apply(out, t).Some? && out < Apply(out, t).value
              && |Apply(out, t).value| == |out| + (if t.code == 17 then 3 else 11) + t.extra
              && forall i :: |out| <= i < |Apply(out, t).value| ==> Apply(out, t).value[i] == 0
  {
  }
}
