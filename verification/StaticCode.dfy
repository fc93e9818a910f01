/** The fixed code of static blocks (section 3.2.6 of RFC 1951). */
module StaticCode {
  import opened Bits
  import opened CanonicalCode
  import opened CodeLoops
  import opened DeflateTable
  import opened SymbolStream

  function StaticLength(i: nat): nat
  {
    if i < 144 then 8 else if i < 256 then 9 else if i < 280 then 7 else 8
  }

  function StaticLit(): (lens: seq<nat>)
    ensures |lens| == 288 && forall i :: 0 <= i < 288 ==> lens[i] == StaticLength(i)
  {
    seq(288, i requires 0 <= i < 288 => StaticLength(i))
  }

  function StaticDist(): (lens: seq<nat>)
    ensures |lens| == 32 && forall i :: 0 <= i < 32 ==> lens[i] == 5
  {
    seq(32, _ => 5)
  }

  /** Both codecs fill in the lengths. */
  method StaticSizes() returns (lit: seq<nat>, dist: seq<nat>)
    ensures lit == StaticLit() && dist == StaticDist()
  {
    var p := new nat[288];
    for i := 0 to 144
      invariant forall k :: 0 <= k < i ==> p[k] == StaticLength(k)
    {
      p[i] := 8;
    }
    for i := 144 to 256
      invariant forall k :: 0 <= k < i ==> p[k] == StaticLength(k)
    {
      p[i] := 9;
    }
    for i := 256 to 280
      invariant forall k :: 0 <= k < i ==> p[k] == StaticLength(k)
    {
      p[i] := 7;
    }
    for i := 280 to 288
      invariant forall k :: 0 <= k < i ==> p[k] == StaticLength(k)
    {
      p[i] := 8;
    }
    lit, dist := p[..], seq(32, _ => 5);
  }

  /** How many of the first `n` symbols have length `l`. */
  function StaticCount(n: nat, l: nat): int
  {
    if l == 8 then (if n < 144 then n else 144) + (if n < 280 then 0 else n - 280)
    else if l == 9 then if n < 144 then 0 else if n < 256 then n - 144 else 112
    else if l == 7 then if n < 256 then 0 else if n < 280 then n - 256 else 24
    else 0
  }

  lemma {:induction false} CountStatic(n: nat, l: nat)
    requires n <= 288
    ensures Count(StaticLit()[..n], l) == StaticCount(n, l)
  {
    hide Count;
    if n == 0 {
      CountNothing(StaticLit()[..0], l);
    } else {
      CountStatic(n - 1, l);
      CountStep(StaticLit(), n - 1, l);
    }
  }

  lemma CountNothing(lens: seq<nat>, l: nat)
    requires lens == []
    ensures Count(lens, l) == 0
  {
  }

  lemma {:induction false} CountFives(n: nat, l: nat)
    requires n <= 32
    ensures Count(StaticDist()[..n], l) == if l == 5 then n else 0
  {
    hide Count;
    if n == 0 {
      CountNothing(StaticDist()[..0], l);
    } else {
      CountFives(n - 1, l);
      CountStep(StaticDist(), n - 1, l);
    }
  }

  lemma {:induction false} LitFirst(l: nat)
    requires l >= 1
    ensures FirstCode(StaticLit(), l) == if l <= 7 then 0 else if l == 8 then 48 else if l == 9 then 400 else Pow2(l)
  {
    hide FirstCode;
    var lens := StaticLit();
    FirstCodeStep(lens, l);
    if l > 1 {
      LitFirst(l - 1);
      FirstCodeStep(lens, l - 1);
      CountStatic(288, l - 1);
      assert lens[..288] == lens;
      ShlDouble(1, l - 1);
      assert Pow2(10) == 1024;
    }
  }

  lemma {:induction false} DistFirst(l: nat)
    requires l >= 1
    ensures FirstCode(StaticDist(), l) == if l <= 5 then 0 else Pow2(l)
  {
    hide FirstCode;
    var lens := StaticDist();
    FirstCodeStep(lens, l);
    if l > 1 {
      DistFirst(l - 1);
      FirstCodeStep(lens, l - 1);
      CountFives(32, l - 1);
      assert lens[..32] == lens;
      ShlDouble(1, l - 1);
      assert Pow2(6) == 64;
    }
  }

  /** Both static codes are complete. */
  lemma StaticComplete()
    ensures Complete(StaticLit()) && Complete(StaticDist())
  {
    hide FirstCode;
    hide Kraft;
    LitFirst(MAX_LENGTH + 1);
    DistFirst(MAX_LENGTH + 1);
    TotalIsTwiceKraft(StaticLit());
    TotalIsTwiceKraft(StaticDist());
    AllWindows();
    ShlDouble(1, MAX_LENGTH);
  }

  /** The codes of fixed lengths, by the static branch of the table builder. */
  method StaticTable(lens: seq<nat>) returns (codes: seq<nat>)
    requires Lengths(lens) && |lens| <= 288
    ensures CodesFor(lens, codes)
  {
    hide Count;
    hide CodePath;
    var sizes, c := new nat[|lens|](i requires 0 <= i < |lens| => lens[i]), new nat[|lens|];
    assert sizes[..] == lens;
    var num := CountLengths(lens, 33);
    AssignCodes(c, sizes, num, MAX_LENGTH);
    codes := c[..];
  }
}
