/** The tables of the compressor are as short as any: no prefix code for the same counts takes fewer bits, as long as no
    code of the Huffman tree is longer than the limit. */
module TableOptimal {
  import opened Bits
  import opened CanonicalCode
  import opened DeflateTable
  import opened HuffmanDepth
  import opened HuffmanMerge
  import opened HuffmanOptimal

  // ----- sums over the used symbols

  ghost predicate Places(s: seq<R.Sym>, n: nat)
  {
    forall p :: 0 <= p < |s| ==> s[p].index < n
  }

  /** The sum of a value of each symbol. */
  ghost function SymSum(s: seq<R.Sym>, f: seq<nat>): nat
    requires Places(s, |f|)
  {
    if s == [] then 0 else f[s[0].index] + SymSum(s[1..], f)
  }

  lemma {:induction false} SymSumAdd(s: seq<R.Sym>, x: R.Sym, f: seq<nat>)
    requires Places(s, |f|) && x.index < |f|
    ensures SymSum(s + [x], f) == SymSum(s, f) + f[x.index]
  {
    if s == [] {
      assert s + [x] == [x];
    } else {
      SymSumAdd(s[1..], x, f);
      assert (s + [x])[1..] == s[1..] + [x];
    }
  }

  lemma {:induction false} SymSumRemove(s: seq<R.Sym>, i: nat, f: seq<nat>)
    requires i < |s| && Places(s, |f|)
    ensures Places(s[..i] + s[i + 1..], |f|) && SymSum(s, f) == f[s[i].index] + SymSum(s[..i] + s[i + 1..], f)
  {
    if i == 0 {
      assert s[..0] + s[1..] == s[1..];
    } else {
      SymSumRemove(s[1..], i - 1, f);
      assert (s[..i] + s[i + 1..])[1..] == s[1..][..i - 1] + s[1..][i..];
    }
  }

  lemma {:induction false} SymSumPermuted(s: seq<R.Sym>, t: seq<R.Sym>, f: seq<nat>)
    requires multiset(s) == multiset(t) && Places(s, |f|) && Places(t, |f|)
    ensures SymSum(s, f) == SymSum(t, f)
  {
    if s == [] {
      assert |multiset(t)| == 0;
    } else {
      var i := Find(s, t);
      SymSumRemove(t, i, f);
      SymSumPermuted(s[1..], t[..i] + t[i + 1..], f);
    }
  }

  // ----- bits and Kraft sums of the used symbols

  ghost function Products(counts: seq<nat>, l: seq<nat>): (f: seq<nat>)
    requires |counts| == |l|
    ensures |f| == |l| && forall i :: 0 <= i < |f| ==> f[i] == counts[i] * l[i]
  {
    seq(|l|, i requires 0 <= i < |l| => counts[i] * l[i])
  }

  lemma UsedPlaces(counts: seq<nat>)
    ensures Places(UsedSyms(counts), |counts|)
  {
    UsedSymsAre(counts);
    forall p | 0 <= p < |UsedSyms(counts)| ensures UsedSyms(counts)[p].index < |counts| {
      assert UsedSyms(counts)[p] in UsedSyms(counts);
    }
  }

  /** The bits of a code are spent on the used symbols. */
  lemma {:induction false} CostByUse(counts: seq<nat>, l: seq<nat>, n: nat)
    requires n <= |counts| == |l| && Places(UsedSyms(counts[..n]), |l|)
    ensures Cost(counts[..n], l[..n]) == SymSum(UsedSyms(counts[..n]), Products(counts, l))
  {
    if n > 0 {
      var f := Products(counts, l);
      assert counts[..n][..n - 1] == counts[..n - 1] && l[..n][..n - 1] == l[..n - 1];
      UsedPlaces(counts[..n - 1]);
      CostByUse(counts, l, n - 1);
      if counts[n - 1] > 0 {
        SymSumAdd(UsedSyms(counts[..n - 1]), R.Sym(counts[n - 1], n - 1), f);
      } else {
        assert UsedSyms(counts[..n]) == UsedSyms(counts[..n - 1]);
      }
    }
  }

  lemma {:induction false} CostInOrder(order: seq<R.Sym>, counts: seq<nat>, l: seq<nat>, n: nat)
    requires n <= |order| && |counts| == |l| && Places(order, |l|)
    requires forall p :: 0 <= p < |order| ==> counts[order[p].index] == order[p].key
    ensures SymSum(order[..n], Products(counts, l)) == Cost(Keys(order[..n]), Picked(order[..n], l))
  {
    if n > 0 {
      CostInOrder(order, counts, l, n - 1);
      var before, x := order[..n - 1], order[n - 1];
      assert order[..n] == before + [x];
      SymSumAdd(before, x, Products(counts, l));
      assert Keys(order[..n]) == Keys(before) + [x.key] && Picked(order[..n], l) == Picked(before, l) + [l[x.index]];
      CostMore(Keys(before), Picked(before, l), x.key, l[x.index]);
    }
  }

  /** In the order of the counts, a code spends the same bits. */
  lemma CostSorted(order: seq<R.Sym>, counts: seq<nat>, l: seq<nat>)
    requires SortedUsed(order, counts) && |counts| == |l| && Places(order, |l|)
    requires forall p :: 0 <= p < |order| ==> counts[order[p].index] == order[p].key
    ensures Cost(counts, l) == Cost(Keys(order), Picked(order, l))
  {
    hide Cost;
    hide SymSum;
    var n := |counts|;
    assert counts[..n] == counts && l[..n] == l && order[..|order|] == order;
    UsedPlaces(counts);
    CostByUse(counts, l, n);
    SymSumPermuted(order, UsedSyms(counts), Products(counts, l));
    CostInOrder(order, counts, l, |order|);
  }

  /** The part of the code space that each symbol takes. */
  ghost function Widths(l: seq<nat>): (f: seq<nat>)
    requires Lengths(l)
    ensures |f| == |l| && forall i :: 0 <= i < |f| ==> f[i] == Pow2(15 - l[i])
  {
    seq(|l|, i requires 0 <= i < |l| => Pow2(15 - l[i]))
  }

  lemma {:induction false} KraftByUse(counts: seq<nat>, l: seq<nat>, n: nat)
    requires n <= |counts| == |l| && Lengths(l) && Places(UsedSyms(counts[..n]), |l|)
    requires forall i :: 0 <= i < |counts| && counts[i] > 0 ==> l[i] > 0
    ensures SymSum(UsedSyms(counts[..n]), Widths(l)) <= Kraft(l[..n])
  {
    hide Pow2;
    hide Mass;
    if n == 0 {
      MassOfNone(MAX_LENGTH + 1);
    } else {
      assert counts[..n][..n - 1] == counts[..n - 1] && l[..n][..n - 1] == l[..n - 1];
      UsedPlaces(counts[..n - 1]);
      KraftByUse(counts, l, n - 1);
      hide SymSum;
      MassOfLast(l[..n], MAX_LENGTH + 1);
      if counts[n - 1] > 0 {
        SymSumAdd(UsedSyms(counts[..n - 1]), R.Sym(counts[n - 1], n - 1), Widths(l));
      } else {
        assert UsedSyms(counts[..n]) == UsedSyms(counts[..n - 1]);
      }
    }
  }

  lemma {:induction false} KraftInOrder(order: seq<R.Sym>, l: seq<nat>, n: nat)
    requires n <= |order| && Lengths(l) && Places(order, |l|)
    ensures KraftSum(Picked(order[..n], l), 15) == SymSum(order[..n], Widths(l))
  {
    hide Pow2;
    if n > 0 {
      KraftInOrder(order, l, n - 1);
      hide KraftSum;
      hide SymSum;
      var before, x := order[..n - 1], order[n - 1];
      assert order[..n] == before + [x];
      SymSumAdd(before, x, Widths(l));
      assert Picked(order[..n], l) == Picked(before, l) + [l[x.index]];
      KraftMore(Picked(before, l), l[x.index], 15);
    }
  }

  lemma FitsSorted(order: seq<R.Sym>, counts: seq<nat>, l: seq<nat>)
    requires SortedUsed(order, counts) && |counts| == |l| && Places(order, |l|) && Fits(l)
    requires forall i :: 0 <= i < |counts| && counts[i] > 0 ==> l[i] > 0
    ensures Feasible(Picked(order, l), 15)
  {
    hide SymSum;
    hide KraftSum;
    var n := |counts|;
    assert counts[..n] == counts && l[..n] == l && order[..|order|] == order;
    UsedPlaces(counts);
    KraftByUse(counts, l, n);
    SymSumPermuted(order, UsedSyms(counts), Widths(l));
    KraftInOrder(order, l, |order|);
    AllWindows();
  }

  /** The tree over the counts is not deeper than the limit. */
  ghost predicate TreeWithin(counts: seq<nat>, limit: nat)
  {
    forall order :: SortedUsed(order, counts) ==> NotTooDeep(Keys(order), limit)
  }

  /** Whatever lengths a prefix code gives to the symbols in use, it does not spend fewer bits than those of the table. */
  lemma TableIsOptimal(counts: seq<nat>, sizes: seq<nat>, limit: nat, other: seq<nat>)
    requires |counts| <= 288 && Sum(counts) < 0x10000 && SizedFor(sizes, counts, limit) && TreeSized(sizes, counts, limit)
    requires TreeWithin(counts, limit)
    requires |other| == |counts| && Fits(other) && forall i :: 0 <= i < |counts| && counts[i] > 0 ==> other[i] > 0
    ensures Cost(counts, sizes) <= Cost(counts, other)
  {
    hide Cost;
    hide Picked;
    hide Fits;
    hide Sum;
    hide SortedUsed;
    hide LeafDepths;
    var order: seq<R.Sym> :| SortedUsed(order, counts) && (forall p :: 0 <= p < |order| ==> order[p].index < |sizes|)
                             && (NotTooDeep(Keys(order), limit) ==> Picked(order, sizes) == LeafDepths(Keys(order)));
    assert NotTooDeep(Keys(order), limit);
    SortedOptimal(order, counts, sizes, limit, other);
  }

  /** The counts in order. */
  lemma OrderFacts(order: seq<R.Sym>, counts: seq<nat>)
    requires |counts| <= 288 && Sum(counts) < 0x10000 && SortedUsed(order, counts)
    ensures Places(order, |counts|) && Ascending(Keys(order)) && Sum(Keys(order)) < 0x10000
    ensures forall p :: 0 <= p < |order| ==> counts[order[p].index] == order[p].key >= 1
  {
    SmallSumShallow(counts);
    SortedFacts(order, counts);
    KeysAscending(order);
  }

  lemma SortedOptimal(order: seq<R.Sym>, counts: seq<nat>, sizes: seq<nat>, limit: nat, other: seq<nat>)
    requires |counts| <= 288 && Sum(counts) < 0x10000 && SortedUsed(order, counts)
    requires |sizes| == |counts| && Places(order, |sizes|) && NotTooDeep(Keys(order), limit)
    requires Picked(order, sizes) == LeafDepths(Keys(order))
    requires |other| == |counts| && Fits(other) && forall i :: 0 <= i < |counts| && counts[i] > 0 ==> other[i] > 0
    ensures Cost(counts, sizes) <= Cost(counts, other)
  {
    hide Cost;
    hide Feasible;
    hide Sum;
    hide SortedUsed;
    hide LeafDepths;
    hide Fits;
    WithinTwo(Keys(order), limit);
    hide NotTooDeep;
    OrderFacts(order, counts);
    CostSorted(order, counts, sizes);
    CostSorted(order, counts, other);
    FitsSorted(order, counts, other);
    TreeOptimal(Keys(order), Picked(order, other), 15);
  }

  lemma WithinTwo(w: seq<nat>, limit: nat)
    requires NotTooDeep(w, limit)
    ensures |w| >= 2
  {
  }
}
