/** What the decompressor does with any bits at all, block after block up to the last one or the first
    that fails, and exactly when it stays within its output buffer. */
module StreamDecoder {
  import opened Bits
  import opened BlockDecoder
  import opened LzDecoder
  import opened LzExpand

  /** What is left of the input, and the output so far. */
  datatype Place = Place(rest: Path, out: seq<nat>)

  /** How a block was read: the run that decoded its body, the result, and whether it is the last one. */
  datatype Link = Link(trace: Trace, status: Status, last: bool)

  /** The blocks that were read and the places between them. */
  datatype Chain = Chain(places: seq<Place>, links: seq<Link>)

  ghost predicate LinkReads(p: Place, end: nat, l: Link, p': Place)
  {
    BlockReads(p.rest, p.out, end, l.trace, l.status, l.last, p'.rest, p'.out)
  }

  ghost predicate GoesOn(l: Link)
  {
    l.status == BlockDone && !l.last
  }

  /** The blocks at the front of the bits, each behind the output of those before it. */
  ghost predicate ChainReads(bits: Path, end: nat, c: Chain)
  {
    && |c.places| == |c.links| + 1 && c.places[0] == Place(bits, [])
    && (forall i: nat {:trigger c.links[i]} :: i < |c.links| ==> LinkReads(c.places[i], end, c.links[i], c.places[i + 1]))
    && (forall i: nat {:trigger c.links[i]} :: i + 1 < |c.links| ==> GoesOn(c.links[i]))
  }

  ghost predicate Finished(c: Chain)
  {
    c.links != [] && !GoesOn(c.links[|c.links| - 1])
  }

  ghost predicate ChainOverruns(c: Chain, end: nat)
  {
    exists i: nat {:trigger c.links[i]} :: i < |c.links| && TraceOverruns(c.links[i].trace, end)
  }

  /** Somewhere in the input a match of length 0 is taken, at an accepted distance, with fewer than three
      bytes left in the buffer. */
  ghost predicate Overflows(bits: Path, end: nat)
  {
    exists c :: ChainReads(bits, end, c) && ChainOverruns(c, end)
  }

  ghost function Start(bits: Path): Chain
  {
    Chain([Place(bits, [])], [])
  }

  ghost function Extended(c: Chain, l: Link, p: Place): Chain
  {
    Chain(c.places + [p], c.links + [l])
  }

  lemma ChainMore(bits: Path, end: nat, c: Chain, l: Link, p: Place)
    requires ChainReads(bits, end, c) && LinkReads(c.places[|c.links|], end, l, p)
    requires c.links != [] ==> GoesOn(c.links[|c.links| - 1])
    ensures ChainReads(bits, end, Extended(c, l, p))
  {
    hide LinkReads;
    hide GoesOn;
  }

  lemma {:induction false} ChainInside(bits: Path, end: nat, c: Chain, n: nat)
    requires ChainReads(bits, end, c) && n <= |c.links|
    ensures |c.places[n].out| <= end + 3
    ensures |c.places[n].out| <= end <==>
              forall i: nat {:trigger c.links[i]} :: i < n ==> !TraceOverruns(c.links[i].trace, end)
    decreases n
  {
    hide BlockReads;
    hide TraceOverruns;
    if n > 0 {
      ChainInside(bits, end, c, n - 1);
      var l, p, q := c.links[n - 1], c.places[n - 1], c.places[n];
      BlockInside(p.rest, p.out, end, l.trace, l.status, l.last, q.rest, q.out);
    }
  }

  lemma LinkOnce(end: nat, p: Place, l: Link, p': Place, q: Place, m: Link, q': Place)
    requires p.rest == q.rest && |p.out| == |q.out| && LinkReads(p, end, l, p') && LinkReads(q, end, m, q')
    ensures l.status == m.status && |p'.out| == |q'.out| && (GoesOn(l) <==> GoesOn(m))
    ensures l.status == BlockDone ==> p'.rest == q'.rest
    ensures TraceOverruns(l.trace, end) <==> TraceOverruns(m.trace, end)
  {
    hide BlockReads;
    hide TraceOverruns;
    BlockOnce(p.rest, end, p.out, l.trace, l.status, l.last, p'.rest, p'.out, q.out, m.trace, m.status, m.last, q'.rest, q'.out);
  }

  /** The bits decide how the blocks are read. */
  lemma {:induction false} ChainOnce(bits: Path, end: nat, a: Chain, b: Chain, i: nat)
    requires ChainReads(bits, end, a) && ChainReads(bits, end, b) && i < |a.links| && i < |b.links|
    ensures a.places[i].rest == b.places[i].rest && |a.places[i].out| == |b.places[i].out|
    ensures a.links[i].status == b.links[i].status && |a.places[i + 1].out| == |b.places[i + 1].out|
    ensures a.links[i].status == BlockDone ==> a.places[i + 1].rest == b.places[i + 1].rest
    ensures GoesOn(a.links[i]) <==> GoesOn(b.links[i])
    ensures TraceOverruns(a.links[i].trace, end) <==> TraceOverruns(b.links[i].trace, end)
    decreases i
  {
    hide LinkReads;
    hide TraceOverruns;
    if i > 0 {
      ChainOnce(bits, end, a, b, i - 1);
    }
    var l, m := a.links[i], b.links[i];
    LinkOnce(end, a.places[i], l, a.places[i + 1], b.places[i], m, b.places[i + 1]);
  }

  /** A chain that has ended is as long as any other. */
  lemma ChainEnds(bits: Path, end: nat, a: Chain, b: Chain)
    requires ChainReads(bits, end, a) && ChainReads(bits, end, b) && Finished(a)
    ensures |b.links| <= |a.links| && (Finished(b) ==> |a.links| == |b.links|)
  {
    hide LinkReads;
    var m, n := |a.links|, |b.links|;
    if m < n {
      ChainOnce(bits, end, a, b, m - 1);
    } else if Finished(b) && n < m {
      ChainOnce(bits, end, a, b, n - 1);
    }
  }

  /** For all bits and buffers: decompression never gets further than three bytes past the end, and it stays
      within the buffer if and only if no match in the input overruns it. */
  lemma ChainWithin(bits: Path, end: nat, c: Chain)
    requires ChainReads(bits, end, c) && Finished(c)
    ensures |c.places[|c.links|].out| <= end + 3
    ensures |c.places[|c.links|].out| <= end <==> !Overflows(bits, end)
  {
    hide LinkReads;
    hide TraceOverruns;
    ChainInside(bits, end, c, |c.links|);
    if Overflows(bits, end) {
      var other: Chain :| ChainReads(bits, end, other) && ChainOverruns(other, end);
      ChainEnds(bits, end, c, other);
      var i: nat :| i < |other.links| && TraceOverruns(other.links[i].trace, end);
      ChainOnce(bits, end, c, other, i);
    }
  }

  /** Input whose tables have no codes for the length symbols 286 and 287 never leaves the buffer. */
  lemma {:induction false} ChainPlain(bits: Path, end: nat, c: Chain, n: nat)
    requires ChainReads(bits, end, c) && n <= |c.links|
    requires forall i: nat {:trigger c.places[i]} :: i < n ==> Plain(c.places[i].rest)
    ensures |c.places[n].out| <= end
    decreases n
  {
    hide BlockReads;
    hide Plain;
    if n > 0 {
      ChainPlain(bits, end, c, n - 1);
      var l, p, q := c.links[n - 1], c.places[n - 1], c.places[n];
      BlockPlain(p.rest, p.out, end, l.trace, l.status, l.last, q.rest, q.out);
    }
  }

  /** Two readings of the same input end alike, whatever the buffer held before. */
  lemma ResultOnce(bits: Path, end: nat, a: Chain, b: Chain)
    requires ChainReads(bits, end, a) && Finished(a) && ChainReads(bits, end, b) && Finished(b)
    ensures var n := |a.links|;
            && n == |b.links| && a.links[n - 1].status == b.links[n - 1].status
            && |a.places[n].out| == |b.places[n].out|
            && (a.links[n - 1].status == BlockDone ==> a.places[n].rest == b.places[n].rest)
  {
    hide LinkReads;
    ChainEnds(bits, end, a, b);
    ChainOnce(bits, end, a, b, |a.links| - 1);
  }

  // ----- reading block by block

  /** How far a chain has got. */
  ghost predicate StandsAt(bits: Path, end: nat, c: Chain, status: Status, last: bool, p: Place)
  {
    && ChainReads(bits, end, c) && c.places[|c.links|] == p
    && (c.links == [] ==> status == BlockDone && !last)
    && (c.links != [] ==> var l := c.links[|c.links| - 1]; l.status == status && l.last == last)
  }

  lemma StartStands(bits: Path, end: nat)
    ensures StandsAt(bits, end, Start(bits), BlockDone, false, Place(bits, []))
  {
  }

  lemma StandsNext(bits: Path, end: nat, c: Chain, p: Place, l: Link, q: Place)
    requires StandsAt(bits, end, c, BlockDone, false, p) && LinkReads(p, end, l, q)
    ensures StandsAt(bits, end, Extended(c, l, q), l.status, l.last, q)
  {
    hide LinkReads;
    ChainMore(bits, end, c, l, q);
  }

  lemma StandsEnd(bits: Path, end: nat, c: Chain, status: Status, last: bool, p: Place)
    requires StandsAt(bits, end, c, status, last, p) && (status == BlockDone ==> last)
    ensures ChainReads(bits, end, c) && Finished(c)
    ensures c.links[|c.links| - 1].status == status && c.places[|c.links|] == p
    ensures |p.out| <= end + 3 && (|p.out| <= end <==> !Overflows(bits, end))
  {
    hide LinkReads;
    hide Overflows;
    ChainWithin(bits, end, c);
  }
}
