/** The bytes that literals and matches stand for. */
module LzExpand {
  import opened LzCodes

  datatype Status = BlockDone | HasMoreOutput | Failed

  datatype Outcome = Outcome(status: Status, out: seq<nat>)

  /** One byte repeated from `dist` bytes before the end. */
  ghost function Next(out: seq<nat>, dist: nat): (r: seq<nat>)
    requires 1 <= dist <= |out|
    ensures |r| == |out| + 1 && out <= r
  {
    out + [out[|out| - dist]]
  }

  /** `len` bytes repeated from `dist` bytes before the end; a match may overlap what it produces. */
  ghost function Copied(out: seq<nat>, len: nat, dist: nat): (r: seq<nat>)
    requires 1 <= dist <= |out|
    ensures |r| == |out| + len && out <= r
    decreases len
  {
    if len == 0 then out else Copied(Next(out, dist), len - 1, dist)
  }

  /** What codes make of the output so far, in a buffer of `room` bytes. */
  ghost function Expanded(out: seq<nat>, codes: seq<LzCode>, room: nat): Outcome
    requires ValidCodes(codes)
    decreases |codes|
  {
    if codes == [] then Outcome(BlockDone, out)
    else if codes[0].Literal? then
      if |out| >= room then Outcome(HasMoreOutput, [])
      else Expanded(out + [codes[0].byte], codes[1..], room)
    else
      var len, dist := codes[0].len, codes[0].dist;
      if dist > |out| then Outcome(Failed, [])
      else if |out| + len > room then Outcome(HasMoreOutput, [])
      else Expanded(Copied(out, len, dist), codes[1..], room)
  }

  lemma ExpandedLiteral(out: seq<nat>, codes: seq<LzCode>, room: nat)
    requires ValidCodes(codes) && codes != [] && codes[0].Literal?
    ensures ValidCodes(codes[1..]) && Expanded(out, codes, room) ==
            if |out| >= room then Outcome(HasMoreOutput, []) else Expanded(out + [codes[0].byte], codes[1..], room)
  {
  }

  lemma ExpandedMatch(out: seq<nat>, codes: seq<LzCode>, room: nat)
    requires ValidCodes(codes) && codes != [] && codes[0].Match?
    ensures ValidCodes(codes[1..]) && 1 <= codes[0].dist && Expanded(out, codes, room) ==
            if codes[0].dist > |out| then Outcome(Failed, [])
            else if |out| + codes[0].len > room then Outcome(HasMoreOutput, [])
            else Expanded(Copied(out, codes[0].len, codes[0].dist), codes[1..], room)
  {
    hide Copied;
  }

  /** From `from` to `to` every byte equals the one `dist` before it. */
  ghost predicate Repeats(s: seq<nat>, from: nat, to: nat, dist: nat)
    requires dist <= from && to <= |s|
  {
    forall i :: from <= i < to ==> s[i] == s[i - dist]
  }

  /** The codes spell the data from `at` on: literals are its bytes and matches true repeats in it. */
  ghost predicate Spells(data: seq<nat>, at: nat, codes: seq<LzCode>)
    decreases |codes|
  {
    if codes == [] then at == |data|
    else
      match codes[0]
      case Literal(byte) => at < |data| && data[at] == byte && Spells(data, at + 1, codes[1..])
      case Match(len, dist) =>
        && at + len <= |data| && dist <= at
        && Repeats(data, at, at + len, dist)
        && Spells(data, at + len, codes[1..])
  }

  /** Every byte of a copy equals the one `dist` before it. */
  lemma {:induction false} CopiedRepeats(out: seq<nat>, len: nat, dist: nat)
    requires 1 <= dist <= |out|
    ensures Repeats(Copied(out, len, dist), |out|, |out| + len, dist)
    decreases len
  {
    if len > 0 {
      var next := Next(out, dist);
      var r := Copied(next, len - 1, dist);
      CopiedRepeats(next, len - 1, dist);
      assert r[..|next|] == next;
      forall i | |out| <= i < |r| ensures r[i] == r[i - dist] {
        if i == |out| {
          assert r[i] == next[i] == out[i - dist] == next[i - dist] == r[i - dist];
        }
      }
    }
  }

  /** A copy is determined by that. */
  lemma {:induction false} CopiedOf(data: seq<nat>, at: nat, len: nat, dist: nat)
    requires 1 <= dist <= at && at + len <= |data|
    requires Repeats(data, at, at + len, dist)
    ensures Copied(data[..at], len, dist) == data[..at + len]
    decreases len
  {
    if len > 0 {
      assert Next(data[..at], dist) == data[..at + 1];
      CopiedOf(data, at + 1, len - 1, dist);
    }
  }

  /** Codes that spell the data expand to it, if it fits. */
  lemma {:induction false} SpelledExpands(data: seq<nat>, at: nat, codes: seq<LzCode>, room: nat)
    requires ValidCodes(codes) && Spells(data, at, codes) && at <= |data|
    ensures |data| <= room || codes == [] ==> Expanded(data[..at], codes, room) == Outcome(BlockDone, data)
    ensures |data| > room && codes != [] ==> Expanded(data[..at], codes, room) == Outcome(HasMoreOutput, [])
    decreases |codes|
  {
    hide Expanded;
    hide Copied;
    if codes == [] {
      ExpandedNone(data, room);
      assert data[..at] == data;
    } else if codes[0].Literal? {
      ExpandedLiteral(data[..at], codes, room);
      SpelledFits(data, at + 1, codes[1..]);
      assert data[..at] + [codes[0].byte] == data[..at + 1];
      SpelledExpands(data, at + 1, codes[1..], room);
    } else {
      ExpandedMatch(data[..at], codes, room);
      SpelledFits(data, at + codes[0].len, codes[1..]);
      CopiedOf(data, at, codes[0].len, codes[0].dist);
      SpelledExpands(data, at + codes[0].len, codes[1..], room);
    }
  }

  lemma ExpandedNone(out: seq<nat>, room: nat)
    ensures Expanded(out, [], room) == Outcome(BlockDone, out)
  {
  }

  lemma SpelledFits(data: seq<nat>, at: nat, codes: seq<LzCode>)
    requires Spells(data, at, codes)
    ensures codes == [] ==> at == |data|
  {
  }

  /** What codes expand to is what they spell. */
  lemma {:induction false} ExpandedSpells(out: seq<nat>, codes: seq<LzCode>, room: nat)
    requires ValidCodes(codes) && Expanded(out, codes, room).status == BlockDone
    ensures out <= Expanded(out, codes, room).out && Spells(Expanded(out, codes, room).out, |out|, codes)
    decreases |codes|
  {
    if codes != [] {
      var data := Expanded(out, codes, room).out;
      if codes[0].Literal? {
        var next := out + [codes[0].byte];
        ExpandedSpells(next, codes[1..], room);
        assert data[|out|] == next[|out|];
      } else {
        var len, dist := codes[0].len, codes[0].dist;
        var next := Copied(out, len, dist);
        ExpandedSpells(next, codes[1..], room);
        CopiedRepeats(out, len, dist);
        forall i | |out| <= i < |out| + len ensures data[i] == data[i - dist] {
          assert data[i] == next[i] && data[i - dist] == next[i - dist];
        }
      }
    }
  }

  // ----- pieces of a sequence of codes

  lemma {:induction false} SpanConcat(a: seq<LzCode>, b: seq<LzCode>)
    ensures Span(a + b) == Span(a) + Span(b)
  {
    if b == [] {
      assert a + b == a;
    } else {
      SpanConcat(a, b[..|b| - 1]);
      assert (a + b)[..|a + b| - 1] == a + b[..|b| - 1];
    }
  }

  lemma SpanFirst(codes: seq<LzCode>)
    requires codes != []
    ensures Span(codes) == Stride(codes[0]) + Span(codes[1..])
  {
    assert codes == [codes[0]] + codes[1..];
    SpanConcat([codes[0]], codes[1..]);
    assert Span([codes[0]]) == Span([]) + Stride(codes[0]) by { assert [codes[0]][..0] == []; }
  }

  /** A first part of codes that spell data spells a first part of it, and the rest of them the rest. */
  lemma {:induction false} SpellsSplit(data: seq<nat>, at: nat, a: seq<LzCode>, b: seq<LzCode>)
    requires Spells(data, at, a + b)
    ensures at + Span(a) <= |data| && Spells(data[..at + Span(a)], at, a) && Spells(data, at + Span(a), b)
    decreases |a|
  {
    hide Span;
    if a == [] {
      assert a + b == b;
      NoSpan();
      SpelledEnd(data, at, b);
    } else {
      assert (a + b)[0] == a[0] && (a + b)[1..] == a[1..] + b;
      SpanFirst(a);
      var next := at + Stride(a[0]);
      SpellsSplit(data, next, a[1..], b);
      var d := data[..at + Span(a)];
      if a[0].Match? {
        forall i | at <= i < next ensures d[i] == d[i - a[0].dist] {
          assert data[i] == data[i - a[0].dist];
        }
      }
    }
  }

  lemma NoSpan()
    ensures Span([]) == 0
  {
  }

  lemma {:induction false} SpelledEnd(data: seq<nat>, at: nat, codes: seq<LzCode>)
    requires Spells(data, at, codes)
    ensures at <= |data|
    decreases |codes|
  {
    if codes != [] {
      SpelledEnd(data, at + Stride(codes[0]), codes[1..]);
    }
  }

  /** Spelled data are bytes. */
  lemma {:induction false} SpelledBytes(data: seq<nat>, at: nat, codes: seq<LzCode>)
    requires ValidCodes(codes) && Spells(data, at, codes) && at <= |data|
    requires forall i :: 0 <= i < at ==> data[i] < 256
    ensures forall i :: 0 <= i < |data| ==> data[i] < 256
    decreases |codes|
  {
    if codes != [] {
      var next := at + Stride(codes[0]);
      assert ValidCode(codes[0]) && ValidCodes(codes[1..]);
      if codes[0].Match? {
        RepeatedBytes(data, at, next, codes[0].dist);
      }
      SpelledEnd(data, next, codes[1..]);
      SpelledBytes(data, next, codes[1..]);
    }
  }

  lemma {:induction false} RepeatedBytes(data: seq<nat>, at: nat, until: nat, dist: nat)
    requires 1 <= dist <= at <= until <= |data| && Repeats(data, at, until, dist)
    requires forall i :: 0 <= i < at ==> data[i] < 256
    ensures forall i :: 0 <= i < until ==> data[i] < 256
    decreases until - at
  {
    if at < until {
      assert data[at] == data[at - dist];
      RepeatedBytes(data, at + 1, until, dist);
    }
  }
}
