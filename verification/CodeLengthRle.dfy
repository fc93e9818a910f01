/** Run-length packing of code lengths (section 3.2.7 of RFC 1951).

    A token is a code-length symbol with the value of its extra bits: 0..15 stand for themselves,
    16 repeats the previous length 3 + e times, 17 and 18 give 3 + e and 11 + e zeros. */
module CodeLengthRle {
  import C = CanonicalCode
  import opened Common

  datatype Token = Token(code: nat, extra: nat)

  /** The number of extra bits that follow a symbol. */
  function ExtraBits(code: nat): nat
  {
    if code < 16 then 0 else if code == 16 then 2 else if code == 17 then 3 else 7
  }

  predicate ValidToken(t: Token)
  {
    && t.code <= 18
    && (t.code < 16 ==> t.extra == 0)
    && (t.code == 16 ==> t.extra < 4)
    && (t.code == 17 ==> t.extra < 8)
    && (t.code == 18 ==> t.extra < 128)
  }

  function Repeat(x: nat, n: nat): (s: seq<nat>)
    ensures |s| == n && forall i :: 0 <= i < n ==> s[i] == x
  {
    seq(n, _ => x)
  }

  function RunLength(t: Token): nat
  {
    if t.code < 16 then 1 else if t.code <= 17 then 3 + t.extra else 11 + t.extra
  }

  /** The decompressor's rule for one token. */
  function Apply(out: seq<nat>, t: Token): Option<seq<nat>>
  {
    if t.code < 16 then Some(out + [t.code])
    else if t.code == 16 && out == [] then None
    else Some(out + Repeat(if t.code == 16 then out[|out| - 1] else 0, RunLength(t)))
  }

  function Expand(tokens: seq<Token>): Option<seq<nat>>
  {
    if tokens == [] then Some([])
    else
      match Expand(tokens[..|tokens| - 1])
      case None => None
      case Some(out) => Apply(out, tokens[|tokens| - 1])
  }

  /** The compressor's byte form: a token takes one byte, or two if it has extra bits. */
  function Bytes(tokens: seq<Token>): seq<nat>
  {
    if tokens == [] then []
    else
      var t := tokens[|tokens| - 1];
      Bytes(tokens[..|tokens| - 1]) + if t.code < 16 then [t.code] else [t.code, t.extra]
  }

  function Occurrences(tokens: seq<Token>, c: nat): nat
  {
    if tokens == [] then 0
    else Occurrences(tokens[..|tokens| - 1], c) + if tokens[|tokens| - 1].code == c then 1 else 0
  }

  /** What has been packed so far: the tokens, and the lengths they stand for. */
  ghost predicate Packed(tokens: seq<Token>, packed: seq<nat>, counts: seq<nat>, out: seq<nat>)
  {
    && packed == Bytes(tokens)
    && |packed| <= |out|
    && (forall k :: 0 <= k < |tokens| ==> ValidToken(tokens[k]))
    && Expand(tokens) == Some(out)
    && |counts| == 19
    && (forall c :: 0 <= c < 19 ==> counts[c] == Occurrences(tokens, c))
  }

  lemma AddToken(tokens: seq<Token>, packed: seq<nat>, counts: seq<nat>, out: seq<nat>, t: Token)
    requires Packed(tokens, packed, counts, out) && ValidToken(t)
    requires Apply(out, t).Some?
    ensures Packed(tokens + [t], packed + (if t.code < 16 then [t.code] else [t.code, t.extra]),
                   counts[t.code := counts[t.code] + 1], Apply(out, t).value)
  {
    assert (tokens + [t])[..|tokens|] == tokens;
  }

  /** The compressor's packing state: packed bytes, symbol counts and the runs still pending. */
  class Packer {
    var packed: seq<nat>
    var counts: seq<nat>
    var prev: nat
    var repeats: nat
    var zeros: nat
    ghost var tokens: seq<Token>
    ghost var out: seq<nat>

    ghost predicate Valid()
      reads this
    {
      Packed(tokens, packed, counts, out)
    }

    /** The pending runs complete the output to `done`. */
    ghost predicate Pending(done: seq<nat>)
      reads this
    {
      && repeats < 6 && zeros < 138 && (repeats == 0 || zeros == 0)
      && (if done == [] then prev == 0xFF else prev == done[|done| - 1] <= 15)
      && (repeats > 0 ==> prev != 0 && done != [] && out != [] && out[|out| - 1] == prev)
      && (zeros > 0 ==> prev == 0)
      && out + Repeat(prev, repeats) + Repeat(0, zeros) == done
    }

    constructor ()
      ensures Valid() && Pending([])
    {
      packed, prev, repeats, zeros := [], 0xFF, 0, 0;
      counts := Repeat(0, 19);
      tokens, out := [], [];
    }

    method Put(t: Token)
      requires Valid() && ValidToken(t) && Apply(out, t).Some?
      modifies `packed, `counts, `tokens, `out
      ensures Valid() && out == Apply(old(out), t).value
    {
      AddToken(tokens, packed, counts, out, t);
      packed := packed + if t.code < 16 then [t.code] else [t.code, t.extra];
      counts := counts[t.code := counts[t.code] + 1];
      tokens, out := tokens + [t], Apply(out, t).value;
    }

    /** Runs of one or two are written out. */
    method PutSingly(value: nat, run: nat)
      requires Valid() && value <= 15
      modifies `packed, `counts, `tokens, `out
      ensures Valid() && out == old(out) + Repeat(value, run)
    {
      assert out + Repeat(value, 0) == out;
      for k := 0 to run
        invariant Valid() && out == old(out) + Repeat(value, k)
      {
        Put(Token(value, 0));
        assert Repeat(value, k) + [value] == Repeat(value, k + 1);
      }
    }

    method FlushRepeats()
      requires Valid() && repeats <= 6
      requires repeats > 0 ==> 0 < prev <= 15 && out != [] && out[|out| - 1] == prev
      modifies `packed, `counts, `tokens, `out, `repeats
      ensures Valid() && repeats == 0 && out == old(out) + Repeat(prev, old(repeats))
    {
      if repeats > 0 {
        if repeats < 3 {
          PutSingly(prev, repeats);
        } else {
          Put(Token(16, repeats - 3));
        }
        repeats := 0;
      } else {
        assert out + Repeat(prev, 0) == out;
      }
    }

    method FlushZeros()
      requires Valid() && zeros <= 138
      modifies `packed, `counts, `tokens, `out, `zeros
      ensures Valid() && zeros == 0 && out == old(out) + Repeat(0, old(zeros))
    {
      if zeros > 0 {
        if zeros < 3 {
          PutSingly(0, zeros);
        } else if zeros <= 10 {
          Put(Token(17, zeros - 3));
        } else {
          Put(Token(18, zeros - 11));
        }
        zeros := 0;
      } else {
        assert out + Repeat(0, 0) == out;
      }
    }

    method AddZero(ghost done: seq<nat>)
      requires Valid() && Pending(done)
      modifies this
      ensures Valid() && Pending(done + [0])
    {
      hide Packed;
      FlushRepeats();
      zeros := zeros + 1;
      assert Repeat(0, zeros - 1) + [0] == Repeat(0, zeros);
      if zeros == 138 {
        FlushZeros();
      }
      prev := 0;
      assert out + Repeat(0, 0) + Repeat(0, zeros) == done + [0];
    }

    method AddLength(size: nat, ghost done: seq<nat>)
      requires Valid() && Pending(done) && 1 <= size <= 15
      modifies this
      ensures Valid() && Pending(done + [size])
    {
      hide Packed;
      FlushZeros();
      if size != prev {
        FlushRepeats();
        Put(Token(size, 0));
      } else {
        assert Repeat(prev, repeats) + [prev] == Repeat(prev, repeats + 1);
        repeats := repeats + 1;
        if repeats == 6 {
          FlushRepeats();
        }
      }
      prev := size;
      assert out + Repeat(prev, repeats) + Repeat(0, 0) == done + [size];
    }
  }

  /** Packs code lengths into tokens and counts the symbols used. */
  method Pack(lens: seq<nat>) returns (packed: seq<nat>, counts: seq<nat>, ghost tokens: seq<Token>)
    requires C.Lengths(lens)
    ensures packed == Bytes(tokens) && |packed| <= |lens|
    ensures Expand(tokens) == Some(lens)
    ensures forall k :: 0 <= k < |tokens| ==> ValidToken(tokens[k])
    ensures |counts| == 19 && forall c :: 0 <= c < 19 ==> counts[c] == Occurrences(tokens, c)
  {
    var p := new Packer();
    for i := 0 to |lens|
      invariant fresh(p) && p.Valid() && p.Pending(lens[..i])
    {
      assert lens[..i + 1] == lens[..i] + [lens[i]];
      if lens[i] == 0 {
        p.AddZero(lens[..i]);
      } else {
        p.AddLength(lens[i], lens[..i]);
      }
    }
    ghost var out, rest := p.out, Repeat(p.prev, p.repeats) + Repeat(0, p.zeros);
    assert lens[..|lens|] == lens && out + rest == lens;
    if p.repeats > 0 {
      p.FlushRepeats();
    } else {
      p.FlushZeros();
    }
    assert p.out == lens;
    packed, counts, tokens := p.packed, p.counts, p.tokens;
  }

  /** A repeat of the previous length never comes first. */
  lemma {:induction false} NoLeadingRepeat(tokens: seq<Token>)
    requires tokens != [] && Expand(tokens).Some?
    ensures tokens[0].code != 16
  {
    if |tokens| > 1 {
      NoLeadingRepeat(tokens[..|tokens| - 1]);
    } else {
      assert tokens[..0] == [];
    }
  }

  /** Fewer tokens stand for a proper beginning of the lengths. */
  lemma {:induction false} ExpandPrefix(tokens: seq<Token>, k: nat)
    requires k <= |tokens| && Expand(tokens).Some?
    ensures Expand(tokens[..k]).Some? && Expand(tokens[..k]).value <= Expand(tokens).value
    ensures k < |tokens| ==> |Expand(tokens[..k]).value| < |Expand(tokens).value|
    decreases |tokens|
  {
    if k < |tokens| {
      var n := |tokens| - 1;
      ExpandPrefix(tokens[..n], k);
      assert tokens[..n][..k] == tokens[..k];
    } else {
      assert tokens[..k] == tokens;
    }
  }

  /** Appends the lengths of one token. */
  method Store(lenCodes: array<nat>, counter: nat, t: Token) returns (after: nat)
    requires lenCodes.Length == 457 && counter < 320 && ValidToken(t) && (t.code == 16 ==> counter > 0)
    modifies lenCodes
    ensures counter < after <= 457
    ensures Apply(old(lenCodes[..counter]), t) == Some(lenCodes[..after])
  {
    ghost var out := lenCodes[..counter];
    if t.code < 16 {
      lenCodes[counter] := t.code;
      after := counter + 1;
      assert lenCodes[..after] == out + [t.code];
      return;
    }
    var run := t.extra + if t.code == 18 then 11 else 3;
    var value := if t.code == 16 then lenCodes[counter - 1] else 0;
    for k := 0 to run
      invariant lenCodes[..counter] == out
      invariant forall i :: counter <= i < counter + k ==> lenCodes[i] == value
    {
      lenCodes[counter + k] := value;
    }
    after := counter + run;
    assert lenCodes[..after] == out + Repeat(value, run);
  }
}
