/** Key expansion and cipher block chaining (libs/crypto/aes.c; section 5.2 of FIPS 197 and section
    6.2 of NIST SP 800-38A). */
module AesCbc {
  import opened Common
  import opened AesField
  import opened GaloisField
  import opened SBox
  import opened AesRounds
  import opened AesState

  // ----- chaining on blocks

  /** The block that masks the next one. */
  ghost function Chain(iv: Block, cs: seq<Block>): Block
  {
    if cs == [] then iv else cs[|cs| - 1]
  }

  ghost function CbcEncrypted(keys: seq<Block>, iv: Block, ps: seq<Block>): (cs: seq<Block>)
    requires |keys| == ROUNDS + 1
    ensures |cs| == |ps|
  {
    if ps == [] then []
    else
      var cs := CbcEncrypted(keys, iv, ps[..|ps| - 1]);
      cs + [Encrypted(XorBlock(ps[|ps| - 1], Chain(iv, cs)), keys)]
  }

  ghost function CbcDecrypted(keys: seq<Block>, iv: Block, cs: seq<Block>): (ps: seq<Block>)
    requires |keys| == ROUNDS + 1
    ensures |ps| == |cs|
  {
    if cs == [] then []
    else
      var before := cs[..|cs| - 1];
      CbcDecrypted(keys, iv, before) + [XorBlock(Decrypted(cs[|cs| - 1], keys), Chain(iv, before))]
  }

  lemma EncryptSnoc(keys: seq<Block>, iv: Block, ps: seq<Block>, p: Block)
    requires |keys| == ROUNDS + 1
    ensures var cs := CbcEncrypted(keys, iv, ps);
            CbcEncrypted(keys, iv, ps + [p]) == cs + [Encrypted(XorBlock(p, Chain(iv, cs)), keys)]
  {
    hide XorBlock;
    hide Encrypted;
    assert (ps + [p])[..|ps|] == ps;
  }

  lemma DecryptSnoc(keys: seq<Block>, iv: Block, cs: seq<Block>, c: Block)
    requires |keys| == ROUNDS + 1
    ensures CbcDecrypted(keys, iv, cs + [c]) == CbcDecrypted(keys, iv, cs) + [XorBlock(Decrypted(c, keys), Chain(iv, cs))]
  {
    hide XorBlock;
    hide Decrypted;
    assert (cs + [c])[..|cs|] == cs;
  }

  /** Decrypting what was encrypted gives the message back, whatever the keys and the first mask. */
  lemma {:induction false} CbcRoundTrip(keys: seq<Block>, iv: Block, ps: seq<Block>)
    requires |keys| == ROUNDS + 1
    ensures CbcDecrypted(keys, iv, CbcEncrypted(keys, iv, ps)) == ps
    decreases |ps|
  {
    hide XorBlock;
    hide Encrypted;
    hide Decrypted;
    hide Chain;
    if ps != [] {
      hide CbcEncrypted;
      hide CbcDecrypted;
      var before, p := ps[..|ps| - 1], ps[|ps| - 1];
      assert ps == before + [p];
      CbcRoundTrip(keys, iv, before);
      EncryptSnoc(keys, iv, before, p);
      var cs := CbcEncrypted(keys, iv, before);
      var masked := XorBlock(p, Chain(iv, cs));
      DecryptSnoc(keys, iv, cs, Encrypted(masked, keys));
      CipherRoundTrip(masked, keys);
      BlockRoundTrips(p, Chain(iv, cs));
    }
  }

  /** Encrypting in two calls, the second continuing where the first stopped, is encrypting in one. */
  lemma {:induction false} EncryptSplit(keys: seq<Block>, iv: Block, a: seq<Block>, b: seq<Block>)
    requires |keys| == ROUNDS + 1
    ensures var cs := CbcEncrypted(keys, iv, a);
            CbcEncrypted(keys, iv, a + b) == cs + CbcEncrypted(keys, Chain(iv, cs), b)
    decreases |b|
  {
    hide XorBlock;
    hide Encrypted;
    hide Chain;
    var cs := CbcEncrypted(keys, iv, a);
    if b == [] {
      assert a + b == a;
    } else {
      hide CbcEncrypted;
      var b', p := b[..|b| - 1], b[|b| - 1];
      assert b == b' + [p] && a + b == a + b' + [p];
      EncryptSplit(keys, iv, a, b');
      EncryptSnoc(keys, iv, a + b', p);
      EncryptSnoc(keys, Chain(iv, cs), b', p);
      ChainSplit(iv, cs, CbcEncrypted(keys, Chain(iv, cs), b'));
    }
  }

  lemma {:induction false} DecryptSplit(keys: seq<Block>, iv: Block, a: seq<Block>, b: seq<Block>)
    requires |keys| == ROUNDS + 1
    ensures CbcDecrypted(keys, iv, a + b) == CbcDecrypted(keys, iv, a) + CbcDecrypted(keys, Chain(iv, a), b)
    decreases |b|
  {
    hide XorBlock;
    hide Decrypted;
    hide Chain;
    if b == [] {
      assert a + b == a;
    } else {
      hide CbcDecrypted;
      var b', c := b[..|b| - 1], b[|b| - 1];
      assert b == b' + [c] && a + b == a + b' + [c];
      DecryptSplit(keys, iv, a, b');
      DecryptSnoc(keys, iv, a + b', c);
      DecryptSnoc(keys, Chain(iv, a), b', c);
      ChainSplit(iv, a, b');
    }
  }

  lemma ChainSplit(iv: Block, a: seq<Block>, b: seq<Block>)
    ensures Chain(iv, a + b) == Chain(Chain(iv, a), b)
  {
    if b == [] {
      assert a + b == a;
    }
  }

  /** Section 6.2 of NIST SP 800-38A: every block is masked by the cipher block before it, the first by the vector. */
  lemma {:induction false} CbcAt(keys: seq<Block>, iv: Block, ps: seq<Block>, i: nat)
    requires |keys| == ROUNDS + 1 && i < |ps|
    ensures var cs := CbcEncrypted(keys, iv, ps);
            cs[i] == Encrypted(XorBlock(ps[i], if i == 0 then iv else cs[i - 1]), keys)
    ensures CbcDecrypted(keys, iv, ps)[i] == XorBlock(Decrypted(ps[i], keys), if i == 0 then iv else ps[i - 1])
    decreases |ps|
  {
    hide XorBlock;
    hide Encrypted;
    hide Decrypted;
    if i < |ps| - 1 {
      CbcAt(keys, iv, ps[..|ps| - 1], i);
    }
  }

  // ----- buffers as sequences of blocks

  ghost function Blocks(bytes: seq<Byte>): (bs: seq<Block>)
    ensures |bs| == |bytes| / 16
  {
    seq(|bytes| / 16, i requires 0 <= i < |bytes| / 16 => BlockAt(bytes, 16 * i))
  }

  /** A buffer of whole blocks is determined by its blocks. */
  lemma BlocksDetermine(a: seq<Byte>, b: seq<Byte>)
    requires |a| == |b| && |a| % 16 == 0 && Blocks(a) == Blocks(b)
    ensures a == b
  {
    forall k | 0 <= k < |a| ensures a[k] == b[k] {
      var i, j := k / 16, k % 16;
      assert k == 16 * i + j && i < |a| / 16;
      assert BlockAt(a, 16 * i) == Blocks(a)[i] == Blocks(b)[i] == BlockAt(b, 16 * i);
      SameByte(a, b, 16 * i, j);
    }
  }

  lemma SameByte(a: seq<Byte>, b: seq<Byte>, at: nat, j: nat)
    requires j < 16 && at + 16 <= |a| == |b| && BlockAt(a, at) == BlockAt(b, at)
    ensures a[at + j] == b[at + j]
  {
  }

  // ----- key expansion

  function Rcon(r: nat): Byte
  {
    Hex(if r == 1 then 0x01 else if r == 2 then 0x02 else if r == 3 then 0x04 else if r == 4 then 0x08
        else if r == 5 then 0x10 else if r == 6 then 0x20 else if r == 7 then 0x40 else if r == 8 then 0x80
        else if r == 9 then 0x1b else if r == 10 then 0x36 else 0x8d)
  }

  /** Rotation, substitution and the round constant, for the first word of a round key. */
  function Scheduled(w: Column, r: nat): Column
  {
    Column(Xor(SubByte(w.r1), Rcon(r)), SubByte(w.r2), SubByte(w.r3), SubByte(w.r0))
  }

  /** Word `i` of the key schedule. */
  ghost function KeyWord(key: seq<Byte>, i: nat): Column
    requires |key| == 16
  {
    if i < 4 then ColumnAt(key, 4 * i)
    else
      var last := KeyWord(key, i - 1);
      XorColumn(KeyWord(key, i - 4), if i % 4 == 0 then Scheduled(last, i / 4) else last)
  }

  ghost predicate Expands(rk: seq<Byte>, key: seq<Byte>, n: nat)
    requires |key| == 16
  {
    4 * n <= |rk| && forall w: nat {:trigger KeyWord(key, w)} :: w < n ==> ColumnAt(rk, 4 * w) == KeyWord(key, w)
  }

  method WriteWord(rk: array<Byte>, i: nat, w: Column, ghost key: seq<Byte>)
    requires 4 * i + 4 <= rk.Length && |key| == 16 && Expands(rk[..], key, i) && w == KeyWord(key, i)
    modifies rk
    ensures Expands(rk[..], key, i + 1)
  {
    hide KeyWord;
    ghost var was := rk[..];
    rk[4 * i] := w.r0;
    rk[4 * i + 1] := w.r1;
    rk[4 * i + 2] := w.r2;
    rk[4 * i + 3] := w.r3;
    forall v: nat | v < i + 1 ensures ColumnAt(rk[..], 4 * v) == KeyWord(key, v) {
      if v < i {
        assert ColumnAt(rk[..], 4 * v) == ColumnAt(was, 4 * v);
      }
    }
  }

  method KeyExpansion(rk: array<Byte>, key: seq<Byte>)
    requires rk.Length == 176 && |key| == 16
    modifies rk
    ensures Expands(rk[..], key, 44)
  {
    hide XorColumn;
    hide Scheduled;
    var i := 0;
    while i < 4
      invariant 0 <= i <= 4 && Expands(rk[..], key, i)
    {
      WriteWord(rk, i, ColumnAt(key, 4 * i), key);
      i := i + 1;
    }
    while i < 44
      invariant 4 <= i <= 44 && Expands(rk[..], key, i)
    {
      assert ColumnAt(rk[..], 4 * (i - 1)) == KeyWord(key, i - 1) && ColumnAt(rk[..], 4 * (i - 4)) == KeyWord(key, i - 4);
      var temp := ColumnAt(rk[..], 4 * (i - 1));
      if i % 4 == 0 {
        temp := Scheduled(temp, i / 4);
      }
      WriteWord(rk, i, XorColumn(ColumnAt(rk[..], 4 * (i - 4)), temp), key);
      i := i + 1;
    }
  }

  // ----- the buffers

  lemma XorBytes(a: seq<Byte>, at: nat, m: seq<Byte>, b: seq<Byte>)
    requires at + 16 <= |a| == |b| && |m| == 16 && forall k :: 0 <= k < 16 ==> b[at + k] == Xor(a[at + k], m[k])
    ensures BlockAt(b, at) == XorBlock(BlockAt(a, at), BlockAt(m, 0))
  {
    hide Xor;
    assert b[at + 0] == Xor(a[at + 0], m[0]) && b[at + 1] == Xor(a[at + 1], m[1]);
    assert b[at + 2] == Xor(a[at + 2], m[2]) && b[at + 3] == Xor(a[at + 3], m[3]);
    assert b[at + 4] == Xor(a[at + 4], m[4]) && b[at + 5] == Xor(a[at + 5], m[5]);
    assert b[at + 6] == Xor(a[at + 6], m[6]) && b[at + 7] == Xor(a[at + 7], m[7]);
    assert b[at + 8] == Xor(a[at + 8], m[8]) && b[at + 9] == Xor(a[at + 9], m[9]);
    assert b[at + 10] == Xor(a[at + 10], m[10]) && b[at + 11] == Xor(a[at + 11], m[11]);
    assert b[at + 12] == Xor(a[at + 12], m[12]) && b[at + 13] == Xor(a[at + 13], m[13]);
    assert b[at + 14] == Xor(a[at + 14], m[14]) && b[at + 15] == Xor(a[at + 15], m[15]);
  }

  lemma SameBlock(a: seq<Byte>, at: nat, b: seq<Byte>, bt: nat)
    requires at + 16 <= |a| && bt + 16 <= |b| && a[at..at + 16] == b[bt..bt + 16]
    ensures BlockAt(a, at) == BlockAt(b, bt)
  {
    var x, y := a[at..at + 16], b[bt..bt + 16];
    assert forall k :: 0 <= k < 16 ==> x[k] == a[at + k] && y[k] == b[bt + k];
  }

  class Aes {
    const roundKey: array<Byte>
    const state: array<Byte>
    var iv: seq<Byte>

    ghost predicate Valid()
      reads this
    {
      roundKey.Length == 176 && state.Length == 16 && roundKey != state && |iv| == 16
    }

    ghost function Schedule(): seq<Block>
      requires Valid()
      reads this, roundKey
    {
      Keys(roundKey[..])
    }

    /** A buffer the caller provides. */
    ghost predicate Outside(buf: array<Byte>)
    {
      buf != roundKey && buf != state
    }

    method XorWithIv(buf: array<Byte>, at: nat)
      requires Valid() && Outside(buf) && at + 16 <= buf.Length
      modifies buf
      ensures BlockAt(buf[..], at) == XorBlock(old(BlockAt(buf[..], at)), BlockAt(iv, 0))
      ensures buf[..at] == old(buf[..at]) && buf[at + 16..] == old(buf[at + 16..])
    {
      hide Xor;
      hide BlockAt;
      hide XorBlock;
      ghost var was := buf[..];
      for i := 0 to 16
        invariant forall k :: 0 <= k < buf.Length && !(at <= k < at + i) ==> buf[k] == was[k]
        invariant forall k :: 0 <= k < i ==> buf[at + k] == Xor(was[at + k], iv[k])
      {
        buf[at + i] := Xor(buf[at + i], iv[i]);
      }
      XorBytes(was, at, iv, buf[..]);
    }

    constructor ()
      ensures Valid() && fresh(roundKey) && fresh(state)
    {
      roundKey := new Byte[176];
      state := new Byte[16];
      iv := seq(16, _ => ZERO);
    }

    /** One step of encryption: mask, encrypt, and keep the result as the next mask. */
    method EncryptBlock(output: array<Byte>, input: array<Byte>, at: nat)
      requires Valid() && Outside(output) && Outside(input) && input != output
      requires at + 16 <= input.Length == output.Length
      modifies this`iv, state, input, output
      ensures Valid()
      ensures BlockAt(input[..], at) == XorBlock(old(BlockAt(input[..], at)), old(BlockAt(iv, 0)))
      ensures BlockAt(output[..], at) == Encrypted(BlockAt(input[..], at), Schedule()) == BlockAt(iv, 0)
      ensures input[..at] == old(input[..at]) && input[at + 16..] == old(input[at + 16..])
      ensures output[..at] == old(output[..at]) && output[at + 16..] == old(output[at + 16..])
    {
      hide BlockAt;
      hide XorBlock;
      hide Encrypted;
      hide Keys;
      XorWithIv(input, at);
      CopyBlock(state, 0, input, at);
      Cipher(state, roundKey);
      CopyBlock(output, at, state, 0);
      iv := output[at..at + 16];
      SameBlock(output[..], at, iv, 0);
    }

    /** One step of decryption: decrypt, unmask, and keep the input as the next mask. */
    method DecryptBlock(output: array<Byte>, input: array<Byte>, at: nat) returns (ghost inner: Block)
      requires Valid() && Outside(output) && Outside(input) && input != output
      requires at + 16 <= input.Length == output.Length
      modifies this`iv, state, output
      ensures Valid()
      ensures BlockAt(output[..], at) == XorBlock(inner, old(BlockAt(iv, 0)))
      ensures BlockAt(iv, 0) == BlockAt(input[..], at)
      ensures output[..at] == old(output[..at]) && output[at + 16..] == old(output[at + 16..])
      ensures inner == Decrypted(BlockAt(input[..], at), Schedule())
    {
      hide BlockAt;
      hide XorBlock;
      hide Decrypted;
      hide Keys;
      CopyBlock(state, 0, input, at);
      InvCipher(state, roundKey);
      inner := BlockAt(state[..], 0);
      CopyBlock(output, at, state, 0);
      XorWithIv(output, at);
      iv := input[at..at + 16];
      SameBlock(input[..], at, iv, 0);
    }

    /** Without a key the schedule stays, and without an initial vector the chain goes on. */
    method Prepare(key: Option<seq<Byte>>, newIv: Option<seq<Byte>>)
      requires Valid() && (key.Some? ==> |key.value| == 16) && (newIv.Some? ==> |newIv.value| == 16)
      modifies this`iv, roundKey
      ensures Valid() && iv == (if newIv.Some? then newIv.value else old(iv))
      ensures if key.Some? then Expands(roundKey[..], key.value, 44) else roundKey[..] == old(roundKey[..])
    {
      if key.Some? {
        KeyExpansion(roundKey, key.value);
      }
      if newIv.Some? {
        iv := newIv.value;
      }
    }

    method EncryptBuffer(output: array<Byte>, input: array<Byte>, key: Option<seq<Byte>>, newIv: Option<seq<Byte>>)
      requires Valid() && Outside(output) && Outside(input) && input != output
      requires input.Length == output.Length && input.Length % 16 == 0
      requires (key.Some? ==> |key.value| == 16) && (newIv.Some? ==> |newIv.value| == 16)
      modifies this`iv, roundKey, state, input, output
      ensures Valid()
      ensures if key.Some? then Expands(roundKey[..], key.value, 44) else roundKey[..] == old(roundKey[..])
      ensures var iv0 := BlockAt(if newIv.Some? then newIv.value else old(iv), 0);
              && Blocks(output[..]) == CbcEncrypted(Schedule(), iv0, old(Blocks(input[..])))
              && BlockAt(iv, 0) == Chain(iv0, Blocks(output[..]))
    {
      hide BlockAt;
      hide Blocks;
      hide CbcEncrypted;
      hide Keys;
      hide Expands;
      hide XorBlock;
      hide Encrypted;
      Prepare(key, newIv);
      ghost var keys, iv0, ps := Schedule(), BlockAt(iv, 0), Blocks(input[..]);
      ghost var rk, in0, n := roundKey[..], input[..], 0;
      NoBlocks(keys, iv0);
      var i := 0;
      while i < input.Length
        invariant 0 <= i == 16 * n <= input.Length && Valid() && roundKey[..] == rk
        invariant input[i..] == in0[i..]
        invariant Blocks(output[..i]) == CbcEncrypted(keys, iv0, ps[..n])
        invariant BlockAt(iv, 0) == Chain(iv0, Blocks(output[..i]))
      {
        assert input[i..i + 16] == in0[i..i + 16];
        BlockHere(in0, n);
        SameBlock(input[..], i, in0, i);
        ghost var before := output[..i];
        EncryptBlock(output, input, i);
        BlocksMore(output[..], n, before);
        EncryptSnoc(keys, iv0, ps[..n], ps[n]);
        assert ps[..n] + [ps[n]] == ps[..n + 1];
        assert input[i + 16..] == in0[i + 16..];
        i := i + 16;
        n := n + 1;
      }
      assert output[..i] == output[..] && ps[..n] == ps;
    }

    method DecryptBuffer(output: array<Byte>, input: array<Byte>, key: Option<seq<Byte>>, newIv: Option<seq<Byte>>)
      requires Valid() && Outside(output) && Outside(input) && input != output
      requires input.Length == output.Length && input.Length % 16 == 0
      requires (key.Some? ==> |key.value| == 16) && (newIv.Some? ==> |newIv.value| == 16)
      modifies this`iv, roundKey, state, output
      ensures Valid()
      ensures if key.Some? then Expands(roundKey[..], key.value, 44) else roundKey[..] == old(roundKey[..])
      ensures var iv0 := BlockAt(if newIv.Some? then newIv.value else old(iv), 0);
              && Blocks(output[..]) == CbcDecrypted(Schedule(), iv0, Blocks(input[..]))
              && BlockAt(iv, 0) == Chain(iv0, Blocks(input[..]))
    {
      hide BlockAt;
      hide Blocks;
      hide CbcDecrypted;
      hide Keys;
      hide Expands;
      hide XorBlock;
      hide Decrypted;
      Prepare(key, newIv);
      ghost var keys, iv0, cs := Schedule(), BlockAt(iv, 0), Blocks(input[..]);
      ghost var rk, n := roundKey[..], 0;
      NoBlocks(keys, iv0);
      var i := 0;
      while i < input.Length
        invariant 0 <= i == 16 * n <= input.Length && Valid() && roundKey[..] == rk
        invariant Blocks(output[..i]) == CbcDecrypted(keys, iv0, cs[..n])
        invariant BlockAt(iv, 0) == Chain(iv0, cs[..n])
      {
        BlockHere(input[..], n);
        ghost var before := output[..i];
        ghost var inner := DecryptBlock(output, input, i);
        BlocksMore(output[..], n, before);
        DecryptSnoc(keys, iv0, cs[..n], cs[n]);
        assert cs[..n] + [cs[n]] == cs[..n + 1];
        i := i + 16;
        n := n + 1;
      }
      assert output[..i] == output[..] && cs[..n] == cs;
    }
  }

  method CopyBlock(dst: array<Byte>, to: nat, src: array<Byte>, from: nat)
    requires to + 16 <= dst.Length && from + 16 <= src.Length && dst != src
    modifies dst
    ensures BlockAt(dst[..], to) == BlockAt(src[..], from)
    ensures dst[..to] == old(dst[..to]) && dst[to + 16..] == old(dst[to + 16..])
  {
    hide BlockAt;
    ghost var was := dst[..];
    for i := 0 to 16
      invariant forall k :: 0 <= k < dst.Length && !(to <= k < to + i) ==> dst[k] == was[k]
      invariant forall k :: to <= k < to + i ==> dst[k] == src[k - to + from]
    {
      dst[to + i] := src[from + i];
    }
    assert dst[to..to + 16] == src[from..from + 16];
    SameBlock(dst[..], to, src[..], from);
  }

  lemma NoBlocks(keys: seq<Block>, iv: Block)
    requires |keys| == ROUNDS + 1
    ensures Blocks([]) == [] && CbcEncrypted(keys, iv, []) == [] && CbcDecrypted(keys, iv, []) == []
  {
  }

  lemma BlockHere(bytes: seq<Byte>, n: nat)
    requires 16 * n + 16 <= |bytes|
    ensures n < |Blocks(bytes)| && Blocks(bytes)[n] == BlockAt(bytes, 16 * n)
  {
  }

  lemma BlocksMore(bytes: seq<Byte>, n: nat, before: seq<Byte>)
    requires 16 * n + 16 <= |bytes| && before == bytes[..16 * n]
    ensures Blocks(bytes[..16 * n + 16]) == Blocks(before) + [BlockAt(bytes, 16 * n)]
  {
    var more := bytes[..16 * n + 16];
    assert |more| / 16 == n + 1 && |before| / 16 == n;
    forall i | 0 <= i < n + 1 ensures Blocks(more)[i] == (Blocks(before) + [BlockAt(bytes, 16 * n)])[i] {
      if i < n {
        SameBlock(more, 16 * i, before, 16 * i);
      } else {
        SameBlock(more, 16 * n, bytes, 16 * n);
      }
    }
  }

  /** Encrypting a buffer and decrypting the result gives back the buffer's bytes. */
  method RoundTrip(aes: Aes, message: array<Byte>, key: seq<Byte>, iv: seq<Byte>) returns (got: array<Byte>)
    requires aes.Valid() && aes.Outside(message) && message.Length % 16 == 0 && |key| == |iv| == 16
    modifies aes, aes.roundKey, aes.state, message
    ensures got[..] == old(message[..])
  {
    hide Blocks;
    hide BlockAt;
    hide Expands;
    hide Keys;
    hide CbcEncrypted;
    hide CbcDecrypted;
    ghost var was := message[..];
    var sent := new Byte[message.Length];
    got := new Byte[message.Length];
    aes.EncryptBuffer(sent, message, Some(key), Some(iv));
    aes.DecryptBuffer(got, sent, None, Some(iv));
    CbcRoundTrip(aes.Schedule(), BlockAt(iv, 0), Blocks(was));
    BlocksDetermine(got[..], was);
  }

  // ----- streams over several calls

  /** The schedule is determined by the key. */
  lemma ExpandsOnce(a: seq<Byte>, b: seq<Byte>, key: seq<Byte>)
    requires |key| == 16 && |a| == |b| == 176 && Expands(a, key, 44) && Expands(b, key, 44)
    ensures a == b
  {
    hide KeyWord;
    forall k | 0 <= k < 176 ensures a[k] == b[k] {
      var w, j := k / 4, k % 4;
      assert ColumnAt(a, 4 * w) == KeyWord(key, w) == ColumnAt(b, 4 * w);
      assert k == 4 * w + j;
    }
  }

  lemma BlocksConcat(a: seq<Byte>, b: seq<Byte>)
    requires |a| % 16 == 0 && |b| % 16 == 0
    ensures Blocks(a + b) == Blocks(a) + Blocks(b)
  {
    hide BlockAt;
    var n, m := |a| / 16, |b| / 16;
    assert |a + b| / 16 == n + m;
    forall i | 0 <= i < n + m ensures Blocks(a + b)[i] == (Blocks(a) + Blocks(b))[i] {
      if i < n {
        assert (a + b)[16 * i..16 * i + 16] == a[16 * i..16 * i + 16];
        SameBlock(a + b, 16 * i, a, 16 * i);
      } else {
        assert (a + b)[16 * i..16 * i + 16] == b[16 * (i - n)..16 * (i - n) + 16];
        SameBlock(a + b, 16 * i, b, 16 * (i - n));
      }
    }
  }

  method Joined(a: seq<Byte>, b: seq<Byte>) returns (c: array<Byte>)
    ensures fresh(c) && c[..] == a + b
  {
    c := new Byte[|a| + |b|](i requires 0 <= i < |a| + |b| => (a + b)[i]);
  }

  /** Encrypting a message in two calls, the second without key and vector, gives the bytes of one call
      on the whole message. */
  method EncryptInTwo(aes: Aes, a: seq<Byte>, b: seq<Byte>, key: seq<Byte>, iv: seq<Byte>)
    returns (first: array<Byte>, second: array<Byte>, whole: array<Byte>)
    requires aes.Valid() && |a| % 16 == 0 && |b| % 16 == 0 && |key| == |iv| == 16
    modifies aes, aes.roundKey, aes.state
    ensures aes.Valid() && Expands(aes.roundKey[..], key, 44) && whole[..] == first[..] + second[..]
    ensures Blocks(whole[..]) == CbcEncrypted(aes.Schedule(), BlockAt(iv, 0), Blocks(a + b))
  {
    hide Blocks;
    hide BlockAt;
    hide Expands;
    hide Keys;
    hide CbcEncrypted;
    hide Chain;
    var inA := Joined(a, []);
    var inB := Joined(b, []);
    var inAll := Joined(a, b);
    first := new Byte[|a|];
    second := new Byte[|b|];
    whole := new Byte[|a| + |b|];
    assert inA[..] == a && inB[..] == b;
    aes.EncryptBuffer(whole, inAll, Some(key), Some(iv));
    ghost var rk, all := aes.roundKey[..], whole[..];
    aes.EncryptBuffer(first, inA, Some(key), Some(iv));
    ExpandsOnce(rk, aes.roundKey[..], key);
    aes.EncryptBuffer(second, inB, None, None);
    BlocksConcat(a, b);
    BlocksConcat(first[..], second[..]);
    EncryptSplit(Keys(rk), BlockAt(iv, 0), Blocks(a), Blocks(b));
    BlocksDetermine(whole[..], first[..] + second[..]);
  }

  /** The same for decryption. */
  method DecryptInTwo(aes: Aes, a: seq<Byte>, b: seq<Byte>, key: seq<Byte>, iv: seq<Byte>)
    returns (first: array<Byte>, second: array<Byte>, whole: array<Byte>)
    requires aes.Valid() && |a| % 16 == 0 && |b| % 16 == 0 && |key| == |iv| == 16
    modifies aes, aes.roundKey, aes.state
    ensures aes.Valid() && Expands(aes.roundKey[..], key, 44) && whole[..] == first[..] + second[..]
    ensures Blocks(whole[..]) == CbcDecrypted(aes.Schedule(), BlockAt(iv, 0), Blocks(a + b))
  {
    hide Blocks;
    hide BlockAt;
    hide Expands;
    hide Keys;
    hide CbcDecrypted;
    hide Chain;
    var inA := Joined(a, []);
    var inB := Joined(b, []);
    var inAll := Joined(a, b);
    first := new Byte[|a|];
    second := new Byte[|b|];
    whole := new Byte[|a| + |b|];
    assert inA[..] == a && inB[..] == b;
    aes.DecryptBuffer(whole, inAll, Some(key), Some(iv));
    ghost var rk := aes.roundKey[..];
    aes.DecryptBuffer(first, inA, Some(key), Some(iv));
    ExpandsOnce(rk, aes.roundKey[..], key);
    aes.DecryptBuffer(second, inB, None, None);
    BlocksConcat(a, b);
    BlocksConcat(first[..], second[..]);
    DecryptSplit(Keys(rk), BlockAt(iv, 0), Blocks(a), Blocks(b));
    BlocksDetermine(whole[..], first[..] + second[..]);
  }
}
