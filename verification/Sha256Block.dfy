/** The SHA-256 compression of one 64-byte block (section 6.2.2 of FIPS 180-4). */
module Sha256Block {

  type byte = x: int | 0 <= x < 256
  type word = bv32

  // ----- the functions of section 4.1.2

  function Add(x: word, y: word): word
  {
    x + y
  }

  function RotRight(x: word, n: bv6): word
    requires 0 < n < 32
  {
    (x >> n) | (x << (32 - n))
  }

  function Xor(x: word, y: word): word
  {
    x ^ y
  }

  function And(x: word, y: word): word
  {
    x & y
  }

  function Ch(x: word, y: word, z: word): word
  {
    Xor(And(x, y), And(!x, z))
  }

  function Maj(x: word, y: word, z: word): word
  {
    Xor(Xor(And(x, y), And(x, z)), And(y, z))
  }

  function Ep0(x: word): word
  {
    Xor(Xor(RotRight(x, 2), RotRight(x, 13)), RotRight(x, 22))
  }

  function Ep1(x: word): word
  {
    Xor(Xor(RotRight(x, 6), RotRight(x, 11)), RotRight(x, 25))
  }

  function Sig0(x: word): word
  {
    Xor(Xor(RotRight(x, 7), RotRight(x, 18)), x >> 3)
  }

  function Sig1(x: word): word
  {
    Xor(Xor(RotRight(x, 17), RotRight(x, 19)), x >> 10)
  }

  /** Four bytes as a word, the most significant first. */
  function ToWord(b0: byte, b1: byte, b2: byte, b3: byte): word
  {
    Packed(b0 as bv8, b1 as bv8, b2 as bv8, b3 as bv8)
  }

  function Packed(b0: bv8, b1: bv8, b2: bv8, b3: bv8): word
  {
    (b0 as word << 24) | (b1 as word << 16) | (b2 as word << 8) | (b3 as word)
  }

  function Eighth(i: int, k0: word, k1: word, k2: word, k3: word, k4: word, k5: word, k6: word, k7: word): word
  {
    if i < 4 then if i < 2 then if i < 1 then k0 else k1 else if i < 3 then k2 else k3
    else if i < 6 then if i < 5 then k4 else k5 else if i < 7 then k6 else k7
  }

  /** The round constants of section 4.2.2. */
  function K(i: int): word
  {
    if i < 8 then Eighth(i - 0, 0x428a2f98, 0x71374491, 0xb5c0fbcf, 0xe9b5dba5, 0x3956c25b, 0x59f111f1, 0x923f82a4, 0xab1c5ed5)
    else if i < 16 then Eighth(i - 8, 0xd807aa98, 0x12835b01, 0x243185be, 0x550c7dc3, 0x72be5d74, 0x80deb1fe, 0x9bdc06a7, 0xc19bf174)
    else if i < 24 then Eighth(i - 16, 0xe49b69c1, 0xefbe4786, 0x0fc19dc6, 0x240ca1cc, 0x2de92c6f, 0x4a7484aa, 0x5cb0a9dc, 0x76f988da)
    else if i < 32 then Eighth(i - 24, 0x983e5152, 0xa831c66d, 0xb00327c8, 0xbf597fc7, 0xc6e00bf3, 0xd5a79147, 0x06ca6351, 0x14292967)
    else if i < 40 then Eighth(i - 32, 0x27b70a85, 0x2e1b2138, 0x4d2c6dfc, 0x53380d13, 0x650a7354, 0x766a0abb, 0x81c2c92e, 0x92722c85)
    else if i < 48 then Eighth(i - 40, 0xa2bfe8a1, 0xa81a664b, 0xc24b8b70, 0xc76c51a3, 0xd192e819, 0xd6990624, 0xf40e3585, 0x106aa070)
    else if i < 56 then Eighth(i - 48, 0x19a4c116, 0x1e376c08, 0x2748774c, 0x34b0bcb5, 0x391c0cb3, 0x4ed8aa4a, 0x5b9cca4f, 0x682e6ff3)
    else Eighth(i - 56, 0x748f82ee, 0x78a5636f, 0x84c87814, 0x8cc70208, 0x90befffa, 0xa4506ceb, 0xbef9a3f7, 0xc67178f2)
  }

  // ----- one block

  datatype Vars = Vars(a: word, b: word, c: word, d: word, e: word, f: word, g: word, h: word)

  /** Word `i` of the message schedule. */
  ghost function Scheduled(block: seq<byte>, i: nat): word
    requires |block| == 64
  {
    if i < 16 then ToWord(block[4 * i], block[4 * i + 1], block[4 * i + 2], block[4 * i + 3])
    else Expand(Scheduled(block, i - 2), Scheduled(block, i - 7), Scheduled(block, i - 15), Scheduled(block, i - 16))
  }

  function Expand(w2: word, w7: word, w15: word, w16: word): word
  {
    Add(Add(Add(Sig1(w2), w7), Sig0(w15)), w16)
  }

  function Round(v: Vars, k: word, w: word): Vars
  {
    var t1 := Add(Add(Add(Add(v.h, Ep1(v.e)), Ch(v.e, v.f, v.g)), k), w);
    var t2 := Add(Ep0(v.a), Maj(v.a, v.b, v.c));
    Vars(Add(t1, t2), v.a, v.b, v.c, Add(v.d, t1), v.e, v.f, v.g)
  }

  ghost function Rounds(v: Vars, block: seq<byte>, n: nat): Vars
    requires |block| == 64
  {
    if n == 0 then v else Round(Rounds(v, block, n - 1), K(n - 1), Scheduled(block, n - 1))
  }

  function AddVars(v: Vars, w: Vars): Vars
  {
    Vars(Add(v.a, w.a), Add(v.b, w.b), Add(v.c, w.c), Add(v.d, w.d), Add(v.e, w.e), Add(v.f, w.f), Add(v.g, w.g), Add(v.h, w.h))
  }

  const ALL_ROUNDS := 64

  ghost function Compress(v: Vars, block: seq<byte>): Vars
    requires |block| == 64
  {
    AddVars(v, Rounds(v, block, ALL_ROUNDS))
  }

  function VarsOf(state: seq<word>): Vars
    requires |state| == 8
  {
    Vars(state[0], state[1], state[2], state[3], state[4], state[5], state[6], state[7])
  }

  // ----- the code

  /** The first loop pair of the transform: the message schedule. */
  method Schedule(data: array<byte>) returns (m: array<word>)
    requires data.Length == 64
    ensures fresh(m) && m.Length == 64
    ensures forall i: nat {:trigger Scheduled(data[..], i)} :: i < 64 ==> m[i] == Scheduled(data[..], i)
  {
    hide ToWord;
    hide Expand;
    m := new word[64];
    ghost var block := data[..];
    var i, j := 0, 0;
    while i < 16
      invariant 0 <= i <= 16 && j == 4 * i
      invariant forall w: nat {:trigger Scheduled(block, w)} :: w < i ==> m[w] == Scheduled(block, w)
    {
      m[i] := ToWord(data[j], data[j + 1], data[j + 2], data[j + 3]);
      i, j := i + 1, j + 4;
    }
    while i < 64
      invariant 16 <= i <= 64
      invariant forall w: nat {:trigger Scheduled(block, w)} :: w < i ==> m[w] == Scheduled(block, w)
    {
      m[i] := Expand(m[i - 2], m[i - 7], m[i - 15], m[i - 16]);
      assert m[i] == Expand(Scheduled(block, i - 2), Scheduled(block, i - 7), Scheduled(block, i - 15), Scheduled(block, i - 16));
      i := i + 1;
    }
  }

  /** Mixes one block into the state. */
  method Transform(state: array<word>, data: array<byte>)
    requires state.Length == 8 && data.Length == 64
    modifies state
    ensures VarsOf(state[..]) == Compress(old(VarsOf(state[..])), data[..])
  {
    hide Add;
    hide Round;
    hide Ep0;
    hide Ep1;
    hide Ch;
    hide Maj;
    hide K;
    hide Scheduled;
    hide Rounds;
    hide AddVars;
    RoundsUnfold(VarsOf(state[..]), data[..], 0);
    var m := Schedule(data);
    ghost var v0, block := VarsOf(state[..]), data[..];
    var a, b, c, d := state[0], state[1], state[2], state[3];
    var e, f, g, h := state[4], state[5], state[6], state[7];
    var i := 0;
    while i < ALL_ROUNDS
      invariant 0 <= i <= ALL_ROUNDS && Vars(a, b, c, d, e, f, g, h) == Rounds(v0, block, i)
      modifies {}
    {
      var t1 := Add(Add(Add(Add(h, Ep1(e)), Ch(e, f, g)), K(i)), m[i]);
      var t2 := Add(Ep0(a), Maj(a, b, c));
      RoundIs(Vars(a, b, c, d, e, f, g, h), K(i), m[i], t1, t2);
      assert m[i] == Scheduled(block, i);
      RoundsUnfold(v0, block, i);
      h := g;
      g := f;
      f := e;
      e := Add(d, t1);
      d := c;
      c := b;
      b := a;
      a := Add(t1, t2);
      i := i + 1;
    }
    AddInto(state, Vars(a, b, c, d, e, f, g, h));
  }

  method AddInto(state: array<word>, v: Vars)
    requires state.Length == 8
    modifies state
    ensures VarsOf(state[..]) == AddVars(old(VarsOf(state[..])), v)
  {
    hide Add;
    state[0] := Add(state[0], v.a);
    state[1] := Add(state[1], v.b);
    state[2] := Add(state[2], v.c);
    state[3] := Add(state[3], v.d);
    state[4] := Add(state[4], v.e);
    state[5] := Add(state[5], v.f);
    state[6] := Add(state[6], v.g);
    state[7] := Add(state[7], v.h);
  }

  lemma RoundsUnfold(v: Vars, block: seq<byte>, n: nat)
    requires |block| == 64
    ensures Rounds(v, block, n + 1) == Round(Rounds(v, block, n), K(n), Scheduled(block, n))
    ensures n == 0 ==> Rounds(v, block, n) == v
  {
    hide Round;
    hide K;
    hide Scheduled;
  }

  lemma RoundIs(v: Vars, k: word, w: word, t1: word, t2: word)
    requires t1 == Add(Add(Add(Add(v.h, Ep1(v.e)), Ch(v.e, v.f, v.g)), k), w) && t2 == Add(Ep0(v.a), Maj(v.a, v.b, v.c))
    ensures Round(v, k, w) == Vars(Add(t1, t2), v.a, v.b, v.c, Add(v.d, t1), v.e, v.f, v.g)
  {
    hide Add;
    hide Ep0;
    hide Ep1;
    hide Ch;
    hide Maj;
  }
}
