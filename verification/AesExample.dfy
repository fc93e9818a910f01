/** The first test vector of ECB-AES128 in NIST SP 800-38A, which the code names as its reference, round by round. */
module AesExample {
  import opened GaloisField
  import opened AesField
  import opened AesRounds
  import opened AesState
  import opened AesCbc

  /** Four bytes, the first in the highest place. */
  function Word(w: bv32): Column
  {
    Column(Byte(w & 0x01000000 != 0, w & 0x02000000 != 0, w & 0x04000000 != 0, w & 0x08000000 != 0,
                w & 0x10000000 != 0, w & 0x20000000 != 0, w & 0x40000000 != 0, w & 0x80000000 != 0),
           Byte(w & 0x010000 != 0, w & 0x020000 != 0, w & 0x040000 != 0, w & 0x080000 != 0,
                w & 0x100000 != 0, w & 0x200000 != 0, w & 0x400000 != 0, w & 0x800000 != 0),
           Byte(w & 0x0100 != 0, w & 0x0200 != 0, w & 0x0400 != 0, w & 0x0800 != 0,
                w & 0x1000 != 0, w & 0x2000 != 0, w & 0x4000 != 0, w & 0x8000 != 0),
           Byte(w & 0x01 != 0, w & 0x02 != 0, w & 0x04 != 0, w & 0x08 != 0,
                w & 0x10 != 0, w & 0x20 != 0, w & 0x40 != 0, w & 0x80 != 0))
  }

  function Grid(a: bv32, b: bv32, c: bv32, d: bv32): Block
  {
    Block(Word(a), Word(b), Word(c), Word(d))
  }

  const KEY := [Hex(0x2b), Hex(0x7e), Hex(0x15), Hex(0x16), Hex(0x28), Hex(0xae), Hex(0xd2), Hex(0xa6),
                Hex(0xab), Hex(0xf7), Hex(0x15), Hex(0x88), Hex(0x09), Hex(0xcf), Hex(0x4f), Hex(0x3c)]

  // ----- the key schedule

  ghost predicate KeyRow(r: nat, a: bv32, b: bv32, c: bv32, d: bv32)
  {
    && KeyWord(KEY, 4 * r) == Word(a) && KeyWord(KEY, 4 * r + 1) == Word(b)
    && KeyWord(KEY, 4 * r + 2) == Word(c) && KeyWord(KEY, 4 * r + 3) == Word(d)
  }

  /** The next four words, from the last four. */
  lemma NextRow(r: nat, a: bv32, b: bv32, c: bv32, d: bv32, a': bv32, b': bv32, c': bv32, d': bv32)
    requires KeyRow(r, a, b, c, d)
    requires XorColumn(Word(a), Scheduled(Word(d), r + 1)) == Word(a') && XorColumn(Word(b), Word(a')) == Word(b')
    requires XorColumn(Word(c), Word(b')) == Word(c') && XorColumn(Word(d), Word(c')) == Word(d')
    ensures KeyRow(r + 1, a', b', c', d')
  {
    hide Word;
    hide XorColumn;
    hide Scheduled;
    assert 4 * (r + 1) == 4 * r + 4 && (4 * r + 4) % 4 == 0 && (4 * r + 4) / 4 == r + 1;
    assert (4 * r + 5) % 4 == 1 && (4 * r + 6) % 4 == 2 && (4 * r + 7) % 4 == 3;
    assert KeyWord(KEY, 4 * r + 4) == Word(a');
    assert KeyWord(KEY, 4 * r + 5) == Word(b');
    assert KeyWord(KEY, 4 * r + 6) == Word(c');
  }

  lemma KeyRow0()
    ensures KeyRow(0, 0x2b7e1516, 0x28aed2a6, 0xabf71588, 0x09cf4f3c)
  {
  }

  lemma KeyRow1()
    ensures KeyRow(1, 0xa0fafe17, 0x88542cb1, 0x23a33939, 0x2a6c7605)
  {
    KeyRow0();
    hide KeyRow;
    NextRow(0, 0x2b7e1516, 0x28aed2a6, 0xabf71588, 0x09cf4f3c, 0xa0fafe17, 0x88542cb1, 0x23a33939, 0x2a6c7605);
  }

  lemma KeyRow2()
    ensures KeyRow(2, 0xf2c295f2, 0x7a96b943, 0x5935807a, 0x7359f67f)
  {
    KeyRow1();
    hide KeyRow;
    NextRow(1, 0xa0fafe17, 0x88542cb1, 0x23a33939, 0x2a6c7605, 0xf2c295f2, 0x7a96b943, 0x5935807a, 0x7359f67f);
  }

  lemma KeyRow3()
    ensures KeyRow(3, 0x3d80477d, 0x4716fe3e, 0x1e237e44, 0x6d7a883b)
  {
    KeyRow2();
    hide KeyRow;
    NextRow(2, 0xf2c295f2, 0x7a96b943, 0x5935807a, 0x7359f67f, 0x3d80477d, 0x4716fe3e, 0x1e237e44, 0x6d7a883b);
  }

  lemma KeyRow4()
    ensures KeyRow(4, 0xef44a541, 0xa8525b7f, 0xb671253b, 0xdb0bad00)
  {
    KeyRow3();
    hide KeyRow;
    NextRow(3, 0x3d80477d, 0x4716fe3e, 0x1e237e44, 0x6d7a883b, 0xef44a541, 0xa8525b7f, 0xb671253b, 0xdb0bad00);
  }

  lemma KeyRow5()
    ensures KeyRow(5, 0xd4d1c6f8, 0x7c839d87, 0xcaf2b8bc, 0x11f915bc)
  {
    KeyRow4();
    hide KeyRow;
    NextRow(4, 0xef44a541, 0xa8525b7f, 0xb671253b, 0xdb0bad00, 0xd4d1c6f8, 0x7c839d87, 0xcaf2b8bc, 0x11f915bc);
  }

  lemma KeyRow6()
    ensures KeyRow(6, 0x6d88a37a, 0x110b3efd, 0xdbf98641, 0xca0093fd)
  {
    KeyRow5();
    hide KeyRow;
    NextRow(5, 0xd4d1c6f8, 0x7c839d87, 0xcaf2b8bc, 0x11f915bc, 0x6d88a37a, 0x110b3efd, 0xdbf98641, 0xca0093fd);
  }

  lemma KeyRow7()
    ensures KeyRow(7, 0x4e54f70e, 0x5f5fc9f3, 0x84a64fb2, 0x4ea6dc4f)
  {
    KeyRow6();
    hide KeyRow;
    NextRow(6, 0x6d88a37a, 0x110b3efd, 0xdbf98641, 0xca0093fd, 0x4e54f70e, 0x5f5fc9f3, 0x84a64fb2, 0x4ea6dc4f);
  }

  lemma KeyRow8()
    ensures KeyRow(8, 0xead27321, 0xb58dbad2, 0x312bf560, 0x7f8d292f)
  {
    KeyRow7();
    hide KeyRow;
    NextRow(7, 0x4e54f70e, 0x5f5fc9f3, 0x84a64fb2, 0x4ea6dc4f, 0xead27321, 0xb58dbad2, 0x312bf560, 0x7f8d292f);
  }

  lemma KeyRow9()
    ensures KeyRow(9, 0xac7766f3, 0x19fadc21, 0x28d12941, 0x575c006e)
  {
    KeyRow8();
    hide KeyRow;
    NextRow(8, 0xead27321, 0xb58dbad2, 0x312bf560, 0x7f8d292f, 0xac7766f3, 0x19fadc21, 0x28d12941, 0x575c006e);
  }

  lemma KeyRow10()
    ensures KeyRow(10, 0xd014f9a8, 0xc9ee2589, 0xe13f0cc8, 0xb6630ca6)
  {
    KeyRow9();
    hide KeyRow;
    NextRow(9, 0xac7766f3, 0x19fadc21, 0x28d12941, 0x575c006e, 0xd014f9a8, 0xc9ee2589, 0xe13f0cc8, 0xb6630ca6);
  }

  // ----- the rounds

  ghost predicate Round(a: Block, sub: Block, shifted: Block, mixed: Block, key: Block, b: Block)
  {
    SubBlock(a) == sub && ShiftBlock(sub) == shifted && MixBlock(shifted) == mixed && XorBlock(mixed, key) == b
  }

  lemma Round1()
    ensures Round(Grid(0x40bfabf4, 0x06ee4d30, 0x42ca6b99, 0x7a5c5816),
                  Grid(0x090862bf, 0x6f28e304, 0x2c747fee, 0xda4a6a47),
                  Grid(0x09287f47, 0x6f746abf, 0x2c4a6204, 0xda08e3ee),
                  Grid(0x529f16c2, 0x978615ca, 0xe01aae54, 0xba1a2659),
                  Grid(0xa0fafe17, 0x88542cb1, 0x23a33939, 0x2a6c7605),
                  Grid(0xf265e8d5, 0x1fd2397b, 0xc3b9976d, 0x9076505c))
  {
  }

  lemma Round2()
    ensures Round(Grid(0xf265e8d5, 0x1fd2397b, 0xc3b9976d, 0x9076505c),
                  Grid(0x894d9b03, 0xc0b51221, 0x2e56883c, 0x6038534a),
                  Grid(0x89b5884a, 0xc0565303, 0x2e389b21, 0x604d123c),
                  Grid(0x0f31e929, 0x319a3558, 0xaec95893, 0x39f04d87),
                  Grid(0xf2c295f2, 0x7a96b943, 0x5935807a, 0x7359f67f),
                  Grid(0xfdf37cdb, 0x4b0c8c1b, 0xf7fcd8e9, 0x4aa9bbf8))
  {
  }

  lemma Round3()
    ensures Round(Grid(0xfdf37cdb, 0x4b0c8c1b, 0xf7fcd8e9, 0x4aa9bbf8),
                  Grid(0x540d10b9, 0xb3fe64af, 0x68b0611e, 0xd6d3ea41),
                  Grid(0x54fe6141, 0xb3b0eab9, 0x68d310af, 0xd60d641e),
                  Grid(0x9151abe1, 0xe5541cfd, 0x014a713e, 0xda7e3134),
                  Grid(0x3d80477d, 0x4716fe3e, 0x1e237e44, 0x6d7a883b),
                  Grid(0xacd1ec9c, 0xa242e2c3, 0x1f690f7a, 0xb704b90f))
  {
  }

  lemma Round4()
    ensures Round(Grid(0xacd1ec9c, 0xa242e2c3, 0x1f690f7a, 0xb704b90f),
                  Grid(0x913ecede, 0x3a2c982e, 0xc0f976da, 0xa9f25676),
                  Grid(0x912c7676, 0x3af956de, 0xc0f2ce2e, 0xa93e98da),
                  Grid(0x4d25cb1e, 0xecf71646, 0x7658c73b, 0x49bcc9e9),
                  Grid(0xef44a541, 0xa8525b7f, 0xb671253b, 0xdb0bad00),
                  Grid(0xa2616e5f, 0x44a54d39, 0xc029e200, 0x92b764e9))
  {
  }

  lemma Round5()
    ensures Round(Grid(0xa2616e5f, 0x44a54d39, 0xc029e200, 0x92b764e9),
                  Grid(0x3aef9fcf, 0x1b06e312, 0xbaa59863, 0x4fa9431e),
                  Grid(0x3a06981e, 0x1ba543cf, 0xbaa99f12, 0x4fefe363),
                  Grid(0xf89b35ec, 0x4e40724e, 0x025b00c7, 0x34d7d81b),
                  Grid(0xd4d1c6f8, 0x7c839d87, 0xcaf2b8bc, 0x11f915bc),
                  Grid(0x2c4af314, 0x32c3efc9, 0xc8a9b87b, 0x252ecda7))
  {
  }

  lemma Round6()
    ensures Round(Grid(0x2c4af314, 0x32c3efc9, 0xc8a9b87b, 0x252ecda7),
                  Grid(0x71d60dfa, 0x232edfdd, 0xe8d36c21, 0x3f31bd5c),
                  Grid(0x712e6c5c, 0x23d3bdfa, 0xe8310ddd, 0x3fd6df21),
                  Grid(0xa0c56369, 0x6fb884e4, 0x4840bfbe, 0xe1d32f0a),
                  Grid(0x6d88a37a, 0x110b3efd, 0xdbf98641, 0xca0093fd),
                  Grid(0xcd4dc013, 0x7eb3ba19, 0x93b939ff, 0x2bd3bcf7))
  {
  }

  lemma Round7()
    ensures Round(Grid(0xcd4dc013, 0x7eb3ba19, 0x93b939ff, 0x2bd3bcf7),
                  Grid(0xbde3ba7d, 0xf36df4d4, 0xdc561216, 0xf1666568),
                  Grid(0xbd6d1268, 0xf356657d, 0xdc66bad4, 0xf1e3f416),
                  Grid(0xac394c73, 0x1f8de8c7, 0x6711b210, 0x253ddb33),
                  Grid(0x4e54f70e, 0x5f5fc9f3, 0x84a64fb2, 0x4ea6dc4f),
                  Grid(0xe26dbb7d, 0x40d22134, 0xe3b7fda2, 0x6b9b077c))
  {
  }

  lemma Round8()
    ensures Round(Grid(0xe26dbb7d, 0x40d22134, 0xe3b7fda2, 0x6b9b077c),
                  Grid(0x983ceaff, 0x09b5fd18, 0x11a9543a, 0x7f14c510),
                  Grid(0x98b55410, 0x09a9c5ff, 0x1114ea18, 0x7f3cfd3a),
                  Grid(0xab05b572, 0xc8eb2b92, 0xec04e2fd, 0x7d21ec34),
                  Grid(0xead27321, 0xb58dbad2, 0x312bf560, 0x7f8d292f),
                  Grid(0x41d7c653, 0x7d669140, 0xdd2f179d, 0x02acc51b))
  {
  }

  lemma Round9()
    ensures Round(Grid(0x41d7c653, 0x7d669140, 0xdd2f179d, 0x02acc51b),
                  Grid(0x830eb4ed, 0xff338109, 0xc115f05e, 0x7791a6af),
                  Grid(0x8333f0af, 0xff15a6ed, 0xc191b409, 0x770e815e),
                  Grid(0x1741a118, 0x91c99168, 0x8c36386f, 0x23ad82aa),
                  Grid(0xac7766f3, 0x19fadc21, 0x28d12941, 0x575c006e),
                  Grid(0xbb36c7eb, 0x88334d49, 0xa4e7112e, 0x74f182c4))
  {
  }

  lemma Ends()
    ensures XorBlock(Grid(0x6bc1bee2, 0x2e409f96, 0xe93d7e11, 0x7393172a),
            Grid(0x2b7e1516, 0x28aed2a6, 0xabf71588, 0x09cf4f3c))
            == Grid(0x40bfabf4, 0x06ee4d30, 0x42ca6b99, 0x7a5c5816)
    ensures SubBlock(Grid(0xbb36c7eb, 0x88334d49, 0xa4e7112e, 0x74f182c4))
            == Grid(0xea05c6e9, 0xc4c3e33b, 0x49948231, 0x92a1131c)
    ensures ShiftBlock(Grid(0xea05c6e9, 0xc4c3e33b, 0x49948231, 0x92a1131c))
            == Grid(0xeac3821c, 0xc49413e9, 0x49a1c63b, 0x9205e331)
    ensures XorBlock(Grid(0xeac3821c, 0xc49413e9, 0x49a1c63b, 0x9205e331),
            Grid(0xd014f9a8, 0xc9ee2589, 0xe13f0cc8, 0xb6630ca6))
            == Grid(0x3ad77bb4, 0x0d7a3660, 0xa89ecaf3, 0x2466ef97)
  {
  }

  // ----- the whole cipher

  lemma RowKey(rk: seq<Byte>, r: nat, a: bv32, b: bv32, c: bv32, d: bv32)
    requires |rk| == 176 && r <= ROUNDS && Expands(rk, KEY, 44) && KeyRow(r, a, b, c, d)
    ensures Keys(rk)[r] == Grid(a, b, c, d)
  {
    hide KeyWord;
    hide Word;
    assert ColumnAt(rk, 4 * (4 * r)) == KeyWord(KEY, 4 * r) && ColumnAt(rk, 4 * (4 * r + 1)) == KeyWord(KEY, 4 * r + 1);
    assert ColumnAt(rk, 4 * (4 * r + 2)) == KeyWord(KEY, 4 * r + 2)
        && ColumnAt(rk, 4 * (4 * r + 3)) == KeyWord(KEY, 4 * r + 3);
  }

  lemma Onward(s: Block, keys: seq<Block>, r: nat, a: Block, sub: Block, shifted: Block, mixed: Block, b: Block)
    requires 0 < r < |keys| && Forward(s, keys, r - 1) == a && Round(a, sub, shifted, mixed, keys[r], b)
    ensures Forward(s, keys, r) == b
  {
    hide SubBlock;
    hide ShiftBlock;
    hide MixBlock;
    hide XorBlock;
  }

  /** The key schedule of the vector. */
  lemma VectorKeys(rk: seq<Byte>)
    requires |rk| == 176 && Expands(rk, KEY, 44)
    ensures Keys(rk)[0] == Grid(0x2b7e1516, 0x28aed2a6, 0xabf71588, 0x09cf4f3c)
    ensures Keys(rk)[1] == Grid(0xa0fafe17, 0x88542cb1, 0x23a33939, 0x2a6c7605)
    ensures Keys(rk)[2] == Grid(0xf2c295f2, 0x7a96b943, 0x5935807a, 0x7359f67f)
    ensures Keys(rk)[3] == Grid(0x3d80477d, 0x4716fe3e, 0x1e237e44, 0x6d7a883b)
    ensures Keys(rk)[4] == Grid(0xef44a541, 0xa8525b7f, 0xb671253b, 0xdb0bad00)
    ensures Keys(rk)[5] == Grid(0xd4d1c6f8, 0x7c839d87, 0xcaf2b8bc, 0x11f915bc)
    ensures Keys(rk)[6] == Grid(0x6d88a37a, 0x110b3efd, 0xdbf98641, 0xca0093fd)
    ensures Keys(rk)[7] == Grid(0x4e54f70e, 0x5f5fc9f3, 0x84a64fb2, 0x4ea6dc4f)
    ensures Keys(rk)[8] == Grid(0xead27321, 0xb58dbad2, 0x312bf560, 0x7f8d292f)
    ensures Keys(rk)[9] == Grid(0xac7766f3, 0x19fadc21, 0x28d12941, 0x575c006e)
    ensures Keys(rk)[10] == Grid(0xd014f9a8, 0xc9ee2589, 0xe13f0cc8, 0xb6630ca6)
  {
    hide KeyRow;
    hide Expands;
    hide Grid;
    hide Keys;
    KeyRow0();
    RowKey(rk, 0, 0x2b7e1516, 0x28aed2a6, 0xabf71588, 0x09cf4f3c);
    KeyRow1();
    RowKey(rk, 1, 0xa0fafe17, 0x88542cb1, 0x23a33939, 0x2a6c7605);
    KeyRow2();
    RowKey(rk, 2, 0xf2c295f2, 0x7a96b943, 0x5935807a, 0x7359f67f);
    KeyRow3();
    RowKey(rk, 3, 0x3d80477d, 0x4716fe3e, 0x1e237e44, 0x6d7a883b);
    KeyRow4();
    RowKey(rk, 4, 0xef44a541, 0xa8525b7f, 0xb671253b, 0xdb0bad00);
    KeyRow5();
    RowKey(rk, 5, 0xd4d1c6f8, 0x7c839d87, 0xcaf2b8bc, 0x11f915bc);
    KeyRow6();
    RowKey(rk, 6, 0x6d88a37a, 0x110b3efd, 0xdbf98641, 0xca0093fd);
    KeyRow7();
    RowKey(rk, 7, 0x4e54f70e, 0x5f5fc9f3, 0x84a64fb2, 0x4ea6dc4f);
    KeyRow8();
    RowKey(rk, 8, 0xead27321, 0xb58dbad2, 0x312bf560, 0x7f8d292f);
    KeyRow9();
    RowKey(rk, 9, 0xac7766f3, 0x19fadc21, 0x28d12941, 0x575c006e);
    KeyRow10();
    RowKey(rk, 10, 0xd014f9a8, 0xc9ee2589, 0xe13f0cc8, 0xb6630ca6);
  }

  /** The plain block of the vector, under the schedule the code expands from its key, becomes the cipher block. */
  lemma Vector(rk: seq<Byte>)
    requires |rk| == 176 && Expands(rk, KEY, 44)
    ensures Encrypted(Grid(0x6bc1bee2, 0x2e409f96, 0xe93d7e11, 0x7393172a), Keys(rk))
            == Grid(0x3ad77bb4, 0x0d7a3660, 0xa89ecaf3, 0x2466ef97)
  {
    hide Expands;
    hide Grid;
    hide Keys;
    hide Forward;
    hide Round;
    hide SubBlock;
    hide ShiftBlock;
    hide MixBlock;
    hide XorBlock;
    var s, keys := Grid(0x6bc1bee2, 0x2e409f96, 0xe93d7e11, 0x7393172a), Keys(rk);
    VectorKeys(rk);
    Ends();
    NoRounds(s, keys);
    Round1();
    Onward(s, keys, 1, Grid(0x40bfabf4, 0x06ee4d30, 0x42ca6b99, 0x7a5c5816),
           Grid(0x090862bf, 0x6f28e304, 0x2c747fee, 0xda4a6a47), Grid(0x09287f47, 0x6f746abf, 0x2c4a6204, 0xda08e3ee),
           Grid(0x529f16c2, 0x978615ca, 0xe01aae54, 0xba1a2659), Grid(0xf265e8d5, 0x1fd2397b, 0xc3b9976d, 0x9076505c));
    Round2();
    Onward(s, keys, 2, Grid(0xf265e8d5, 0x1fd2397b, 0xc3b9976d, 0x9076505c),
           Grid(0x894d9b03, 0xc0b51221, 0x2e56883c, 0x6038534a), Grid(0x89b5884a, 0xc0565303, 0x2e389b21, 0x604d123c),
           Grid(0x0f31e929, 0x319a3558, 0xaec95893, 0x39f04d87), Grid(0xfdf37cdb, 0x4b0c8c1b, 0xf7fcd8e9, 0x4aa9bbf8));
    Round3();
    Onward(s, keys, 3, Grid(0xfdf37cdb, 0x4b0c8c1b, 0xf7fcd8e9, 0x4aa9bbf8),
           Grid(0x540d10b9, 0xb3fe64af, 0x68b0611e, 0xd6d3ea41), Grid(0x54fe6141, 0xb3b0eab9, 0x68d310af, 0xd60d641e),
           Grid(0x9151abe1, 0xe5541cfd, 0x014a713e, 0xda7e3134), Grid(0xacd1ec9c, 0xa242e2c3, 0x1f690f7a, 0xb704b90f));
    Round4();
    Onward(s, keys, 4, Grid(0xacd1ec9c, 0xa242e2c3, 0x1f690f7a, 0xb704b90f),
           Grid(0x913ecede, 0x3a2c982e, 0xc0f976da, 0xa9f25676), Grid(0x912c7676, 0x3af956de, 0xc0f2ce2e, 0xa93e98da),
           Grid(0x4d25cb1e, 0xecf71646, 0x7658c73b, 0x49bcc9e9), Grid(0xa2616e5f, 0x44a54d39, 0xc029e200, 0x92b764e9));
    Round5();
    Onward(s, keys, 5, Grid(0xa2616e5f, 0x44a54d39, 0xc029e200, 0x92b764e9),
           Grid(0x3aef9fcf, 0x1b06e312, 0xbaa59863, 0x4fa9431e), Grid(0x3a06981e, 0x1ba543cf, 0xbaa99f12, 0x4fefe363),
           Grid(0xf89b35ec, 0x4e40724e, 0x025b00c7, 0x34d7d81b), Grid(0x2c4af314, 0x32c3efc9, 0xc8a9b87b, 0x252ecda7));
    Round6();
    Onward(s, keys, 6, Grid(0x2c4af314, 0x32c3efc9, 0xc8a9b87b, 0x252ecda7),
           Grid(0x71d60dfa, 0x232edfdd, 0xe8d36c21, 0x3f31bd5c), Grid(0x712e6c5c, 0x23d3bdfa, 0xe8310ddd, 0x3fd6df21),
           Grid(0xa0c56369, 0x6fb884e4, 0x4840bfbe, 0xe1d32f0a), Grid(0xcd4dc013, 0x7eb3ba19, 0x93b939ff, 0x2bd3bcf7));
    Round7();
    Onward(s, keys, 7, Grid(0xcd4dc013, 0x7eb3ba19, 0x93b939ff, 0x2bd3bcf7),
           Grid(0xbde3ba7d, 0xf36df4d4, 0xdc561216, 0xf1666568), Grid(0xbd6d1268, 0xf356657d, 0xdc66bad4, 0xf1e3f416),
           Grid(0xac394c73, 0x1f8de8c7, 0x6711b210, 0x253ddb33), Grid(0xe26dbb7d, 0x40d22134, 0xe3b7fda2, 0x6b9b077c));
    Round8();
    Onward(s, keys, 8, Grid(0xe26dbb7d, 0x40d22134, 0xe3b7fda2, 0x6b9b077c),
           Grid(0x983ceaff, 0x09b5fd18, 0x11a9543a, 0x7f14c510), Grid(0x98b55410, 0x09a9c5ff, 0x1114ea18, 0x7f3cfd3a),
           Grid(0xab05b572, 0xc8eb2b92, 0xec04e2fd, 0x7d21ec34), Grid(0x41d7c653, 0x7d669140, 0xdd2f179d, 0x02acc51b));
    Round9();
    Onward(s, keys, 9, Grid(0x41d7c653, 0x7d669140, 0xdd2f179d, 0x02acc51b),
           Grid(0x830eb4ed, 0xff338109, 0xc115f05e, 0x7791a6af), Grid(0x8333f0af, 0xff15a6ed, 0xc191b409, 0x770e815e),
           Grid(0x1741a118, 0x91c99168, 0x8c36386f, 0x23ad82aa), Grid(0xbb36c7eb, 0x88334d49, 0xa4e7112e, 0x74f182c4));
  }

  lemma NoRounds(s: Block, keys: seq<Block>)
    requires |keys| > 0
    ensures Forward(s, keys, 0) == XorBlock(s, keys[0])
  {
  }
}
