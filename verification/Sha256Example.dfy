/** The digest of "abc", word by word and round by round (the first example NIST publishes for SHA-256). */
module Sha256Example {
  import opened Common
  import opened Sha256Block
  import opened Sha256

  const ABC: seq<byte> := [0x61, 0x62, 0x63]

  ghost function Only(): seq<byte>
  {
    ABC + Padding(3)
  }

  /** The padded message is one block: the three bytes, the mark, zeros, and the length of 24 bits. */
  lemma OnlyIs()
    ensures |Only()| == 64 && Only()[0] == 0x61 && Only()[1] == 0x62 && Only()[2] == 0x63 && Only()[3] == 0x80
    ensures (forall i :: 4 <= i < 63 ==> Only()[i] == 0) && Only()[63] == 24
  {
    hide BigEndian;
    assert Gap(3) == 52 && 8 * 3 % TWO64 == 24;
    BigEndianAt(24, EIGHT, 0);
    BigEndianAt(24, EIGHT, 1);
    BigEndianAt(24, EIGHT, 2);
    BigEndianAt(24, EIGHT, 3);
    BigEndianAt(24, EIGHT, 4);
    BigEndianAt(24, EIGHT, 5);
    BigEndianAt(24, EIGHT, 6);
    BigEndianAt(24, EIGHT, 7);
    NoHighBytes();
  }

  lemma NoHighBytes()
    ensures LengthByte(24, 0) == 24 && LengthByte(24, 1) == 0 && LengthByte(24, 2) == 0 && LengthByte(24, 3) == 0
    ensures LengthByte(24, 4) == 0 && LengthByte(24, 5) == 0 && LengthByte(24, 6) == 0 && LengthByte(24, 7) == 0
  {
    assert Shr8(24, 1) == Shr8(0, 0);
  }

  // ----- the schedule

  ghost predicate Is(block: seq<byte>, i: nat, w: word)
  {
    |block| == 64 && Scheduled(block, i) == w
  }

  lemma Given(block: seq<byte>)
    requires block == Only()
    ensures Is(block, 0, 0x61626380) && Is(block, 1, 0x00000000) && Is(block, 2, 0x00000000) && Is(block, 3, 0x00000000)
    ensures Is(block, 4, 0x00000000) && Is(block, 5, 0x00000000) && Is(block, 6, 0x00000000) && Is(block, 7, 0x00000000)
    ensures Is(block, 8, 0x00000000) && Is(block, 9, 0x00000000) && Is(block, 10, 0x00000000) && Is(block, 11, 0x00000000)
    ensures Is(block, 12, 0x00000000) && Is(block, 13, 0x00000000) && Is(block, 14, 0x00000000) && Is(block, 15, 0x00000018)
  {
    OnlyIs();
    hide Only;
    assert ToWord(0x61, 0x62, 0x63, 0x80) == 0x61626380 && ToWord(0, 0, 0, 0) == 0 && ToWord(0, 0, 0, 24) == 24;
  }

  lemma Words16(block: seq<byte>)
    requires block == Only()
    ensures Is(block, 16, 0x61626380) && Is(block, 17, 0x000f0000) && Is(block, 18, 0x7da86405) && Is(block, 19, 0x600003c6)
    ensures Is(block, 20, 0x3e9d7b78) && Is(block, 21, 0x0183fc00) && Is(block, 22, 0x12dcbfdb) && Is(block, 23, 0xe2e2c38e)
    ensures Is(block, 24, 0xc8215c1a) && Is(block, 25, 0xb73679a2) && Is(block, 26, 0xe5bc3909) && Is(block, 27, 0x32663c5b)
    ensures Is(block, 28, 0x9d209d67) && Is(block, 29, 0xec8726cb) && Is(block, 30, 0x702138a4) && Is(block, 31, 0xd3b7973b)
  {
    hide Only;
    Given(block);
  }

  lemma Words32(block: seq<byte>)
    requires block == Only()
    ensures Is(block, 32, 0x93f5997f) && Is(block, 33, 0x3b68ba73) && Is(block, 34, 0xaff4ffc1) && Is(block, 35, 0xf10a5c62)
    ensures Is(block, 36, 0x0a8b3996) && Is(block, 37, 0x72af830a) && Is(block, 38, 0x9409e33e) && Is(block, 39, 0x24641522)
    ensures Is(block, 40, 0x9f47bf94) && Is(block, 41, 0xf0a64f5a) && Is(block, 42, 0x3e246a79) && Is(block, 43, 0x27333ba3)
    ensures Is(block, 44, 0x0c4763f2) && Is(block, 45, 0x840abf27) && Is(block, 46, 0x7a290d5d) && Is(block, 47, 0x065c43da)
  {
    hide Only;
    Given(block);
    Words16(block);
  }

  lemma Words48(block: seq<byte>)
    requires block == Only()
    ensures Is(block, 48, 0xfb3e89cb) && Is(block, 49, 0xcc7617db) && Is(block, 50, 0xb9e66c34) && Is(block, 51, 0xa9993667)
    ensures Is(block, 52, 0x84badedd) && Is(block, 53, 0xc21462bc) && Is(block, 54, 0x1487472c) && Is(block, 55, 0xb20f7a99)
    ensures Is(block, 56, 0xef57b9cd) && Is(block, 57, 0xebe6b238) && Is(block, 58, 0x9fe3095e) && Is(block, 59, 0x78bc8d4b)
    ensures Is(block, 60, 0xa43fcf15) && Is(block, 61, 0x668b2ff8) && Is(block, 62, 0xeeaba2cc) && Is(block, 63, 0x12b1edeb)
  {
    hide Only;
    Words16(block);
    Words32(block);
  }

  // ----- the rounds

  ghost predicate After(block: seq<byte>, n: nat, a: word, b: word, c: word, d: word, e: word, f: word, g: word, h: word)
  {
    |block| == 64 && Rounds(INITIAL, block, n) == Vars(a, b, c, d, e, f, g, h)
  }

  lemma Rounds0(block: seq<byte>)
    requires After(block, 0, 0x6a09e667, 0xbb67ae85, 0x3c6ef372, 0xa54ff53a, 0x510e527f, 0x9b05688c, 0x1f83d9ab, 0x5be0cd19)
    requires Is(block, 0, 0x61626380) && Is(block, 1, 0x00000000) && Is(block, 2, 0x00000000) && Is(block, 3, 0x00000000)
    requires Is(block, 4, 0x00000000) && Is(block, 5, 0x00000000) && Is(block, 6, 0x00000000) && Is(block, 7, 0x00000000)
    ensures After(block, 8, 0x85a07b5f, 0xe5030380, 0x2b4209f5, 0x04409a6a, 0x0c657a79, 0x9b27a401, 0x714260ad, 0x43ada245)
  {
    hide Scheduled;
    hide Rounds;
    RoundsUnfold(INITIAL, block, 0);
    assert After(block, 1, 0x5d6aebcd, 0x6a09e667, 0xbb67ae85, 0x3c6ef372, 0xfa2a4622, 0x510e527f, 0x9b05688c, 0x1f83d9ab);
    RoundsUnfold(INITIAL, block, 1);
    assert After(block, 2, 0x5a6ad9ad, 0x5d6aebcd, 0x6a09e667, 0xbb67ae85, 0x78ce7989, 0xfa2a4622, 0x510e527f, 0x9b05688c);
    RoundsUnfold(INITIAL, block, 2);
    assert After(block, 3, 0xc8c347a7, 0x5a6ad9ad, 0x5d6aebcd, 0x6a09e667, 0xf92939eb, 0x78ce7989, 0xfa2a4622, 0x510e527f);
    RoundsUnfold(INITIAL, block, 3);
    assert After(block, 4, 0xd550f666, 0xc8c347a7, 0x5a6ad9ad, 0x5d6aebcd, 0x24e00850, 0xf92939eb, 0x78ce7989, 0xfa2a4622);
    RoundsUnfold(INITIAL, block, 4);
    assert After(block, 5, 0x04409a6a, 0xd550f666, 0xc8c347a7, 0x5a6ad9ad, 0x43ada245, 0x24e00850, 0xf92939eb, 0x78ce7989);
    RoundsUnfold(INITIAL, block, 5);
    assert After(block, 6, 0x2b4209f5, 0x04409a6a, 0xd550f666, 0xc8c347a7, 0x714260ad, 0x43ada245, 0x24e00850, 0xf92939eb);
    RoundsUnfold(INITIAL, block, 6);
    assert After(block, 7, 0xe5030380, 0x2b4209f5, 0x04409a6a, 0xd550f666, 0x9b27a401, 0x714260ad, 0x43ada245, 0x24e00850);
    RoundsUnfold(INITIAL, block, 7);
  }

  lemma Rounds8(block: seq<byte>)
    requires After(block, 8, 0x85a07b5f, 0xe5030380, 0x2b4209f5, 0x04409a6a, 0x0c657a79, 0x9b27a401, 0x714260ad, 0x43ada245)
    requires Is(block, 8, 0x00000000) && Is(block, 9, 0x00000000) && Is(block, 10, 0x00000000) && Is(block, 11, 0x00000000)
    requires Is(block, 12, 0x00000000) && Is(block, 13, 0x00000000) && Is(block, 14, 0x00000000) && Is(block, 15, 0x00000018)
    ensures After(block, 16, 0xb0fa238e, 0xc0645fde, 0xd932eb16, 0x87912990, 0x07590dcd, 0x0b92f20c, 0x745a48de, 0x1e578218)
  {
    hide Scheduled;
    hide Rounds;
    RoundsUnfold(INITIAL, block, 8);
    assert After(block, 9, 0x8e04ecb9, 0x85a07b5f, 0xe5030380, 0x2b4209f5, 0x32ca2d8c, 0x0c657a79, 0x9b27a401, 0x714260ad);
    RoundsUnfold(INITIAL, block, 9);
    assert After(block, 10, 0x8c87346b, 0x8e04ecb9, 0x85a07b5f, 0xe5030380, 0x1cc92596, 0x32ca2d8c, 0x0c657a79, 0x9b27a401);
    RoundsUnfold(INITIAL, block, 10);
    assert After(block, 11, 0x4798a3f4, 0x8c87346b, 0x8e04ecb9, 0x85a07b5f, 0x436b23e8, 0x1cc92596, 0x32ca2d8c, 0x0c657a79);
    RoundsUnfold(INITIAL, block, 11);
    assert After(block, 12, 0xf71fc5a9, 0x4798a3f4, 0x8c87346b, 0x8e04ecb9, 0x816fd6e9, 0x436b23e8, 0x1cc92596, 0x32ca2d8c);
    RoundsUnfold(INITIAL, block, 12);
    assert After(block, 13, 0x87912990, 0xf71fc5a9, 0x4798a3f4, 0x8c87346b, 0x1e578218, 0x816fd6e9, 0x436b23e8, 0x1cc92596);
    RoundsUnfold(INITIAL, block, 13);
    assert After(block, 14, 0xd932eb16, 0x87912990, 0xf71fc5a9, 0x4798a3f4, 0x745a48de, 0x1e578218, 0x816fd6e9, 0x436b23e8);
    RoundsUnfold(INITIAL, block, 14);
    assert After(block, 15, 0xc0645fde, 0xd932eb16, 0x87912990, 0xf71fc5a9, 0x0b92f20c, 0x745a48de, 0x1e578218, 0x816fd6e9);
    RoundsUnfold(INITIAL, block, 15);
  }

  lemma Rounds16(block: seq<byte>)
    requires After(block, 16, 0xb0fa238e, 0xc0645fde, 0xd932eb16, 0x87912990, 0x07590dcd, 0x0b92f20c, 0x745a48de, 0x1e578218)
    requires Is(block, 16, 0x61626380) && Is(block, 17, 0x000f0000) && Is(block, 18, 0x7da86405) && Is(block, 19, 0x600003c6)
    requires Is(block, 20, 0x3e9d7b78) && Is(block, 21, 0x0183fc00) && Is(block, 22, 0x12dcbfdb) && Is(block, 23, 0xe2e2c38e)
    ensures After(block, 24, 0xc5d53d8d, 0xa7a3623f, 0xc2606d6d, 0x9dc68b63, 0xaa47c347, 0x49f5114a, 0xe1257970, 0x8ada8930)
  {
    hide Scheduled;
    hide Rounds;
    RoundsUnfold(INITIAL, block, 16);
    assert After(block, 17, 0x21da9a9b, 0xb0fa238e, 0xc0645fde, 0xd932eb16, 0x8034229c, 0x07590dcd, 0x0b92f20c, 0x745a48de);
    RoundsUnfold(INITIAL, block, 17);
    assert After(block, 18, 0xc2fbd9d1, 0x21da9a9b, 0xb0fa238e, 0xc0645fde, 0x846ee454, 0x8034229c, 0x07590dcd, 0x0b92f20c);
    RoundsUnfold(INITIAL, block, 18);
    assert After(block, 19, 0xfe777bbf, 0xc2fbd9d1, 0x21da9a9b, 0xb0fa238e, 0xcc899961, 0x846ee454, 0x8034229c, 0x07590dcd);
    RoundsUnfold(INITIAL, block, 19);
    assert After(block, 20, 0xe1f20c33, 0xfe777bbf, 0xc2fbd9d1, 0x21da9a9b, 0xb0638179, 0xcc899961, 0x846ee454, 0x8034229c);
    RoundsUnfold(INITIAL, block, 20);
    assert After(block, 21, 0x9dc68b63, 0xe1f20c33, 0xfe777bbf, 0xc2fbd9d1, 0x8ada8930, 0xb0638179, 0xcc899961, 0x846ee454);
    RoundsUnfold(INITIAL, block, 21);
    assert After(block, 22, 0xc2606d6d, 0x9dc68b63, 0xe1f20c33, 0xfe777bbf, 0xe1257970, 0x8ada8930, 0xb0638179, 0xcc899961);
    RoundsUnfold(INITIAL, block, 22);
    assert After(block, 23, 0xa7a3623f, 0xc2606d6d, 0x9dc68b63, 0xe1f20c33, 0x49f5114a, 0xe1257970, 0x8ada8930, 0xb0638179);
    RoundsUnfold(INITIAL, block, 23);
  }

  lemma Rounds24(block: seq<byte>)
    requires After(block, 24, 0xc5d53d8d, 0xa7a3623f, 0xc2606d6d, 0x9dc68b63, 0xaa47c347, 0x49f5114a, 0xe1257970, 0x8ada8930)
    requires Is(block, 24, 0xc8215c1a) && Is(block, 25, 0xb73679a2) && Is(block, 26, 0xe5bc3909) && Is(block, 27, 0x32663c5b)
    requires Is(block, 28, 0x9d209d67) && Is(block, 29, 0xec8726cb) && Is(block, 30, 0x702138a4) && Is(block, 31, 0xd3b7973b)
    ensures After(block, 32, 0x73b33bf5, 0xea992a22, 0xa0060b30, 0x363482c9, 0xba591112, 0x0109ab3a, 0xade79437, 0x6112a3b7)
  {
    hide Scheduled;
    hide Rounds;
    RoundsUnfold(INITIAL, block, 24);
    assert After(block, 25, 0x1c2c2838, 0xc5d53d8d, 0xa7a3623f, 0xc2606d6d, 0x2823ef91, 0xaa47c347, 0x49f5114a, 0xe1257970);
    RoundsUnfold(INITIAL, block, 25);
    assert After(block, 26, 0xcde8037d, 0x1c2c2838, 0xc5d53d8d, 0xa7a3623f, 0x14383d8e, 0x2823ef91, 0xaa47c347, 0x49f5114a);
    RoundsUnfold(INITIAL, block, 26);
    assert After(block, 27, 0xb62ec4bc, 0xcde8037d, 0x1c2c2838, 0xc5d53d8d, 0xc74c6516, 0x14383d8e, 0x2823ef91, 0xaa47c347);
    RoundsUnfold(INITIAL, block, 27);
    assert After(block, 28, 0x77d37528, 0xb62ec4bc, 0xcde8037d, 0x1c2c2838, 0xedffbff8, 0xc74c6516, 0x14383d8e, 0x2823ef91);
    RoundsUnfold(INITIAL, block, 28);
    assert After(block, 29, 0x363482c9, 0x77d37528, 0xb62ec4bc, 0xcde8037d, 0x6112a3b7, 0xedffbff8, 0xc74c6516, 0x14383d8e);
    RoundsUnfold(INITIAL, block, 29);
    assert After(block, 30, 0xa0060b30, 0x363482c9, 0x77d37528, 0xb62ec4bc, 0xade79437, 0x6112a3b7, 0xedffbff8, 0xc74c6516);
    RoundsUnfold(INITIAL, block, 30);
    assert After(block, 31, 0xea992a22, 0xa0060b30, 0x363482c9, 0x77d37528, 0x0109ab3a, 0xade79437, 0x6112a3b7, 0xedffbff8);
    RoundsUnfold(INITIAL, block, 31);
  }

  lemma Rounds32(block: seq<byte>)
    requires After(block, 32, 0x73b33bf5, 0xea992a22, 0xa0060b30, 0x363482c9, 0xba591112, 0x0109ab3a, 0xade79437, 0x6112a3b7)
    requires Is(block, 32, 0x93f5997f) && Is(block, 33, 0x3b68ba73) && Is(block, 34, 0xaff4ffc1) && Is(block, 35, 0xf10a5c62)
    requires Is(block, 36, 0x0a8b3996) && Is(block, 37, 0x72af830a) && Is(block, 38, 0x9409e33e) && Is(block, 39, 0x24641522)
    ensures After(block, 40, 0x79ea687a, 0x6dc57a8a, 0x34df1604, 0x41a65cb1, 0x1efbc0a0, 0xf0781bc8, 0xa507a53d, 0x0772a26b)
  {
    hide Scheduled;
    hide Rounds;
    RoundsUnfold(INITIAL, block, 32);
    assert After(block, 33, 0x98e12507, 0x73b33bf5, 0xea992a22, 0xa0060b30, 0x9cd9f5f6, 0xba591112, 0x0109ab3a, 0xade79437);
    RoundsUnfold(INITIAL, block, 33);
    assert After(block, 34, 0xfe604df5, 0x98e12507, 0x73b33bf5, 0xea992a22, 0x59249dd3, 0x9cd9f5f6, 0xba591112, 0x0109ab3a);
    RoundsUnfold(INITIAL, block, 34);
    assert After(block, 35, 0xa9a7738c, 0xfe604df5, 0x98e12507, 0x73b33bf5, 0x085f3833, 0x59249dd3, 0x9cd9f5f6, 0xba591112);
    RoundsUnfold(INITIAL, block, 35);
    assert After(block, 36, 0x65a0cfe4, 0xa9a7738c, 0xfe604df5, 0x98e12507, 0xf4b002d6, 0x085f3833, 0x59249dd3, 0x9cd9f5f6);
    RoundsUnfold(INITIAL, block, 36);
    assert After(block, 37, 0x41a65cb1, 0x65a0cfe4, 0xa9a7738c, 0xfe604df5, 0x0772a26b, 0xf4b002d6, 0x085f3833, 0x59249dd3);
    RoundsUnfold(INITIAL, block, 37);
    assert After(block, 38, 0x34df1604, 0x41a65cb1, 0x65a0cfe4, 0xa9a7738c, 0xa507a53d, 0x0772a26b, 0xf4b002d6, 0x085f3833);
    RoundsUnfold(INITIAL, block, 38);
    assert After(block, 39, 0x6dc57a8a, 0x34df1604, 0x41a65cb1, 0x65a0cfe4, 0xf0781bc8, 0xa507a53d, 0x0772a26b, 0xf4b002d6);
    RoundsUnfold(INITIAL, block, 39);
  }

  lemma Rounds40(block: seq<byte>)
    requires After(block, 40, 0x79ea687a, 0x6dc57a8a, 0x34df1604, 0x41a65cb1, 0x1efbc0a0, 0xf0781bc8, 0xa507a53d, 0x0772a26b)
    requires Is(block, 40, 0x9f47bf94) && Is(block, 41, 0xf0a64f5a) && Is(block, 42, 0x3e246a79) && Is(block, 43, 0x27333ba3)
    requires Is(block, 44, 0x0c4763f2) && Is(block, 45, 0x840abf27) && Is(block, 46, 0x7a290d5d) && Is(block, 47, 0x065c43da)
    ensures After(block, 48, 0x4172328d, 0xa14c14b0, 0x72ab4b91, 0x26628815, 0xfecf0bc6, 0xd57b94a9, 0xb7755da1, 0xa80f11f0)
  {
    hide Scheduled;
    hide Rounds;
    RoundsUnfold(INITIAL, block, 40);
    assert After(block, 41, 0xd6670766, 0x79ea687a, 0x6dc57a8a, 0x34df1604, 0x26352d63, 0x1efbc0a0, 0xf0781bc8, 0xa507a53d);
    RoundsUnfold(INITIAL, block, 41);
    assert After(block, 42, 0xdf46652f, 0xd6670766, 0x79ea687a, 0x6dc57a8a, 0x838b2711, 0x26352d63, 0x1efbc0a0, 0xf0781bc8);
    RoundsUnfold(INITIAL, block, 42);
    assert After(block, 43, 0x17aa0dfe, 0xdf46652f, 0xd6670766, 0x79ea687a, 0xdecd4715, 0x838b2711, 0x26352d63, 0x1efbc0a0);
    RoundsUnfold(INITIAL, block, 43);
    assert After(block, 44, 0x9d4baf93, 0x17aa0dfe, 0xdf46652f, 0xd6670766, 0xfda24c2e, 0xdecd4715, 0x838b2711, 0x26352d63);
    RoundsUnfold(INITIAL, block, 44);
    assert After(block, 45, 0x26628815, 0x9d4baf93, 0x17aa0dfe, 0xdf46652f, 0xa80f11f0, 0xfda24c2e, 0xdecd4715, 0x838b2711);
    RoundsUnfold(INITIAL, block, 45);
    assert After(block, 46, 0x72ab4b91, 0x26628815, 0x9d4baf93, 0x17aa0dfe, 0xb7755da1, 0xa80f11f0, 0xfda24c2e, 0xdecd4715);
    RoundsUnfold(INITIAL, block, 46);
    assert After(block, 47, 0xa14c14b0, 0x72ab4b91, 0x26628815, 0x9d4baf93, 0xd57b94a9, 0xb7755da1, 0xa80f11f0, 0xfda24c2e);
    RoundsUnfold(INITIAL, block, 47);
  }

  lemma Rounds48(block: seq<byte>)
    requires After(block, 48, 0x4172328d, 0xa14c14b0, 0x72ab4b91, 0x26628815, 0xfecf0bc6, 0xd57b94a9, 0xb7755da1, 0xa80f11f0)
    requires Is(block, 48, 0xfb3e89cb) && Is(block, 49, 0xcc7617db) && Is(block, 50, 0xb9e66c34) && Is(block, 51, 0xa9993667)
    requires Is(block, 52, 0x84badedd) && Is(block, 53, 0xc21462bc) && Is(block, 54, 0x1487472c) && Is(block, 55, 0xb20f7a99)
    ensures After(block, 56, 0x38cc9913, 0x3ec45cdb, 0xf5702fdb, 0x101fd28f, 0x54cb266b, 0xe50e1b4f, 0x9f4787c3, 0x529e7d00)
  {
    hide Scheduled;
    hide Rounds;
    RoundsUnfold(INITIAL, block, 48);
    assert After(block, 49, 0x05757ceb, 0x4172328d, 0xa14c14b0, 0x72ab4b91, 0xbd714038, 0xfecf0bc6, 0xd57b94a9, 0xb7755da1);
    RoundsUnfold(INITIAL, block, 49);
    assert After(block, 50, 0xf11bfaa8, 0x05757ceb, 0x4172328d, 0xa14c14b0, 0x6e5c390c, 0xbd714038, 0xfecf0bc6, 0xd57b94a9);
    RoundsUnfold(INITIAL, block, 50);
    assert After(block, 51, 0x7a0508a1, 0xf11bfaa8, 0x05757ceb, 0x4172328d, 0x52f1ccf7, 0x6e5c390c, 0xbd714038, 0xfecf0bc6);
    RoundsUnfold(INITIAL, block, 51);
    assert After(block, 52, 0x886e7a22, 0x7a0508a1, 0xf11bfaa8, 0x05757ceb, 0x49231c1e, 0x52f1ccf7, 0x6e5c390c, 0xbd714038);
    RoundsUnfold(INITIAL, block, 52);
    assert After(block, 53, 0x101fd28f, 0x886e7a22, 0x7a0508a1, 0xf11bfaa8, 0x529e7d00, 0x49231c1e, 0x52f1ccf7, 0x6e5c390c);
    RoundsUnfold(INITIAL, block, 53);
    assert After(block, 54, 0xf5702fdb, 0x101fd28f, 0x886e7a22, 0x7a0508a1, 0x9f4787c3, 0x529e7d00, 0x49231c1e, 0x52f1ccf7);
    RoundsUnfold(INITIAL, block, 54);
    assert After(block, 55, 0x3ec45cdb, 0xf5702fdb, 0x101fd28f, 0x886e7a22, 0xe50e1b4f, 0x9f4787c3, 0x529e7d00, 0x49231c1e);
    RoundsUnfold(INITIAL, block, 55);
  }

  lemma Rounds56(block: seq<byte>)
    requires After(block, 56, 0x38cc9913, 0x3ec45cdb, 0xf5702fdb, 0x101fd28f, 0x54cb266b, 0xe50e1b4f, 0x9f4787c3, 0x529e7d00)
    requires Is(block, 56, 0xef57b9cd) && Is(block, 57, 0xebe6b238) && Is(block, 58, 0x9fe3095e) && Is(block, 59, 0x78bc8d4b)
    requires Is(block, 60, 0xa43fcf15) && Is(block, 61, 0x668b2ff8) && Is(block, 62, 0xeeaba2cc) && Is(block, 63, 0x12b1edeb)
    ensures After(block, 64, 0x506e3058, 0xd39a2165, 0x04d24d6c, 0xb85e2ce9, 0x5ef50f24, 0xfb121210, 0x948d25b6, 0x961f4894)
  {
    hide Scheduled;
    hide Rounds;
    RoundsUnfold(INITIAL, block, 56);
    assert After(block, 57, 0xfcd1887b, 0x38cc9913, 0x3ec45cdb, 0xf5702fdb, 0x9b5e906c, 0x54cb266b, 0xe50e1b4f, 0x9f4787c3);
    RoundsUnfold(INITIAL, block, 57);
    assert After(block, 58, 0xc062d46f, 0xfcd1887b, 0x38cc9913, 0x3ec45cdb, 0x7e44008e, 0x9b5e906c, 0x54cb266b, 0xe50e1b4f);
    RoundsUnfold(INITIAL, block, 58);
    assert After(block, 59, 0xffb70472, 0xc062d46f, 0xfcd1887b, 0x38cc9913, 0x6d83bfc6, 0x7e44008e, 0x9b5e906c, 0x54cb266b);
    RoundsUnfold(INITIAL, block, 59);
    assert After(block, 60, 0xb6ae8fff, 0xffb70472, 0xc062d46f, 0xfcd1887b, 0xb21bad3d, 0x6d83bfc6, 0x7e44008e, 0x9b5e906c);
    RoundsUnfold(INITIAL, block, 60);
    assert After(block, 61, 0xb85e2ce9, 0xb6ae8fff, 0xffb70472, 0xc062d46f, 0x961f4894, 0xb21bad3d, 0x6d83bfc6, 0x7e44008e);
    RoundsUnfold(INITIAL, block, 61);
    assert After(block, 62, 0x04d24d6c, 0xb85e2ce9, 0xb6ae8fff, 0xffb70472, 0x948d25b6, 0x961f4894, 0xb21bad3d, 0x6d83bfc6);
    RoundsUnfold(INITIAL, block, 62);
    assert After(block, 63, 0xd39a2165, 0x04d24d6c, 0xb85e2ce9, 0xb6ae8fff, 0xfb121210, 0x948d25b6, 0x961f4894, 0xb21bad3d);
    RoundsUnfold(INITIAL, block, 63);
  }

  lemma Start(block: seq<byte>)
    requires |block| == 64
    ensures After(block, 0, 0x6a09e667, 0xbb67ae85, 0x3c6ef372, 0xa54ff53a, 0x510e527f, 0x9b05688c, 0x1f83d9ab, 0x5be0cd19)
  {
    hide Scheduled;
  }

  lemma Compressed(block: seq<byte>)
    requires block == Only()
    ensures |block| == 64
    ensures Compress(INITIAL, block)
            == Vars(0xba7816bf, 0x8f01cfea, 0x414140de, 0x5dae2223, 0xb00361a3, 0x96177a9c, 0xb410ff61, 0xf20015ad)
  {
    hide Is;
    hide After;
    OnlyIs();
    Given(block);
    Words16(block);
    Words32(block);
    Words48(block);
    Start(block);
    Rounds0(block);
    Rounds8(block);
    Rounds16(block);
    Rounds24(block);
    Rounds32(block);
    Rounds40(block);
    Rounds48(block);
    Rounds56(block);
    Last(block);
  }

  lemma Last(block: seq<byte>)
    requires After(block, 64, 0x506e3058, 0xd39a2165, 0x04d24d6c, 0xb85e2ce9, 0x5ef50f24, 0xfb121210, 0x948d25b6, 0x961f4894)
    ensures Compress(INITIAL, block) == Vars(0xba7816bf, 0x8f01cfea, 0x414140de, 0x5dae2223, 0xb00361a3, 0x96177a9c,
            0xb410ff61, 0xf20015ad)
  {
    hide Rounds;
  }

  lemma DigestBytes()
    ensures Digest(Vars(0xba7816bf, 0x8f01cfea, 0x414140de, 0x5dae2223, 0xb00361a3, 0x96177a9c, 0xb410ff61, 0xf20015ad))
            == [0xba, 0x78, 0x16, 0xbf, 0x8f, 0x01, 0xcf, 0xea, 0x41, 0x41, 0x40, 0xde, 0x5d, 0xae, 0x22, 0x23,
                0xb0, 0x03, 0x61, 0xa3, 0x96, 0x17, 0x7a, 0x9c, 0xb4, 0x10, 0xff, 0x61, 0xf2, 0x00, 0x15, 0xad]
  {
  }

  /** The digest of "abc". */
  lemma Abc()
    ensures Digest(Hash(ABC))
            == [0xba, 0x78, 0x16, 0xbf, 0x8f, 0x01, 0xcf, 0xea, 0x41, 0x41, 0x40, 0xde, 0x5d, 0xae, 0x22, 0x23,
                0xb0, 0x03, 0x61, 0xa3, 0x96, 0x17, 0x7a, 0x9c, 0xb4, 0x10, 0xff, 0x61, 0xf2, 0x00, 0x15, 0xad]
  {
    hide Compress;
    hide Digest;
    hide Padding;
    var block := Only();
    Compressed(block);
    assert NOTHING + block == block;
    ChainedBlock(INITIAL, NOTHING, block);
    DigestBytes();
  }
}
