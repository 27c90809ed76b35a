/** The one-block example of FIPS 180-4: the digest of "abc", every word of its schedule and
    every state of its rounds. */
module Sha256Vector {
  import opened Bytes
  import opened Sha256
  import opened Sha256Trace

  function Message(): seq<byte> { [0x61, 0x62, 0x63] }

  /** The message, padded. */
  function Abc(): (b: seq<byte>)
    ensures |b| == BLOCK
  {
    [0x61, 0x62, 0x63, 0x80] + Zeros(59) + [24]
  }

  function Initial(): Vars {
    Vars(0x6a09e667, 0xbb67ae85, 0x3c6ef372, 0xa54ff53a, 0x510e527f, 0x9b05688c, 0x1f83d9ab, 0x5be0cd19)
  }

  lemma AbcWords0()
    ensures Words(Abc(), 0,
                  0x61626380, 0x00000000, 0x00000000, 0x00000000, 0x00000000, 0x00000000, 0x00000000, 0x00000000)
    ensures Words(Abc(), 8,
                  0x00000000, 0x00000000, 0x00000000, 0x00000000, 0x00000000, 0x00000000, 0x00000000, 0x00000018)
  {
    hide Word, BigEndianWord;
    AbcEnds();
    FirstWord(Abc(), 0, 0x61626380);
    ZeroWord(Abc(), 1); ZeroWord(Abc(), 2); ZeroWord(Abc(), 3); ZeroWord(Abc(), 4); ZeroWord(Abc(), 5);
    ZeroWord(Abc(), 6); ZeroWord(Abc(), 7); ZeroWord(Abc(), 8); ZeroWord(Abc(), 9); ZeroWord(Abc(), 10);
    ZeroWord(Abc(), 11); ZeroWord(Abc(), 12); ZeroWord(Abc(), 13); ZeroWord(Abc(), 14);
    FirstWord(Abc(), 15, 24);
  }

  lemma AbcEnds()
    ensures BigEndianWord([0x61, 0x62, 0x63, 0x80]) == 0x61626380 && BigEndianWord([0, 0, 0, 24]) == 24
  {
  }

  lemma AbcWords16()
    ensures Words(Abc(), 16,
                  0x61626380, 0x000f0000, 0x7da86405, 0x600003c6, 0x3e9d7b78, 0x0183fc00, 0x12dcbfdb, 0xe2e2c38e)
    ensures Words(Abc(), 24,
                  0xc8215c1a, 0xb73679a2, 0xe5bc3909, 0x32663c5b, 0x9d209d67, 0xec8726cb, 0x702138a4, 0xd3b7973b)
  {
    hide Word;
    AbcWords0();
    NextWord(Abc(), 16, 0x61626380, 0x00000000, 0x00000000, 0x00000000, 0x61626380);
    NextWord(Abc(), 17, 0x00000000, 0x00000000, 0x00000000, 0x00000018, 0x000f0000);
    NextWord(Abc(), 18, 0x00000000, 0x00000000, 0x00000000, 0x61626380, 0x7da86405);
    NextWord(Abc(), 19, 0x00000000, 0x00000000, 0x00000000, 0x000f0000, 0x600003c6);
    NextWord(Abc(), 20, 0x00000000, 0x00000000, 0x00000000, 0x7da86405, 0x3e9d7b78);
    NextWord(Abc(), 21, 0x00000000, 0x00000000, 0x00000000, 0x600003c6, 0x0183fc00);
    NextWord(Abc(), 22, 0x00000000, 0x00000000, 0x00000018, 0x3e9d7b78, 0x12dcbfdb);
    NextWord(Abc(), 23, 0x00000000, 0x00000000, 0x61626380, 0x0183fc00, 0xe2e2c38e);
    NextWord(Abc(), 24, 0x00000000, 0x00000000, 0x000f0000, 0x12dcbfdb, 0xc8215c1a);
    NextWord(Abc(), 25, 0x00000000, 0x00000000, 0x7da86405, 0xe2e2c38e, 0xb73679a2);
    NextWord(Abc(), 26, 0x00000000, 0x00000000, 0x600003c6, 0xc8215c1a, 0xe5bc3909);
    NextWord(Abc(), 27, 0x00000000, 0x00000000, 0x3e9d7b78, 0xb73679a2, 0x32663c5b);
    NextWord(Abc(), 28, 0x00000000, 0x00000000, 0x0183fc00, 0xe5bc3909, 0x9d209d67);
    NextWord(Abc(), 29, 0x00000000, 0x00000000, 0x12dcbfdb, 0x32663c5b, 0xec8726cb);
    NextWord(Abc(), 30, 0x00000000, 0x00000018, 0xe2e2c38e, 0x9d209d67, 0x702138a4);
    NextWord(Abc(), 31, 0x00000018, 0x61626380, 0xc8215c1a, 0xec8726cb, 0xd3b7973b);
  }

  lemma AbcWords32()
    ensures Words(Abc(), 32,
                  0x93f5997f, 0x3b68ba73, 0xaff4ffc1, 0xf10a5c62, 0x0a8b3996, 0x72af830a, 0x9409e33e, 0x24641522)
    ensures Words(Abc(), 40,
                  0x9f47bf94, 0xf0a64f5a, 0x3e246a79, 0x27333ba3, 0x0c4763f2, 0x840abf27, 0x7a290d5d, 0x065c43da)
  {
    hide Word;
    AbcWords16();
    NextWord(Abc(), 32, 0x61626380, 0x000f0000, 0xb73679a2, 0x702138a4, 0x93f5997f);
    NextWord(Abc(), 33, 0x000f0000, 0x7da86405, 0xe5bc3909, 0xd3b7973b, 0x3b68ba73);
    NextWord(Abc(), 34, 0x7da86405, 0x600003c6, 0x32663c5b, 0x93f5997f, 0xaff4ffc1);
    NextWord(Abc(), 35, 0x600003c6, 0x3e9d7b78, 0x9d209d67, 0x3b68ba73, 0xf10a5c62);
    NextWord(Abc(), 36, 0x3e9d7b78, 0x0183fc00, 0xec8726cb, 0xaff4ffc1, 0x0a8b3996);
    NextWord(Abc(), 37, 0x0183fc00, 0x12dcbfdb, 0x702138a4, 0xf10a5c62, 0x72af830a);
    NextWord(Abc(), 38, 0x12dcbfdb, 0xe2e2c38e, 0xd3b7973b, 0x0a8b3996, 0x9409e33e);
    NextWord(Abc(), 39, 0xe2e2c38e, 0xc8215c1a, 0x93f5997f, 0x72af830a, 0x24641522);
    NextWord(Abc(), 40, 0xc8215c1a, 0xb73679a2, 0x3b68ba73, 0x9409e33e, 0x9f47bf94);
    NextWord(Abc(), 41, 0xb73679a2, 0xe5bc3909, 0xaff4ffc1, 0x24641522, 0xf0a64f5a);
    NextWord(Abc(), 42, 0xe5bc3909, 0x32663c5b, 0xf10a5c62, 0x9f47bf94, 0x3e246a79);
    NextWord(Abc(), 43, 0x32663c5b, 0x9d209d67, 0x0a8b3996, 0xf0a64f5a, 0x27333ba3);
    NextWord(Abc(), 44, 0x9d209d67, 0xec8726cb, 0x72af830a, 0x3e246a79, 0x0c4763f2);
    NextWord(Abc(), 45, 0xec8726cb, 0x702138a4, 0x9409e33e, 0x27333ba3, 0x840abf27);
    NextWord(Abc(), 46, 0x702138a4, 0xd3b7973b, 0x24641522, 0x0c4763f2, 0x7a290d5d);
    NextWord(Abc(), 47, 0xd3b7973b, 0x93f5997f, 0x9f47bf94, 0x840abf27, 0x065c43da);
  }

  lemma AbcWords48()
    ensures Words(Abc(), 48,
                  0xfb3e89cb, 0xcc7617db, 0xb9e66c34, 0xa9993667, 0x84badedd, 0xc21462bc, 0x1487472c, 0xb20f7a99)
    ensures Words(Abc(), 56,
                  0xef57b9cd, 0xebe6b238, 0x9fe3095e, 0x78bc8d4b, 0xa43fcf15, 0x668b2ff8, 0xeeaba2cc, 0x12b1edeb)
  {
    hide Word;
    AbcWords32();
    NextWord(Abc(), 48, 0x93f5997f, 0x3b68ba73, 0xf0a64f5a, 0x7a290d5d, 0xfb3e89cb);
    NextWord(Abc(), 49, 0x3b68ba73, 0xaff4ffc1, 0x3e246a79, 0x065c43da, 0xcc7617db);
    NextWord(Abc(), 50, 0xaff4ffc1, 0xf10a5c62, 0x27333ba3, 0xfb3e89cb, 0xb9e66c34);
    NextWord(Abc(), 51, 0xf10a5c62, 0x0a8b3996, 0x0c4763f2, 0xcc7617db, 0xa9993667);
    NextWord(Abc(), 52, 0x0a8b3996, 0x72af830a, 0x840abf27, 0xb9e66c34, 0x84badedd);
    NextWord(Abc(), 53, 0x72af830a, 0x9409e33e, 0x7a290d5d, 0xa9993667, 0xc21462bc);
    NextWord(Abc(), 54, 0x9409e33e, 0x24641522, 0x065c43da, 0x84badedd, 0x1487472c);
    NextWord(Abc(), 55, 0x24641522, 0x9f47bf94, 0xfb3e89cb, 0xc21462bc, 0xb20f7a99);
    NextWord(Abc(), 56, 0x9f47bf94, 0xf0a64f5a, 0xcc7617db, 0x1487472c, 0xef57b9cd);
    NextWord(Abc(), 57, 0xf0a64f5a, 0x3e246a79, 0xb9e66c34, 0xb20f7a99, 0xebe6b238);
    NextWord(Abc(), 58, 0x3e246a79, 0x27333ba3, 0xa9993667, 0xef57b9cd, 0x9fe3095e);
    NextWord(Abc(), 59, 0x27333ba3, 0x0c4763f2, 0x84badedd, 0xebe6b238, 0x78bc8d4b);
    NextWord(Abc(), 60, 0x0c4763f2, 0x840abf27, 0xc21462bc, 0x9fe3095e, 0xa43fcf15);
    NextWord(Abc(), 61, 0x840abf27, 0x7a290d5d, 0x1487472c, 0x78bc8d4b, 0x668b2ff8);
    NextWord(Abc(), 62, 0x7a290d5d, 0x065c43da, 0xb20f7a99, 0xa43fcf15, 0xeeaba2cc);
    NextWord(Abc(), 63, 0x065c43da, 0xfb3e89cb, 0xef57b9cd, 0x668b2ff8, 0x12b1edeb);
  }

  lemma AbcRounds16()
    ensures At(Initial(), Abc(), 16,
               Vars(0xb0fa238e, 0xc0645fde, 0xd932eb16, 0x87912990, 0x07590dcd, 0x0b92f20c, 0x745a48de, 0x1e578218))
  {
    hide At, Word, K;
    KValues0();
    KValues8();
    Start(Initial(), Abc());
    AbcWords0();
    var v0 := Vars(0x6a09e667, 0xbb67ae85, 0x3c6ef372, 0xa54ff53a, 0x510e527f, 0x9b05688c, 0x1f83d9ab, 0x5be0cd19);
    var v1 := Vars(0x5d6aebcd, 0x6a09e667, 0xbb67ae85, 0x3c6ef372, 0xfa2a4622, 0x510e527f, 0x9b05688c, 0x1f83d9ab);
    Step(Initial(), Abc(), 0, v0, 0x428a2f98, 0x61626380, v1);
    var v2 := Vars(0x5a6ad9ad, 0x5d6aebcd, 0x6a09e667, 0xbb67ae85, 0x78ce7989, 0xfa2a4622, 0x510e527f, 0x9b05688c);
    Step(Initial(), Abc(), 1, v1, 0x71374491, 0x00000000, v2);
    var v3 := Vars(0xc8c347a7, 0x5a6ad9ad, 0x5d6aebcd, 0x6a09e667, 0xf92939eb, 0x78ce7989, 0xfa2a4622, 0x510e527f);
    Step(Initial(), Abc(), 2, v2, 0xb5c0fbcf, 0x00000000, v3);
    var v4 := Vars(0xd550f666, 0xc8c347a7, 0x5a6ad9ad, 0x5d6aebcd, 0x24e00850, 0xf92939eb, 0x78ce7989, 0xfa2a4622);
    Step(Initial(), Abc(), 3, v3, 0xe9b5dba5, 0x00000000, v4);
    var v5 := Vars(0x04409a6a, 0xd550f666, 0xc8c347a7, 0x5a6ad9ad, 0x43ada245, 0x24e00850, 0xf92939eb, 0x78ce7989);
    Step(Initial(), Abc(), 4, v4, 0x3956c25b, 0x00000000, v5);
    var v6 := Vars(0x2b4209f5, 0x04409a6a, 0xd550f666, 0xc8c347a7, 0x714260ad, 0x43ada245, 0x24e00850, 0xf92939eb);
    Step(Initial(), Abc(), 5, v5, 0x59f111f1, 0x00000000, v6);
    var v7 := Vars(0xe5030380, 0x2b4209f5, 0x04409a6a, 0xd550f666, 0x9b27a401, 0x714260ad, 0x43ada245, 0x24e00850);
    Step(Initial(), Abc(), 6, v6, 0x923f82a4, 0x00000000, v7);
    var v8 := Vars(0x85a07b5f, 0xe5030380, 0x2b4209f5, 0x04409a6a, 0x0c657a79, 0x9b27a401, 0x714260ad, 0x43ada245);
    Step(Initial(), Abc(), 7, v7, 0xab1c5ed5, 0x00000000, v8);
    var v9 := Vars(0x8e04ecb9, 0x85a07b5f, 0xe5030380, 0x2b4209f5, 0x32ca2d8c, 0x0c657a79, 0x9b27a401, 0x714260ad);
    Step(Initial(), Abc(), 8, v8, 0xd807aa98, 0x00000000, v9);
    var v10 := Vars(0x8c87346b, 0x8e04ecb9, 0x85a07b5f, 0xe5030380, 0x1cc92596, 0x32ca2d8c, 0x0c657a79, 0x9b27a401);
    Step(Initial(), Abc(), 9, v9, 0x12835b01, 0x00000000, v10);
    var v11 := Vars(0x4798a3f4, 0x8c87346b, 0x8e04ecb9, 0x85a07b5f, 0x436b23e8, 0x1cc92596, 0x32ca2d8c, 0x0c657a79);
    Step(Initial(), Abc(), 10, v10, 0x243185be, 0x00000000, v11);
    var v12 := Vars(0xf71fc5a9, 0x4798a3f4, 0x8c87346b, 0x8e04ecb9, 0x816fd6e9, 0x436b23e8, 0x1cc92596, 0x32ca2d8c);
    Step(Initial(), Abc(), 11, v11, 0x550c7dc3, 0x00000000, v12);
    var v13 := Vars(0x87912990, 0xf71fc5a9, 0x4798a3f4, 0x8c87346b, 0x1e578218, 0x816fd6e9, 0x436b23e8, 0x1cc92596);
    Step(Initial(), Abc(), 12, v12, 0x72be5d74, 0x00000000, v13);
    var v14 := Vars(0xd932eb16, 0x87912990, 0xf71fc5a9, 0x4798a3f4, 0x745a48de, 0x1e578218, 0x816fd6e9, 0x436b23e8);
    Step(Initial(), Abc(), 13, v13, 0x80deb1fe, 0x00000000, v14);
    var v15 := Vars(0xc0645fde, 0xd932eb16, 0x87912990, 0xf71fc5a9, 0x0b92f20c, 0x745a48de, 0x1e578218, 0x816fd6e9);
    Step(Initial(), Abc(), 14, v14, 0x9bdc06a7, 0x00000000, v15);
    var v16 := Vars(0xb0fa238e, 0xc0645fde, 0xd932eb16, 0x87912990, 0x07590dcd, 0x0b92f20c, 0x745a48de, 0x1e578218);
    Step(Initial(), Abc(), 15, v15, 0xc19bf174, 0x00000018, v16);
  }

  lemma AbcRounds32()
    ensures At(Initial(), Abc(), 32,
               Vars(0x73b33bf5, 0xea992a22, 0xa0060b30, 0x363482c9, 0xba591112, 0x0109ab3a, 0xade79437, 0x6112a3b7))
  {
    hide At, Word, K;
    KValues16();
    KValues24();
    AbcRounds16();
    AbcWords16();
    var v16 := Vars(0xb0fa238e, 0xc0645fde, 0xd932eb16, 0x87912990, 0x07590dcd, 0x0b92f20c, 0x745a48de, 0x1e578218);
    var v17 := Vars(0x21da9a9b, 0xb0fa238e, 0xc0645fde, 0xd932eb16, 0x8034229c, 0x07590dcd, 0x0b92f20c, 0x745a48de);
    Step(Initial(), Abc(), 16, v16, 0xe49b69c1, 0x61626380, v17);
    var v18 := Vars(0xc2fbd9d1, 0x21da9a9b, 0xb0fa238e, 0xc0645fde, 0x846ee454, 0x8034229c, 0x07590dcd, 0x0b92f20c);
    Step(Initial(), Abc(), 17, v17, 0xefbe4786, 0x000f0000, v18);
    var v19 := Vars(0xfe777bbf, 0xc2fbd9d1, 0x21da9a9b, 0xb0fa238e, 0xcc899961, 0x846ee454, 0x8034229c, 0x07590dcd);
    Step(Initial(), Abc(), 18, v18, 0x0fc19dc6, 0x7da86405, v19);
    var v20 := Vars(0xe1f20c33, 0xfe777bbf, 0xc2fbd9d1, 0x21da9a9b, 0xb0638179, 0xcc899961, 0x846ee454, 0x8034229c);
    Step(Initial(), Abc(), 19, v19, 0x240ca1cc, 0x600003c6, v20);
    var v21 := Vars(0x9dc68b63, 0xe1f20c33, 0xfe777bbf, 0xc2fbd9d1, 0x8ada8930, 0xb0638179, 0xcc899961, 0x846ee454);
    Step(Initial(), Abc(), 20, v20, 0x2de92c6f, 0x3e9d7b78, v21);
    var v22 := Vars(0xc2606d6d, 0x9dc68b63, 0xe1f20c33, 0xfe777bbf, 0xe1257970, 0x8ada8930, 0xb0638179, 0xcc899961);
    Step(Initial(), Abc(), 21, v21, 0x4a7484aa, 0x0183fc00, v22);
    var v23 := Vars(0xa7a3623f, 0xc2606d6d, 0x9dc68b63, 0xe1f20c33, 0x49f5114a, 0xe1257970, 0x8ada8930, 0xb0638179);
    Step(Initial(), Abc(), 22, v22, 0x5cb0a9dc, 0x12dcbfdb, v23);
    var v24 := Vars(0xc5d53d8d, 0xa7a3623f, 0xc2606d6d, 0x9dc68b63, 0xaa47c347, 0x49f5114a, 0xe1257970, 0x8ada8930);
    Step(Initial(), Abc(), 23, v23, 0x76f988da, 0xe2e2c38e, v24);
    var v25 := Vars(0x1c2c2838, 0xc5d53d8d, 0xa7a3623f, 0xc2606d6d, 0x2823ef91, 0xaa47c347, 0x49f5114a, 0xe1257970);
    Step(Initial(), Abc(), 24, v24, 0x983e5152, 0xc8215c1a, v25);
    var v26 := Vars(0xcde8037d, 0x1c2c2838, 0xc5d53d8d, 0xa7a3623f, 0x14383d8e, 0x2823ef91, 0xaa47c347, 0x49f5114a);
    Step(Initial(), Abc(), 25, v25, 0xa831c66d, 0xb73679a2, v26);
    var v27 := Vars(0xb62ec4bc, 0xcde8037d, 0x1c2c2838, 0xc5d53d8d, 0xc74c6516, 0x14383d8e, 0x2823ef91, 0xaa47c347);
    Step(Initial(), Abc(), 26, v26, 0xb00327c8, 0xe5bc3909, v27);
    var v28 := Vars(0x77d37528, 0xb62ec4bc, 0xcde8037d, 0x1c2c2838, 0xedffbff8, 0xc74c6516, 0x14383d8e, 0x2823ef91);
    Step(Initial(), Abc(), 27, v27, 0xbf597fc7, 0x32663c5b, v28);
    var v29 := Vars(0x363482c9, 0x77d37528, 0xb62ec4bc, 0xcde8037d, 0x6112a3b7, 0xedffbff8, 0xc74c6516, 0x14383d8e);
    Step(Initial(), Abc(), 28, v28, 0xc6e00bf3, 0x9d209d67, v29);
    var v30 := Vars(0xa0060b30, 0x363482c9, 0x77d37528, 0xb62ec4bc, 0xade79437, 0x6112a3b7, 0xedffbff8, 0xc74c6516);
    Step(Initial(), Abc(), 29, v29, 0xd5a79147, 0xec8726cb, v30);
    var v31 := Vars(0xea992a22, 0xa0060b30, 0x363482c9, 0x77d37528, 0x0109ab3a, 0xade79437, 0x6112a3b7, 0xedffbff8);
    Step(Initial(), Abc(), 30, v30, 0x06ca6351, 0x702138a4, v31);
    var v32 := Vars(0x73b33bf5, 0xea992a22, 0xa0060b30, 0x363482c9, 0xba591112, 0x0109ab3a, 0xade79437, 0x6112a3b7);
    Step(Initial(), Abc(), 31, v31, 0x14292967, 0xd3b7973b, v32);
  }

  lemma AbcRounds48()
    ensures At(Initial(), Abc(), 48,
               Vars(0x4172328d, 0xa14c14b0, 0x72ab4b91, 0x26628815, 0xfecf0bc6, 0xd57b94a9, 0xb7755da1, 0xa80f11f0))
  {
    hide At, Word, K;
    KValues32();
    KValues40();
    AbcRounds32();
    AbcWords32();
    var v32 := Vars(0x73b33bf5, 0xea992a22, 0xa0060b30, 0x363482c9, 0xba591112, 0x0109ab3a, 0xade79437, 0x6112a3b7);
    var v33 := Vars(0x98e12507, 0x73b33bf5, 0xea992a22, 0xa0060b30, 0x9cd9f5f6, 0xba591112, 0x0109ab3a, 0xade79437);
    Step(Initial(), Abc(), 32, v32, 0x27b70a85, 0x93f5997f, v33);
    var v34 := Vars(0xfe604df5, 0x98e12507, 0x73b33bf5, 0xea992a22, 0x59249dd3, 0x9cd9f5f6, 0xba591112, 0x0109ab3a);
    Step(Initial(), Abc(), 33, v33, 0x2e1b2138, 0x3b68ba73, v34);
    var v35 := Vars(0xa9a7738c, 0xfe604df5, 0x98e12507, 0x73b33bf5, 0x085f3833, 0x59249dd3, 0x9cd9f5f6, 0xba591112);
    Step(Initial(), Abc(), 34, v34, 0x4d2c6dfc, 0xaff4ffc1, v35);
    var v36 := Vars(0x65a0cfe4, 0xa9a7738c, 0xfe604df5, 0x98e12507, 0xf4b002d6, 0x085f3833, 0x59249dd3, 0x9cd9f5f6);
    Step(Initial(), Abc(), 35, v35, 0x53380d13, 0xf10a5c62, v36);
    var v37 := Vars(0x41a65cb1, 0x65a0cfe4, 0xa9a7738c, 0xfe604df5, 0x0772a26b, 0xf4b002d6, 0x085f3833, 0x59249dd3);
    Step(Initial(), Abc(), 36, v36, 0x650a7354, 0x0a8b3996, v37);
    var v38 := Vars(0x34df1604, 0x41a65cb1, 0x65a0cfe4, 0xa9a7738c, 0xa507a53d, 0x0772a26b, 0xf4b002d6, 0x085f3833);
    Step(Initial(), Abc(), 37, v37, 0x766a0abb, 0x72af830a, v38);
    var v39 := Vars(0x6dc57a8a, 0x34df1604, 0x41a65cb1, 0x65a0cfe4, 0xf0781bc8, 0xa507a53d, 0x0772a26b, 0xf4b002d6);
    Step(Initial(), Abc(), 38, v38, 0x81c2c92e, 0x9409e33e, v39);
    var v40 := Vars(0x79ea687a, 0x6dc57a8a, 0x34df1604, 0x41a65cb1, 0x1efbc0a0, 0xf0781bc8, 0xa507a53d, 0x0772a26b);
    Step(Initial(), Abc(), 39, v39, 0x92722c85, 0x24641522, v40);
    var v41 := Vars(0xd6670766, 0x79ea687a, 0x6dc57a8a, 0x34df1604, 0x26352d63, 0x1efbc0a0, 0xf0781bc8, 0xa507a53d);
    Step(Initial(), Abc(), 40, v40, 0xa2bfe8a1, 0x9f47bf94, v41);
    var v42 := Vars(0xdf46652f, 0xd6670766, 0x79ea687a, 0x6dc57a8a, 0x838b2711, 0x26352d63, 0x1efbc0a0, 0xf0781bc8);
    Step(Initial(), Abc(), 41, v41, 0xa81a664b, 0xf0a64f5a, v42);
    var v43 := Vars(0x17aa0dfe, 0xdf46652f, 0xd6670766, 0x79ea687a, 0xdecd4715, 0x838b2711, 0x26352d63, 0x1efbc0a0);
    Step(Initial(), Abc(), 42, v42, 0xc24b8b70, 0x3e246a79, v43);
    var v44 := Vars(0x9d4baf93, 0x17aa0dfe, 0xdf46652f, 0xd6670766, 0xfda24c2e, 0xdecd4715, 0x838b2711, 0x26352d63);
    Step(Initial(), Abc(), 43, v43, 0xc76c51a3, 0x27333ba3, v44);
    var v45 := Vars(0x26628815, 0x9d4baf93, 0x17aa0dfe, 0xdf46652f, 0xa80f11f0, 0xfda24c2e, 0xdecd4715, 0x838b2711);
    Step(Initial(), Abc(), 44, v44, 0xd192e819, 0x0c4763f2, v45);
    var v46 := Vars(0x72ab4b91, 0x26628815, 0x9d4baf93, 0x17aa0dfe, 0xb7755da1, 0xa80f11f0, 0xfda24c2e, 0xdecd4715);
    Step(Initial(), Abc(), 45, v45, 0xd6990624, 0x840abf27, v46);
    var v47 := Vars(0xa14c14b0, 0x72ab4b91, 0x26628815, 0x9d4baf93, 0xd57b94a9, 0xb7755da1, 0xa80f11f0, 0xfda24c2e);
    Step(Initial(), Abc(), 46, v46, 0xf40e3585, 0x7a290d5d, v47);
    var v48 := Vars(0x4172328d, 0xa14c14b0, 0x72ab4b91, 0x26628815, 0xfecf0bc6, 0xd57b94a9, 0xb7755da1, 0xa80f11f0);
    Step(Initial(), Abc(), 47, v47, 0x106aa070, 0x065c43da, v48);
  }

  lemma AbcRounds64()
    ensures At(Initial(), Abc(), 64,
               Vars(0x506e3058, 0xd39a2165, 0x04d24d6c, 0xb85e2ce9, 0x5ef50f24, 0xfb121210, 0x948d25b6, 0x961f4894))
  {
    hide At, Word, K;
    KValues48();
    KValues56();
    AbcRounds48();
    AbcWords48();
    var v48 := Vars(0x4172328d, 0xa14c14b0, 0x72ab4b91, 0x26628815, 0xfecf0bc6, 0xd57b94a9, 0xb7755da1, 0xa80f11f0);
    var v49 := Vars(0x05757ceb, 0x4172328d, 0xa14c14b0, 0x72ab4b91, 0xbd714038, 0xfecf0bc6, 0xd57b94a9, 0xb7755da1);
    Step(Initial(), Abc(), 48, v48, 0x19a4c116, 0xfb3e89cb, v49);
    var v50 := Vars(0xf11bfaa8, 0x05757ceb, 0x4172328d, 0xa14c14b0, 0x6e5c390c, 0xbd714038, 0xfecf0bc6, 0xd57b94a9);
    Step(Initial(), Abc(), 49, v49, 0x1e376c08, 0xcc7617db, v50);
    var v51 := Vars(0x7a0508a1, 0xf11bfaa8, 0x05757ceb, 0x4172328d, 0x52f1ccf7, 0x6e5c390c, 0xbd714038, 0xfecf0bc6);
    Step(Initial(), Abc(), 50, v50, 0x2748774c, 0xb9e66c34, v51);
    var v52 := Vars(0x886e7a22, 0x7a0508a1, 0xf11bfaa8, 0x05757ceb, 0x49231c1e, 0x52f1ccf7, 0x6e5c390c, 0xbd714038);
    Step(Initial(), Abc(), 51, v51, 0x34b0bcb5, 0xa9993667, v52);
    var v53 := Vars(0x101fd28f, 0x886e7a22, 0x7a0508a1, 0xf11bfaa8, 0x529e7d00, 0x49231c1e, 0x52f1ccf7, 0x6e5c390c);
    Step(Initial(), Abc(), 52, v52, 0x391c0cb3, 0x84badedd, v53);
    var v54 := Vars(0xf5702fdb, 0x101fd28f, 0x886e7a22, 0x7a0508a1, 0x9f4787c3, 0x529e7d00, 0x49231c1e, 0x52f1ccf7);
    Step(Initial(), Abc(), 53, v53, 0x4ed8aa4a, 0xc21462bc, v54);
    var v55 := Vars(0x3ec45cdb, 0xf5702fdb, 0x101fd28f, 0x886e7a22, 0xe50e1b4f, 0x9f4787c3, 0x529e7d00, 0x49231c1e);
    Step(Initial(), Abc(), 54, v54, 0x5b9cca4f, 0x1487472c, v55);
    var v56 := Vars(0x38cc9913, 0x3ec45cdb, 0xf5702fdb, 0x101fd28f, 0x54cb266b, 0xe50e1b4f, 0x9f4787c3, 0x529e7d00);
    Step(Initial(), Abc(), 55, v55, 0x682e6ff3, 0xb20f7a99, v56);
    var v57 := Vars(0xfcd1887b, 0x38cc9913, 0x3ec45cdb, 0xf5702fdb, 0x9b5e906c, 0x54cb266b, 0xe50e1b4f, 0x9f4787c3);
    Step(Initial(), Abc(), 56, v56, 0x748f82ee, 0xef57b9cd, v57);
    var v58 := Vars(0xc062d46f, 0xfcd1887b, 0x38cc9913, 0x3ec45cdb, 0x7e44008e, 0x9b5e906c, 0x54cb266b, 0xe50e1b4f);
    Step(Initial(), Abc(), 57, v57, 0x78a5636f, 0xebe6b238, v58);
    var v59 := Vars(0xffb70472, 0xc062d46f, 0xfcd1887b, 0x38cc9913, 0x6d83bfc6, 0x7e44008e, 0x9b5e906c, 0x54cb266b);
    Step(Initial(), Abc(), 58, v58, 0x84c87814, 0x9fe3095e, v59);
    var v60 := Vars(0xb6ae8fff, 0xffb70472, 0xc062d46f, 0xfcd1887b, 0xb21bad3d, 0x6d83bfc6, 0x7e44008e, 0x9b5e906c);
    Step(Initial(), Abc(), 59, v59, 0x8cc70208, 0x78bc8d4b, v60);
    var v61 := Vars(0xb85e2ce9, 0xb6ae8fff, 0xffb70472, 0xc062d46f, 0x961f4894, 0xb21bad3d, 0x6d83bfc6, 0x7e44008e);
    Step(Initial(), Abc(), 60, v60, 0x90befffa, 0xa43fcf15, v61);
    var v62 := Vars(0x04d24d6c, 0xb85e2ce9, 0xb6ae8fff, 0xffb70472, 0x948d25b6, 0x961f4894, 0xb21bad3d, 0x6d83bfc6);
    Step(Initial(), Abc(), 61, v61, 0xa4506ceb, 0x668b2ff8, v62);
    var v63 := Vars(0xd39a2165, 0x04d24d6c, 0xb85e2ce9, 0xb6ae8fff, 0xfb121210, 0x948d25b6, 0x961f4894, 0xb21bad3d);
    Step(Initial(), Abc(), 62, v62, 0xbef9a3f7, 0xeeaba2cc, v63);
    var v64 := Vars(0x506e3058, 0xd39a2165, 0x04d24d6c, 0xb85e2ce9, 0x5ef50f24, 0xfb121210, 0x948d25b6, 0x961f4894);
    Step(Initial(), Abc(), 63, v63, 0xc67178f2, 0x12b1edeb, v64);
  }

  lemma Padded()
    ensures Pad(Message()) == Abc()
  {
    PadIs();
    OneByteLength(24, 8);
    Gathered(Zeros(52), Zeros(7));
    AllZeros();
    hide BigEndian, Zeros, Pad;
  }

  lemma PadIs()
    ensures Pad(Message()) == Message() + [0x80] + Zeros(52) + BigEndian(24, 8)
  {
    assert PadZeros(3) == 52;
    hide BigEndian, Zeros;
  }

  lemma AllZeros()
    ensures Zeros(52) + Zeros(7) == Zeros(59)
  {
  }

  lemma Gathered(a: seq<byte>, b: seq<byte>)
    ensures Message() + [0x80] + a + (b + [24]) == [0x61, 0x62, 0x63, 0x80] + (a + b) + [24]
  {
  }

  /** The words of the digest. */
  lemma Compressed()
    ensures Compress(H0, Abc())
         == [0xba7816bf, 0x8f01cfea, 0x414140de, 0x5dae2223,
             0xb00361a3, 0x96177a9c, 0xb410ff61, 0xf20015ad]
  {
    hide At;
    AbcRounds64();
    var v := Vars(0x506e3058, 0xd39a2165, 0x04d24d6c, 0xb85e2ce9, 0x5ef50f24, 0xfb121210, 0x948d25b6, 0x961f4894);
    CompressIs(H0, Abc(), v, Added(H0, v));
  }

  lemma Published()
    ensures Digest(Message()) == [0xba, 0x78, 0x16, 0xbf] + [0x8f, 0x01, 0xcf, 0xea]
                              + [0x41, 0x41, 0x40, 0xde] + [0x5d, 0xae, 0x22, 0x23]
                              + [0xb0, 0x03, 0x61, 0xa3] + [0x96, 0x17, 0x7a, 0x9c]
                              + [0xb4, 0x10, 0xff, 0x61] + [0xf2, 0x00, 0x15, 0xad]
  {
    hide Compress, Abc, Message, DigestBytes;
    Padded();
    Compressed();
    FoldOne(Abc());
    WordsOut();
    DigestIs([0xba7816bf, 0x8f01cfea, 0x414140de, 0x5dae2223,
              0xb00361a3, 0x96177a9c, 0xb410ff61, 0xf20015ad],
             [[0xba, 0x78, 0x16, 0xbf], [0x8f, 0x01, 0xcf, 0xea], [0x41, 0x41, 0x40, 0xde],
              [0x5d, 0xae, 0x22, 0x23], [0xb0, 0x03, 0x61, 0xa3], [0x96, 0x17, 0x7a, 0x9c],
              [0xb4, 0x10, 0xff, 0x61], [0xf2, 0x00, 0x15, 0xad]]);
  }

  lemma WordsOut()
    ensures WordBytes(0xba7816bf) == [0xba, 0x78, 0x16, 0xbf] && WordBytes(0x8f01cfea) == [0x8f, 0x01, 0xcf, 0xea]
    ensures WordBytes(0x414140de) == [0x41, 0x41, 0x40, 0xde] && WordBytes(0x5dae2223) == [0x5d, 0xae, 0x22, 0x23]
    ensures WordBytes(0xb00361a3) == [0xb0, 0x03, 0x61, 0xa3] && WordBytes(0x96177a9c) == [0x96, 0x17, 0x7a, 0x9c]
    ensures WordBytes(0xb410ff61) == [0xb4, 0x10, 0xff, 0x61] && WordBytes(0xf20015ad) == [0xf2, 0x00, 0x15, 0xad]
  {
  }
}
