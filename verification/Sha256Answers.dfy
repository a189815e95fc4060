/**
  A published answer of SHA-256: the one-block example of FIPS 180-4 (deploy-git/src/sha256.rs:117-120). It pins
  the constants, the rotations and the order of the bytes. Each step is computed from the last one's words.
 */
module Sha256Answers {
  import opened Bytes
  import opened Sha256
  import opened Words

  /** The three letters, a one bit, and the length in bits. */
  function Block(): (b: seq<Word>)
    ensures |b| == 16
  {
    [Word(0x61626380)] + seq(14, _ => Word(0)) + [Word(0x18)]
  }

  // ---------------------------------------------------------------- the schedule

  predicate WordIs(t: nat, w: bv32) {
    W(Block(), t) == Word(w)
  }

  lemma FirstWords()
    ensures WordIs(0, 0x61626380) && forall t :: 1 <= t < 15 ==> WordIs(t, 0)
    ensures WordIs(15, 0x18)
  {
  }

  lemma Next(t: nat, w2: bv32, w7: bv32, w15: bv32, w16: bv32)
    requires 16 <= t && WordIs(t - 2, w2) && WordIs(t - 7, w7) && WordIs(t - 15, w15) && WordIs(t - 16, w16)
    ensures W(Block(), t) == Add(Add(Sigma1(Word(w2)), Word(w7)), Add(Sigma0(Word(w15)), Word(w16)))
  {
    hide Block, Add, Sigma0, Sigma1;
  }

  lemma WordsTo24()
    ensures WordIs(16, 0x61626380) && WordIs(17, 0x000f0000) && WordIs(18, 0x7da86405) && WordIs(19, 0x600003c6)
    ensures WordIs(20, 0x3e9d7b78) && WordIs(21, 0x0183fc00) && WordIs(22, 0x12dcbfdb) && WordIs(23, 0xe2e2c38e)
  {
    hide Block, W;
    FirstWords();
    Next(16, 0x00000000, 0x00000000, 0x00000000, 0x61626380);
    Next(17, 0x00000018, 0x00000000, 0x00000000, 0x00000000);
    Next(18, 0x61626380, 0x00000000, 0x00000000, 0x00000000);
    Next(19, 0x000f0000, 0x00000000, 0x00000000, 0x00000000);
    Next(20, 0x7da86405, 0x00000000, 0x00000000, 0x00000000);
    Next(21, 0x600003c6, 0x00000000, 0x00000000, 0x00000000);
    Next(22, 0x3e9d7b78, 0x00000018, 0x00000000, 0x00000000);
    Next(23, 0x0183fc00, 0x61626380, 0x00000000, 0x00000000);
  }

  lemma WordsTo32()
    ensures WordIs(24, 0xc8215c1a) && WordIs(25, 0xb73679a2) && WordIs(26, 0xe5bc3909) && WordIs(27, 0x32663c5b)
    ensures WordIs(28, 0x9d209d67) && WordIs(29, 0xec8726cb) && WordIs(30, 0x702138a4) && WordIs(31, 0xd3b7973b)
  {
    hide Block, W;
    FirstWords();
    WordsTo24();
    Next(24, 0x12dcbfdb, 0x000f0000, 0x00000000, 0x00000000);
    Next(25, 0xe2e2c38e, 0x7da86405, 0x00000000, 0x00000000);
    Next(26, 0xc8215c1a, 0x600003c6, 0x00000000, 0x00000000);
    Next(27, 0xb73679a2, 0x3e9d7b78, 0x00000000, 0x00000000);
    Next(28, 0xe5bc3909, 0x0183fc00, 0x00000000, 0x00000000);
    Next(29, 0x32663c5b, 0x12dcbfdb, 0x00000000, 0x00000000);
    Next(30, 0x9d209d67, 0xe2e2c38e, 0x00000018, 0x00000000);
    Next(31, 0xec8726cb, 0xc8215c1a, 0x61626380, 0x00000018);
  }

  lemma WordsTo40()
    ensures WordIs(32, 0x93f5997f) && WordIs(33, 0x3b68ba73) && WordIs(34, 0xaff4ffc1) && WordIs(35, 0xf10a5c62)
    ensures WordIs(36, 0x0a8b3996) && WordIs(37, 0x72af830a) && WordIs(38, 0x9409e33e) && WordIs(39, 0x24641522)
  {
    hide Block, W;
    FirstWords();
    WordsTo24();
    WordsTo32();
    Next(32, 0x702138a4, 0xb73679a2, 0x000f0000, 0x61626380);
    Next(33, 0xd3b7973b, 0xe5bc3909, 0x7da86405, 0x000f0000);
    Next(34, 0x93f5997f, 0x32663c5b, 0x600003c6, 0x7da86405);
    Next(35, 0x3b68ba73, 0x9d209d67, 0x3e9d7b78, 0x600003c6);
    Next(36, 0xaff4ffc1, 0xec8726cb, 0x0183fc00, 0x3e9d7b78);
    Next(37, 0xf10a5c62, 0x702138a4, 0x12dcbfdb, 0x0183fc00);
    Next(38, 0x0a8b3996, 0xd3b7973b, 0xe2e2c38e, 0x12dcbfdb);
    Next(39, 0x72af830a, 0x93f5997f, 0xc8215c1a, 0xe2e2c38e);
  }

  lemma WordsTo48()
    ensures WordIs(40, 0x9f47bf94) && WordIs(41, 0xf0a64f5a) && WordIs(42, 0x3e246a79) && WordIs(43, 0x27333ba3)
    ensures WordIs(44, 0x0c4763f2) && WordIs(45, 0x840abf27) && WordIs(46, 0x7a290d5d) && WordIs(47, 0x065c43da)
  {
    hide Block, W;
    WordsTo24();
    WordsTo32();
    WordsTo40();
    Next(40, 0x9409e33e, 0x3b68ba73, 0xb73679a2, 0xc8215c1a);
    Next(41, 0x24641522, 0xaff4ffc1, 0xe5bc3909, 0xb73679a2);
    Next(42, 0x9f47bf94, 0xf10a5c62, 0x32663c5b, 0xe5bc3909);
    Next(43, 0xf0a64f5a, 0x0a8b3996, 0x9d209d67, 0x32663c5b);
    Next(44, 0x3e246a79, 0x72af830a, 0xec8726cb, 0x9d209d67);
    Next(45, 0x27333ba3, 0x9409e33e, 0x702138a4, 0xec8726cb);
    Next(46, 0x0c4763f2, 0x24641522, 0xd3b7973b, 0x702138a4);
    Next(47, 0x840abf27, 0x9f47bf94, 0x93f5997f, 0xd3b7973b);
  }

  lemma WordsTo56()
    ensures WordIs(48, 0xfb3e89cb) && WordIs(49, 0xcc7617db) && WordIs(50, 0xb9e66c34) && WordIs(51, 0xa9993667)
    ensures WordIs(52, 0x84badedd) && WordIs(53, 0xc21462bc) && WordIs(54, 0x1487472c) && WordIs(55, 0xb20f7a99)
  {
    hide Block, W;
    WordsTo32();
    WordsTo40();
    WordsTo48();
    Next(48, 0x7a290d5d, 0xf0a64f5a, 0x3b68ba73, 0x93f5997f);
    Next(49, 0x065c43da, 0x3e246a79, 0xaff4ffc1, 0x3b68ba73);
    Next(50, 0xfb3e89cb, 0x27333ba3, 0xf10a5c62, 0xaff4ffc1);
    Next(51, 0xcc7617db, 0x0c4763f2, 0x0a8b3996, 0xf10a5c62);
    Next(52, 0xb9e66c34, 0x840abf27, 0x72af830a, 0x0a8b3996);
    Next(53, 0xa9993667, 0x7a290d5d, 0x9409e33e, 0x72af830a);
    Next(54, 0x84badedd, 0x065c43da, 0x24641522, 0x9409e33e);
    Next(55, 0xc21462bc, 0xfb3e89cb, 0x9f47bf94, 0x24641522);
  }

  lemma WordsTo64()
    ensures WordIs(56, 0xef57b9cd) && WordIs(57, 0xebe6b238) && WordIs(58, 0x9fe3095e) && WordIs(59, 0x78bc8d4b)
    ensures WordIs(60, 0xa43fcf15) && WordIs(61, 0x668b2ff8) && WordIs(62, 0xeeaba2cc) && WordIs(63, 0x12b1edeb)
  {
    hide Block, W;
    WordsTo40();
    WordsTo48();
    WordsTo56();
    Next(56, 0x1487472c, 0xcc7617db, 0xf0a64f5a, 0x9f47bf94);
    Next(57, 0xb20f7a99, 0xb9e66c34, 0x3e246a79, 0xf0a64f5a);
    Next(58, 0xef57b9cd, 0xa9993667, 0x27333ba3, 0x3e246a79);
    Next(59, 0xebe6b238, 0x84badedd, 0x0c4763f2, 0x27333ba3);
    Next(60, 0x9fe3095e, 0xc21462bc, 0x840abf27, 0x0c4763f2);
    Next(61, 0x78bc8d4b, 0x1487472c, 0x7a290d5d, 0x840abf27);
    Next(62, 0xa43fcf15, 0xb20f7a99, 0x065c43da, 0x7a290d5d);
    Next(63, 0x668b2ff8, 0xef57b9cd, 0xfb3e89cb, 0x065c43da);
  }

  // ---------------------------------------------------------------- the rounds

  function RoundsAt(t: nat): Vars
    requires t <= 64
  {
    Rounds(VarsOf(INITIAL), Block(), t)
  }

  predicate KIs(t: nat, k: bv32)
    requires t < 64
  {
    K[t] == Word(k)
  }

  lemma ConstantsTo8()
    ensures KIs(0, 0x428a2f98) && KIs(1, 0x71374491) && KIs(2, 0xb5c0fbcf) && KIs(3, 0xe9b5dba5)
    ensures KIs(4, 0x3956c25b) && KIs(5, 0x59f111f1) && KIs(6, 0x923f82a4) && KIs(7, 0xab1c5ed5)
  {
  }

  lemma ConstantsTo16()
    ensures KIs(8, 0xd807aa98) && KIs(9, 0x12835b01) && KIs(10, 0x243185be) && KIs(11, 0x550c7dc3)
    ensures KIs(12, 0x72be5d74) && KIs(13, 0x80deb1fe) && KIs(14, 0x9bdc06a7) && KIs(15, 0xc19bf174)
  {
  }

  lemma ConstantsTo24()
    ensures KIs(16, 0xe49b69c1) && KIs(17, 0xefbe4786) && KIs(18, 0x0fc19dc6) && KIs(19, 0x240ca1cc)
    ensures KIs(20, 0x2de92c6f) && KIs(21, 0x4a7484aa) && KIs(22, 0x5cb0a9dc) && KIs(23, 0x76f988da)
  {
  }

  lemma ConstantsTo32()
    ensures KIs(24, 0x983e5152) && KIs(25, 0xa831c66d) && KIs(26, 0xb00327c8) && KIs(27, 0xbf597fc7)
    ensures KIs(28, 0xc6e00bf3) && KIs(29, 0xd5a79147) && KIs(30, 0x06ca6351) && KIs(31, 0x14292967)
  {
  }

  lemma ConstantsTo40()
    ensures KIs(32, 0x27b70a85) && KIs(33, 0x2e1b2138) && KIs(34, 0x4d2c6dfc) && KIs(35, 0x53380d13)
    ensures KIs(36, 0x650a7354) && KIs(37, 0x766a0abb) && KIs(38, 0x81c2c92e) && KIs(39, 0x92722c85)
  {
  }

  lemma ConstantsTo48()
    ensures KIs(40, 0xa2bfe8a1) && KIs(41, 0xa81a664b) && KIs(42, 0xc24b8b70) && KIs(43, 0xc76c51a3)
    ensures KIs(44, 0xd192e819) && KIs(45, 0xd6990624) && KIs(46, 0xf40e3585) && KIs(47, 0x106aa070)
  {
  }

  lemma ConstantsTo56()
    ensures KIs(48, 0x19a4c116) && KIs(49, 0x1e376c08) && KIs(50, 0x2748774c) && KIs(51, 0x34b0bcb5)
    ensures KIs(52, 0x391c0cb3) && KIs(53, 0x4ed8aa4a) && KIs(54, 0x5b9cca4f) && KIs(55, 0x682e6ff3)
  {
  }

  lemma ConstantsTo64()
    ensures KIs(56, 0x748f82ee) && KIs(57, 0x78a5636f) && KIs(58, 0x84c87814) && KIs(59, 0x8cc70208)
    ensures KIs(60, 0x90befffa) && KIs(61, 0xa4506ceb) && KIs(62, 0xbef9a3f7) && KIs(63, 0xc67178f2)
  {
  }

  lemma FourMore(t: nat, k0: bv32, w0: bv32, k1: bv32, w1: bv32, k2: bv32, w2: bv32, k3: bv32, w3: bv32)
    requires t + 4 <= 64
    requires KIs(t, k0) && KIs(t + 1, k1) && KIs(t + 2, k2) && KIs(t + 3, k3)
    requires WordIs(t, w0) && WordIs(t + 1, w1) && WordIs(t + 2, w2) && WordIs(t + 3, w3)
    ensures RoundsAt(t + 4)
         == Round(Round(Round(Round(RoundsAt(t), Word(k0), Word(w0)), Word(k1), Word(w1)), Word(k2), Word(w2)),
                  Word(k3), Word(w3))
  {
    hide Rounds, Round, Block, W, K;
    RoundsNext(VarsOf(INITIAL), Block(), t);
    RoundsNext(VarsOf(INITIAL), Block(), t + 1);
    RoundsNext(VarsOf(INITIAL), Block(), t + 2);
    RoundsNext(VarsOf(INITIAL), Block(), t + 3);
  }

  lemma NoRounds()
    ensures RoundsAt(0)
         == Vars(Word(0x6a09e667), Word(0xbb67ae85), Word(0x3c6ef372), Word(0xa54ff53a),
                 Word(0x510e527f), Word(0x9b05688c), Word(0x1f83d9ab), Word(0x5be0cd19))
  {
    hide Block;
  }

  lemma RoundsTo4()
    ensures RoundsAt(4)
         == Vars(Word(0xd550f666), Word(0xc8c347a7), Word(0x5a6ad9ad), Word(0x5d6aebcd),
                 Word(0x24e00850), Word(0xf92939eb), Word(0x78ce7989), Word(0xfa2a4622))
  {
    hide RoundsAt, KIs, WordIs;
    NoRounds();
    ConstantsTo8();
    FirstWords();
    FourMore(0, 0x428a2f98, 0x61626380, 0x71374491, 0x00000000,
             0xb5c0fbcf, 0x00000000, 0xe9b5dba5, 0x00000000);
  }

  lemma RoundsTo8()
    ensures RoundsAt(8)
         == Vars(Word(0x85a07b5f), Word(0xe5030380), Word(0x2b4209f5), Word(0x04409a6a),
                 Word(0x0c657a79), Word(0x9b27a401), Word(0x714260ad), Word(0x43ada245))
  {
    hide RoundsAt, KIs, WordIs;
    RoundsTo4();
    ConstantsTo8();
    FirstWords();
    FourMore(4, 0x3956c25b, 0x00000000, 0x59f111f1, 0x00000000,
             0x923f82a4, 0x00000000, 0xab1c5ed5, 0x00000000);
  }

  lemma RoundsTo12()
    ensures RoundsAt(12)
         == Vars(Word(0xf71fc5a9), Word(0x4798a3f4), Word(0x8c87346b), Word(0x8e04ecb9),
                 Word(0x816fd6e9), Word(0x436b23e8), Word(0x1cc92596), Word(0x32ca2d8c))
  {
    hide RoundsAt, KIs, WordIs;
    RoundsTo8();
    ConstantsTo16();
    FirstWords();
    FourMore(8, 0xd807aa98, 0x00000000, 0x12835b01, 0x00000000,
             0x243185be, 0x00000000, 0x550c7dc3, 0x00000000);
  }

  lemma RoundsTo16()
    ensures RoundsAt(16)
         == Vars(Word(0xb0fa238e), Word(0xc0645fde), Word(0xd932eb16), Word(0x87912990),
                 Word(0x07590dcd), Word(0x0b92f20c), Word(0x745a48de), Word(0x1e578218))
  {
    hide RoundsAt, KIs, WordIs;
    RoundsTo12();
    ConstantsTo16();
    FirstWords();
    FourMore(12, 0x72be5d74, 0x00000000, 0x80deb1fe, 0x00000000,
             0x9bdc06a7, 0x00000000, 0xc19bf174, 0x00000018);
  }

  lemma RoundsTo20()
    ensures RoundsAt(20)
         == Vars(Word(0xe1f20c33), Word(0xfe777bbf), Word(0xc2fbd9d1), Word(0x21da9a9b),
                 Word(0xb0638179), Word(0xcc899961), Word(0x846ee454), Word(0x8034229c))
  {
    hide RoundsAt, KIs, WordIs;
    RoundsTo16();
    ConstantsTo24();
    WordsTo24();
    FourMore(16, 0xe49b69c1, 0x61626380, 0xefbe4786, 0x000f0000,
             0x0fc19dc6, 0x7da86405, 0x240ca1cc, 0x600003c6);
  }

  lemma RoundsTo24()
    ensures RoundsAt(24)
         == Vars(Word(0xc5d53d8d), Word(0xa7a3623f), Word(0xc2606d6d), Word(0x9dc68b63),
                 Word(0xaa47c347), Word(0x49f5114a), Word(0xe1257970), Word(0x8ada8930))
  {
    hide RoundsAt, KIs, WordIs;
    RoundsTo20();
    ConstantsTo24();
    WordsTo24();
    FourMore(20, 0x2de92c6f, 0x3e9d7b78, 0x4a7484aa, 0x0183fc00,
             0x5cb0a9dc, 0x12dcbfdb, 0x76f988da, 0xe2e2c38e);
  }

  lemma RoundsTo28()
    ensures RoundsAt(28)
         == Vars(Word(0x77d37528), Word(0xb62ec4bc), Word(0xcde8037d), Word(0x1c2c2838),
                 Word(0xedffbff8), Word(0xc74c6516), Word(0x14383d8e), Word(0x2823ef91))
  {
    hide RoundsAt, KIs, WordIs;
    RoundsTo24();
    ConstantsTo32();
    WordsTo32();
    FourMore(24, 0x983e5152, 0xc8215c1a, 0xa831c66d, 0xb73679a2,
             0xb00327c8, 0xe5bc3909, 0xbf597fc7, 0x32663c5b);
  }

  lemma RoundsTo32()
    ensures RoundsAt(32)
         == Vars(Word(0x73b33bf5), Word(0xea992a22), Word(0xa0060b30), Word(0x363482c9),
                 Word(0xba591112), Word(0x0109ab3a), Word(0xade79437), Word(0x6112a3b7))
  {
    hide RoundsAt, KIs, WordIs;
    RoundsTo28();
    ConstantsTo32();
    WordsTo32();
    FourMore(28, 0xc6e00bf3, 0x9d209d67, 0xd5a79147, 0xec8726cb,
             0x06ca6351, 0x702138a4, 0x14292967, 0xd3b7973b);
  }

  lemma RoundsTo36()
    ensures RoundsAt(36)
         == Vars(Word(0x65a0cfe4), Word(0xa9a7738c), Word(0xfe604df5), Word(0x98e12507),
                 Word(0xf4b002d6), Word(0x085f3833), Word(0x59249dd3), Word(0x9cd9f5f6))
  {
    hide RoundsAt, KIs, WordIs;
    RoundsTo32();
    ConstantsTo40();
    WordsTo40();
    FourMore(32, 0x27b70a85, 0x93f5997f, 0x2e1b2138, 0x3b68ba73,
             0x4d2c6dfc, 0xaff4ffc1, 0x53380d13, 0xf10a5c62);
  }

  lemma RoundsTo40()
    ensures RoundsAt(40)
         == Vars(Word(0x79ea687a), Word(0x6dc57a8a), Word(0x34df1604), Word(0x41a65cb1),
                 Word(0x1efbc0a0), Word(0xf0781bc8), Word(0xa507a53d), Word(0x0772a26b))
  {
    hide RoundsAt, KIs, WordIs;
    RoundsTo36();
    ConstantsTo40();
    WordsTo40();
    FourMore(36, 0x650a7354, 0x0a8b3996, 0x766a0abb, 0x72af830a,
             0x81c2c92e, 0x9409e33e, 0x92722c85, 0x24641522);
  }

  lemma RoundsTo44()
    ensures RoundsAt(44)
         == Vars(Word(0x9d4baf93), Word(0x17aa0dfe), Word(0xdf46652f), Word(0xd6670766),
                 Word(0xfda24c2e), Word(0xdecd4715), Word(0x838b2711), Word(0x26352d63))
  {
    hide RoundsAt, KIs, WordIs;
    RoundsTo40();
    ConstantsTo48();
    WordsTo48();
    FourMore(40, 0xa2bfe8a1, 0x9f47bf94, 0xa81a664b, 0xf0a64f5a,
             0xc24b8b70, 0x3e246a79, 0xc76c51a3, 0x27333ba3);
  }

  lemma RoundsTo48()
    ensures RoundsAt(48)
         == Vars(Word(0x4172328d), Word(0xa14c14b0), Word(0x72ab4b91), Word(0x26628815),
                 Word(0xfecf0bc6), Word(0xd57b94a9), Word(0xb7755da1), Word(0xa80f11f0))
  {
    hide RoundsAt, KIs, WordIs;
    RoundsTo44();
    ConstantsTo48();
    WordsTo48();
    FourMore(44, 0xd192e819, 0x0c4763f2, 0xd6990624, 0x840abf27,
             0xf40e3585, 0x7a290d5d, 0x106aa070, 0x065c43da);
  }

  lemma RoundsTo52()
    ensures RoundsAt(52)
         == Vars(Word(0x886e7a22), Word(0x7a0508a1), Word(0xf11bfaa8), Word(0x05757ceb),
                 Word(0x49231c1e), Word(0x52f1ccf7), Word(0x6e5c390c), Word(0xbd714038))
  {
    hide RoundsAt, KIs, WordIs;
    RoundsTo48();
    ConstantsTo56();
    WordsTo56();
    FourMore(48, 0x19a4c116, 0xfb3e89cb, 0x1e376c08, 0xcc7617db,
             0x2748774c, 0xb9e66c34, 0x34b0bcb5, 0xa9993667);
  }

  lemma RoundsTo56()
    ensures RoundsAt(56)
         == Vars(Word(0x38cc9913), Word(0x3ec45cdb), Word(0xf5702fdb), Word(0x101fd28f),
                 Word(0x54cb266b), Word(0xe50e1b4f), Word(0x9f4787c3), Word(0x529e7d00))
  {
    hide RoundsAt, KIs, WordIs;
    RoundsTo52();
    ConstantsTo56();
    WordsTo56();
    FourMore(52, 0x391c0cb3, 0x84badedd, 0x4ed8aa4a, 0xc21462bc,
             0x5b9cca4f, 0x1487472c, 0x682e6ff3, 0xb20f7a99);
  }

  lemma RoundsTo60()
    ensures RoundsAt(60)
         == Vars(Word(0xb6ae8fff), Word(0xffb70472), Word(0xc062d46f), Word(0xfcd1887b),
                 Word(0xb21bad3d), Word(0x6d83bfc6), Word(0x7e44008e), Word(0x9b5e906c))
  {
    hide RoundsAt, KIs, WordIs;
    RoundsTo56();
    ConstantsTo64();
    WordsTo64();
    FourMore(56, 0x748f82ee, 0xef57b9cd, 0x78a5636f, 0xebe6b238,
             0x84c87814, 0x9fe3095e, 0x8cc70208, 0x78bc8d4b);
  }

  lemma RoundsTo64()
    ensures RoundsAt(64)
         == Vars(Word(0x506e3058), Word(0xd39a2165), Word(0x04d24d6c), Word(0xb85e2ce9),
                 Word(0x5ef50f24), Word(0xfb121210), Word(0x948d25b6), Word(0x961f4894))
  {
    hide RoundsAt, KIs, WordIs;
    RoundsTo60();
    ConstantsTo64();
    WordsTo64();
    FourMore(60, 0x90befffa, 0xa43fcf15, 0xa4506ceb, 0x668b2ff8,
             0xbef9a3f7, 0xeeaba2cc, 0xc67178f2, 0x12b1edeb);
  }

  // ---------------------------------------------------------------- the answer

  lemma PaddedIs()
    ensures Ascii("abc") == [97, 98, 99]
    ensures Pad([97, 98, 99]) == [97, 98, 99, 128] + Zeros(52) + [0, 0, 0, 0, 0, 0, 0, 24]
  {
    assert BigEndian(24, 8) == [0, 0, 0, 0, 0, 0, 0, 24] by { LengthIs(); }
    hide BigEndian;
  }

  lemma LengthIs()
    ensures BigEndian(24, 8) == [0, 0, 0, 0, 0, 0, 0, 24]
  {
    assert BigEndian(0, 4) == [0, 0, 0, 0];
    assert BigEndian(24, 8) == BigEndian(0, 4) + [0, 0, 0, 24];
  }

  lemma WordsOf()
    ensures WordOf([97, 98, 99, 128]) == Word(0x61626380) && WordOf([0, 0, 0, 0]) == Word(0)
    ensures WordOf([0, 0, 0, 24]) == Word(0x18)
  {
    assert Bits(0x61626380) == 0x61626380 && Bits(0) == 0 && Bits(0x18) == 0x18;
    hide Bits;
    WordIsSum(97, 98, 99, 128);
    WordIsSum(0, 0, 0, 0);
    WordIsSum(0, 0, 0, 24);
  }

  lemma WordIsSum(a: Byte, b: Byte, c: Byte, d: Byte)
    ensures WordOf([a, b, c, d])
         == Word(Bits(a as int * 0x100_0000 + b as int * 0x1_0000 + c as int * 0x100 + d as int))
  {
    hide Bits;
  }

  lemma BlockIs(p: Text)
    requires p == [97, 98, 99, 128] + Zeros(52) + [0, 0, 0, 0, 0, 0, 0, 24]
    ensures |p| == 64 && BlockOf(ChunkAt(p, 0)) == Block()
  {
    WordsOf();
    hide WordOf;
    var c := ChunkAt(p, 0);
    assert c == p;
    assert p[0..4] == [97, 98, 99, 128] && p[60..64] == [0, 0, 0, 24];
    forall i | 1 <= i < 15 ensures p[4 * i..4 * i + 4] == [0, 0, 0, 0] { }
    forall i | 0 <= i < 16 ensures BlockOf(c)[i] == Block()[i] { }
  }

  lemma Compressed()
    ensures Compress(VarsOf(INITIAL), Block())
         == Vars(Word(0xba7816bf), Word(0x8f01cfea), Word(0x414140de), Word(0x5dae2223),
                 Word(0xb00361a3), Word(0x96177a9c), Word(0xb410ff61), Word(0xf20015ad))
  {
    RoundsTo64();
    NoRounds();
    hide Rounds, Block;
    Starts();
  }

  lemma Starts()
    ensures VarsOf(INITIAL)
         == Vars(Word(0x6a09e667), Word(0xbb67ae85), Word(0x3c6ef372), Word(0xa54ff53a),
                 Word(0x510e527f), Word(0x9b05688c), Word(0x1f83d9ab), Word(0x5be0cd19))
  {
  }

  lemma Digested()
    ensures Digest(Vars(Word(0xba7816bf), Word(0x8f01cfea), Word(0x414140de), Word(0x5dae2223),
                        Word(0xb00361a3), Word(0x96177a9c), Word(0xb410ff61), Word(0xf20015ad)))
         == [0xba, 0x78, 0x16, 0xbf, 0x8f, 0x01, 0xcf, 0xea, 0x41, 0x41, 0x40, 0xde, 0x5d, 0xae, 0x22, 0x23,
             0xb0, 0x03, 0x61, 0xa3, 0x96, 0x17, 0x7a, 0x9c, 0xb4, 0x10, 0xff, 0x61, 0xf2, 0x00, 0x15, 0xad]
  {
  }

  lemma HashIs(data: Text)
    requires |data| < 64
    ensures Hash(data) == Digest(After(Pad(data), |Pad(data)| / 64))
  {
    hide Digest, After, Pad;
  }

  /** The digest of "abc" is the published one. */
  lemma KnownAnswer()
    ensures Hash(Ascii("abc"))
         == [0xba, 0x78, 0x16, 0xbf, 0x8f, 0x01, 0xcf, 0xea, 0x41, 0x41, 0x40, 0xde, 0x5d, 0xae, 0x22, 0x23,
             0xb0, 0x03, 0x61, 0xa3, 0x96, 0x17, 0x7a, 0x9c, 0xb4, 0x10, 0xff, 0x61, 0xf2, 0x00, 0x15, 0xad]
  {
    assert MAX_BYTES > 3;
    hide *;
    PaddedIs();
    var msg := Pad([97, 98, 99]);
    BlockIs(msg);
    AfterNone(msg);
    AfterNext(msg, 0);
    HashIs([97, 98, 99]);
    Compressed();
    Digested();
  }
}
