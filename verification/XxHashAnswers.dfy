/** XXH64 in numbers: where seed and length enter, and answers published for it. */
module XxHashAnswers {
  import opened Bytes
  import opened Word64
  import opened XxHash64
  import opened XxHashNumbers

  // ---------- where seed and length enter ----------

  /** Below 32 bytes: the seed, the fifth prime and the length, then the units of the whole input. */
  lemma ShortForm(value: seq<byte>, seed: int)
    requires |value| < 32
    ensures Hash(value, seed) == Avalanche(AbsorbUnits(Mask(seed + P5 + |value|), Units(value)))
  {
    hide Avalanche, AbsorbUnits, Units, Mask, Converge, AbsorbStripes, InitialLanes;
    assert value[0..] == value;
    MaskedSum(seed + P5, |value|);
    assert BodyLength(|value|) == 0;
    assert Start(value, seed) == Mask(seed + P5 + |value|);
    hide Start, BodyLength;
  }

  lemma MaskedSum(x: int, n: nat)
    ensures Mask(Mask(x) + n) == Mask(x + n)
  {
  }

  /** From 32 bytes on: the merged lanes and the length, then the units after the last full stripe. */
  lemma LongForm(value: seq<byte>, seed: int)
    requires |value| >= 32
    ensures var lanes := AbsorbStripes([Mask(seed + P1 + P2), Mask(seed + P2), Mask(seed), Mask(seed - P1)], value);
      Hash(value, seed) == Avalanche(AbsorbUnits(Mask(Converge(lanes) + |value|),
                                                 Units(value[|value| - |value| % 32..])))
  {
    hide Avalanche, AbsorbUnits, Units, AbsorbStripes, Converge, Mask;
  }

  // ---------- known answers ----------

  /** The hash of nothing. */
  lemma EmptyAnswer()
    ensures Hash([], 0) == 0xEF46DB3751D8E999
  {
    ShortForm([], 0);
    NothingLeft(Mask(0 + P5 + 0), []);
    EmptyClosing();
    hide *;
  }

  lemma EmptyClosing()
    ensures Avalanche(Mask(0 + P5 + 0)) == 0xEF46DB3751D8E999
  {
    hide Avalanche;
    var r, a, b: bv64 := 0x27d4eb2f165667c5, 0xbeb13dda13c2ed4e, 0xef46db37be9e32ae;
    Closing(r, r >> 33, a, a >> 29, b, b >> 32, 0xEF46DB3751D8E999);
    assert Word(r) == Mask(0 + P5 + 0);
  }

  /** The bytes of a text in ASCII. */
  ghost predicate Spells(value: seq<byte>, text: string) {
    |value| == |text| && forall i :: 0 <= i < |text| ==> value[i] == text[i] as int
  }

  lemma SevenByteTail(r: word, tail: seq<byte>)
    requires |tail| == 7
    ensures AbsorbUnits(r, Units(tail)) ==
      AbsorbUnit(AbsorbUnit(AbsorbUnit(AbsorbUnit(r, tail[..4]), tail[4..5]), tail[5..6]), tail[6..7])
  {
    hide AbsorbUnit, Units, AbsorbUnits;
    var r1 := AbsorbUnit(r, tail[..4]);
    var r2 := AbsorbUnit(r1, tail[4..5]);
    var r3 := AbsorbUnit(r2, tail[5..6]);
    assert tail[0..] == tail && tail[0..4] == tail[..4];
    AbsorbNext(r, tail, 0, 4);
    AbsorbNext(r1, tail, 4, 1);
    AbsorbNext(r2, tail, 5, 1);
    AbsorbNext(r3, tail, 6, 1);
    NothingLeft(AbsorbUnit(r3, tail[6..7]), tail[7..]);
  }

  lemma EightByteTail(r: word, tail: seq<byte>)
    requires |tail| == 8
    ensures AbsorbUnits(r, Units(tail)) == AbsorbUnit(r, tail)
  {
    hide AbsorbUnit, Units, AbsorbUnits;
    assert tail[0..] == tail && tail[0..8] == tail;
    AbsorbNext(r, tail, 0, 8);
    NothingLeft(AbsorbUnit(r, tail), tail[8..]);
  }

  /** Seven bytes ending in "ion", from `r[0]` to `r[4]`; `z` lists what each `^` gives. */
  lemma TailInIon(tail: seq<byte>, n: nat, m: word, r: seq<word>, z: seq<word>)
    requires |tail| == 7 && Number(tail[0], tail[1], tail[2], tail[3]) == n && tail[4..] == [105, 111, 110]
    requires |r| == 5 && |z| == 4 && Xor(r[0], m) == z[0] && FourSum(n, m, z[0], r[1])
    requires Xor(r[1], 0x5654765029708fcd) == z[1] && ByteSum(105, 0x5654765029708fcd, z[1], r[2])
    requires Xor(r[2], 0x4551f96aaf76fe6b) == z[2] && ByteSum(111, 0x4551f96aaf76fe6b, z[2], r[3])
    requires Xor(r[3], 0x1d7d0e3b992096a6) == z[3] && ByteSum(110, 0x1d7d0e3b992096a6, z[3], r[4])
    ensures AbsorbUnits(r[0], Units(tail)) == r[4]
  {
    hide Mask, Xor, Rotated, AbsorbUnit, AbsorbUnits, Units, Number;
    SevenByteTail(r[0], tail);
    assert tail[4] == tail[4..][0] && tail[5] == tail[4..][1] && tail[6] == tail[4..][2];
    FourByteUnit(r[0], m, tail[..4]);
    ByteUnit(r[1], 0x5654765029708fcd, tail[4..5]);
    ByteUnit(r[2], 0x4551f96aaf76fe6b, tail[5..6]);
    ByteUnit(r[3], 0x1d7d0e3b992096a6, tail[6..7]);
  }

  lemma SessionLowFirstXors()
    ensures Xor(0x27d4eb2f165667cc, 0x98e7934b11feecc5) == 0xbf33786407a88b09
    ensures Xor(0x6aae3d81d5077efd, 0x5654765029708fcd) == 0x3cfa4bd1fc77f130
  {
    hide Xor;
    XorAnswer(0x27d4eb2f165667cc, 0x98e7934b11feecc5, 0x27d4eb2f165667cc, 0x98e7934b11feecc5, 0xbf33786407a88b09);
    XorAnswer(0x6aae3d81d5077efd, 0x5654765029708fcd, 0x6aae3d81d5077efd, 0x5654765029708fcd, 0x3cfa4bd1fc77f130);
  }

  lemma SessionLowLastXors()
    ensures Xor(0xdd14d9aac410c6d1, 0x4551f96aaf76fe6b) == 0x984520c06b6638ba
    ensures Xor(0x3369fea2714a464e, 0x1d7d0e3b992096a6) == 0x2e14f099e86ad0e8
  {
    hide Xor;
    XorAnswer(0xdd14d9aac410c6d1, 0x4551f96aaf76fe6b, 0xdd14d9aac410c6d1, 0x4551f96aaf76fe6b, 0x984520c06b6638ba);
    XorAnswer(0x3369fea2714a464e, 0x1d7d0e3b992096a6, 0x3369fea2714a464e, 0x1d7d0e3b992096a6, 0x2e14f099e86ad0e8);
  }

  lemma SessionLowClosing()
    ensures Avalanche(0x51db50619cc5e210) == 0x49d39d600d07c5ce
  {
    hide Avalanche;
    var r, a, b: bv64 := 0x51db50619cc5e210, 0x230e3ccfd6fa3fe0, 0x49d39d6044d458ae;
    Closing(r, r >> 33, a, a >> 29, b, b >> 32, 0x49d39d600d07c5ce);
    assert Word(r) == 0x51db50619cc5e210;
  }

  lemma SessionLow(tail: seq<byte>)
    requires |tail| == 7 && Number(tail[0], tail[1], tail[2], tail[3]) == 0x73736553 && tail[4..] == [105, 111, 110]
    ensures Avalanche(AbsorbUnits(0x27d4eb2f165667cc, Units(tail))) == 0x49d39d600d07c5ce
  {
    hide Avalanche, AbsorbUnits, Units, Number, Xor;
    SessionLowFirstXors();
    SessionLowLastXors();
    SessionLowClosing();
    TailInIon(tail, 0x73736553, 0x98e7934b11feecc5,
      [0x27d4eb2f165667cc, 0x6aae3d81d5077efd, 0xdd14d9aac410c6d1, 0x3369fea2714a464e, 0x51db50619cc5e210],
      [0xbf33786407a88b09, 0x3cfa4bd1fc77f130, 0x984520c06b6638ba, 0x2e14f099e86ad0e8]);
  }

  lemma SessionHighFirstXors()
    ensures Xor(0x27d4eb2f165667cd, 0x98e7934b11feecc5) == 0xbf33786407a88b08
    ensures Xor(0x4c1a530c2d877efd, 0x5654765029708fcd) == 0x1a4e255c04f7f130
  {
    hide Xor;
    XorAnswer(0x27d4eb2f165667cd, 0x98e7934b11feecc5, 0x27d4eb2f165667cd, 0x98e7934b11feecc5, 0xbf33786407a88b08);
    XorAnswer(0x4c1a530c2d877efd, 0x5654765029708fcd, 0x4c1a530c2d877efd, 0x5654765029708fcd, 0x1a4e255c04f7f130);
  }

  lemma SessionHighLastXors()
    ensures Xor(0xa28e2870dbeea2be, 0x4551f96aaf76fe6b) == 0xe7dfd11a74985cd5
    ensures Xor(0xc74dd858e1d755b2, 0x1d7d0e3b992096a6) == 0xda30d66378f7c314
  {
    hide Xor;
    XorAnswer(0xa28e2870dbeea2be, 0x4551f96aaf76fe6b, 0xa28e2870dbeea2be, 0x4551f96aaf76fe6b, 0xe7dfd11a74985cd5);
    XorAnswer(0xc74dd858e1d755b2, 0x1d7d0e3b992096a6, 0xc74dd858e1d755b2, 0x1d7d0e3b992096a6, 0xda30d66378f7c314);
  }

  lemma SessionHighClosing()
    ensures Avalanche(0x8d48b121697be237) == 0xa06bc97fe0bd727f
  {
    hide Avalanche;
    var r, a, b: bv64 := 0x8d48b121697be237, 0xe119d6b129ade689, 0xa06bc97f40d6bb00;
    Closing(r, r >> 33, a, a >> 29, b, b >> 32, 0xa06bc97fe0bd727f);
    assert Word(r) == 0x8d48b121697be237;
  }

  lemma SessionHigh(tail: seq<byte>)
    requires |tail| == 7 && Number(tail[0], tail[1], tail[2], tail[3]) == 0x73736553 && tail[4..] == [105, 111, 110]
    ensures Avalanche(AbsorbUnits(0x27d4eb2f165667cd, Units(tail))) == 0xa06bc97fe0bd727f
  {
    hide Avalanche, AbsorbUnits, Units, Number, Xor;
    SessionHighFirstXors();
    SessionHighLastXors();
    SessionHighClosing();
    TailInIon(tail, 0x73736553, 0x98e7934b11feecc5,
      [0x27d4eb2f165667cd, 0x4c1a530c2d877efd, 0xa28e2870dbeea2be, 0xc74dd858e1d755b2, 0x8d48b121697be237],
      [0xbf33786407a88b08, 0x1a4e255c04f7f130, 0xe7dfd11a74985cd5, 0xda30d66378f7c314]);
  }

  lemma SessionBytes(value: seq<byte>)
    requires Spells(value, "Session")
    ensures |value| == 7 && Number(value[0], value[1], value[2], value[3]) == 0x73736553
    ensures value[4..] == [105, 111, 110]
  {
  }

  lemma SessionStarts()
    ensures Mask(0 + P5 + 7) == 0x27d4eb2f165667cc && Mask(1 + P5 + 7) == 0x27d4eb2f165667cd
  {
  }

  /** The name of the pallet that every session key starts with, under both seeds of `twox128`. */
  lemma SessionAnswer(value: seq<byte>)
    requires Spells(value, "Session")
    ensures Hash(value, 0) == 0x49d39d600d07c5ce && Hash(value, 1) == 0xa06bc97fe0bd727f
  {
    SessionBytes(value);
    SessionStarts();
    hide *;
    ShortForm(value, 0);
    ShortForm(value, 1);
    SessionLow(value);
    SessionHigh(value);
  }

  lemma NextKeysClosing()
    ensures Avalanche(0x53597912918db848) == 0xc0c2b8f86b4e014c
  {
    hide Avalanche;
    var r, a, b: bv64 := 0x53597912918db848, 0xd9995edb7861a28f, 0xc0c2b8f8ab8cb9b4;
    Closing(r, r >> 33, a, a >> 29, b, b >> 32, 0xc0c2b8f86b4e014c);
    assert Word(r) == 0x53597912918db848;
  }

  lemma NextKeysBytes(value: seq<byte>)
    requires Spells(value, "NextKeys")
    ensures |value| == 8 && FromLittleEndian(value) == 0x7379654b7478654e
  {
    EightBytes(value);
    hide FromLittleEndian;
  }

  lemma NextKeysSum()
    ensures EightSum(0x7379654b7478654e, 0xbad40d522a3cfe3a, 0x9d00e67d3c6a99f7, 0x53597912918db848)
    ensures Mask(0 + P5 + 8) == 0x27d4eb2f165667cd
  {
    assert Mask(0x7379654b7478654e * P2) == 0x957478ec3cbddd12;
  }

  lemma NextKeysXor()
    ensures Xor(0x27d4eb2f165667cd, 0xbad40d522a3cfe3a) == 0x9d00e67d3c6a99f7
  {
    hide Xor;
    XorAnswer(0x27d4eb2f165667cd, 0xbad40d522a3cfe3a, 0x27d4eb2f165667cd, 0xbad40d522a3cfe3a, 0x9d00e67d3c6a99f7);
  }

  /** A name of eight bytes: one unit. */
  lemma NextKeysAnswer(value: seq<byte>)
    requires Spells(value, "NextKeys")
    ensures Hash(value, 0) == 0xc0c2b8f86b4e014c
  {
    NextKeysBytes(value);
    NextKeysSum();
    NextKeysXor();
    hide AbsorbUnit, AbsorbUnits, Units, Hash, Avalanche, Xor, Mixed, Rotated, Mask, Spells, FromLittleEndian;
    ShortForm(value, 0);
    NextKeysClosing();
    EightByteTail(0x27d4eb2f165667cd, value);
    EightByteUnit(0x27d4eb2f165667cd, 0xbad40d522a3cfe3a, value);
  }

  lemma StripeWord0(word: seq<byte>)
    requires Spells(word, "Nobody i")
    ensures |word| == 8 && FromLittleEndian(word) == 0x692079646f626f4e
  {
    EightBytes(word);
    hide FromLittleEndian;
  }

  lemma StripeWord1(word: seq<byte>)
    requires Spells(word, "nspects ")
    ensures |word| == 8 && FromLittleEndian(word) == 0x207374636570736e
  {
    EightBytes(word);
    hide FromLittleEndian;
  }

  lemma StripeWord2(word: seq<byte>)
    requires Spells(word, "the spam")
    ensures |word| == 8 && FromLittleEndian(word) == 0x6d61707320656874
  {
    EightBytes(word);
    hide FromLittleEndian;
  }

  lemma StripeWord3(word: seq<byte>)
    requires Spells(word, "mish rep")
    ensures |word| == 8 && FromLittleEndian(word) == 0x706572206873696d
  {
    EightBytes(word);
    hide FromLittleEndian;
  }

  /** "Nobody inspects the spammish repetition", eight characters at a time. */
  ghost predicate LongText(value: seq<byte>) {
    && |value| == 39
    && Spells(value[..8], "Nobody i") && Spells(value[8..16], "nspects ")
    && Spells(value[16..24], "the spam") && Spells(value[24..32], "mish rep")
    && Spells(value[32..], "etition")
  }

  lemma StripeWords(value: seq<byte>)
    requires LongText(value)
    ensures WordAt(value[..32], 0) == 0x692079646f626f4e && WordAt(value[..32], 8) == 0x207374636570736e
    ensures WordAt(value[..32], 16) == 0x6d61707320656874 && WordAt(value[..32], 24) == 0x706572206873696d
  {
    StripeWord0(value[..8]);
    StripeWord1(value[8..16]);
    StripeWord2(value[16..24]);
    StripeWord3(value[24..32]);
    hide FromLittleEndian, Spells;
    assert value[..32][0..8] == value[..8] && value[..32][8..16] == value[8..16];
    assert value[..32][16..24] == value[16..24] && value[..32][24..32] == value[24..32];
  }

  lemma LaneNumbers()
    ensures InitialLanes(0) == [0x60ea27eeadc0b5d6, 0xc2b2ae3d27d4eb4f, 0x0000000000000000, 0x61c8864e7a143579]
    ensures Mask(0x60ea27eeadc0b5d6 + 0x692079646f626f4e * P2) == 0x67da963b77e5a8e8
    ensures Mask(Rotated(0x67da963b77e5a8e8, 0x8000_0000, 0x2_0000_0000) * P1) == 0x37245127a4067e4b
    ensures Mask(0xc2b2ae3d27d4eb4f + 0x207374636570736e * P2) == 0x81ab3ef308968441
    ensures Mask(Rotated(0x81ab3ef308968441, 0x8000_0000, 0x2_0000_0000) * P1) == 0x1b302b0a818f92cf
    ensures Mask(0x0000000000000000 + 0x6d61707320656874 * P2) == 0x0a6264cc423db7cc
    ensures Mask(Rotated(0x0a6264cc423db7cc, 0x8000_0000, 0x2_0000_0000) * P1) == 0xcd62d843d0580fca
    ensures Mask(0x61c8864e7a143579 + 0x706572206873696d * P2) == 0xe08cc7cc90bccd1c
    ensures Mask(Rotated(0xe08cc7cc90bccd1c, 0x8000_0000, 0x2_0000_0000) * P1) == 0x1c16e43ef2142a4a
  {
  }

  lemma StripeAnswer(value: seq<byte>)
    requires LongText(value)
    ensures AbsorbStripes(InitialLanes(0), value)
         == [0x37245127a4067e4b, 0x1b302b0a818f92cf, 0xcd62d843d0580fca, 0x1c16e43ef2142a4a]
  {
    hide LongText, Round, Mask, Rotated, WordAt, InitialLanes;
    StripeWords(value);
    LaneNumbers();
    assert |value| == 39 by { LongTail(value); }
    RoundIs(0x60ea27eeadc0b5d6, 0x692079646f626f4e);
    RoundIs(0xc2b2ae3d27d4eb4f, 0x207374636570736e);
    RoundIs(0x0000000000000000, 0x6d61707320656874);
    RoundIs(0x61c8864e7a143579, 0x706572206873696d);
    var lanes := AbsorbStripe(InitialLanes(0), value[..32]);
    assert AbsorbStripes(lanes, value[32..]) == lanes;
  }

  lemma LongTail(value: seq<byte>)
    requires LongText(value)
    ensures |value| == 39 && Number(value[32], value[33], value[34], value[35]) == 0x74697465
    ensures value[32..][4..] == [105, 111, 110]
  {
    var tail := value[32..];
    assert tail[0] == value[32] && tail[1] == value[33] && tail[2] == value[34] && tail[3] == value[35];
  }

  lemma LaneRotations()
    ensures Rotated(0x37245127a4067e4b, 0x2, 0x8000_0000_0000_0000) == 0x6e48a24f480cfc96
    ensures Rotated(0x1b302b0a818f92cf, 0x80, 0x200_0000_0000_0000) == 0x98158540c7c9678d
    ensures Rotated(0xcd62d843d0580fca, 0x1000, 0x10_0000_0000_0000) == 0x2d843d0580fcacd6
    ensures Rotated(0x1c16e43ef2142a4a, 0x4_0000, 0x4000_0000_0000) == 0x90fbc850a928705b
    ensures Mask(0x6e48a24f480cfc96 + 0x98158540c7c9678d + 0x2d843d0580fcacd6 + 0x90fbc850a928705b)
         == 0xc4de2ce639fb8154
  {
  }

  lemma LanesSummed()
    ensures Mask(RotateLeft(0x37245127a4067e4b, 1) + RotateLeft(0x1b302b0a818f92cf, 7)
                 + RotateLeft(0xcd62d843d0580fca, 12) + RotateLeft(0x1c16e43ef2142a4a, 18)) == 0xc4de2ce639fb8154
  {
    Powers();
    LaneRotations();
    hide RotateLeft, Pow2, Rotated;
    RotateIs(0x37245127a4067e4b, 1, 0x2, 0x8000_0000_0000_0000);
    RotateIs(0x1b302b0a818f92cf, 7, 0x80, 0x200_0000_0000_0000);
    RotateIs(0xcd62d843d0580fca, 12, 0x1000, 0x10_0000_0000_0000);
    RotateIs(0x1c16e43ef2142a4a, 18, 0x4_0000, 0x4000_0000_0000);
  }

  lemma FirstMergeXors()
    ensures Xor(0xc4de2ce639fb8154, 0x7790ff1f7a9a2803) == 0xb34ed3f94361a957
    ensures Xor(0x30d40ddd00aea144, 0xdeced6c0bf716b27) == 0xee1adb1dbfdfca63
  {
    hide Xor;
    XorAnswer(0xc4de2ce639fb8154, 0x7790ff1f7a9a2803, 0xc4de2ce639fb8154, 0x7790ff1f7a9a2803, 0xb34ed3f94361a957);
    XorAnswer(0x30d40ddd00aea144, 0xdeced6c0bf716b27, 0x30d40ddd00aea144, 0xdeced6c0bf716b27, 0xee1adb1dbfdfca63);
  }

  lemma LastMergeXors()
    ensures Xor(0xe5a1f095bf498698, 0x70073eb805759bbe) == 0x95a6ce2dba3c1d26
    ensures Xor(0xf9cee721e748096d, 0xc1cbbae50e57e4f3) == 0x38055dc4e91fed9e
  {
    hide Xor;
    XorAnswer(0xe5a1f095bf498698, 0x70073eb805759bbe, 0xe5a1f095bf498698, 0x70073eb805759bbe, 0x95a6ce2dba3c1d26);
    XorAnswer(0xf9cee721e748096d, 0xc1cbbae50e57e4f3, 0xf9cee721e748096d, 0xc1cbbae50e57e4f3, 0x38055dc4e91fed9e);
  }

  lemma MergeNumbers()
    ensures MergeSum(0x37245127a4067e4b, 0x7790ff1f7a9a2803, 0xb34ed3f94361a957, 0x30d40ddd00aea144)
    ensures MergeSum(0x1b302b0a818f92cf, 0xdeced6c0bf716b27, 0xee1adb1dbfdfca63, 0xe5a1f095bf498698)
    ensures MergeSum(0xcd62d843d0580fca, 0x70073eb805759bbe, 0x95a6ce2dba3c1d26, 0xf9cee721e748096d)
    ensures MergeSum(0x1c16e43ef2142a4a, 0xc1cbbae50e57e4f3, 0x38055dc4e91fed9e, 0x84f22c421a11a8b5)
  {
    assert Mask(0x37245127a4067e4b * P2) == 0xbf0e534a970bd225;
    assert Mask(0x1b302b0a818f92cf * P2) == 0x40bcc4c2e37e52e1;
    assert Mask(0xcd62d843d0580fca * P2) == 0x1917ffa4faf34d56;
    assert Mask(0x1c16e43ef2142a4a * P2) == 0x2898226b8252fad6;
  }

  lemma ConvergeAnswer()
    ensures Converge([0x37245127a4067e4b, 0x1b302b0a818f92cf, 0xcd62d843d0580fca, 0x1c16e43ef2142a4a])
         == 0x84f22c421a11a8b5
  {
    hide RotateLeft, Mask, Xor, MergeLane, Mixed;
    LanesSummed();
    FirstMergeXors();
    LastMergeXors();
    MergeNumbers();
    LaneMerged(0xc4de2ce639fb8154, 0x7790ff1f7a9a2803, 0x37245127a4067e4b);
    LaneMerged(0x30d40ddd00aea144, 0xdeced6c0bf716b27, 0x1b302b0a818f92cf);
    LaneMerged(0xe5a1f095bf498698, 0x70073eb805759bbe, 0xcd62d843d0580fca);
    LaneMerged(0xf9cee721e748096d, 0xc1cbbae50e57e4f3, 0x1c16e43ef2142a4a);
  }

  lemma RepetitionFirstXors()
    ensures Xor(0x84f22c421a11a8dc, 0xe9863933eb2b1343) == 0x6d741571f13abb9f
    ensures Xor(0x9fca0f5d0aaa110f, 0x5654765029708fcd) == 0xc99e790d23da9ec2
  {
    hide Xor;
    XorAnswer(0x84f22c421a11a8dc, 0xe9863933eb2b1343, 0x84f22c421a11a8dc, 0xe9863933eb2b1343, 0x6d741571f13abb9f);
    XorAnswer(0x9fca0f5d0aaa110f, 0x5654765029708fcd, 0x9fca0f5d0aaa110f, 0x5654765029708fcd, 0xc99e790d23da9ec2);
  }

  lemma RepetitionLastXors()
    ensures Xor(0x769671546f21ba14, 0x4551f96aaf76fe6b) == 0x33c7883ec057447f
    ensures Xor(0xeae9b643c5f94e52, 0x1d7d0e3b992096a6) == 0xf794b8785cd9d8f4
  {
    hide Xor;
    XorAnswer(0x769671546f21ba14, 0x4551f96aaf76fe6b, 0x769671546f21ba14, 0x4551f96aaf76fe6b, 0x33c7883ec057447f);
    XorAnswer(0xeae9b643c5f94e52, 0x1d7d0e3b992096a6, 0xeae9b643c5f94e52, 0x1d7d0e3b992096a6, 0xf794b8785cd9d8f4);
  }

  lemma RepetitionClosing()
    ensures Avalanche(0x1d0a47483b37cc24) == 0xfbcea83c8a378bf1
  {
    hide Avalanche;
    var r, a, b: bv64 := 0x1d0a47483b37cc24, 0x5f0214beaa126880, 0xfbcea83c71f923cd;
    Closing(r, r >> 33, a, a >> 29, b, b >> 32, 0xfbcea83c8a378bf1);
    assert Word(r) == 0x1d0a47483b37cc24;
  }

  lemma Repetition(tail: seq<byte>)
    requires |tail| == 7 && Number(tail[0], tail[1], tail[2], tail[3]) == 0x74697465 && tail[4..] == [105, 111, 110]
    ensures Avalanche(AbsorbUnits(0x84f22c421a11a8dc, Units(tail))) == 0xfbcea83c8a378bf1
  {
    hide Avalanche, AbsorbUnits, Units, Number, Xor;
    RepetitionFirstXors();
    RepetitionLastXors();
    RepetitionClosing();
    TailInIon(tail, 0x74697465, 0xe9863933eb2b1343,
      [0x84f22c421a11a8dc, 0x9fca0f5d0aaa110f, 0x769671546f21ba14, 0xeae9b643c5f94e52, 0x1d0a47483b37cc24],
      [0x6d741571f13abb9f, 0xc99e790d23da9ec2, 0x33c7883ec057447f, 0xf794b8785cd9d8f4]);
  }

  /** A text of more than one stripe: the lanes, their rotations and merging, and the tail. */
  lemma LongAnswer(value: seq<byte>)
    requires LongText(value)
    ensures Hash(value, 0) == 0xfbcea83c8a378bf1
  {
    LongTail(value);
    StripeAnswer(value);
    ConvergeAnswer();
    LongStart();
    hide *;
    LongForm(value, 0);
    Repetition(value[32..]);
  }

  lemma LongStart()
    ensures Mask(0x84f22c421a11a8b5 + 39) == 0x84f22c421a11a8dc
    ensures InitialLanes(0) == [Mask(0 + P1 + P2), Mask(0 + P2), Mask(0), Mask(0 - P1)]
  {
  }
}
