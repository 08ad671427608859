/** The steps of XXH64 on numbers: `^` worked out on bit vectors, rotations and shifts as arithmetic. */
module XxHashNumbers {
  import opened Bytes
  import opened Word64
  import opened XxHash64

  // ---------- bit vectors as words ----------

  function Low8(x: bv16): bv8 { (x & 0xff) as bv8 }
  function High8(x: bv16): bv8 { (x >> 8) as bv8 }
  function Low16(x: bv32): bv16 { (x & 0xffff) as bv16 }
  function High16(x: bv32): bv16 { (x >> 16) as bv16 }
  function Low32(x: bv64): bv32 { (x & 0xffff_ffff) as bv32 }
  function High32(x: bv64): bv32 { (x >> 32) as bv32 }

  function Word8(x: bv8): byte { x as byte }

  function Word16(x: bv16): nat { x as nat }

  /** The number a bit vector spells, from its two halves. */
  function Word32(x: bv32): nat {
    Word16(Low16(x)) + 0x1_0000 * Word16(High16(x))
  }

  function Word(x: bv64): word {
    Small32(Low32(x));
    Small32(High32(x));
    hide Word32;
    Word32(Low32(x)) + 0x1_0000_0000 * Word32(High32(x))
  }

  lemma Halves(x: bv8)
    ensures (x as nat) % 2 == (x & 1) as nat && (x as nat) / 2 == (x >> 1) as nat
  {
  }

  lemma {:induction false} XorOfBytes(x: bv8, y: bv8)
    ensures BitXor(Word8(x), Word8(y)) == Word8(x ^ y)
    decreases x as nat + y as nat
  {
    if x == 0 && y == 0 {
      assert x ^ y == 0;
    } else {
      HalvesSmaller(x, y);
      hide BitXor;
      XorOfBytes(x >> 1, y >> 1);
      XorFromHalves(x, y);
    }
  }

  lemma HalvesSmaller(x: bv8, y: bv8)
    requires x != 0 || y != 0
    ensures (x >> 1) as nat + (y >> 1) as nat < x as nat + y as nat
  {
    Halves(x);
    Halves(y);
    assert (x != 0 ==> x as nat > 0) && (y != 0 ==> y as nat > 0);
  }

  lemma XorFromHalves(x: bv8, y: bv8)
    requires BitXor((x >> 1) as nat, (y >> 1) as nat) == ((x >> 1) ^ (y >> 1)) as nat
    ensures BitXor(x as nat, y as nat) == (x ^ y) as nat
  {
    hide BitXor;
    XorHalves(x, y);
    Halves(x);
    Halves(y);
    FromHalves(x as nat, y as nat, (x ^ y) as nat);
  }

  lemma FromHalves(a: nat, b: nat, r: nat)
    requires BitXor(a / 2, b / 2) == r / 2 && r % 2 == if a % 2 != b % 2 then 1 else 0
    ensures BitXor(a, b) == r
  {
    BitXorParts(a, b);
    hide BitXor;
  }

  lemma XorHalves(x: bv8, y: bv8)
    ensures (x ^ y) as nat / 2 == ((x >> 1) ^ (y >> 1)) as nat
    ensures (x ^ y) as nat % 2 == if x as nat % 2 != y as nat % 2 then 1 else 0
  {
    Halves(x);
    Halves(y);
    Halves(x ^ y);
    assert (x ^ y) >> 1 == (x >> 1) ^ (y >> 1) && (x ^ y) & 1 == (x & 1) ^ (y & 1);
  }

  lemma {:induction false} XorSplits(a: nat, b: nat, high: nat, high': nat, k: nat)
    requires a < Pow2(k) && b < Pow2(k)
    ensures BitXor(a + Pow2(k) * high, b + Pow2(k) * high') == BitXor(a, b) + Pow2(k) * BitXor(high, high')
  {
    if k == 0 {
      assert BitXor(0, 0) == 0;
    } else {
      XorSplits(a / 2, b / 2, high, high', k - 1);
      XorSplitsNext(a, b, high, high', Pow2(k - 1), Pow2(k));
    }
  }

  lemma XorSplitsNext(a: nat, b: nat, high: nat, high': nat, p: nat, q: nat)
    requires BitXor(a / 2 + p * high, b / 2 + p * high') == BitXor(a / 2, b / 2) + p * BitXor(high, high')
    requires q == 2 * p
    ensures BitXor(a + q * high, b + q * high') == BitXor(a, b) + q * BitXor(high, high')
  {
    hide BitXor;
    var s, t, x := p * high, p * high', p * BitXor(high, high');
    Twofold(q, p, high);
    Twofold(q, p, high');
    Twofold(q, p, BitXor(high, high'));
    XorDoubles(a, b, s, t, x, a + q * high, b + q * high');
  }

  lemma Twofold(q: nat, p: nat, x: nat)
    requires q == 2 * p
    ensures q * x == 2 * (p * x)
  {
  }

  lemma XorDoubles(a: nat, b: nat, s: nat, t: nat, x: nat, c: nat, d: nat)
    requires BitXor(a / 2 + s, b / 2 + t) == BitXor(a / 2, b / 2) + x && c == a + 2 * s && d == b + 2 * t
    ensures BitXor(c, d) == BitXor(a, b) + 2 * x
  {
    LowerXor(a, b, s, t);
    hide BitXor;
  }

  lemma LowerXor(a: nat, b: nat, s: nat, t: nat)
    ensures BitXor(a + 2 * s, b + 2 * t) == BitXor(a, b) % 2 + 2 * BitXor(a / 2 + s, b / 2 + t)
    ensures BitXor(a, b) == BitXor(a, b) % 2 + 2 * BitXor(a / 2, b / 2)
  {
    BitXorParts(a + 2 * s, b + 2 * t);
    BitXorParts(a, b);
    hide BitXor;
    assert (a + 2 * s) / 2 == a / 2 + s && (b + 2 * t) / 2 == b / 2 + t;
  }

  lemma XorOfHalves8(x: bv16, y: bv16)
    ensures Low8(x ^ y) == Low8(x) ^ Low8(y) && High8(x ^ y) == High8(x) ^ High8(y)
  {
  }

  lemma XorOfHalves16(x: bv32, y: bv32)
    ensures Low16(x ^ y) == Low16(x) ^ Low16(y) && High16(x ^ y) == High16(x) ^ High16(y)
  {
  }

  lemma XorOfHalves32(x: bv64, y: bv64)
    ensures Low32(x ^ y) == Low32(x) ^ Low32(y) && High32(x ^ y) == High32(x) ^ High32(y)
  {
  }

  lemma HalvesOf16(x: bv16)
    ensures Word16(x) == Word8(Low8(x)) + 0x100 * Word8(High8(x))
  {
  }

  lemma XorOf16(x: bv16, y: bv16)
    ensures BitXor(Word16(x), Word16(y)) == Word16(x ^ y)
  {
    hide *;
    HalvesOf16(x);
    HalvesOf16(y);
    HalvesOf16(x ^ y);
    XorOfBytes(Low8(x), Low8(y));
    XorOfBytes(High8(x), High8(y));
    XorOfHalves8(x, y);
    XorOfParts(Word8(Low8(x)), Word8(Low8(y)), Word8(High8(x)), Word8(High8(y)), 8, 0x100, Word16(x), Word16(y));
  }

  lemma XorOf32(x: bv32, y: bv32)
    ensures BitXor(Word32(x), Word32(y)) == Word32(x ^ y)
  {
    XorOf16(Low16(x), Low16(y));
    XorOf16(High16(x), High16(y));
    XorOfHalves16(x, y);
    hide BitXor, Low16, High16;
    Small16(Low16(x));
    Small16(Low16(y));
    hide Word16;
    XorOfParts(Word16(Low16(x)), Word16(Low16(y)), Word16(High16(x)), Word16(High16(y)), 16, 0x1_0000,
               Word32(x), Word32(y));
  }

  lemma XorOfWords(x: bv64, y: bv64)
    ensures Xor(Word(x), Word(y)) == Word(x ^ y)
  {
    XorOf32(Low32(x), Low32(y));
    XorOf32(High32(x), High32(y));
    XorOfHalves32(x, y);
    hide BitXor, Low32, High32;
    Small32(Low32(x));
    Small32(Low32(y));
    hide Word32;
    XorOfParts(Word32(Low32(x)), Word32(Low32(y)), Word32(High32(x)), Word32(High32(y)), 32, 0x1_0000_0000,
               Word(x), Word(y));
  }

  lemma Small16(x: bv16)
    ensures Word16(x) < 0x1_0000
  {
    hide Word8;
  }

  lemma Small32(x: bv32)
    ensures Word32(x) < 0x1_0000_0000
  {
    Small16(Low16(x));
    Small16(High16(x));
    hide Word16;
  }

  lemma XorOfParts(a: nat, b: nat, high: nat, high': nat, k: nat, p: nat, c: nat, d: nat)
    requires a < p && b < p && ((k == 8 && p == 0x100) || (k == 16 && p == 0x1_0000) || (k == 32 && p == 0x1_0000_0000))
    requires c == a + p * high && d == b + p * high'
    ensures BitXor(c, d) == BitXor(a, b) + p * BitXor(high, high')
  {
    Powers();
    hide BitXor, Pow2;
    XorSplits(a, b, high, high', k);
  }

  // ---------- rotation and shifts as arithmetic ----------

  /** The bits from `q` up move below the others, which are multiplied by `p`. */
  function Rotated(v: nat, p: nat, q: nat): nat
    requires q > 0
  {
    v % q * p + v / q
  }

  lemma RotateIs(v: word, count: nat, p: nat, q: nat)
    requires count <= 64 && p == Pow2(count) && q == Pow2(64 - count)
    ensures RotateLeft(v, count) == Rotated(v, p, q)
  {
    hide RotateLeft, Pow2;
    var hi, lo := RotateLeftSplit(v, count);
    QuotientUnique(v / q, hi, q, v % q, lo);
  }

  lemma ShiftIs(v: nat, k: nat, p: nat)
    requires p == Pow2(k)
    ensures ShiftRight(v, k) == v / p
  {
    ShiftRightDivides(v, k);
    QuotientUnique(v / p, ShiftRight(v, k), p, v % p, v - ShiftRight(v, k) * p);
  }

  lemma Powers()
    ensures Pow2(8) == 0x100 && Pow2(16) == 0x1_0000
    ensures Pow2(1) == 2 && Pow2(7) == 0x80 && Pow2(11) == 0x800 && Pow2(12) == 0x1000 && Pow2(18) == 0x4_0000
    ensures Pow2(23) == 0x80_0000 && Pow2(27) == 0x800_0000 && Pow2(29) == 0x2000_0000 && Pow2(31) == 0x8000_0000
    ensures Pow2(32) == 0x1_0000_0000 && Pow2(33) == 0x2_0000_0000 && Pow2(37) == 0x20_0000_0000
    ensures Pow2(41) == 0x200_0000_0000 && Pow2(46) == 0x4000_0000_0000 && Pow2(52) == 0x10_0000_0000_0000
    ensures Pow2(53) == 0x20_0000_0000_0000 && Pow2(57) == 0x200_0000_0000_0000 && Pow2(63) == 0x8000_0000_0000_0000
  {
    assert Pow2(6) == 2 * (2 * (2 * (2 * Pow2(2)))) == 64;
    assert Pow2(12) == 4096 by { Pow2Add(6, 6); }
    Pow2Add(6, 1);
    Pow2Add(6, 2);
    Pow2Add(8, 8);
    Pow2Add(6, 5);
    Pow2Add(12, 6);
    Pow2Add(12, 11);
    Pow2Add(18, 9);
    Pow2Add(18, 11);
    Pow2Add(18, 13);
    Pow2Of32();
    Pow2Add(32, 1);
    Pow2Add(32, 5);
    Pow2Add(32, 9);
    Pow2Add(32, 14);
    Pow2Add(32, 20);
    Pow2Add(32, 21);
    Pow2Add(32, 25);
    Pow2Add(32, 31);
  }

  // ---------- bytes as numbers ----------

  /** Four bytes, the lowest first. */
  function Number(a: nat, b: nat, c: nat, d: nat): nat {
    a + 0x100 * b + 0x1_0000 * c + 0x100_0000 * d
  }

  lemma FirstFour(s: seq<byte>)
    requires |s| >= 4
    ensures FromLittleEndian(s) == Number(s[0], s[1], s[2], s[3]) + 0x1_0000_0000 * FromLittleEndian(s[4..])
  {
    assert s[1..][1..] == s[2..] && s[2..][1..] == s[3..] && s[3..][1..] == s[4..];
    assert FromLittleEndian(s[2..]) == s[2] + 256 * FromLittleEndian(s[3..]);
  }

  lemma FourBytes(s: seq<byte>)
    requires |s| == 4
    ensures FromLittleEndian(s) == Number(s[0], s[1], s[2], s[3])
  {
    FirstFour(s);
  }

  lemma EightBytes(s: seq<byte>)
    requires |s| == 8
    ensures FromLittleEndian(s) == Number(s[0], s[1], s[2], s[3]) + 0x1_0000_0000 * Number(s[4], s[5], s[6], s[7])
  {
    FourBytes(s[4..]);
    FirstFour(s);
  }

  // ---------- the steps of the hash on numbers ----------

  function Mixed(w: nat): word {
    Mask(Rotated(Mask(w * P2), 0x8000_0000, 0x2_0000_0000) * P1)
  }

  lemma RoundIs(lane: word, w: nat)
    ensures Round(lane, w) == Mask(Rotated(Mask(lane + w * P2), 0x8000_0000, 0x2_0000_0000) * P1)
    ensures MixWord(w) == Mixed(w)
  {
    Powers();
    MixWordWrittenOut(w);
    RotateIs(Mask(lane + w * P2), 31, 0x8000_0000, 0x2_0000_0000);
    RotateIs(Mask(w * P2), 31, 0x8000_0000, 0x2_0000_0000);
    hide Mask, RotateLeft, Rotated, Pow2, MixWord;
  }

  lemma ByteUnit(r: word, m: word, unit: seq<byte>)
    requires |unit| == 1 && m == Mask(unit[0] * P5)
    ensures AbsorbUnit(r, unit) == Mask(Rotated(Xor(r, m), 0x800, 0x20_0000_0000_0000) * P1)
  {
    hide Mask, RotateLeft, Rotated, Pow2, Xor, AbsorbUnit;
    Powers();
    RotateIs(Xor(r, m), 11, 0x800, 0x20_0000_0000_0000);
    AbsorbByte(r, unit, 0);
    assert unit[0..1] == unit;
  }

  lemma FourByteUnit(r: word, m: word, unit: seq<byte>)
    requires |unit| == 4 && m == Mask(Number(unit[0], unit[1], unit[2], unit[3]) * P1)
    ensures AbsorbUnit(r, unit) == Mask(Rotated(Xor(r, m), 0x80_0000, 0x200_0000_0000) * P2 + P3)
  {
    hide Mask, RotateLeft, Rotated, Pow2, Xor, AbsorbUnit, Number, FromLittleEndian;
    Powers();
    RotateIs(Xor(r, m), 23, 0x80_0000, 0x200_0000_0000);
    AbsorbCases(r, unit);
    FourBytes(unit);
  }

  lemma EightByteUnit(r: word, m: word, unit: seq<byte>)
    requires |unit| == 8 && m == Mixed(FromLittleEndian(unit))
    ensures AbsorbUnit(r, unit) == Mask(Rotated(Xor(r, m), 0x800_0000, 0x20_0000_0000) * P1 + P4)
  {
    hide Mask, RotateLeft, Rotated, Pow2, Xor, AbsorbUnit, FromLittleEndian, MixWord, Mixed;
    Powers();
    RotateIs(Xor(r, m), 27, 0x800_0000, 0x20_0000_0000);
    AbsorbCases(r, unit);
    RoundIs(0, FromLittleEndian(unit));
    MixWordWrittenOut(FromLittleEndian(unit));
  }

  /** One lane folded into the result. */
  lemma LaneMerged(r: word, m: word, lane: word)
    requires m == Mixed(lane)
    ensures MergeLane(r, lane) == Mask(Xor(r, m) * P1 + P4)
  {
    hide Mask, Mixed, MixWord, Xor;
    RoundIs(0, lane);
  }

  lemma Scrambled(r: word, x: word, a: word, y: word, b: word, z: word)
    requires x == Xor(r, r / 0x2_0000_0000) && a == Mask(x * P2)
    requires y == Xor(a, a / 0x2000_0000) && b == Mask(y * P3) && z == Xor(b, b / 0x1_0000_0000)
    ensures Avalanche(r) == z
  {
    hide Mask, Pow2, Xor, ShiftRight;
    Powers();
    ShiftIs(r, 33, 0x2_0000_0000);
    ShiftIs(a, 29, 0x2000_0000);
    ShiftIs(b, 32, 0x1_0000_0000);
  }

  // ---------- the same with the `^` worked out on bit vectors ----------

  lemma XorAnswer(x: bv64, y: bv64, a: word, b: word, c: word)
    requires Word(x) == a && Word(y) == b && Word(x ^ y) == c
    ensures Xor(a, b) == c
  {
    hide *;
    XorOfWords(x, y);
  }

  /** What is left of a tail step once `z`, its `^`, is known: `n` is the number the unit spells, `m` its share. */
  predicate ByteSum(n: nat, m: word, z: word, next: word) {
    m == Mask(n * P5) && next == Mask(Rotated(z, 0x800, 0x20_0000_0000_0000) * P1)
  }

  predicate FourSum(n: nat, m: word, z: word, next: word) {
    m == Mask(n * P1) && next == Mask(Rotated(z, 0x80_0000, 0x200_0000_0000) * P2 + P3)
  }

  predicate EightSum(n: nat, m: word, z: word, next: word) {
    m == Mixed(n) && next == Mask(Rotated(z, 0x800_0000, 0x20_0000_0000) * P1 + P4)
  }

  predicate MergeSum(lane: word, m: word, z: word, next: word) {
    m == Mixed(lane) && next == Mask(z * P1 + P4)
  }

  /** The closing scramble, from `r` over `a` and `b` to `h`; `u`, `v` and `w` are what is left after each shift. */
  lemma Closing(r: bv64, u: bv64, a: bv64, v: bv64, b: bv64, w: bv64, h: word)
    requires Word(u) == Word(r) / 0x2_0000_0000 && Word(a) == Mask(Word(r ^ u) * P2)
    requires Word(v) == Word(a) / 0x2000_0000 && Word(b) == Mask(Word(a ^ v) * P3)
    requires Word(w) == Word(b) / 0x1_0000_0000 && h == Word(b ^ w)
    ensures Avalanche(Word(r)) == h
  {
    hide *;
    XorOfWords(r, u);
    XorOfWords(a, v);
    XorOfWords(b, w);
    Scrambled(Word(r), Word(r ^ u), Word(a), Word(a ^ v), Word(b), h);
  }
}
