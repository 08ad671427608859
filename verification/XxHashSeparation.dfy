/** XXH64 never confuses inputs that differ in one unit of the tail, and is a bijection on 8-byte inputs. */
module XxHashSeparation {
  import opened Bytes
  import opened Word64
  import opened XxHash64

  // ---------- undoing single steps ----------

  function Unfinish(y: word, count: nat, inverse: int, k: int): word
    requires count <= 64
  {
    RotateLeft(Mask(Mask(y - k) * inverse), 64 - count)
  }

  lemma FinishUndo(x: word, count: nat, p: int, inverse: int, k: int)
    requires count <= 64 && (p * inverse) % M == 1
    ensures Unfinish(Finish(x, count, p, k), count, inverse, k) == x
  {
    hide RotateLeft;
    var r := RotateLeft(x, count);
    AddMasked(r * p, k);
    MultiplyUndo(r, p, inverse);
    RotateUndo(x, count);
  }

  lemma FinishRedo(y: word, count: nat, p: int, inverse: int, k: int)
    requires count <= 64 && (p * inverse) % M == 1
    ensures Finish(Unfinish(y, count, inverse, k), count, p, k) == y
  {
    hide RotateLeft;
    var t := Mask(y - k);
    var m := Mask(t * inverse);
    RotateUndo(m, 64 - count);
    assert inverse * p == p * inverse;
    MultiplyUndo(t, inverse, p);
    assert RotateLeft(Unfinish(y, count, inverse, k), count) == m;
    AddBack(m * p, y, k);
  }

  lemma AddMasked(n: int, k: int)
    ensures Mask(Mask(n + k) - k) == Mask(n)
  {
  }

  lemma AddBack(n: int, y: word, k: int)
    requires Mask(n) == Mask(y - k)
    ensures Mask(n + k) == y
  {
  }

  function Unmix(m: word): word {
    Mask(RotateLeft(Mask(m * P1_INVERSE), 33) * P2_INVERSE)
  }

  lemma MixUndo(w: word)
    ensures Unmix(MixWord(w)) == w
  {
    MixWordWrittenOut(w);
    hide RotateLeft, Mask, MixWord;
    var t := Mask(w * P2);
    MultiplyUndo(RotateLeft(t, 31), P1, P1_INVERSE);
    RotateUndo(t, 31);
    MultiplyUndo(w, P2, P2_INVERSE);
  }

  lemma MixRedo(m: word)
    ensures MixWord(Unmix(m)) == m
  {
    hide RotateLeft, Mask, MixWord;
    var t := Mask(m * P1_INVERSE);
    var v := RotateLeft(t, 33);
    var w := Mask(v * P2_INVERSE);
    assert w == Unmix(m);
    MixWordWrittenOut(w);
    hide Unmix;
    UndoFirst(v);
    RotateUndo(t, 33);
    UndoLast(m);
  }

  lemma UndoFirst(v: word)
    ensures Mask(Mask(v * P2_INVERSE) * P2) == v
  {
    MultiplyUndo(v, P2_INVERSE, P2);
  }

  lemma UndoLast(m: word)
    ensures Mask(Mask(m * P1_INVERSE) * P1) == m
  {
    MultiplyUndo(m, P1_INVERSE, P1);
  }

  lemma XorCancelLeft(r: word, x: word, y: word)
    requires Xor(r, x) == Xor(r, y)
    ensures x == y
  {
    BitXorSymmetric(r, x);
    BitXorSymmetric(r, y);
    BitXorUndo(x, r);
    BitXorUndo(y, r);
  }

  lemma XorCancelRight(r: word, r': word, x: word)
    requires Xor(r, x) == Xor(r', x)
    ensures r == r'
  {
    BitXorUndo(r, x);
    BitXorUndo(r', x);
  }

  // ---------- each tail step is injective in both arguments ----------

  ghost predicate IsUnit(unit: seq<byte>) {
    |unit| == 8 || |unit| == 4 || |unit| == 1
  }

  lemma UnitValueBound(unit: seq<byte>)
    requires IsUnit(unit)
    ensures FromLittleEndian(unit) < M
  {
    LittleEndianBound(unit);
    assert Pow256(4) == 0x1_0000_0000;
    assert Pow256(8) == M;
  }

  lemma ContributionInjective(u: seq<byte>, v: seq<byte>)
    requires IsUnit(u) && |u| == |v| && Contribution(u) == Contribution(v)
    ensures u == v
  {
    hide Mask, MixWord;
    UnitValueBound(u);
    UnitValueBound(v);
    var m, n := FromLittleEndian(u), FromLittleEndian(v);
    if |u| == 8 {
      MixUndo(m);
      MixUndo(n);
    } else if |u| == 4 {
      MultiplyUndo(m, P1, P1_INVERSE);
      MultiplyUndo(n, P1, P1_INVERSE);
    } else {
      MultiplyUndo(m, P5, P5_INVERSE);
      MultiplyUndo(n, P5, P5_INVERSE);
    }
    LittleEndianInjective(u, v);
  }

  lemma FinishInjective(x: word, x': word, count: nat, p: int, inverse: int, k: int)
    requires count <= 64 && (p * inverse) % M == 1
    requires Finish(x, count, p, k) == Finish(x', count, p, k)
    ensures x == x'
  {
    FinishUndo(x, count, p, inverse, k);
    FinishUndo(x', count, p, inverse, k);
  }

  /** Absorbing two units of one width gives one result only when the mixed-in values agree. */
  lemma AbsorbInjective(r: word, r': word, u: seq<byte>, v: seq<byte>)
    requires IsUnit(u) && |u| == |v|
    ensures AbsorbUnit(r, u) == AbsorbUnit(r', v) ==> Xor(r, Contribution(u)) == Xor(r', Contribution(v))
  {
    hide Finish, Contribution, Xor;
    var x, y := Xor(r, Contribution(u)), Xor(r', Contribution(v));
    if AbsorbUnit(r, u) == AbsorbUnit(r', v) {
      if |u| == 8 {
        FinishInjective(x, y, 27, P1, P1_INVERSE, P4);
      } else if |u| == 4 {
        FinishInjective(x, y, 23, P2, P2_INVERSE, P3);
      } else {
        FinishInjective(x, y, 11, P1, P1_INVERSE, 0);
      }
    }
  }

  ghost predicate AreUnits(units: seq<seq<byte>>) {
    forall i :: 0 <= i < |units| ==> IsUnit(units[i])
  }

  lemma {:induction false} AbsorbUnitsInjective(r: word, r': word, units: seq<seq<byte>>)
    requires AreUnits(units) && AbsorbUnits(r, units) == AbsorbUnits(r', units)
    ensures r == r'
    decreases |units|
  {
    hide AbsorbUnit, Contribution, Xor;
    if units != [] {
      AbsorbUnitsInjective(AbsorbUnit(r, units[0]), AbsorbUnit(r', units[0]), units[1..]);
      AbsorbInjective(r, r', units[0], units[0]);
      XorCancelRight(r, r', Contribution(units[0]));
    }
  }

  lemma {:induction false} AbsorbUnitsConcat(r: word, u: seq<seq<byte>>, v: seq<seq<byte>>)
    ensures AbsorbUnits(r, u + v) == AbsorbUnits(AbsorbUnits(r, u), v)
    decreases |u|
  {
    hide AbsorbUnit;
    if u == [] {
      assert u + v == v;
    } else {
      assert (u + v)[1..] == u[1..] + v;
      AbsorbUnitsConcat(AbsorbUnit(r, u[0]), u[1..], v);
    }
  }

  function Unavalanche(h: word): word {
    var b := UnshiftedXor(h, 32);
    var a := UnshiftedXor(Mask(b * P3_INVERSE), 29);
    UnshiftedXor(Mask(a * P2_INVERSE), 33)
  }

  function UnshiftedXor(y: word, s: nat): word
    requires s > 0
  {
    Pow2Of64();
    XorShiftUndoBound(y, s, 64);
    XorShiftUndo(y, s)
  }

  lemma ShiftedXorUndo(x: word, s: nat)
    requires s > 0
    ensures UnshiftedXor(ShiftedXor(x, s), s) == x
    ensures ShiftedXor(UnshiftedXor(x, s), s) == x
  {
    XorShiftUndoes(x, s);
    XorShiftRedoes(x, s);
  }

  /** The closing scramble is a bijection on 64-bit values. */
  lemma AvalancheUndo(h: word)
    ensures Unavalanche(Avalanche(h)) == h
    ensures Avalanche(Unavalanche(h)) == h
  {
    hide Mask, ShiftedXor, UnshiftedXor;
    var x := ShiftedXor(h, 33);
    var a := Mask(x * P2);
    var y := ShiftedXor(a, 29);
    var b := Mask(y * P3);
    ShiftedXorUndo(b, 32);
    MultiplyUndo(y, P3, P3_INVERSE);
    ShiftedXorUndo(a, 29);
    MultiplyUndo(x, P2, P2_INVERSE);
    ShiftedXorUndo(h, 33);

    ShiftedXorUndo(h, 32);
    var b' := UnshiftedXor(h, 32);
    MultiplyUndo(b', P3_INVERSE, P3);
    ShiftedXorUndo(Mask(b' * P3_INVERSE), 29);
    var a' := UnshiftedXor(Mask(b' * P3_INVERSE), 29);
    MultiplyUndo(a', P2_INVERSE, P2);
    ShiftedXorUndo(Mask(a' * P2_INVERSE), 33);
  }

  // ---------- how the input is divided ----------

  function TailUnits(value: seq<byte>): seq<seq<byte>> {
    Units(value[BodyLength(|value|)..])
  }

  lemma {:induction false} UnitsAreUnits(tail: seq<byte>)
    ensures AreUnits(Units(tail))
    decreases |tail|
  {
    if tail != [] {
      UnitsAreUnits(tail[UnitWidth(|tail|)..]);
    }
  }

  lemma {:induction false} UnitsSameShape(s: seq<byte>, t: seq<byte>)
    requires |s| == |t|
    ensures |Units(s)| == |Units(t)|
    ensures forall i :: 0 <= i < |Units(s)| ==> |Units(s)[i]| == |Units(t)[i]|
    decreases |s|
  {
    if s != [] {
      UnitsSameShape(s[UnitWidth(|s|)..], t[UnitWidth(|t|)..]);
    }
  }

  lemma {:induction false} UnitsFlatten(tail: seq<byte>)
    ensures Flatten(Units(tail)) == tail
    decreases |tail|
  {
    if tail != [] {
      var w := UnitWidth(|tail|);
      UnitsFlatten(tail[w..]);
      assert Units(tail)[1..] == Units(tail[w..]);
      assert tail == tail[..w] + tail[w..];
    }
  }

  function Stripes(s: seq<byte>): seq<seq<byte>>
    decreases |s|
  {
    if |s| < 32 then [] else [s[..32]] + Stripes(s[32..])
  }

  function AbsorbEach(lanes: seq<word>, stripes: seq<seq<byte>>): (r: seq<word>)
    requires |lanes| == 4 && forall i :: 0 <= i < |stripes| ==> |stripes[i]| == 32
    ensures |r| == 4
    decreases |stripes|
  {
    if stripes == [] then lanes else AbsorbEach(AbsorbStripe(lanes, stripes[0]), stripes[1..])
  }

  lemma {:induction false} StripesShape(s: seq<byte>)
    ensures forall i :: 0 <= i < |Stripes(s)| ==> |Stripes(s)[i]| == 32
    ensures Flatten(Stripes(s)) == s[..BodyLength(|s|)]
    decreases |s|
  {
    if |s| >= 32 {
      StripesShape(s[32..]);
      assert Stripes(s)[1..] == Stripes(s[32..]);
      assert BodyLength(|s|) == 32 + BodyLength(|s[32..]|);
      assert s[..BodyLength(|s|)] == s[..32] + s[32..][..BodyLength(|s[32..]|)];
    }
  }

  lemma {:induction false} AbsorbStripesIsFold(lanes: seq<word>, s: seq<byte>)
    requires |lanes| == 4 && forall i :: 0 <= i < |Stripes(s)| ==> |Stripes(s)[i]| == 32
    ensures AbsorbStripes(lanes, s) == AbsorbEach(lanes, Stripes(s))
    decreases |s|
  {
    hide AbsorbStripe;
    if |s| >= 32 {
      StripesShape(s[32..]);
      assert Stripes(s)[1..] == Stripes(s[32..]);
      AbsorbStripesIsFold(AbsorbStripe(lanes, s[..32]), s[32..]);
    }
  }

  /** Every byte is consumed exactly once: the stripes then the tail units spell the input. */
  lemma EveryByteConsumedOnce(value: seq<byte>)
    ensures Flatten(Stripes(value) + TailUnits(value)) == value
    ensures |TailUnits(value)| <= 3 + 1 + 3
  {
    StripesShape(value);
    var tail := value[BodyLength(|value|)..];
    UnitsFlatten(tail);
    FlattenConcat(Stripes(value), TailUnits(value));
    UnitsCount(tail);
  }

  lemma {:induction false} UnitsCount(tail: seq<byte>)
    ensures |Units(tail)| <= |tail|
    ensures |tail| < 4 ==> |Units(tail)| <= 3
    ensures |tail| < 8 ==> |Units(tail)| <= 4
    ensures |tail| < 16 ==> |Units(tail)| <= 5
    ensures |tail| < 24 ==> |Units(tail)| <= 6
    ensures |tail| < 32 ==> |Units(tail)| <= 7
    decreases |tail|
  {
    if tail != [] {
      UnitsCount(tail[UnitWidth(|tail|)..]);
    }
  }

  lemma {:induction false} StripesOfBody(s: seq<byte>)
    ensures Stripes(s) == Stripes(s[..BodyLength(|s|)])
    decreases |s|
  {
    if |s| >= 32 {
      var body := s[..BodyLength(|s|)];
      StripesOfBody(s[32..]);
      assert body[..32] == s[..32];
      assert body[32..] == s[32..][..BodyLength(|s[32..]|)];
    }
  }

  lemma StartOfBody(a: seq<byte>, b: seq<byte>, seed: int)
    requires |a| == |b| && a[..BodyLength(|a|)] == b[..BodyLength(|b|)]
    ensures Start(a, seed) == Start(b, seed)
  {
    hide Converge, AbsorbStripes, AbsorbEach, InitialLanes, Mask;
    var lanes := InitialLanes(seed);
    StripesOfBody(a);
    StripesOfBody(b);
    StripesShape(a);
    StripesShape(b);
    AbsorbStripesIsFold(lanes, a);
    AbsorbStripesIsFold(lanes, b);
  }

  // ---------- separation ----------

  /** Two inputs of one length that differ in exactly one tail unit never collide. */
  lemma SeparatesTailUnit(a: seq<byte>, b: seq<byte>, seed: int, j: nat)
    requires |a| == |b| && a[..BodyLength(|a|)] == b[..BodyLength(|b|)]
    requires |TailUnits(a)| == |TailUnits(b)| && j < |TailUnits(a)|
    requires TailUnits(a)[j] != TailUnits(b)[j]
    requires forall i :: 0 <= i < |TailUnits(a)| && i != j ==> TailUnits(a)[i] == TailUnits(b)[i]
    ensures Hash(a, seed) != Hash(b, seed)
  {
    hide Start, AbsorbUnits, AbsorbUnit, Contribution, Xor, Avalanche, Units;
    var u, v := TailUnits(a), TailUnits(b);
    var start := Start(a, seed);
    StartOfBody(a, b, seed);
    UnitsSameShape(a[BodyLength(|a|)..], b[BodyLength(|b|)..]);
    UnitsAreUnits(a[BodyLength(|a|)..]);
    if Hash(a, seed) == Hash(b, seed) {
      AvalancheUndo(AbsorbUnits(start, u));
      AvalancheUndo(AbsorbUnits(start, v));
      assert u[..j] == v[..j] && u[j + 1..] == v[j + 1..];
      var r := AbsorbUnits(start, u[..j]);
      AbsorbAround(start, u, j);
      AbsorbAround(start, v, j);
      AbsorbUnitsInjective(AbsorbUnit(r, u[j]), AbsorbUnit(r, v[j]), u[j + 1..]);
      AbsorbInjective(r, r, u[j], v[j]);
      XorCancelLeft(r, Contribution(u[j]), Contribution(v[j]));
      ContributionInjective(u[j], v[j]);
    }
  }

  lemma AbsorbAround(start: word, u: seq<seq<byte>>, j: nat)
    requires j < |u|
    ensures AbsorbUnits(start, u) == AbsorbUnits(AbsorbUnit(AbsorbUnits(start, u[..j]), u[j]), u[j + 1..])
  {
    hide AbsorbUnit;
    assert u == u[..j] + u[j..];
    AbsorbUnitsConcat(start, u[..j], u[j..]);
  }

  /** A change of one tail byte is a change of one tail unit. */
  lemma {:induction false} ChangedUnit(s: seq<byte>, t: seq<byte>, i: nat) returns (j: nat)
    requires |s| == |t| && i < |s| && s[i] != t[i]
    requires forall k :: 0 <= k < |s| && k != i ==> s[k] == t[k]
    ensures |Units(s)| == |Units(t)| && j < |Units(s)| && Units(s)[j] != Units(t)[j]
    ensures forall k :: 0 <= k < |Units(s)| && k != j ==> Units(s)[k] == Units(t)[k]
    decreases |s|
  {
    UnitsSameShape(s, t);
    var w := UnitWidth(|s|);
    if i < w {
      j := 0;
      assert s[..w][i] != t[..w][i];
      assert s[w..] == t[w..];
    } else {
      assert s[..w] == t[..w];
      var j' := ChangedUnit(s[w..], t[w..], i - w);
      j := j' + 1;
    }
  }

  /** Changing any single byte after the last full stripe always changes the hash. */
  lemma SeparatesTailByte(a: seq<byte>, b: seq<byte>, seed: int, i: nat)
    requires |a| == |b| && BodyLength(|a|) <= i < |a| && a[i] != b[i]
    requires forall k :: 0 <= k < |a| && k != i ==> a[k] == b[k]
    ensures Hash(a, seed) != Hash(b, seed)
  {
    hide Hash, Units;
    var n := BodyLength(|a|);
    var j := ChangedUnit(a[n..], b[n..], i - n);
    assert a[..n] == b[..n];
    SeparatesTailUnit(a, b, seed, j);
  }

  /** Below 32 bytes, different seeds (modulo 2^64) never give one hash: the two halves of `twox128` differ. */
  lemma SeparatesSeeds(value: seq<byte>, seed: int, seed': int)
    requires |value| < 32
    ensures Hash(value, seed) == Hash(value, seed') <==> Mask(seed) == Mask(seed')
  {
    var units := TailUnits(value);
    var s, s' := Start(value, seed), Start(value, seed');
    StartTracksSeed(value, seed, seed');
    if Hash(value, seed) == Hash(value, seed') {
      AvalancheUndo(AbsorbUnits(s, units));
      AvalancheUndo(AbsorbUnits(s', units));
      UnitsAreUnits(value[BodyLength(|value|)..]);
      AbsorbUnitsInjective(s, s', units);
    }
  }

  lemma StartTracksSeed(value: seq<byte>, seed: int, seed': int)
    requires |value| < 32
    ensures Start(value, seed) == Start(value, seed') <==> Mask(seed) == Mask(seed')
  {
    hide Converge, AbsorbStripes, Mask;
    var n := |value|;
    AddMasked(Mask(seed + P5), n);
    AddMasked(Mask(seed' + P5), n);
    MaskIdempotent(seed + P5);
    MaskIdempotent(seed' + P5);
    AddMasked(seed, P5);
    AddMasked(seed', P5);
    if Mask(seed) == Mask(seed') {
      MaskCongruent(seed, seed', P5);
    }
  }

  lemma MaskIdempotent(n: int)
    ensures Mask(Mask(n)) == Mask(n)
  {
  }

  lemma MaskCongruent(x: int, y: int, k: int)
    requires Mask(x) == Mask(y)
    ensures Mask(x + k) == Mask(y + k)
  {
  }

  /** On 8-byte inputs every 64-bit value is the hash of exactly one input, which this computes. */
  function Preimage(h: word, seed: int): (value: seq<byte>)
    ensures |value| == 8
  {
    var x := Unfinish(Unavalanche(h), 27, P1_INVERSE, P4);
    ToLittleEndian(Unmix(Xor(x, Mask(Mask(seed + P5) + 8))), 8)
  }

  lemma HashOfEight(value: seq<byte>, seed: int)
    requires |value| == 8
    ensures Hash(value, seed)
         == Avalanche(Finish(Xor(Mask(Mask(seed + P5) + 8), MixWord(FromLittleEndian(value))), 27, P1, P4))
  {
    hide Avalanche, Finish, Xor, MixWord, Mask;
    assert value[0..] == value;
    var start := Start(value, seed);
    assert Units(value) == [value] by {
      assert value[..8] == value && value[8..] == [];
    }
    assert AbsorbUnits(start, [value]) == AbsorbUnits(AbsorbUnit(start, value), []);
  }

  lemma BijectiveOnEightBytes(value: seq<byte>, h: word, seed: int)
    requires |value| == 8
    ensures Hash(Preimage(h, seed), seed) == h
    ensures Hash(value, seed) == h <==> value == Preimage(h, seed)
  {
    hide Hash, Avalanche, Finish, Xor, MixWord, Mask, Unmix, Unfinish, Unavalanche;
    PreimageHashes(h, seed);
    UnitsAreUnits(value);
    if Hash(value, seed) == h && value != Preimage(h, seed) {
      EightByteUnits(value);
      EightByteUnits(Preimage(h, seed));
      SeparatesTailUnit(value, Preimage(h, seed), seed, 0);
    }
  }

  lemma EightByteUnits(value: seq<byte>)
    requires |value| == 8
    ensures BodyLength(|value|) == 0 && TailUnits(value) == [value]
  {
    assert value[0..] == value && value[..8] == value && value[8..] == [];
    assert Units(value) == [value] + Units([]);
  }

  lemma PreimageHashes(h: word, seed: int)
    ensures Hash(Preimage(h, seed), seed) == h
  {
    hide Hash, Avalanche, Finish, Xor, MixWord, Mask, Unmix, Unfinish, Unavalanche;
    var start := Mask(Mask(seed + P5) + 8);
    var x := Unfinish(Unavalanche(h), 27, P1_INVERSE, P4);
    var w := Unmix(Xor(x, start));
    assert Pow256(8) == M;
    FromToLittleEndian(w, 8);
    HashOfEight(Preimage(h, seed), seed);
    MixRedo(Xor(x, start));
    XorBack(x, start);
    FinishRedo(Unavalanche(h), 27, P1, P1_INVERSE, P4);
    AvalancheUndo(h);
  }

  lemma XorBack(x: word, s: word)
    ensures Xor(s, Xor(x, s)) == x
  {
    BitXorSymmetric(s, BitXor(x, s));
    BitXorUndo(x, s);
  }
}
