/** The dependency-free XXH64 of `lib/validator_storage.py`, with its near-input separation. */
module XxHash64 {
  import opened Bytes
  import opened Word64

  const P1: int := 11400714785074694791
  const P2: int := 14029467366897019727
  const P3: int := 1609587929392839161
  const P4: int := 9650029242287828579
  const P5: int := 2870177450012600261

  // Inverses of the odd multipliers modulo 2^64; only the proofs use them.
  const P1_INVERSE: int := 614540362697595703
  const P2_INVERSE: int := 839798700976720815
  const P3_INVERSE: int := 16855272203555305545
  const P5_INVERSE: int := 14236653164957433613

  /** The multipliers are the primes of the xxHash specification. */
  lemma SpecificationPrimes()
    ensures P1 == 0x9E3779B185EBCA87 && P2 == 0xC2B2AE3D27D4EB4F && P3 == 0x165667B19E3779F9
    ensures P4 == 0x85EBCA77C2B2AE63 && P5 == 0x27D4EB2F165667C5
  {
  }

  // ---------- reference definition, in the specification's terms ----------

  /** One accumulator round. */
  function Round(lane: word, w: nat): word {
    Mask(RotateLeft(Mask(lane + w * P2), 31) * P1)
  }

  /** A round from a zero accumulator, which the source writes out where it needs it. */
  function MixWord(w: nat): word {
    Round(0, w)
  }

  lemma MixWordWrittenOut(w: nat)
    ensures MixWord(w) == Mask(RotateLeft(Mask(w * P2), 31) * P1)
  {
    hide Mask, RotateLeft;
    assert 0 + w * P2 == w * P2;
  }

  function InitialLanes(seed: int): (lanes: seq<word>)
    ensures |lanes| == 4
  {
    [Mask(seed + P1 + P2), Mask(seed + P2), Mask(seed), Mask(seed - P1)]
  }

  function WordAt(s: seq<byte>, index: nat): nat
    requires index + 8 <= |s|
  {
    FromLittleEndian(s[index..index + 8])
  }

  function AbsorbStripe(lanes: seq<word>, stripe: seq<byte>): (r: seq<word>)
    requires |lanes| == 4 && |stripe| == 32
    ensures |r| == 4
  {
    [Round(lanes[0], WordAt(stripe, 0)), Round(lanes[1], WordAt(stripe, 8)),
     Round(lanes[2], WordAt(stripe, 16)), Round(lanes[3], WordAt(stripe, 24))]
  }

  function AbsorbStripes(lanes: seq<word>, s: seq<byte>): (r: seq<word>)
    requires |lanes| == 4
    ensures |r| == 4
    decreases |s|
  {
    if |s| < 32 then lanes else AbsorbStripes(AbsorbStripe(lanes, s[..32]), s[32..])
  }

  function MergeLane(result: word, lane: word): word {
    Mask(Xor(result, MixWord(lane)) * P1 + P4)
  }

  function Converge(lanes: seq<word>): word
    requires |lanes| == 4
  {
    var sum := Mask(RotateLeft(lanes[0], 1) + RotateLeft(lanes[1], 7)
                    + RotateLeft(lanes[2], 12) + RotateLeft(lanes[3], 18));
    MergeLane(MergeLane(MergeLane(MergeLane(sum, lanes[0]), lanes[1]), lanes[2]), lanes[3])
  }

  /** Length of the part of the input consumed in 32-byte stripes. */
  function BodyLength(n: nat): (k: nat)
    ensures k <= n
  {
    n - n % 32
  }

  function Start(value: seq<byte>, seed: int): word {
    var base := if |value| >= 32 then Converge(AbsorbStripes(InitialLanes(seed), value)) else Mask(seed + P5);
    Mask(base + |value|)
  }

  /** The tail falls into 8-byte units, then at most one 4-byte unit, then single bytes. */
  function UnitWidth(n: nat): (w: nat)
    requires n > 0
    ensures 0 < w <= n
  {
    if n >= 8 then 8 else if n >= 4 then 4 else 1
  }

  function Units(tail: seq<byte>): seq<seq<byte>>
    decreases |tail|
  {
    if tail == [] then [] else
      var w := UnitWidth(|tail|);
      [tail[..w]] + Units(tail[w..])
  }

  function Contribution(unit: seq<byte>): word {
    var n := FromLittleEndian(unit);
    if |unit| == 8 then MixWord(n) else if |unit| == 4 then Mask(n * P1) else Mask(n * P5)
  }

  /** Rotate, multiply and add: how every tail step ends. */
  function Finish(x: word, count: nat, p: int, k: int): word
    requires count <= 64
  {
    Mask(RotateLeft(x, count) * p + k)
  }

  function AbsorbUnit(result: word, unit: seq<byte>): word {
    var x := Xor(result, Contribution(unit));
    if |unit| == 8 then Finish(x, 27, P1, P4)
    else if |unit| == 4 then Finish(x, 23, P2, P3)
    else Finish(x, 11, P1, 0)
  }

  function AbsorbUnits(result: word, units: seq<seq<byte>>): word
    decreases |units|
  {
    if units == [] then result else AbsorbUnits(AbsorbUnit(result, units[0]), units[1..])
  }

  function Avalanche(h: word): word {
    var a := Mask(ShiftedXor(h, 33) * P2);
    var b := Mask(ShiftedXor(a, 29) * P3);
    ShiftedXor(b, 32)
  }

  function ShiftedXor(x: word, s: nat): word {
    ShiftRightSmaller(x, s);
    Xor(x, ShiftRight(x, s))
  }

  function Hash(value: seq<byte>, seed: int): word {
    Avalanche(AbsorbUnits(Start(value, seed), Units(value[BodyLength(|value|)..])))
  }

  // ---------- the imperative algorithm, one method a phase ----------

  /** One stripe: each lane takes its own 8-byte word, in place. */
  method UpdateLanes(lanes: array<word>, value: seq<byte>, index: nat)
    requires lanes.Length == 4 && index + 32 <= |value|
    modifies lanes
    ensures lanes[..] == AbsorbStripe(old(lanes[..]), value[index..index + 32])
  {
    hide Mask, RotateLeft;
    ghost var stripe := value[index..index + 32];
    for lane := 0 to 4
      invariant forall k :: 0 <= k < lane ==> lanes[k] == Round(old(lanes[..])[k], WordAt(stripe, 8 * k))
      invariant forall k :: lane <= k < 4 ==> lanes[k] == old(lanes[..])[k]
    {
      var w := FromLittleEndian(value[index + lane * 8..index + lane * 8 + 8]);
      SubSlice(value, index, lane * 8);
      lanes[lane] := Mask(RotateLeft(Mask(lanes[lane] + w * P2), 31) * P1);
    }
  }

  /** The stripe loop: 32 bytes an iteration. */
  method ConsumeStripes(value: seq<byte>, seed: int) returns (lanes: array<word>, index: nat)
    requires |value| >= 32
    ensures fresh(lanes) && lanes.Length == 4
    ensures lanes[..] == AbsorbStripes(InitialLanes(seed), value)
    ensures index == BodyLength(|value|)
  {
    hide Mask, AbsorbStripe;
    index := 0;
    lanes := new word[4];
    lanes[0], lanes[1], lanes[2], lanes[3] :=
      Mask(seed + P1 + P2), Mask(seed + P2), Mask(seed), Mask(seed - P1);
    assert lanes[..] == InitialLanes(seed) && value[0..] == value;
    while index <= |value| - 32
      invariant index <= |value| && index % 32 == 0
      invariant AbsorbStripes(lanes[..], value[index..]) == AbsorbStripes(InitialLanes(seed), value)
    {
      assert value[index..][..32] == value[index..index + 32] && value[index..][32..] == value[index + 32..];
      UpdateLanes(lanes, value, index);
      index := index + 32;
    }
  }

  /** Sum the rotated lanes, then fold each lane into the result. */
  method MergeLanes(lanes: seq<word>) returns (result: word)
    requires |lanes| == 4
    ensures result == Converge(lanes)
  {
    hide Mask, RotateLeft, Xor, MixWord;
    var sum := RotateLeft(lanes[0], 1) + RotateLeft(lanes[1], 7)
               + RotateLeft(lanes[2], 12) + RotateLeft(lanes[3], 18);
    result := Mask(sum);
    for lane := 0 to 4
      invariant MergeFrom(result, lanes, lane) == MergeFrom(Mask(sum), lanes, 0)
    {
      MixWordWrittenOut(lanes[lane]);
      var mixed := Mask(RotateLeft(Mask(lanes[lane] * P2), 31) * P1);
      result := Mask(Xor(result, mixed) * P1 + P4);
    }
    MergeFromUnrolled(Mask(sum), lanes);
  }

  /** The three tail phases: 8-byte words, at most one 4-byte word, single bytes. */
  method ConsumeTail(value: seq<byte>, start: nat, base: word) returns (result: word)
    requires start <= |value|
    ensures result == AbsorbUnits(base, Units(value[start..]))
  {
    hide RotateLeft, Xor, Mask, AbsorbUnit, AbsorbUnits, Units, FromLittleEndian;
    result := base;
    var index := start;
    while index <= |value| - 8
      invariant start <= index <= |value|
      invariant AbsorbUnits(result, Units(value[index..])) == AbsorbUnits(base, Units(value[start..]))
    {
      AbsorbNext(result, value, index, 8);
      AbsorbCases(result, value[index..index + 8]);
      var w := FromLittleEndian(value[index..index + 8]);
      var mixed := Mask(RotateLeft(Mask(w * P2), 31) * P1);
      result := Mask(RotateLeft(Xor(result, mixed), 27) * P1 + P4);
      index := index + 8;
    }
    if index <= |value| - 4 {
      AbsorbNext(result, value, index, 4);
      AbsorbCases(result, value[index..index + 4]);
      var w := FromLittleEndian(value[index..index + 4]);
      result := Mask(RotateLeft(Xor(result, Mask(w * P1)), 23) * P2 + P3);
      index := index + 4;
    }
    while index < |value|
      invariant start <= index <= |value| < index + 4
      invariant AbsorbUnits(result, Units(value[index..])) == AbsorbUnits(base, Units(value[start..]))
    {
      AbsorbNext(result, value, index, 1);
      AbsorbByte(result, value, index);
      result := Mask(RotateLeft(Xor(result, Mask(value[index] * P5)), 11) * P1);
      index := index + 1;
    }
    NothingLeft(result, value[index..]);
  }

  method Xxhash64(value: seq<byte>, seed: int) returns (h: word)
    ensures h == Hash(value, seed)
  {
    hide Mask, Avalanche, AbsorbUnits, AbsorbStripes, Converge;
    var index, result := 0, Mask(seed + P5);
    if |value| >= 32 {
      var lanes, consumed := ConsumeStripes(value, seed);
      index := consumed;
      result := MergeLanes(lanes[..]);
    }
    result := Mask(result + |value|);
    assert result == Start(value, seed) && index == BodyLength(|value|);
    result := ConsumeTail(value, index, result);
    h := Scramble(result);
  }

  /** The closing xor-shifts and multiplications. */
  method Scramble(result: word) returns (h: word)
    ensures h == Avalanche(result)
  {
    h := ShiftedXor(result, 33);
    h := Mask(h * P2);
    h := ShiftedXor(h, 29);
    h := Mask(h * P3);
    h := ShiftedXor(h, 32);
  }

  ghost function MergeFrom(result: word, lanes: seq<word>, lane: nat): word
    requires |lanes| == 4 && lane <= 4
    decreases 4 - lane
  {
    if lane == 4 then result else MergeFrom(MergeLane(result, lanes[lane]), lanes, lane + 1)
  }

  lemma MergeFromUnrolled(r: word, lanes: seq<word>)
    requires |lanes| == 4
    ensures MergeFrom(r, lanes, 0)
         == MergeLane(MergeLane(MergeLane(MergeLane(r, lanes[0]), lanes[1]), lanes[2]), lanes[3])
  {
    var r1 := MergeLane(r, lanes[0]);
    var r2 := MergeLane(r1, lanes[1]);
    assert MergeFrom(r, lanes, 0) == MergeFrom(r2, lanes, 2);
  }

  lemma AbsorbNext(r: word, value: seq<byte>, index: nat, w: nat)
    requires index < |value| && w == UnitWidth(|value| - index)
    ensures AbsorbUnits(r, Units(value[index..]))
         == AbsorbUnits(AbsorbUnit(r, value[index..index + w]), Units(value[index + w..]))
  {
    assert value[index..][..w] == value[index..index + w];
    assert value[index..][w..] == value[index + w..];
    assert Units(value[index..])[1..] == Units(value[index + w..]);
  }

  lemma SubSlice(value: seq<byte>, index: nat, k: nat)
    requires index + 32 <= |value| && k + 8 <= 32
    ensures value[index..index + 32][k..k + 8] == value[index + k..index + k + 8]
  {
    var inner, outer := value[index..index + 32][k..k + 8], value[index + k..index + k + 8];
    forall i | 0 <= i < 8
      ensures inner[i] == outer[i]
    {
    }
  }

  lemma NothingLeft(r: word, rest: seq<byte>)
    requires rest == []
    ensures AbsorbUnits(r, Units(rest)) == r
  {
  }

  /** The three tail steps as the source writes them. */
  lemma AbsorbCases(r: word, unit: seq<byte>)
    ensures var n := FromLittleEndian(unit);
      && (|unit| == 8 ==>
            AbsorbUnit(r, unit) == Mask(RotateLeft(Xor(r, Mask(RotateLeft(Mask(n * P2), 31) * P1)), 27) * P1 + P4))
      && (|unit| == 4 ==> AbsorbUnit(r, unit) == Mask(RotateLeft(Xor(r, Mask(n * P1)), 23) * P2 + P3))
      && (|unit| == 1 ==> AbsorbUnit(r, unit) == Mask(RotateLeft(Xor(r, Mask(n * P5)), 11) * P1))
  {
    MixWordWrittenOut(FromLittleEndian(unit));
    hide MixWord, RotateLeft, Xor, Mask;
  }

  lemma AbsorbByte(r: word, value: seq<byte>, index: nat)
    requires index < |value|
    ensures AbsorbUnit(r, value[index..index + 1])
         == Mask(RotateLeft(Xor(r, Mask(value[index] * P5)), 11) * P1)
  {
    AbsorbCases(r, value[index..index + 1]);
    hide RotateLeft, Xor, Mask, AbsorbUnit;
    assert value[index..index + 1][1..] == [];
    assert FromLittleEndian(value[index..index + 1]) == value[index];
  }
}
