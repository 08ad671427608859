/** Decoding finalized storage: compact lengths and vectors of fixed-width entries (SCALE codec). */
module ScaleVector {
  import opened Bytes
  import opened Results

  datatype DecodeError = EmptyVector | TruncatedVector | MalformedResponse | UnexpectedShape

  datatype Prefix = Prefix(count: nat, offset: nat)

  // ---------- decoding, as the source does it ----------

  function DecodeCompactLength(value: seq<byte>): Result<Prefix, DecodeError> {
    if value == [] then Err(EmptyVector)
    else match value[0] % 4
      case 0 => Ok(Prefix(value[0] / 4, 1))
      case 1 => if |value| < 2 then Err(TruncatedVector) else Ok(Prefix(FromLittleEndian(value[..2]) / 4, 2))
      case 2 => if |value| < 4 then Err(TruncatedVector) else Ok(Prefix(FromLittleEndian(value[..4]) / 4, 4))
      case _ =>
        var length := value[0] / 4 + 4;
        if |value| < 1 + length then Err(TruncatedVector)
        else Ok(Prefix(FromLittleEndian(value[1..1 + length]), 1 + length))
  }

  function Entry(value: seq<byte>, offset: nat, width: nat, index: nat): seq<byte>
    requires offset + (index + 1) * width <= |value|
  {
    assert (index + 1) * width == index * width + width;
    value[offset + index * width..offset + (index + 1) * width]
  }

  /** `raw` is `None` where the response was missing or not a hex string. */
  function DecodeFixedVector(raw: Option<seq<byte>>, width: nat): Result<seq<seq<byte>>, DecodeError> {
    if raw.None? then Err(MalformedResponse)
    else
      var value := raw.value;
      match DecodeCompactLength(value)
      case Err(error) => Err(error)
      case Ok(Prefix(count, offset)) =>
        if |value| != offset + count * width then Err(UnexpectedShape)
        else Ok(seq(count, index requires 0 <= index < count =>
                             (EntryInside(index, count, width); Entry(value, offset, width, index))))
  }

  lemma EntryInside(index: nat, count: nat, width: nat)
    requires index < count
    ensures (index + 1) * width <= count * width
  {
    assert count * width == (index + 1) * width + (count - index - 1) * width;
  }

  // ---------- the encoder of the SCALE specification, as partner ----------

  /** The least number of bytes, at least four, that holds `n`. */
  function ByteCount(n: nat, k: nat): (r: nat)
    requires k > 0
    ensures r >= k && n < Pow256(r)
    ensures r > k ==> n >= Pow256(r - 1)
    decreases n - Pow256(k)
  {
    if n < Pow256(k) then k else ByteCount(n, k + 1)
  }

  function EncodeCompactLength(n: nat): seq<byte>
    requires n < Pow256(67)
  {
    if n < 64 then [4 * n]
    else if n < 0x4000 then ToLittleEndian(4 * n + 1, 2)
    else if n < 0x4000_0000 then ToLittleEndian(4 * n + 2, 4)
    else
      hide Pow256;
      var k := ByteCount(n, 4);
      ByteCountAtMost(n, k);
      [4 * (k - 4) + 3] + ToLittleEndian(n, k)
  }

  lemma ByteCountAtMost(n: nat, k: nat)
    requires n < Pow256(67) && (k > 4 ==> n >= Pow256(k - 1))
    ensures k <= 67
  {
    if k > 67 {
      Pow256Monotone(67, k - 1);
    }
  }

  lemma {:induction false} Pow256Monotone(i: nat, j: nat)
    requires i <= j
    ensures Pow256(i) <= Pow256(j)
  {
    if i < j {
      Pow256Monotone(i, j - 1);
    }
  }

  function EncodeFixedVector(entries: seq<seq<byte>>): seq<byte>
    requires |entries| < Pow256(67)
  {
    EncodeCompactLength(|entries|) + Flatten(entries)
  }

  // ---------- lengths ----------

  lemma PowersOf256()
    ensures Pow256(1) == 256 && Pow256(2) == 0x1_0000 && Pow256(4) == 0x1_0000_0000
  {
  }

  lemma ShortRoundTrip(n: nat, mode: nat, k: nat, suffix: seq<byte>)
    requires 0 < mode < 4 && k > 0 && 4 * n + mode < Pow256(k)
    ensures var v := ToLittleEndian(4 * n + mode, k) + suffix;
      v[0] % 4 == mode && FromLittleEndian(v[..k]) / 4 == n
  {
    hide FromLittleEndian, ToLittleEndian, Pow256;
    var m := 4 * n + mode;
    var digits := ToLittleEndian(m, k);
    FromToLittleEndian(m, k);
    LowBits(digits);
    assert (digits + suffix)[..k] == digits;
    assert (digits + suffix)[0] == digits[0];
  }

  /** A compact length survives encoding and decoding, whatever follows it. */
  lemma CompactRoundTrip(n: nat, suffix: seq<byte>)
    requires n < Pow256(67)
    ensures DecodeCompactLength(EncodeCompactLength(n) + suffix) == Ok(Prefix(n, |EncodeCompactLength(n)|))
  {
    hide FromLittleEndian, Pow256;
    var e := EncodeCompactLength(n);
    var v := e + suffix;
    PowersOf256();
    if n < 64 {
    } else if n < 0x4000 {
      ShortRoundTrip(n, 1, 2, suffix);
    } else if n < 0x4000_0000 {
      ShortRoundTrip(n, 2, 4, suffix);
    } else {
      var k := ByteCount(n, 4);
      FromToLittleEndian(n, k);
      assert v[1..1 + k] == ToLittleEndian(n, k);
    }
  }

  /** The form each mode must have to be the one the specification's encoder writes. */
  predicate Canonical(value: seq<byte>)
    requires DecodeCompactLength(value).Ok?
  {
    match value[0] % 4
    case 0 => true
    case 1 => FromLittleEndian(value[..2]) / 4 >= 64
    case 2 => FromLittleEndian(value[..4]) / 4 >= 0x4000
    case _ =>
      var length := value[0] / 4 + 4;
      if length == 4 then FromLittleEndian(value[1..5]) >= 0x4000_0000 else value[length] != 0
  }

  lemma DecodedFits(value: seq<byte>)
    requires DecodeCompactLength(value).Ok?
    ensures DecodeCompactLength(value).value.count < Pow256(67)
    ensures DecodeCompactLength(value).value.offset <= |value|
  {
    hide FromLittleEndian, Pow256;
    PowersOf256();
    var k := match value[0] % 4 case 0 => 1 case 1 => 2 case 2 => 4 case _ => value[0] / 4 + 4;
    Pow256Monotone(k, 67);
    match value[0] % 4
    case 0 =>
    case 1 => LittleEndianBound(value[..2]);
    case 2 => LittleEndianBound(value[..4]);
    case _ => LittleEndianBound(value[1..1 + k]);
  }

  /** The decoder also takes longer forms: it re-encodes to the bytes it read exactly on canonical input. */
  lemma ReencodesIffCanonical(value: seq<byte>)
    requires DecodeCompactLength(value).Ok?
    ensures var p := DecodeCompactLength(value).value;
      p.count < Pow256(67) && p.offset <= |value| &&
      (value[..p.offset] == EncodeCompactLength(p.count) <==> Canonical(value))
  {
    hide FromLittleEndian, Pow256, EncodeCompactLength;
    DecodedFits(value);
    PowersOf256();
    var p := DecodeCompactLength(value).value;
    EncodeSmall(p.count);
    var e := EncodeCompactLength(p.count);
    match value[0] % 4
    case 0 => assert value[..1] == [value[0]];
    case 1 => ReencodeShort(value[..2], 1);
    case 2 => ReencodeShort(value[..4], 2);
    case _ => ReencodeLong(value);
  }

  lemma EncodeSmall(n: nat)
    requires n < Pow256(67)
    ensures n < 64 ==> EncodeCompactLength(n) == [4 * n]
  {
    hide Pow256;
  }

  lemma ReencodeShort(head: seq<byte>, mode: nat)
    requires (mode == 1 && |head| == 2) || (mode == 2 && |head| == 4)
    requires head[0] % 4 == mode
    ensures FromLittleEndian(head) / 4 < Pow256(67)
    ensures var n := FromLittleEndian(head) / 4;
      head == EncodeCompactLength(n) <==> n >= (if mode == 1 then 64 else 0x4000)
  {
    hide FromLittleEndian, ToLittleEndian, Pow256, ByteCount;
    LittleEndianBound(head);
    PowersOf256();
    Pow256Monotone(|head|, 67);
    ToFromLittleEndian(head);
    LowBits(head);
    var v := FromLittleEndian(head);
    assert v == 4 * (v / 4) + mode;
  }

  lemma LowBits(s: seq<byte>)
    requires s != []
    ensures FromLittleEndian(s) % 4 == s[0] % 4
  {
    assert FromLittleEndian(s) == s[0] + 4 * (64 * FromLittleEndian(s[1..]));
  }

  /** `k` bytes are the least number exactly when they are four or the highest is needed. */
  lemma ByteCountIs(n: nat, k: nat)
    requires k >= 4 && n < Pow256(k)
    ensures ByteCount(n, 4) == k <==> k == 4 || n >= Pow256(k - 1)
  {
    var r := ByteCount(n, 4);
    if r < k {
      Pow256Monotone(r, k - 1);
    } else if k < r {
      Pow256Monotone(k, r - 1);
    }
  }

  lemma ReencodeLong(value: seq<byte>)
    requires value != [] && value[0] % 4 == 3 && |value| >= 5 + value[0] / 4
    ensures FromLittleEndian(value[1..5 + value[0] / 4]) < Pow256(67)
    ensures value[..5 + value[0] / 4] == EncodeCompactLength(FromLittleEndian(value[1..5 + value[0] / 4]))
        <==> Canonical(value)
  {
    PowersOf256();
    hide FromLittleEndian, ToLittleEndian, Pow256, ByteCount;
    var k := value[0] / 4 + 4;
    var digits := value[1..1 + k];
    var n := FromLittleEndian(digits);
    LittleEndianBound(digits);
    Pow256Monotone(k, 67);
    Pow256Monotone(4, k);
    TopByte(digits);
    assert digits[k - 1] == value[k];
    ByteCountIs(n, k);
    SameLongForm(value[0], digits, n);
    assert value[..1 + k] == [value[0]] + digits;
    if k > 4 {
      Pow256Monotone(4, k - 1);
    }
  }

  /** The long form of a number is the one read only if it has as many bytes. */
  lemma SameLongForm(first: byte, digits: seq<byte>, n: nat)
    requires first % 4 == 3 && |digits| == first / 4 + 4 && n == FromLittleEndian(digits) && n < Pow256(67)
    ensures [first] + digits == EncodeCompactLength(n) <==> n >= 0x4000_0000 && ByteCount(n, 4) == |digits|
  {
    PowersOf256();
    ToFromLittleEndian(digits);
    hide FromLittleEndian, ToLittleEndian, Pow256, ByteCount;
    var e := EncodeCompactLength(n);
    if n >= 0x4000_0000 {
      assert [first] + digits == e ==> |digits| == ByteCount(n, 4);
    } else {
      EncodeSmall(n);
    }
  }

  lemma {:induction false} TopByte(digits: seq<byte>)
    requires digits != []
    ensures digits[|digits| - 1] != 0 <==> FromLittleEndian(digits) >= Pow256(|digits| - 1)
  {
    if |digits| > 1 {
      TopByte(digits[1..]);
    } else {
      assert digits[1..] == [];
    }
  }

  lemma LittleEndianCons(b: byte, rest: seq<byte>)
    ensures FromLittleEndian([b] + rest) == b + 256 * FromLittleEndian(rest)
  {
    assert ([b] + rest)[1..] == rest;
  }

  lemma PrefixAnswer(value: seq<byte>, n: nat)
    requires DecodeCompactLength(value) == Ok(Prefix(n, |value|)) && Canonical(value) && n < Pow256(67)
    ensures EncodeCompactLength(n) == value
  {
    ReencodesIffCanonical(value);
    hide EncodeCompactLength, Canonical, DecodeCompactLength, Pow256;
    assert value[..|value|] == value;
  }

  /** The examples that SCALE is documented with, one for each mode, in both directions. */
  lemma CompactAnswers()
    ensures DecodeCompactLength([0xa8]) == Ok(Prefix(42, 1)) && EncodeCompactLength(42) == [0xa8]
    ensures DecodeCompactLength([0x15, 0x01]) == Ok(Prefix(69, 2)) && EncodeCompactLength(69) == [0x15, 0x01]
    ensures DecodeCompactLength([0xfe, 0xff, 0x03, 0x00]) == Ok(Prefix(65535, 4))
    ensures EncodeCompactLength(65535) == [0xfe, 0xff, 0x03, 0x00]
    ensures DecodeCompactLength([0x0b, 0x00, 0x40, 0x7a, 0x10, 0xf3, 0x5a]) == Ok(Prefix(100000000000000, 7))
    ensures EncodeCompactLength(100000000000000) == [0x0b, 0x00, 0x40, 0x7a, 0x10, 0xf3, 0x5a]
  {
    SmallNumbers();
    LargeNumber();
    PowersOf256();
    Pow256Monotone(4, 67);
    Pow256Monotone(6, 67);
    Pow256Six();
    hide FromLittleEndian, Pow256, EncodeCompactLength, DecodeCompactLength, Canonical;
    PrefixAnswer([0xa8], 42);
    PrefixAnswer([0x15, 0x01], 69);
    PrefixAnswer([0xfe, 0xff, 0x03, 0x00], 65535);
    PrefixAnswer([0x0b, 0x00, 0x40, 0x7a, 0x10, 0xf3, 0x5a], 100000000000000);
  }

  lemma Pow256Six()
    ensures Pow256(6) == 0x1_0000_0000_0000
  {
    assert Pow256(6) == 256 * (256 * Pow256(4));
  }

  lemma SmallNumbers()
    ensures DecodeCompactLength([0xa8]) == Ok(Prefix(42, 1)) && Canonical([0xa8])
    ensures DecodeCompactLength([0x15, 0x01]) == Ok(Prefix(69, 2)) && Canonical([0x15, 0x01])
    ensures DecodeCompactLength([0xfe, 0xff, 0x03, 0x00]) == Ok(Prefix(65535, 4))
    ensures Canonical([0xfe, 0xff, 0x03, 0x00])
  {
    var two: seq<byte>, four: seq<byte> := [0x15, 0x01], [0xfe, 0xff, 0x03, 0x00];
    assert two == [0x15] + ([0x01] + []) && two[..2] == two;
    LittleEndianCons(0x15, [0x01] + []);
    LittleEndianCons(0x01, []);
    assert four == [0xfe] + ([0xff] + ([0x03] + ([0x00] + []))) && four[..4] == four;
    LittleEndianCons(0xfe, [0xff] + ([0x03] + ([0x00] + [])));
    LittleEndianCons(0xff, [0x03] + ([0x00] + []));
    LittleEndianCons(0x03, [0x00] + []);
    LittleEndianCons(0x00, []);
    assert FromLittleEndian(two) == 277 && FromLittleEndian(four) == 262142;
    hide FromLittleEndian;
  }

  lemma LargeNumber()
    ensures DecodeCompactLength([0x0b, 0x00, 0x40, 0x7a, 0x10, 0xf3, 0x5a]) == Ok(Prefix(100000000000000, 7))
    ensures Canonical([0x0b, 0x00, 0x40, 0x7a, 0x10, 0xf3, 0x5a])
  {
    var value: seq<byte> := [0x0b, 0x00, 0x40, 0x7a, 0x10, 0xf3, 0x5a];
    var digits: seq<byte> := [0x00] + ([0x40] + ([0x7a] + ([0x10] + ([0xf3] + ([0x5a] + [])))));
    LittleEndianCons(0x00, [0x40] + ([0x7a] + ([0x10] + ([0xf3] + ([0x5a] + [])))));
    LittleEndianCons(0x40, [0x7a] + ([0x10] + ([0xf3] + ([0x5a] + []))));
    LittleEndianCons(0x7a, [0x10] + ([0xf3] + ([0x5a] + [])));
    LittleEndianCons(0x10, [0xf3] + ([0x5a] + []));
    LittleEndianCons(0xf3, [0x5a] + []);
    LittleEndianCons(0x5a, []);
    assert FromLittleEndian(digits) == 100000000000000;
    hide FromLittleEndian;
    assert value[1..7] == digits;
  }

  /** A non-canonical prefix that the decoder accepts: zero written in two bytes. */
  lemma LongZeroAccepted()
    ensures DecodeCompactLength([1, 0]) == Ok(Prefix(0, 2))
    ensures EncodeCompactLength(0) == [0]
  {
    assert [1, 0][..2] == [1, 0];
    assert FromLittleEndian([1, 0]) == 1 + 256 * FromLittleEndian([1, 0][1..]);
    assert [1, 0][1..][1..] == [];
  }

  // ---------- vectors ----------

  /** A decoded vector is a division of the bytes after the prefix into equal entries; nothing is lost. */
  lemma DecodedEntries(value: seq<byte>, width: nat)
    requires DecodeFixedVector(Some(value), width).Ok?
    ensures var entries := DecodeFixedVector(Some(value), width).value;
      && DecodeCompactLength(value).Ok?
      && var p := DecodeCompactLength(value).value;
      && p.offset <= |value|
      && |entries| == p.count
      && (forall i :: 0 <= i < |entries| ==> |entries[i]| == width)
      && Flatten(entries) == value[p.offset..]
  {
    hide FromLittleEndian, Pow256, DecodeCompactLength;
    var entries := DecodeFixedVector(Some(value), width).value;
    var Prefix(count, offset) := DecodeCompactLength(value).value;
    DecodedFits(value);
    forall i | 0 <= i < count
      ensures |entries[i]| == width
    {
      EntryInside(i, count, width);
      assert (i + 1) * width == i * width + width;
    }
    FlattenEntries(value, offset, width, entries, 0);
  }

  lemma {:induction false} FlattenEntries(value: seq<byte>, offset: nat, width: nat, entries: seq<seq<byte>>, i: nat)
    requires i <= |entries| && |value| == offset + |entries| * width
    requires forall j :: 0 <= j < |entries| ==>
      (EntryInside(j, |entries|, width); entries[j] == Entry(value, offset, width, j))
    ensures i * width <= |entries| * width
    ensures Flatten(entries[i..]) == value[offset + i * width..]
    decreases |entries| - i
  {
    if i == |entries| {
      assert value[offset + i * width..] == [];
    } else {
      EntryInside(i, |entries|, width);
      assert (i + 1) * width == i * width + width;
      FlattenEntries(value, offset, width, entries, i + 1);
      assert entries[i..][1..] == entries[i + 1..];
      assert value[offset + i * width..] == Entry(value, offset, width, i) + value[offset + (i + 1) * width..];
    }
  }

  /** Every list of entries of one width survives encoding and decoding. */
  lemma VectorRoundTrip(entries: seq<seq<byte>>, width: nat)
    requires |entries| < Pow256(67)
    requires forall i :: 0 <= i < |entries| ==> |entries[i]| == width
    ensures DecodeFixedVector(Some(EncodeFixedVector(entries)), width) == Ok(entries)
  {
    var value := EncodeFixedVector(entries);
    var offset := |EncodeCompactLength(|entries|)|;
    CompactRoundTrip(|entries|, Flatten(entries));
    FlattenLength(entries, width);
    var decoded := DecodeFixedVector(Some(value), width).value;
    DecodedEntries(value, width);
    assert Flatten(decoded) == Flatten(entries);
    FlattenInjective(decoded, entries, width);
  }

  lemma {:induction false} FlattenLength(entries: seq<seq<byte>>, width: nat)
    requires forall i :: 0 <= i < |entries| ==> |entries[i]| == width
    ensures |Flatten(entries)| == |entries| * width
  {
    if entries != [] {
      FlattenLength(entries[1..], width);
      assert |entries| * width == width + (|entries| - 1) * width;
    }
  }

  lemma {:induction false} FlattenInjective(a: seq<seq<byte>>, b: seq<seq<byte>>, width: nat)
    requires |a| == |b| && Flatten(a) == Flatten(b)
    requires forall i :: 0 <= i < |a| ==> |a[i]| == width && |b[i]| == width
    ensures a == b
  {
    if a != [] {
      assert a[0] == Flatten(a)[..width] && b[0] == Flatten(b)[..width];
      assert Flatten(a[1..]) == Flatten(a)[width..] && Flatten(b[1..]) == Flatten(b)[width..];
      FlattenInjective(a[1..], b[1..], width);
    }
  }
}
