/** One SNTP exchange: parsing a reply, and how far the computed offset can be from the true one. */
module NtpProbe {
  import opened Bytes
  import opened Results
  import opened Word64

  const NTP_EPOCH_OFFSET: int := 2208988800
  const TWO_TO_32: int := 0x1_0000_0000
  const PACKET_SIZE: int := 48
  const SERVER_MODE: int := 4

  datatype Rejection = ShortReply | OriginMismatch | KissOfDeath(code: seq<byte>, stop: bool) | NotAServerReply

  datatype Reading = Reading(stratum: int, leap: int, delay: real, offset: real)

  /** `struct` format `!`: most significant byte first. */
  function FromBigEndian(s: seq<byte>): nat {
    if s == [] then 0 else 256 * FromBigEndian(s[..|s| - 1]) + s[|s| - 1]
  }

  function ToBigEndian(n: nat, k: nat): (s: seq<byte>)
    ensures |s| == k
  {
    if k == 0 then [] else ToBigEndian(n / 256, k - 1) + [n % 256]
  }

  /** `_from_ntp`. */
  function FromNtp(value: nat): real {
    ((value / TWO_TO_32) - NTP_EPOCH_OFFSET) as real + (value % TWO_TO_32) as real / TWO_TO_32 as real
  }

  /** Python's `int` on a number: toward zero. */
  function Truncate(x: real): int {
    if x >= 0.0 then x.Floor else -((-x).Floor)
  }

  /** `_to_ntp`, for times after 1900. */
  function ToNtp(seconds: real): nat
    requires seconds > -(NTP_EPOCH_OFFSET as real)
  {
    var whole := Truncate(seconds) + NTP_EPOCH_OFFSET;
    var fraction := Truncate((seconds - seconds.Floor as real) * TWO_TO_32 as real);
    BitOr(ShiftLeft(whole, 32), fraction)
  }

  /** `rstrip(b"\0")`. */
  function StripZeros(s: seq<byte>): seq<byte> {
    if s != [] && s[|s| - 1] == 0 then StripZeros(s[..|s| - 1]) else s
  }

  /** `RATE`, `DENY` and `RSTR`. */
  predicate AsksToStop(code: seq<byte>) {
    code == [82, 65, 84, 69] || code == [68, 69, 78, 89] || code == [82, 83, 84, 82]
  }

  function ParseReply(data: seq<byte>, origin: nat, t1: real, t4: real): Result<Reading, Rejection> {
    if |data| < PACKET_SIZE then Err(ShortReply)
    else
      var header, stratum, refid := data[0], data[1], data[12..16];
      var echoed, receive, transmit :=
        FromBigEndian(data[24..32]), FromBigEndian(data[32..40]), FromBigEndian(data[40..48]);
      var leap, mode := header / 64, header % 8;
      if echoed != origin then Err(OriginMismatch)
      else if stratum == 0 then Err(KissOfDeath(StripZeros(refid), AsksToStop(StripZeros(refid))))
      else if mode != SERVER_MODE || transmit == 0 then Err(NotAServerReply)
      else
        var t2, t3 := FromNtp(receive), FromNtp(transmit);
        Ok(Reading(stratum, leap, (t4 - t1) - (t3 - t2), ((t2 - t1) + (t3 - t4)) / 2.0))
  }

  // ---------- the wire form, as partner ----------

  function ServerPacket(header: byte, stratum: byte, middle: seq<byte>, refid: seq<byte>, reference: seq<byte>,
                        origin: nat, receive: nat, transmit: nat): (p: seq<byte>)
    requires |middle| == 10 && |refid| == 4 && |reference| == 8
    ensures |p| == PACKET_SIZE
  {
    [header, stratum] + middle + refid + reference
    + ToBigEndian(origin, 8) + ToBigEndian(receive, 8) + ToBigEndian(transmit, 8)
  }

  lemma {:induction false} BigEndianRoundTrip(n: nat, k: nat)
    requires n < Pow256(k)
    ensures FromBigEndian(ToBigEndian(n, k)) == n
  {
    if k > 0 {
      BigEndianRoundTrip(n / 256, k - 1);
      assert ToBigEndian(n, k)[..k - 1] == ToBigEndian(n / 256, k - 1);
    }
  }

  /** A server's packet that echoes the request is accepted and read back field for field; a packet
      of stratum zero is a kiss-o'-death carrying its own code. */
  lemma ServerReplyAccepted(header: byte, stratum: byte, middle: seq<byte>, refid: seq<byte>, reference: seq<byte>,
                            echoed: nat, receive: nat, transmit: nat, extra: seq<byte>,
                            origin: nat, t1: real, t4: real)
    requires |middle| == 10 && |refid| == 4 && |reference| == 8
    requires echoed < Pow256(8) && receive < Pow256(8) && transmit < Pow256(8)
    ensures var r := ParseReply(
      ServerPacket(header, stratum, middle, refid, reference, echoed, receive, transmit) + extra, origin, t1, t4);
      && (r.Ok? <==> echoed == origin && stratum != 0 && header % 8 == SERVER_MODE && transmit != 0)
      && (r.Ok? ==> r.value == Reading(stratum, header / 64,
              (t4 - t1) - (FromNtp(transmit) - FromNtp(receive)),
              ((FromNtp(receive) - t1) + (FromNtp(transmit) - t4)) / 2.0))
      && (r.Err? && echoed == origin && stratum == 0 ==>
            r.error == KissOfDeath(StripZeros(refid), AsksToStop(StripZeros(refid))))
  {
    var packet := ServerPacket(header, stratum, middle, refid, reference, echoed, receive, transmit);
    PacketReads(header, stratum, middle, refid, reference, echoed, receive, transmit, extra);
    hide ServerPacket, FromBigEndian, FromNtp, StripZeros, AsksToStop, Pow256;
    assert |packet + extra| >= PACKET_SIZE;
  }

  lemma PacketReads(header: byte, stratum: byte, middle: seq<byte>, refid: seq<byte>, reference: seq<byte>,
                    echoed: nat, receive: nat, transmit: nat, extra: seq<byte>)
    requires |middle| == 10 && |refid| == 4 && |reference| == 8
    requires echoed < Pow256(8) && receive < Pow256(8) && transmit < Pow256(8)
    ensures var data := ServerPacket(header, stratum, middle, refid, reference, echoed, receive, transmit) + extra;
      && data[0] == header && data[1] == stratum && data[12..16] == refid
      && FromBigEndian(data[24..32]) == echoed
      && FromBigEndian(data[32..40]) == receive
      && FromBigEndian(data[40..48]) == transmit
  {
    hide FromBigEndian, ToBigEndian, Pow256;
    BigEndianRoundTrip(echoed, 8);
    BigEndianRoundTrip(receive, 8);
    BigEndianRoundTrip(transmit, 8);
    PacketFields([header, stratum] + middle, refid, reference,
                 ToBigEndian(echoed, 8), ToBigEndian(receive, 8), ToBigEndian(transmit, 8), extra);
  }

  lemma PacketFields(start: seq<byte>, refid: seq<byte>, reference: seq<byte>,
                     o: seq<byte>, r: seq<byte>, t: seq<byte>, extra: seq<byte>)
    requires |start| == 12 && |refid| == 4 && |reference| == 8 && |o| == |r| == |t| == 8
    ensures var data := start + refid + reference + o + r + t + extra;
      data[12..16] == refid && data[24..32] == o && data[32..40] == r && data[40..48] == t
  {
    var data := start + refid + reference + o + r + t + extra;
    Middle(data, start, refid, reference + o + r + t + extra);
    Middle(data, start + refid + reference, o, r + t + extra);
    Middle(data, start + refid + reference + o, r, t + extra);
    Middle(data, start + refid + reference + o + r, t, extra);
  }

  lemma Middle(data: seq<byte>, a: seq<byte>, b: seq<byte>, c: seq<byte>)
    requires data == a + b + c
    ensures data[|a|..|a| + |b|] == b
  {
  }

  /** A code asks the client to stop exactly if it spells one of the three words. */
  lemma StopCodes(code: seq<byte>)
    ensures AsksToStop(code) <==> Spells(code, "RATE") || Spells(code, "DENY") || Spells(code, "RSTR")
  {
  }

  ghost predicate Spells(code: seq<byte>, text: string) {
    |code| == |text| && forall i :: 0 <= i < |text| ==> code[i] == text[i] as int
  }

  /** Short packets are refused first; stripping takes trailing zeros and nothing else. */
  lemma {:induction false} StrippedCode(s: seq<byte>) returns (zeros: nat)
    ensures var t := StripZeros(s);
      && |t| + zeros == |s| && t == s[..|t|] && (t != [] ==> t[|t| - 1] != 0)
      && forall i :: |t| <= i < |s| ==> s[i] == 0
  {
    if s != [] && s[|s| - 1] == 0 {
      zeros := StrippedCode(s[..|s| - 1]);
      zeros := zeros + 1;
    } else {
      zeros := 0;
    }
  }

  lemma ShortReplyIff(data: seq<byte>, origin: nat, t1: real, t4: real)
    ensures ParseReply(data, origin, t1, t4) == Err(ShortReply) <==> |data| < 48
  {
    hide FromBigEndian, FromNtp, StripZeros;
  }

  /** The era starts in 1900, and 2^31 in the fraction is half a second. */
  lemma EpochAnswers()
    ensures FromNtp(0) == -2208988800.0
    ensures FromNtp(2208988800 * 0x1_0000_0000 + 0x8000_0000) == 0.5
  {
    FromParts(2208988800, 0x8000_0000);
  }

  // ---------- what the offset is worth ----------

  /** With the server's clock ahead by `theta` and one-way delays `out` and `back`, the measured delay is their sum and
      the offset is off by half their difference: never by more than half the round trip. */
  lemma OffsetErrorBound(data: seq<byte>, origin: nat, t1: real, t4: real, theta: real, out: real, back: real)
    requires ParseReply(data, origin, t1, t4).Ok?
    requires out >= 0.0 && back >= 0.0
    requires FromNtp(FromBigEndian(data[32..40])) == t1 + out + theta
    requires FromNtp(FromBigEndian(data[40..48])) == t4 - back + theta
    ensures var r := ParseReply(data, origin, t1, t4).value;
      && r.delay == out + back
      && r.offset - theta == (out - back) / 2.0
      && -(r.delay / 2.0) <= r.offset - theta <= r.delay / 2.0
  {
    hide FromBigEndian, FromNtp;
  }

  /** A timestamp survives the 32.32 fixed-point form to within 2^-32 s exactly for times from 1970 on and for whole
      seconds: truncation toward zero is off by a second on the others. */
  lemma TimestampRoundTripIff(seconds: real)
    requires seconds > -(NTP_EPOCH_OFFSET as real)
    ensures 0.0 <= seconds - FromNtp(ToNtp(seconds)) < 1.0 / TWO_TO_32 as real
        <==> seconds >= 0.0 || seconds == seconds.Floor as real
  {
    var part := seconds - seconds.Floor as real;
    var q := EncodedValue(seconds);
    hide FromNtp, ToNtp;
    assert seconds - FromNtp(ToNtp(seconds)) == (seconds.Floor - Truncate(seconds)) as real + (part - q);
  }

  /** Half a second before 1970 comes back as half a second after. */
  lemma HalfSecondBefore1970()
    ensures FromNtp(ToNtp(-0.5)) == 0.5
  {
    var q := EncodedValue(-0.5);
    hide FromNtp, ToNtp;
    assert (-0.5).Floor == -1 && Truncate(-0.5) == 0;
  }

  /** What the fixed-point form stores: the truncated seconds and the fraction, cut at 32 bits. */
  lemma EncodedValue(seconds: real) returns (q: real)
    requires seconds > -(NTP_EPOCH_OFFSET as real)
    ensures FromNtp(ToNtp(seconds)) == Truncate(seconds) as real + q
    ensures 0.0 <= (seconds - seconds.Floor as real) - q < 1.0 / TWO_TO_32 as real && q >= 0.0
  {
    var part := seconds - seconds.Floor as real;
    var whole := Truncate(seconds) + NTP_EPOCH_OFFSET;
    var fraction := Truncate(part * TWO_TO_32 as real);
    FractionFits(part);
    Pow2Of32();
    hide Pow2, ShiftLeft, BitOr;
    ShiftLeftMultiplies(whole, 32);
    BitOrDisjoint(whole, fraction, 32);
    assert ToNtp(seconds) == whole * TWO_TO_32 + fraction;
    FromParts(whole, fraction);
    q := fraction as real / TWO_TO_32 as real;
  }

  lemma FromParts(whole: nat, fraction: nat)
    requires fraction < TWO_TO_32
    ensures FromNtp(whole * TWO_TO_32 + fraction)
         == (whole - NTP_EPOCH_OFFSET) as real + fraction as real / TWO_TO_32 as real
  {
    var value := whole * TWO_TO_32 + fraction;
    assert value / TWO_TO_32 == whole && value % TWO_TO_32 == fraction;
  }

  lemma FractionFits(part: real)
    requires 0.0 <= part < 1.0
    ensures 0 <= Truncate(part * TWO_TO_32 as real) < TWO_TO_32
    ensures 0.0 <= part - Truncate(part * TWO_TO_32 as real) as real / TWO_TO_32 as real < 1.0 / TWO_TO_32 as real
  {
  }
}
