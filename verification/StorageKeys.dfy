/** Substrate storage keys from the hash: pallet and item prefixes, and account-keyed map entries. */
module StorageKeys {
  import opened Bytes
  import opened Results
  import opened Text
  import opened Word64
  import XxHash64
  import XxHashAnswers
  import XxHashNumbers
  import XxHashSeparation
  import KeyTuple

  function Twox128(value: seq<byte>): (r: seq<byte>)
    ensures |r| == 16
  {
    ToLittleEndian(XxHash64.Hash(value, 0), 8) + ToLittleEndian(XxHash64.Hash(value, 1), 8)
  }

  /** Hexadecimal digit of a value below 16, in lower case. */
  function Digit(n: nat): char
    requires n < 16
  {
    if n < 10 then ('0' as int + n) as char else ('a' as int + (n - 10)) as char
  }

  function DigitValue(c: char): nat
    requires HexDigit(c)
  {
    if c <= '9' then c as int - '0' as int
    else if c <= 'F' then c as int - 'A' as int + 10
    else c as int - 'a' as int + 10
  }

  /** `bytes.hex()`. */
  function ToHex(s: seq<byte>): (r: string)
    ensures |r| == 2 * |s|
  {
    if s == [] then [] else [Digit(s[0] / 16), Digit(s[0] % 16)] + ToHex(s[1..])
  }

  /** `bytes.fromhex`. */
  function FromHex(r: string): (s: seq<byte>)
    requires |r| % 2 == 0 && forall i :: 0 <= i < |r| ==> HexDigit(r[i])
    ensures 2 * |s| == |r|
  {
    if r == [] then [] else [16 * DigitValue(r[0]) + DigitValue(r[1])] + FromHex(r[2..])
  }

  lemma DigitRoundTrip(c: char)
    requires HexDigit(c)
    ensures DigitValue(c) < 16 && Digit(DigitValue(c)) == LowerChar(c)
  {
  }

  lemma ToHexCons(v: byte, rest: seq<byte>)
    ensures ToHex([v] + rest) == [Digit(v / 16), Digit(v % 16)] + ToHex(rest)
  {
    assert ([v] + rest)[1..] == rest;
  }

  lemma LowerCons(r: string)
    requires |r| >= 2
    ensures Lower(r) == [LowerChar(r[0]), LowerChar(r[1])] + Lower(r[2..])
  {
  }

  lemma {:induction false} HexRoundTrip(r: string)
    requires |r| % 2 == 0 && forall i :: 0 <= i < |r| ==> HexDigit(r[i])
    ensures ToHex(FromHex(r)) == Lower(r)
  {
    if r != [] {
      hide Digit, DigitValue, LowerChar, HexDigit, Lower, ToHex;
      var high, low := DigitValue(r[0]), DigitValue(r[1]);
      DigitRoundTrip(r[0]);
      DigitRoundTrip(r[1]);
      assert (16 * high + low) / 16 == high && (16 * high + low) % 16 == low;
      HexRoundTrip(r[2..]);
      ToHexCons(16 * high + low, FromHex(r[2..]));
      LowerCons(r);
    }
  }

  lemma {:induction false} ToHexInjective(a: seq<byte>, b: seq<byte>)
    requires ToHex(a) == ToHex(b)
    ensures a == b
  {
    if a != [] {
      assert b != [];
      var x, y := ToHex(a), ToHex(b);
      assert x[0] == y[0] && x[1] == y[1];
      assert ToHex(a[1..]) == x[2..] && ToHex(b[1..]) == y[2..];
      ToHexInjective(a[1..], b[1..]);
    }
  }

  function StorageValueKey(pallet: seq<byte>, item: seq<byte>): string {
    "0x" + ToHex(Twox128(pallet) + Twox128(item))
  }

  datatype KeyError = NotAnAccount

  function AccountBytes(account: string): (r: seq<byte>)
    requires KeyTuple.AccountId(account)
    ensures |r| == 20
  {
    var digits := account[2..];
    assert |digits| == 2 * 20;
    FromHex(digits)
  }

  function MapSuffix(encoded: seq<byte>): seq<byte> {
    ToLittleEndian(XxHash64.Hash(encoded, 0), 8) + encoded
  }

  function StorageMapKey(pallet: seq<byte>, item: seq<byte>, account: string): Result<string, KeyError> {
    if !KeyTuple.AccountId(account) then Err(NotAnAccount)
    else Ok("0x" + ToHex(Twox128(pallet) + Twox128(item) + MapSuffix(AccountBytes(account))))
  }

  lemma {:induction false} ToHexConcat(a: seq<byte>, b: seq<byte>)
    ensures ToHex(a + b) == ToHex(a) + ToHex(b)
  {
    if a == [] {
      assert a + b == b;
    } else {
      assert (a + b)[1..] == a[1..] + b;
      ToHexConcat(a[1..], b);
    }
  }

  lemma ToHexParts(prefix: seq<byte>, hash: seq<byte>, encoded: seq<byte>)
    ensures "0x" + ToHex(prefix + (hash + encoded)) == ("0x" + ToHex(prefix)) + ToHex(hash) + ToHex(encoded)
  {
    hide ToHex;
    ToHexConcat(prefix, hash + encoded);
    ToHexConcat(hash, encoded);
  }

  lemma SplitThree(p: string, h: string, s: string, p': string, h': string, s': string)
    requires |p| == |p'| && |h| == |h'|
    ensures (p + h + s)[|p| + |h|..] == s
    ensures p + h + s == p' + h' + s' <==> p == p' && h == h' && s == s'
  {
    var k, k' := p + h + s, p' + h' + s';
    assert k[..|p|] == p && k[|p|..|p| + |h|] == h && k[|p| + |h|..] == s;
    assert k'[..|p|] == p' && k'[|p|..|p| + |h|] == h' && k'[|p| + |h|..] == s';
  }

  /** The map key as value key, hash of the account, account. */
  lemma MapKeyParts(pallet: seq<byte>, item: seq<byte>, account: string) returns (hash: string)
    requires KeyTuple.AccountId(account)
    ensures StorageMapKey(pallet, item, account) == Ok(StorageValueKey(pallet, item) + hash + Lower(account[2..]))
    ensures |StorageValueKey(pallet, item)| == 66 && |hash| == 16
    ensures hash == ToHex(ToLittleEndian(XxHash64.Hash(AccountBytes(account), 0), 8))
  {
    var encoded := AccountBytes(account);
    HexRoundTrip(account[2..]);
    hide ToHex, FromHex, Twox128, ToLittleEndian, XxHash64.Hash;
    var h := ToLittleEndian(XxHash64.Hash(encoded, 0), 8);
    hash := ToHex(h);
    ToHexParts(Twox128(pallet) + Twox128(item), h, encoded);
  }

  /** A map key can be read back: two are equal exactly when their prefixes are and the accounts are the same up to
      case, and the account is its last forty digits. */
  lemma MapKeysSeparateAccounts(pallet: seq<byte>, item: seq<byte>, account: string,
                                pallet': seq<byte>, item': seq<byte>, account': string)
    requires KeyTuple.AccountId(account) && KeyTuple.AccountId(account')
    ensures StorageMapKey(pallet, item, account).Ok? && |StorageMapKey(pallet, item, account).value| == 122
    ensures StorageMapKey(pallet, item, account).value[82..] == Lower(account[2..])
    ensures StorageMapKey(pallet, item, account) == StorageMapKey(pallet', item', account') <==>
      StorageValueKey(pallet, item) == StorageValueKey(pallet', item') && Lower(account) == Lower(account')
  {
    var h := MapKeyParts(pallet, item, account);
    var h' := MapKeyParts(pallet', item', account');
    LowerAccount(account);
    LowerAccount(account');
    var s, s' := Lower(account[2..]), Lower(account'[2..]);
    SplitThree(StorageValueKey(pallet, item), h, s, StorageValueKey(pallet', item'), h', s');
    if s == s' {
      SameAccount(account, account');
    }
    hide ToHex, FromHex, Twox128, ToLittleEndian, StorageValueKey, StorageMapKey, XxHash64.Hash, Lower,
      KeyTuple.HexBytes;
    assert Lower(account)[2..] == s && Lower(account')[2..] == s';
  }

  lemma LowerAccount(account: string)
    requires KeyTuple.AccountId(account)
    ensures Lower(account) == "0x" + Lower(account[2..])
  {
    KeyTuple.LowerPrefix(account);
  }

  lemma SameAccount(a: string, b: string)
    requires KeyTuple.AccountId(a) && KeyTuple.AccountId(b) && Lower(a[2..]) == Lower(b[2..])
    ensures AccountBytes(a) == AccountBytes(b)
  {
    HexRoundTrip(a[2..]);
    HexRoundTrip(b[2..]);
    ToHexInjective(AccountBytes(a), AccountBytes(b));
  }

  /** For names under 32 bytes, the two halves of a `twox128` are never the same. */
  lemma TwoxHalvesDiffer(value: seq<byte>)
    requires |value| < 32
    ensures Twox128(value)[..8] != Twox128(value)[8..]
  {
    hide XxHash64.Hash, ToLittleEndian, FromLittleEndian;
    XxHashSeparation.SeparatesSeeds(value, 0, 1);
    var low, high := XxHash64.Hash(value, 0), XxHash64.Hash(value, 1);
    assert Pow256(8) == M;
    FromToLittleEndian(low, 8);
    FromToLittleEndian(high, 8);
  }

  lemma ToHexOfFour(s: seq<byte>)
    requires |s| == 4
    ensures ToHex(s) == [Digit(s[0] / 16), Digit(s[0] % 16), Digit(s[1] / 16), Digit(s[1] % 16),
                         Digit(s[2] / 16), Digit(s[2] % 16), Digit(s[3] / 16), Digit(s[3] % 16)]
  {
    hide Digit;
    assert s == [s[0]] + ([s[1]] + ([s[2]] + ([s[3]] + [])));
    ToHexCons(s[0], [s[1]] + ([s[2]] + ([s[3]] + [])));
    ToHexCons(s[1], [s[2]] + ([s[3]] + []));
    ToHexCons(s[2], [s[3]] + []);
    ToHexCons(s[3], []);
  }

  lemma SessionHalves()
    ensures ToLittleEndian(0x49d39d600d07c5ce, 8) == [0xce, 0xc5, 0x07, 0x0d] + [0x60, 0x9d, 0xd3, 0x49]
    ensures ToLittleEndian(0xa06bc97fe0bd727f, 8) == [0x7f, 0x72, 0xbd, 0xe0] + [0x7f, 0xc9, 0x6b, 0xa0]
  {
    var low: seq<byte> := [0xce, 0xc5, 0x07, 0x0d] + [0x60, 0x9d, 0xd3, 0x49];
    var high: seq<byte> := [0x7f, 0x72, 0xbd, 0xe0] + [0x7f, 0xc9, 0x6b, 0xa0];
    XxHashNumbers.EightBytes(low);
    XxHashNumbers.EightBytes(high);
    hide FromLittleEndian, ToLittleEndian;
    ToFromLittleEndian(low);
    ToFromLittleEndian(high);
  }

  lemma LowDigits()
    ensures ToHex([0xce, 0xc5, 0x07, 0x0d]) == "cec5070d" && ToHex([0x60, 0x9d, 0xd3, 0x49]) == "609dd349"
  {
    ToHexOfFour([0xce, 0xc5, 0x07, 0x0d]);
    ToHexOfFour([0x60, 0x9d, 0xd3, 0x49]);
    hide ToHex;
  }

  lemma HighDigits()
    ensures ToHex([0x7f, 0x72, 0xbd, 0xe0]) == "7f72bde0" && ToHex([0x7f, 0xc9, 0x6b, 0xa0]) == "7fc96ba0"
  {
    ToHexOfFour([0x7f, 0x72, 0xbd, 0xe0]);
    ToHexOfFour([0x7f, 0xc9, 0x6b, 0xa0]);
    hide ToHex;
  }

  lemma AllDigits()
    ensures ("cec5070d" + "609dd349") + ("7f72bde0" + "7fc96ba0") == "cec5070d609dd3497f72bde07fc96ba0"
  {
  }

  /** The prefix of every key of the session pallet, in hexadecimal. */
  lemma SessionPrefix(value: seq<byte>)
    requires XxHashAnswers.Spells(value, "Session")
    ensures ToHex(Twox128(value)) == "cec5070d609dd3497f72bde07fc96ba0"
  {
    hide *;
    XxHashAnswers.SessionAnswer(value);
    SessionHalves();
    LowDigits();
    HighDigits();
    AllDigits();
    TwoxHalves(value);
    var low, high := ToLittleEndian(0x49d39d600d07c5ce, 8), ToLittleEndian(0xa06bc97fe0bd727f, 8);
    ToHexConcat(low, high);
    ToHexConcat([0xce, 0xc5, 0x07, 0x0d], [0x60, 0x9d, 0xd3, 0x49]);
    ToHexConcat([0x7f, 0x72, 0xbd, 0xe0], [0x7f, 0xc9, 0x6b, 0xa0]);
  }

  lemma TwoxHalves(value: seq<byte>)
    ensures Twox128(value)
         == ToLittleEndian(XxHash64.Hash(value, 0), 8) + ToLittleEndian(XxHash64.Hash(value, 1), 8)
  {
  }
}
