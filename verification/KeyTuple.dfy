/** The public session-key tuple: seven keys in protocol order, written as one hexadecimal string. */
module KeyTuple {
  import opened Text

  const KEY_COUNT: nat := 7
  const TUPLE_LENGTH: nat := 454

  /** Hexadecimal width of key `k`: five 32-byte keys, then two of 33 bytes. */
  function Width(k: nat): nat {
    if k < 5 then 64 else 66
  }

  /** Where key `k` starts, after the `0x`. */
  function Offset(k: nat): nat {
    if k == 0 then 2 else Offset(k - 1) + Width(k - 1)
  }

  lemma Offsets()
    ensures Offset(0) == 2 && Offset(1) == 66 && Offset(2) == 130 && Offset(3) == 194 && Offset(4) == 258
    ensures Offset(5) == 322 && Offset(6) == 388 && Offset(7) == TUPLE_LENGTH
  {
  }

  /** Python's `s[i:j]`, for `0 <= i <= j`: cut at the end of the string. */
  function Slice(s: string, i: nat, j: nat): string
    requires i <= j
  {
    if i >= |s| then [] else if j > |s| then s[i..] else s[i..j]
  }

  /** Key `k` as the tuple spells it, in lower case and with a prefix of its own. */
  function PublicKey(tuple: string, k: nat): string {
    "0x" + Lower(Slice(tuple, Offset(k), Offset(k) + Width(k)))
  }

  /** Hexadecimal bytes with a `0x` or `0X` prefix. */
  predicate HexBytes(s: string) {
    && |s| >= 2 && |s| % 2 == 0 && s[0] == '0' && (s[1] == 'x' || s[1] == 'X')
    && forall i :: 2 <= i < |s| ==> HexDigit(s[i])
  }

  /** A malformed tuple is refused before anything is compared. */
  predicate EncodedKeys(s: string) {
    HexBytes(s) && 2 + 64 <= |s| <= 2 + 2048
  }

  predicate AccountId(s: string) {
    HexBytes(s) && |s| == 42
  }

  /** A 32- or 33-byte public key. */
  predicate PublicKeyShape(s: string) {
    HexBytes(s) && (|s| == 66 || |s| == 68)
  }

  /** The keys of a tuple joined again, without their prefixes. */
  function Joined(keys: seq<string>): string
    requires forall i :: 0 <= i < |keys| ==> |keys[i]| >= 2
  {
    if keys == [] then [] else Joined(keys[..|keys| - 1]) + Lower(keys[|keys| - 1][2..])
  }

  lemma LowerPrefix(s: string)
    requires HexBytes(s)
    ensures Lower(s)[..2] == "0x"
  {
  }

  /** Keys that agree with the first `k` positions of a long enough tuple join to that part of it. */
  lemma {:induction false} JoinedAgrees(tuple: string, keys: seq<string>)
    requires |tuple| >= Offset(|keys|)
    requires forall i :: 0 <= i < |keys| ==> |keys[i]| >= 2 && PublicKey(tuple, i) == Lower(keys[i])
    ensures Joined(keys) == Lower(tuple)[2..Offset(|keys|)]
  {
    if keys != [] {
      var k := |keys| - 1;
      var init, last := keys[..k], keys[k];
      OffsetAtLeast(k);
      JoinedAgrees(tuple, init);
      KeyInPlace(tuple, last, k);
      hide PublicKey, Lower;
      assert Lower(tuple)[2..Offset(k)] + Lower(tuple)[Offset(k)..Offset(k + 1)] == Lower(tuple)[2..Offset(k + 1)];
    }
  }

  lemma KeyInPlace(tuple: string, key: string, k: nat)
    requires |tuple| >= Offset(k + 1) && |key| >= 2 && PublicKey(tuple, k) == Lower(key)
    ensures Offset(k + 1) == Offset(k) + Width(k) && Lower(key[2..]) == Lower(tuple)[Offset(k)..Offset(k + 1)]
  {
    hide Offset;
    NextOffset(k);
    LowerSlice(tuple, Offset(k), Offset(k + 1));
    LowerSlice(key, 2, |key|);
    assert key[2..] == key[2..|key|];
    hide Lower;
    assert Slice(tuple, Offset(k), Offset(k) + Width(k)) == tuple[Offset(k)..Offset(k + 1)];
    assert Lower(key)[2..|key|] == Lower(tuple[Offset(k)..Offset(k + 1)]);
  }

  lemma NextOffset(k: nat)
    ensures Offset(k + 1) == Offset(k) + Width(k)
  {
  }

  lemma {:induction false} OffsetAtLeast(k: nat)
    ensures Offset(k) >= 2
  {
    if k > 0 {
      OffsetAtLeast(k - 1);
    }
  }

  /** And the other way: when the joined keys are the tuple, every position agrees. */
  lemma {:induction false} AgreesWhenJoined(tuple: string, keys: seq<string>, k: nat)
    requires |keys| <= KEY_COUNT && k < |keys| && |tuple| >= Offset(|keys|)
    requires forall i :: 0 <= i < |keys| ==> HexBytes(keys[i]) && 2 <= |keys[i]| == 2 + Width(i)
    requires Joined(keys) == Lower(tuple)[2..Offset(|keys|)]
    ensures PublicKey(tuple, k) == Lower(keys[k])
  {
    var n := |keys| - 1;
    var init, last := keys[..n], keys[n];
    JoinedLength(init);
    OffsetAtLeast(n);
    NextOffset(n);
    assert Joined(keys) == Joined(init) + Lower(last[2..]);
    hide Joined, Offset, PublicKey, HexBytes, Lower;
    var body := Lower(tuple)[2..Offset(n + 1)];
    assert Joined(init) == body[..Offset(n) - 2] == Lower(tuple)[2..Offset(n)];
    if k < n {
      AgreesWhenJoined(tuple, init, k);
    } else {
      assert Lower(last[2..]) == body[Offset(n) - 2..] == Lower(tuple)[Offset(n)..Offset(n + 1)];
      PlacedKey(tuple, last, n);
    }
  }

  lemma PlacedKey(tuple: string, key: string, k: nat)
    requires |tuple| >= Offset(k + 1) == Offset(k) + Width(k) && HexBytes(key)
    requires Lower(key[2..]) == Lower(tuple)[Offset(k)..Offset(k + 1)]
    ensures PublicKey(tuple, k) == Lower(key)
  {
    hide Offset;
    LowerSlice(tuple, Offset(k), Offset(k + 1));
    LowerPrefix(key);
    LowerConcat(key[..2], key[2..]);
    assert key == key[..2] + key[2..];
    LowerSlice(key, 0, 2);
    hide Lower, HexBytes;
    assert Slice(tuple, Offset(k), Offset(k) + Width(k)) == tuple[Offset(k)..Offset(k + 1)];
  }

  lemma {:induction false} JoinedLength(keys: seq<string>)
    requires forall i :: 0 <= i < |keys| ==> 2 <= |keys[i]| == 2 + Width(i)
    ensures |Joined(keys)| == Offset(|keys|) - 2
  {
    if keys != [] {
      JoinedLength(keys[..|keys| - 1]);
    }
  }
}
