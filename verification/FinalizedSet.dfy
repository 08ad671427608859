/** From the raw finalized `Session.Validators` storage to membership: decoding, hexadecimal and case together. */
module FinalizedSet {
  import opened Bytes
  import opened Results
  import opened ScaleVector
  import opened StorageKeys
  import opened Text
  import KeyTuple
  import TransitionGate

  const ACCOUNT_WIDTH: nat := 20

  /** The active validators: each 20-byte account of the stored vector, as a hexadecimal string. */
  function ActiveSet(raw: Option<seq<byte>>): Result<seq<string>, DecodeError> {
    match DecodeFixedVector(raw, ACCOUNT_WIDTH)
    case Err(error) => Err(error)
    case Ok(entries) => Ok(seq(|entries|, i requires 0 <= i < |entries| => "0x" + ToHex(entries[i])))
  }

  lemma {:induction false} ToHexIsLower(s: seq<byte>)
    ensures Lower(ToHex(s)) == ToHex(s)
  {
    if s != [] {
      ToHexIsLower(s[1..]);
      var head := [Digit(s[0] / 16), Digit(s[0] % 16)];
      LowerConcat(head, ToHex(s[1..]));
      assert Lower(head) == head;
    }
  }

  /** A decoded entry and an account given in any case are textually the same exactly when their bytes are. */
  lemma EntryIsAccount(entry: seq<byte>, account: string)
    requires KeyTuple.AccountId(account)
    ensures Lower("0x" + ToHex(entry)) == Lower(account) <==> entry == AccountBytes(account)
  {
    ToHexIsLower(entry);
    LowerConcat("0x", ToHex(entry));
    assert Lower("0x") == "0x";
    LowerAccount(account);
    HexRoundTrip(account[2..]);
    if Lower("0x" + ToHex(entry)) == Lower(account) {
      assert ToHex(entry) == Lower(account)[2..] == ToHex(AccountBytes(account));
      ToHexInjective(entry, AccountBytes(account));
    }
  }

  /** Whatever validator set the chain stores, it decodes, and the gates count an account as active exactly when it is
      one of its members. */
  lemma ActiveIffStored(validators: seq<seq<byte>>, i: TransitionGate.Inputs)
    requires |validators| < Pow256(67) && forall k :: 0 <= k < |validators| ==> |validators[k]| == ACCOUNT_WIDTH
    requires KeyTuple.AccountId(i.account)
    ensures ActiveSet(Some(EncodeFixedVector(validators))).Ok?
    ensures i.activeSet == ActiveSet(Some(EncodeFixedVector(validators))).value ==>
      (TransitionGate.ActiveMember(i) <==> AccountBytes(i.account) in validators)
  {
    VectorRoundTrip(validators, ACCOUNT_WIDTH);
    hide EncodeFixedVector, DecodeFixedVector, Pow256, ToHex, AccountBytes, KeyTuple.HexBytes,
      KeyTuple.AccountId, Lower;
    if i.activeSet == ActiveSet(Some(EncodeFixedVector(validators))).value {
      forall k | 0 <= k < |validators|
        ensures Lower(i.activeSet[k]) == Lower(i.account) <==> validators[k] == AccountBytes(i.account)
      {
        EntryIsAccount(validators[k], i.account);
      }
      hide ActiveSet;
      SameMembers(i.activeSet, validators, i.account);
    }
  }

  lemma SameMembers(active: seq<string>, validators: seq<seq<byte>>, account: string)
    requires KeyTuple.AccountId(account) && |active| == |validators|
    requires forall k :: 0 <= k < |active| ==>
      (Lower(active[k]) == Lower(account) <==> validators[k] == AccountBytes(account))
    ensures TransitionGate.InLower(Lower(account), active) <==> AccountBytes(account) in validators
  {
    hide AccountBytes, KeyTuple.AccountId, Lower;
  }
}
