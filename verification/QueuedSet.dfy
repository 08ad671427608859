/** The queued validator set: its validation, and the comparison of the candidate's queued tuple with the local one. */
module QueuedSet {
  import opened KeyTuple
  import opened Results
  import opened Text

  datatype QueuedKey = QueuedKey(name: string, keyType: string, public: string)

  datatype Entry = Entry(account: string, sessionKeys: seq<QueuedKey>, matchesCandidate: bool)

  const KEY_TYPES: seq<string> :=
    ["grandpa", "babe", "imOnline", "authorityDiscovery", "mixnet", "beefy", "temporal"]
  const SESSION_KEY_TYPES: seq<string> := ["gran", "babe", "imon", "audi", "mixn", "beef", "temp"]
  const MAX_VALIDATOR_SET: nat := 4096

  // ---------- validation ----------

  predicate WellFormedEntry(e: Entry) {
    && AccountId(e.account)
    && |e.sessionKeys| == KEY_COUNT
    && forall i :: 0 <= i < KEY_COUNT ==> WellFormedKey(e.sessionKeys[i], i)
  }

  predicate WellFormedKey(key: QueuedKey, i: nat)
    requires i < KEY_COUNT
  {
    && key.name == KEY_TYPES[i] && key.keyType == SESSION_KEY_TYPES[i]
    && HexBytes(key.public) && |key.public| == 2 + Width(i)
  }

  /** What acceptance means: bounded, well-formed, and no account twice in any spelling. */
  ghost predicate ValidQueuedSet(queued: seq<Entry>, active: seq<string>) {
    && |queued| <= MAX_VALIDATOR_SET && |active| <= MAX_VALIDATOR_SET
    && (forall i :: 0 <= i < |queued| ==> WellFormedEntry(queued[i]))
    && (forall i, j :: 0 <= i < j < |queued| ==> Lower(queued[i].account) != Lower(queued[j].account))
    && (forall i :: 0 <= i < |active| ==> AccountId(active[i]))
  }

  /** The seven keys of an entry: name, type and number of hexadecimal digits. */
  const KEYS_IN_ORDER: seq<(string, string, nat)> := [
    ("grandpa", "gran", 64), ("babe", "babe", 64), ("imOnline", "imon", 64), ("authorityDiscovery", "audi", 64),
    ("mixnet", "mixn", 64), ("beefy", "beef", 66), ("temporal", "temp", 66)]

  predicate HexOf(s: string, digits: nat) {
    && |s| == 2 + digits && s[0] == '0' && (s[1] == 'x' || s[1] == 'X')
    && forall k :: 2 <= k < |s| ==> '0' <= s[k] <= '9' || 'a' <= s[k] <= 'f' || 'A' <= s[k] <= 'F'
  }

  /** The same in the fields of the entries. */
  ghost predicate ValidInFields(queued: seq<Entry>, active: seq<string>) {
    && |queued| <= 4096 && |active| <= 4096
    && (forall i :: 0 <= i < |active| ==> HexOf(active[i], 40))
    && (forall i :: 0 <= i < |queued| ==> EntryInFields(queued[i]))
    && (forall i, j :: 0 <= i < j < |queued| ==> Lower(queued[i].account) != Lower(queued[j].account))
  }

  ghost predicate EntryInFields(e: Entry) {
    && HexOf(e.account, 40) && |e.sessionKeys| == 7
    && forall k :: 0 <= k < 7 ==>
         && e.sessionKeys[k].name == KEYS_IN_ORDER[k].0 && e.sessionKeys[k].keyType == KEYS_IN_ORDER[k].1
         && HexOf(e.sessionKeys[k].public, KEYS_IN_ORDER[k].2)
  }

  lemma HexOfIff(s: string, digits: nat)
    requires digits % 2 == 0
    ensures HexOf(s, digits) <==> HexBytes(s) && |s| == 2 + digits
  {
  }

  lemma EntryIff(e: Entry)
    ensures EntryInFields(e) <==> WellFormedEntry(e)
  {
    HexOfIff(e.account, 40);
    if |e.sessionKeys| == 7 {
      forall k | 0 <= k < 7
        ensures KEYS_IN_ORDER[k].2 == Width(k)
        ensures HexOf(e.sessionKeys[k].public, Width(k)) <==>
          HexBytes(e.sessionKeys[k].public) && |e.sessionKeys[k].public| == 2 + Width(k)
      {
        HexOfIff(e.sessionKeys[k].public, Width(k));
      }
      hide HexOf, HexBytes, Width;
      assert forall k :: 0 <= k < 7 ==> KEYS_IN_ORDER[k].0 == KEY_TYPES[k];
      assert forall k :: 0 <= k < 7 ==> KEYS_IN_ORDER[k].1 == SESSION_KEY_TYPES[k];
    }
  }

  lemma ValidIff(queued: seq<Entry>, active: seq<string>)
    ensures ValidInFields(queued, active) <==> ValidQueuedSet(queued, active)
  {
    forall i | 0 <= i < |queued|
      ensures EntryInFields(queued[i]) <==> WellFormedEntry(queued[i])
    {
      EntryIff(queued[i]);
    }
    forall i | 0 <= i < |active|
      ensures HexOf(active[i], 40) <==> AccountId(active[i])
    {
      HexOfIff(active[i], 40);
    }
    hide EntryInFields, WellFormedEntry, HexOf, AccountId, Lower;
  }

  method ValidateQueuedSet(queued: seq<Entry>, active: seq<string>) returns (ok: bool)
    ensures ok <==> ValidQueuedSet(queued, active)
    ensures ok <==> ValidInFields(queued, active)
  {
    ValidIff(queued, active);
    hide WellFormedKey, Lower, AccountId, ValidInFields;
    if |queued| > MAX_VALIDATOR_SET { return false; }
    var accounts: set<string> := {};
    for k := 0 to |queued|
      invariant accounts == set i | 0 <= i < k :: Lower(queued[i].account)
      invariant forall i :: 0 <= i < k ==> WellFormedEntry(queued[i])
      invariant forall i, j :: 0 <= i < j < k ==> Lower(queued[i].account) != Lower(queued[j].account)
    {
      var entry := queued[k];
      if !AccountId(entry.account) { return false; }
      if Lower(entry.account) in accounts {
        ghost var i :| 0 <= i < k && Lower(queued[i].account) == Lower(entry.account);
        return false;
      }
      accounts := accounts + {Lower(entry.account)};
      if |entry.sessionKeys| != KEY_COUNT { return false; }
      for index := 0 to |entry.sessionKeys|
        invariant forall i :: 0 <= i < index ==> WellFormedKey(entry.sessionKeys[i], i)
      {
        if !WellFormedKey(entry.sessionKeys[index], index) { return false; }
      }
    }
    ok := |active| <= MAX_VALIDATOR_SET && forall i :: 0 <= i < |active| ==> AccountId(active[i]);
  }

  // ---------- the candidate's entry ----------

  function FindEntry(queued: seq<Entry>, account: string): Option<Entry> {
    if queued == [] then None
    else if Lower(queued[0].account) == Lower(account) then Some(queued[0])
    else FindEntry(queued[1..], account)
  }

  lemma {:induction false} FindEntryFinds(queued: seq<Entry>, account: string)
    ensures var e := FindEntry(queued, account);
      && (e.None? <==> forall q :: q in queued ==> Lower(q.account) != Lower(account))
      && (e.Some? ==> e.value in queued && Lower(e.value.account) == Lower(account))
  {
    if queued != [] {
      FindEntryFinds(queued[1..], account);
      assert queued == [queued[0]] + queued[1..];
    }
  }

  /** In an accepted set the entry does not depend on the order of the list. */
  lemma FindEntryAnyOrder(queued: seq<Entry>, other: seq<Entry>, active: seq<string>, account: string)
    requires ValidQueuedSet(queued, active) && multiset(queued) == multiset(other)
    ensures FindEntry(queued, account) == FindEntry(other, account)
  {
    FindEntryFinds(queued, account);
    FindEntryFinds(other, account);
    hide WellFormedEntry, Lower, AccountId, FindEntry;
    var a, b := FindEntry(queued, account), FindEntry(other, account);
    assert forall q :: q in other <==> q in multiset(other);
    assert forall q :: q in queued <==> q in multiset(queued);
    if a.Some? {
      assert a.value in other;
      assert b.Some?;
      var i :| 0 <= i < |queued| && queued[i] == a.value;
      assert b.value in queued;
      var j :| 0 <= j < |queued| && queued[j] == b.value;
      assert i == j;
    }
  }

  // ---------- the comparison ----------

  /** Positions at which the local tuple differs from the queued keys, in protocol order, by name. */
  function Differing(keys: seq<QueuedKey>, local: string, k: nat): seq<string>
    requires k <= |keys|
  {
    if k == 0 then []
    else
      Differing(keys, local, k - 1)
      + (if PublicKey(local, k - 1) != Lower(keys[k - 1].public) then [keys[k - 1].name] else [])
  }

  function Mismatched(entry: Entry, local: string): seq<string> {
    var names := Differing(entry.sessionKeys, local, |entry.sessionKeys|);
    if names == [] && |local| != Offset(|entry.sessionKeys|) then ["tuple length"] else names
  }

  method CompareTuple(entry: Entry, local: string) returns (mismatched: seq<string>)
    requires |entry.sessionKeys| == KEY_COUNT
    ensures mismatched == Mismatched(entry, local)
  {
    mismatched := [];
    var offset := 2;
    for k := 0 to KEY_COUNT
      invariant offset == Offset(k) && mismatched == Differing(entry.sessionKeys, local, k)
    {
      var key, width := entry.sessionKeys[k], Width(k);
      if "0x" + Lower(Slice(local, offset, offset + width)) != Lower(key.public) {
        mismatched := mismatched + [key.name];
      }
      offset := offset + width;
    }
    if offset != |local| && mismatched == [] {
      mismatched := mismatched + ["tuple length"];
    }
  }

  function Publics(entry: Entry): seq<string> {
    seq(|entry.sessionKeys|, i requires 0 <= i < |entry.sessionKeys| => entry.sessionKeys[i].public)
  }

  lemma {:induction false} NothingDiffers(keys: seq<QueuedKey>, local: string, k: nat)
    requires k <= |keys|
    ensures Differing(keys, local, k) == [] <==> forall i :: 0 <= i < k ==> PublicKey(local, i) == Lower(keys[i].public)
  {
    hide PublicKey, Lower;
    if k > 0 {
      NothingDiffers(keys, local, k - 1);
    }
  }

  lemma {:induction false} DifferingNames(keys: seq<QueuedKey>, local: string, k: nat, i: nat)
    requires i < k <= |keys|
    requires forall m, n :: 0 <= m < n < k ==> keys[m].name != keys[n].name
    ensures keys[i].name in Differing(keys, local, k) <==> PublicKey(local, i) != Lower(keys[i].public)
  {
    hide PublicKey, Lower;
    if i < k - 1 {
      DifferingNames(keys, local, k - 1, i);
    } else {
      DifferingAmong(keys, local, k - 1, keys[i].name);
    }
  }

  lemma {:induction false} DifferingAmong(keys: seq<QueuedKey>, local: string, k: nat, name: string)
    requires k <= |keys| && forall i :: 0 <= i < k ==> keys[i].name != name
    ensures name !in Differing(keys, local, k)
  {
    hide PublicKey, Lower;
    if k > 0 {
      DifferingAmong(keys, local, k - 1, name);
    }
  }

  /** The names come in protocol order, each once. */
  lemma {:induction false} DifferingInOrder(keys: seq<QueuedKey>, local: string, k: nat) returns (positions: seq<nat>)
    requires k <= |keys|
    ensures |positions| == |Differing(keys, local, k)|
    ensures forall n :: 0 <= n < |positions| ==>
      positions[n] < k && Differing(keys, local, k)[n] == keys[positions[n]].name
    ensures forall m, n :: 0 <= m < n < |positions| ==> positions[m] < positions[n]
  {
    hide PublicKey, Lower;
    if k == 0 {
      positions := [];
    } else {
      positions := DifferingInOrder(keys, local, k - 1);
      if PublicKey(local, k - 1) != Lower(keys[k - 1].public) {
        positions := positions + [k - 1];
      }
    }
  }

  lemma KeyNamesDistinct()
    ensures forall i, j :: 0 <= i < j < KEY_COUNT ==> KEY_TYPES[i] != KEY_TYPES[j]
  {
    assert |KEY_TYPES[0]| == 7 && |KEY_TYPES[1]| == 4 && |KEY_TYPES[2]| == 8 && |KEY_TYPES[3]| == 18;
    assert |KEY_TYPES[4]| == 6 && |KEY_TYPES[5]| == 5 && |KEY_TYPES[6]| == 8;
    assert KEY_TYPES[2][0] == 'i' && KEY_TYPES[6][0] == 't';
  }

  ghost predicate AllAgree(entry: Entry, local: string)
    requires |entry.sessionKeys| == KEY_COUNT
  {
    forall i :: 0 <= i < KEY_COUNT ==> PublicKey(local, i) == Lower(entry.sessionKeys[i].public)
  }

  lemma PublicsShape(entry: Entry)
    requires WellFormedEntry(entry)
    ensures |Publics(entry)| == KEY_COUNT
    ensures forall i :: 0 <= i < KEY_COUNT ==>
      && Publics(entry)[i] == entry.sessionKeys[i].public
      && HexBytes(Publics(entry)[i]) && 2 <= |Publics(entry)[i]| == 2 + Width(i)
      && entry.sessionKeys[i].name == KEY_TYPES[i]
  {
    hide HexBytes;
    assert forall i :: 0 <= i < KEY_COUNT ==> WellFormedKey(entry.sessionKeys[i], i);
  }

  /** Every key of a full-length tuple agrees exactly when the queued keys, joined, are the tuple. */
  lemma AgreeIffJoined(entry: Entry, local: string)
    requires WellFormedEntry(entry) && |local| == TUPLE_LENGTH
    requires |Publics(entry)| == KEY_COUNT && forall i :: 0 <= i < KEY_COUNT ==> 2 <= |Publics(entry)[i]|
    ensures AllAgree(entry, local) <==> Lower(local)[2..] == Joined(Publics(entry))
  {
    Offsets();
    PublicsShape(entry);
    var publics := Publics(entry);
    hide PublicKey, Lower, HexBytes, Offset, Publics, WellFormedEntry, Joined;
    assert Lower(local)[2..] == Lower(local)[2..TUPLE_LENGTH];
    if AllAgree(entry, local) {
      JoinedAgrees(local, publics);
    }
    if Lower(local)[2..] == Joined(publics) {
      forall i | 0 <= i < KEY_COUNT
        ensures PublicKey(local, i) == Lower(entry.sessionKeys[i].public)
      {
        AgreesWhenJoined(local, publics, i);
      }
    }
  }

  /** A tuple matches exactly when it is the queued keys joined, in length and content. */
  lemma MatchesIffJoined(entry: Entry, local: string)
    requires WellFormedEntry(entry)
    ensures |Publics(entry)| == KEY_COUNT && forall i :: 0 <= i < KEY_COUNT ==> 2 <= |Publics(entry)[i]|
    ensures Mismatched(entry, local) == [] <==>
      |local| == TUPLE_LENGTH && Lower(local)[2..] == Joined(Publics(entry))
  {
    Offsets();
    NamesDistinct(entry);
    PublicsShape(entry);
    NothingDiffers(entry.sessionKeys, local, KEY_COUNT);
    hide PublicKey, Lower, HexBytes, Offset, Publics, WellFormedEntry, Joined, Differing;
    if |local| == TUPLE_LENGTH {
      AgreeIffJoined(entry, local);
    }
  }

  /** Otherwise exactly the differing keys are named, or the length when every key agrees. */
  lemma MismatchNamed(entry: Entry, local: string, i: nat)
    requires WellFormedEntry(entry) && i < KEY_COUNT
    ensures entry.sessionKeys[i].name in Mismatched(entry, local)
        <==> PublicKey(local, i) != Lower(entry.sessionKeys[i].public)
    ensures "tuple length" in Mismatched(entry, local) <==> |local| != TUPLE_LENGTH && AllAgree(entry, local)
  {
    Offsets();
    NamesDistinct(entry);
    NothingDiffers(entry.sessionKeys, local, KEY_COUNT);
    DifferingNames(entry.sessionKeys, local, KEY_COUNT, i);
    DifferingAmong(entry.sessionKeys, local, KEY_COUNT, "tuple length");
    hide PublicKey, Lower, Offset, WellFormedEntry, Differing;
    var names := Differing(entry.sessionKeys, local, KEY_COUNT);
    if names == [] && |local| != TUPLE_LENGTH {
      assert Mismatched(entry, local) == ["tuple length"];
    } else {
      assert Mismatched(entry, local) == names;
    }
  }

  lemma NamesDistinct(entry: Entry)
    requires WellFormedEntry(entry)
    ensures |entry.sessionKeys| == KEY_COUNT
    ensures forall i, j :: 0 <= i < j < KEY_COUNT ==> entry.sessionKeys[i].name != entry.sessionKeys[j].name
    ensures forall i :: 0 <= i < KEY_COUNT ==> entry.sessionKeys[i].name != "tuple length"
  {
    KeyNamesDistinct();
    NoKeyIsCalledTupleLength();
    hide HexBytes, AccountId;
    assert forall i :: 0 <= i < KEY_COUNT ==> WellFormedKey(entry.sessionKeys[i], i);
    assert forall i :: 0 <= i < KEY_COUNT ==> KEY_TYPES[i] in KEY_TYPES;
  }

  lemma NoKeyIsCalledTupleLength()
    ensures "tuple length" !in KEY_TYPES
  {
    assert |"tuple length"| == 12;
    assert |KEY_TYPES[0]| == 7 && |KEY_TYPES[1]| == 4 && |KEY_TYPES[2]| == 8 && |KEY_TYPES[3]| == 18;
    assert |KEY_TYPES[4]| == 6 && |KEY_TYPES[5]| == 5 && |KEY_TYPES[6]| == 8;
  }

  // ---------- evidence ----------

  datatype QueuedFailure = TupleMismatch(names: seq<string>) | EntryFlagged

  /** `candidate` is the queued entry found; `matchesLocal` is `None` when nothing was compared;
      `inActive` is `None` when the node predates the raw sets. */
  datatype Evidence = Evidence(candidate: Option<Entry>, matchesLocal: Option<bool>, inActive: Option<bool>)

  datatype RawSets = RawSets(queued: seq<Entry>, active: seq<string>)

  function QueuedSetEvidence(sets: Option<RawSets>, account: string, local: Option<string>)
    : (Evidence, seq<QueuedFailure>)
  {
    if sets.None? then (Evidence(None, None, None), [])
    else
      var entry := FindEntry(sets.value.queued, account);
      var inActive := exists i :: 0 <= i < |sets.value.active| && Lower(sets.value.active[i]) == Lower(account);
      if entry.None? || local.None? then (Evidence(entry, None, Some(inActive)), [])
      else
        var names := Mismatched(entry.value, local.value);
        (Evidence(entry, Some(names == []), Some(inActive)),
         if names != [] then [TupleMismatch(names)]
         else if !entry.value.matchesCandidate then [EntryFlagged]
         else [])
  }

  /** The whole result is unchanged by any reordering of an accepted queued list. */
  lemma EvidenceAnyOrder(
      queued: seq<Entry>, other: seq<Entry>, active: seq<string>, account: string, local: Option<string>)
    requires ValidQueuedSet(queued, active) && multiset(queued) == multiset(other)
    ensures QueuedSetEvidence(Some(RawSets(queued, active)), account, local)
         == QueuedSetEvidence(Some(RawSets(other, active)), account, local)
  {
    FindEntryAnyOrder(queued, other, active, account);
    hide FindEntry, Mismatched, Lower;
  }
}
