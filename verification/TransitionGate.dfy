/** The transition gates of `check_transition`: the failures they list, and what an empty list means. */
module TransitionGate {
  import opened KeyTuple
  import opened QueuedSet
  import opened Results
  import opened Text

  datatype KeyRecord = KeyRecord(
    name: string, expectedPublic: Option<string>, observedPublic: seq<string>, matchesExpected: bool)

  datatype Proof = Proof(blockNumber: nat, blockHash: string, authorityIndex: nat)

  /** The validated Safe-readiness report, as far as the gates read it. */
  datatype Report = Report(
    candidateAccount: Option<string>, majorSyncing: Option<bool>, validatorRoleConfigured: bool,
    minimumTemporalSources: nat, mappedTemporalPeers: nat,
    nextKeysMatch: bool, candidateIntent: bool, matchedSessionKeyCount: nat, sessionKeys: seq<KeyRecord>,
    expectedTemporalPublic: Option<string>, observedTemporalPublic: seq<string>,
    activeSessionMatch: bool, activeBabeAuthorityIndex: Option<nat>, activeTemporalAuthorityIndex: Option<nat>,
    producerAuthorityIndex: Option<nat>, convergenceState: string, readyToAuthor: bool,
    authorshipProof: Option<Proof>, rawSets: Option<RawSets>)

  /** The node's answer to `author_hasSessionKeys`. */
  datatype CustodyAnswer = Answered(held: bool) | PolicyDisabled(fallback: Report)

  /** Everything the gates depend on: arguments, finalized storage, readiness and the proof's canonical hash. */
  datatype Inputs = Inputs(
    account: string, submitted: Option<string>,
    bonded: bool, intent: bool, nextKeys: Option<string>, activeSet: seq<string>, finalizedHeight: nat,
    custody: CustodyAnswer, report: Report, hashAtProof: Option<string>)

  datatype Failure =
    | BondAndCandidacy | TupleNotMatched | TemporalKeyMismatch | WrongCandidate | NotSyncedOrNoRole
    | TimeSourcePolicy | TooFewTemporalPeers | ReadinessDisagrees | PublicKeyMismatch(name: string)
    | Queued(failure: QueuedFailure) | AuthorityMapping | NotConverged | AuthorshipMissing
    | QualificationMissing | QualificationMismatch

  predicate ValidReport(r: Report) {
    && |r.sessionKeys| == KEY_COUNT
    && (forall i :: 0 <= i < KEY_COUNT ==>
          && r.sessionKeys[i].name == KEY_TYPES[i]
          && (r.sessionKeys[i].expectedPublic.Some? ==> PublicKeyShape(r.sessionKeys[i].expectedPublic.value)))
    && r.matchedSessionKeyCount <= 7
  }

  ghost predicate ValidInputs(i: Inputs) {
    && ValidReport(i.report)
    && (i.report.rawSets.Some? ==> ValidQueuedSet(i.report.rawSets.value.queued, i.report.rawSets.value.active))
    && (i.custody.PolicyDisabled? ==> ValidReport(i.custody.fallback))
  }

  predicate SameText(a: string, b: string) {
    Lower(a) == Lower(b)
  }

  predicate InLower(s: string, values: seq<string>) {
    exists i :: 0 <= i < |values| && Lower(values[i]) == s
  }

  // ---------- local custody ----------

  predicate KeyHeld(record: KeyRecord, public: string) {
    && InLower(public, record.observedPublic)
    && (record.expectedPublic.Some? ==> Lower(record.expectedPublic.value) == public && record.matchesExpected)
  }

  /** Custody without an Unsafe window: this candidate or none reported, and all seven keys of the tuple observed. */
  predicate CustodyHeld(answer: CustodyAnswer, account: string, tuple: string)
    requires answer.PolicyDisabled? ==> ValidReport(answer.fallback)
  {
    match answer
    case Answered(held) => held
    case PolicyDisabled(report) =>
      && (report.candidateAccount.Some? ==> SameText(report.candidateAccount.value, account))
      && forall k :: 0 <= k < KEY_COUNT ==> KeyHeld(report.sessionKeys[k], PublicKey(tuple, k))
  }

  method TransitionLocalCustody(answer: CustodyAnswer, account: string, tuple: string) returns (held: bool)
    requires answer.PolicyDisabled? ==> ValidReport(answer.fallback)
    ensures held == CustodyHeld(answer, account, tuple)
  {
    if answer.Answered? { return answer.held; }
    var report := answer.fallback;
    if report.candidateAccount.Some? && !SameText(report.candidateAccount.value, account) { return false; }
    var offset := 2;
    for k := 0 to KEY_COUNT
      invariant offset == Offset(k)
      invariant forall j :: 0 <= j < k ==> KeyHeld(report.sessionKeys[j], PublicKey(tuple, j))
    {
      var entry, public := report.sessionKeys[k], "0x" + Lower(Slice(tuple, offset, offset + Width(k)));
      offset := offset + Width(k);
      assert public == PublicKey(tuple, k);
      if !InLower(public, entry.observedPublic) { return false; }
      var expected := entry.expectedPublic;
      if expected.Some? && (Lower(expected.value) != public || !entry.matchesExpected) { return false; }
    }
    held := true;
  }

  // ---------- the gates, as one ordered list of failures ----------

  /** A gate that does not pass adds its failure to the list. */
  function Gate(failures: seq<Failure>, pass: bool, f: Failure): seq<Failure> {
    if pass then failures else failures + [f]
  }

  predicate KeysPresent(i: Inputs) {
    i.nextKeys.Some? && EncodedKeys(i.nextKeys.value) && |i.nextKeys.value| == TUPLE_LENGTH
  }

  predicate KeysMatch(i: Inputs) {
    i.submitted.Some? && KeysPresent(i) && SameText(i.nextKeys.value, i.submitted.value)
  }

  predicate LocalCustody(i: Inputs)
    requires i.custody.PolicyDisabled? ==> ValidReport(i.custody.fallback)
  {
    i.submitted.Some? && CustodyHeld(i.custody, i.account, i.submitted.value)
  }

  predicate ActiveMember(i: Inputs) {
    InLower(Lower(i.account), i.activeSet)
  }

  /** The registered temporal key is the last of the tuple: its closing 66 digits. */
  predicate TemporalMatches(i: Inputs)
    requires KeysPresent(i)
  {
    var registered := "0x" + Lower(i.nextKeys.value[TUPLE_LENGTH - 66..]);
    && i.report.expectedTemporalPublic.Some?
    && Lower(i.report.expectedTemporalPublic.value) == registered
    && InLower(registered, i.report.observedTemporalPublic)
  }

  predicate KeyMatches(record: KeyRecord, public: string) {
    && record.expectedPublic.Some? && Lower(record.expectedPublic.value) == public
    && record.matchesExpected && InLower(public, record.observedPublic)
  }

  predicate MappingAgrees(r: Report) {
    && r.activeSessionMatch && r.activeBabeAuthorityIndex.Some?
    && r.activeBabeAuthorityIndex == r.activeTemporalAuthorityIndex
    && r.producerAuthorityIndex == r.activeBabeAuthorityIndex
  }

  predicate Authored(i: Inputs) {
    && ActiveMember(i) && i.report.authorshipProof.Some?
    && var proof := i.report.authorshipProof.value;
    && i.report.producerAuthorityIndex == Some(proof.authorityIndex)
    && proof.blockNumber <= i.finalizedHeight
    && i.hashAtProof == Some(proof.blockHash)
  }

  function FinalizedFailures(i: Inputs): seq<Failure>
    requires ValidInputs(i)
  {
    var bonded := Gate([], i.bonded && i.intent, BondAndCandidacy);
    var matched := Gate(bonded, KeysPresent(i) && KeysMatch(i) && LocalCustody(i), TupleNotMatched);
    Gate(matched, KeysPresent(i) ==> TemporalMatches(i), TemporalKeyMismatch)
  }

  function ReadinessFailures(i: Inputs): seq<Failure> {
    var r := i.report;
    var mine := r.candidateAccount.Some? ==> SameText(r.candidateAccount.value, i.account);
    var selected := Gate([], mine, WrongCandidate);
    var synced := Gate(selected, r.majorSyncing == Some(false) && r.validatorRoleConfigured, NotSyncedOrNoRole);
    var policy := Gate(synced, r.minimumTemporalSources >= 2, TimeSourcePolicy);
    var enough := r.mappedTemporalPeers >= 2 && r.mappedTemporalPeers >= r.minimumTemporalSources;
    var connected := Gate(policy, enough, TooFewTemporalPeers);
    Gate(connected, r.nextKeysMatch && r.candidateIntent && r.matchedSessionKeyCount == 7, ReadinessDisagrees)
  }

  function KeyFailures(i: Inputs, k: nat): seq<Failure>
    requires ValidInputs(i) && KeysPresent(i) && k <= KEY_COUNT
  {
    if k == 0 then []
    else
      var record := i.report.sessionKeys[k - 1];
      var matches := KeyMatches(record, PublicKey(i.nextKeys.value, k - 1));
      Gate(KeyFailures(i, k - 1), matches, PublicKeyMismatch(record.name))
  }

  function QueuedFailures(failures: seq<QueuedFailure>): seq<Failure> {
    seq(|failures|, k requires 0 <= k < |failures| => Queued(failures[k]))
  }

  function ActiveFailures(i: Inputs): seq<Failure> {
    var active := ActiveMember(i);
    var mapped := Gate([], active ==> MappingAgrees(i.report), AuthorityMapping);
    var converged := active ==> i.report.convergenceState == "Converged" && i.report.readyToAuthor;
    Gate(Gate(mapped, converged, NotConverged), active ==> Authored(i), AuthorshipMissing)
  }

  function GateFailures(i: Inputs): seq<Failure>
    requires ValidInputs(i)
  {
    FinalizedFailures(i) + ReadinessFailures(i)
    + (if KeysPresent(i) then KeyFailures(i, KEY_COUNT) else [])
    + QueuedFailures(QueuedSetEvidence(i.report.rawSets, i.account, i.submitted).1)
    + ActiveFailures(i)
  }

  lemma {:induction false} NoKeyFailuresIff(i: Inputs, k: nat)
    requires ValidInputs(i) && KeysPresent(i) && k <= KEY_COUNT
    ensures KeyFailures(i, k) == [] <==>
      forall j :: 0 <= j < k ==> KeyMatches(i.report.sessionKeys[j], PublicKey(i.nextKeys.value, j))
  {
    hide KeyMatches, PublicKey, KeysPresent, ValidQueuedSet, PublicKeyShape;
    if k > 0 {
      NoKeyFailuresIff(i, k - 1);
    }
  }

  // ---------- what a clean list means ----------

  /** Submitted tuple, finalized tuple, reported keys, local keys and any queued keys are one and the same. */
  ghost predicate OneTuple(i: Inputs)
    requires ValidReport(i.report)
  {
    && i.submitted.Some? && KeysPresent(i)
    && SameText(i.submitted.value, i.nextKeys.value)
    && (forall k :: 0 <= k < KEY_COUNT ==>
          && i.report.sessionKeys[k].expectedPublic.Some?
          && |i.report.sessionKeys[k].expectedPublic.value| >= 2
          && InLower(Lower(i.report.sessionKeys[k].expectedPublic.value), i.report.sessionKeys[k].observedPublic))
    && Joined(ExpectedKeys(i.report)) == Lower(i.nextKeys.value)[2..]
    && i.report.expectedTemporalPublic.Some?
    && SameText(i.report.expectedTemporalPublic.value, i.report.sessionKeys[6].expectedPublic.value)
    && InLower(Lower(i.report.expectedTemporalPublic.value), i.report.observedTemporalPublic)
  }

  function ExpectedKeys(r: Report): seq<string>
    requires ValidReport(r) && forall k :: 0 <= k < KEY_COUNT ==> r.sessionKeys[k].expectedPublic.Some?
  {
    seq(KEY_COUNT, k requires 0 <= k < KEY_COUNT => r.sessionKeys[k].expectedPublic.value)
  }

  /** The queued entry of this account, if the node lists one, carries the same tuple. */
  ghost predicate QueuedTupleAgrees(i: Inputs)
    requires i.report.rawSets.Some? ==> ValidQueuedSet(i.report.rawSets.value.queued, i.report.rawSets.value.active)
  {
    i.report.rawSets.Some? ==>
      forall e :: e in i.report.rawSets.value.queued && SameText(e.account, i.account) ==>
        && e.matchesCandidate && i.nextKeys.Some? && |i.nextKeys.value| >= 2
        && (forall k :: 0 <= k < |Publics(e)| ==> |Publics(e)[k]| >= 2)
        && Joined(Publics(e)) == Lower(i.nextKeys.value)[2..]
  }

  lemma SlicesInside(tuple: string, k: nat)
    requires |tuple| == TUPLE_LENGTH && k < KEY_COUNT
    ensures PublicKey(tuple, 6) == "0x" + Lower(tuple[TUPLE_LENGTH - 66..])
  {
    Offsets();
  }

  lemma CleanListKeys(i: Inputs)
    requires ValidInputs(i) && GateFailures(i) == []
    ensures KeysPresent(i) && KeysMatch(i) && LocalCustody(i) && TemporalMatches(i) && i.bonded && i.intent
    ensures forall j :: 0 <= j < KEY_COUNT ==> KeyMatches(i.report.sessionKeys[j], PublicKey(i.nextKeys.value, j))
    ensures QueuedSetEvidence(i.report.rawSets, i.account, i.submitted).1 == []
    ensures ReadinessFailures(i) == [] && ActiveFailures(i) == []
  {
    hide KeysPresent, KeysMatch, LocalCustody, TemporalMatches, KeyMatches, PublicKey, QueuedSetEvidence,
      ReadinessFailures, ActiveFailures;
    if KeysPresent(i) {
      NoKeyFailuresIff(i, KEY_COUNT);
    }
    assert |QueuedFailures(QueuedSetEvidence(i.report.rawSets, i.account, i.submitted).1)|
        == |QueuedSetEvidence(i.report.rawSets, i.account, i.submitted).1|;
  }

  /** A receipt is clean only when every source of the tuple says the same seven keys, all held locally. */
  lemma CleanMeansOneTuple(i: Inputs)
    requires ValidInputs(i) && GateFailures(i) == []
    ensures OneTuple(i) && LocalCustody(i) && QueuedTupleAgrees(i)
  {
    CleanListKeys(i);
    var next := i.nextKeys.value;
    var records := i.report.sessionKeys;
    ExpectedJoin(i);
    SlicesInside(next, 6);
    QueuedJoin(i);
    hide PublicKey, Joined, HexBytes, LocalCustody, QueuedSetEvidence, ReadinessFailures, ActiveFailures,
      QueuedTupleAgrees;
    assert KeyMatches(records[6], PublicKey(next, 6));
  }

  lemma ExpectedJoin(i: Inputs)
    requires ValidInputs(i) && KeysPresent(i)
    requires forall j :: 0 <= j < KEY_COUNT ==> KeyMatches(i.report.sessionKeys[j], PublicKey(i.nextKeys.value, j))
    ensures forall j :: 0 <= j < KEY_COUNT ==>
      i.report.sessionKeys[j].expectedPublic.Some? && |i.report.sessionKeys[j].expectedPublic.value| >= 2
    ensures Joined(ExpectedKeys(i.report)) == Lower(i.nextKeys.value)[2..]
  {
    var next, records := i.nextKeys.value, i.report.sessionKeys;
    forall j | 0 <= j < KEY_COUNT
      ensures records[j].expectedPublic.Some? && |records[j].expectedPublic.value| >= 2
      ensures PublicKey(next, j) == Lower(records[j].expectedPublic.value)
    {
      assert KeyMatches(records[j], PublicKey(next, j));
    }
    Offsets();
    hide PublicKey, Joined, HexBytes, Lower, Offset;
    JoinedAgrees(next, ExpectedKeys(i.report));
    assert Lower(next)[2..] == Lower(next)[2..TUPLE_LENGTH];
  }

  lemma QueuedJoin(i: Inputs)
    requires ValidInputs(i) && KeysMatch(i) && QueuedSetEvidence(i.report.rawSets, i.account, i.submitted).1 == []
    ensures QueuedTupleAgrees(i)
  {
    if i.report.rawSets.Some? {
      var queued, active := i.report.rawSets.value.queued, i.report.rawSets.value.active;
      var found := FindEntry(queued, i.account);
      FindEntryFinds(queued, i.account);
      forall e | e in queued && SameText(e.account, i.account)
        ensures found == Some(e)
        ensures (forall k :: 0 <= k < |Publics(e)| ==> |Publics(e)[k]| >= 2)
        ensures Joined(Publics(e)) == Lower(i.nextKeys.value)[2..] && e.matchesCandidate
      {
        OnlyEntry(queued, active, i.account, e);
        MatchesIffJoined(e, i.submitted.value);
        hide Joined, HexBytes, Lower, FindEntry, Mismatched, Publics;
      }
    }
  }

  lemma OnlyEntry(queued: seq<Entry>, active: seq<string>, account: string, e: Entry)
    requires ValidQueuedSet(queued, active) && e in queued && SameText(e.account, account)
    ensures FindEntry(queued, account) == Some(e) && WellFormedEntry(e)
  {
    FindEntryFinds(queued, account);
    hide FindEntry, Lower, WellFormedEntry, AccountId;
    var found := FindEntry(queued, account);
    var a :| 0 <= a < |queued| && queued[a] == e;
    var b :| 0 <= b < |queued| && queued[b] == found.value;
    assert a == b;
  }

  /** The list is empty exactly when every gate holds. */
  lemma CleanIffEveryGate(i: Inputs)
    requires ValidInputs(i)
    ensures GateFailures(i) == [] <==>
      && i.bonded && i.intent && KeysMatch(i) && LocalCustody(i) && TemporalMatches(i)
      && (forall j :: 0 <= j < KEY_COUNT ==> KeyMatches(i.report.sessionKeys[j], PublicKey(i.nextKeys.value, j)))
      && (i.report.candidateAccount.Some? ==> SameText(i.report.candidateAccount.value, i.account))
      && i.report.majorSyncing == Some(false) && i.report.validatorRoleConfigured
      && 2 <= i.report.minimumTemporalSources <= i.report.mappedTemporalPeers
      && i.report.nextKeysMatch && i.report.candidateIntent && i.report.matchedSessionKeyCount == 7
      && QueuedTupleAgrees(i)
      && (ActiveMember(i) ==>
            && MappingAgrees(i.report) && i.report.convergenceState == "Converged" && i.report.readyToAuthor
            && Authored(i))
  {
    if GateFailures(i) == [] {
      CleanListKeys(i);
      QueuedJoin(i);
    }
    if KeysMatch(i) && QueuedTupleAgrees(i) {
      QueuedClean(i);
    }
    if KeysPresent(i) {
      NoKeyFailuresIff(i, KEY_COUNT);
    }
    hide PublicKey, KeyMatches, KeysPresent, LocalCustody, TemporalMatches, QueuedTupleAgrees, QueuedSetEvidence,
      MappingAgrees, Authored, ActiveMember, SameText, KeyFailures;
  }

  lemma QueuedClean(i: Inputs)
    requires ValidInputs(i) && KeysMatch(i) && QueuedTupleAgrees(i)
    ensures QueuedSetEvidence(i.report.rawSets, i.account, i.submitted).1 == []
  {
    if i.report.rawSets.Some? {
      var queued, active := i.report.rawSets.value.queued, i.report.rawSets.value.active;
      FindEntryFinds(queued, i.account);
      var found := FindEntry(queued, i.account);
      if found.Some? {
        OnlyEntry(queued, active, i.account, found.value);
        MatchesIffJoined(found.value, i.submitted.value);
        assert |i.submitted.value| == |Lower(i.submitted.value)| == |Lower(i.nextKeys.value)|;
      }
    }
  }

  // ---------- the gates, run one after another ----------

  method FinalizedGates(i: Inputs) returns (failures: seq<Failure>)
    requires ValidInputs(i)
    ensures failures == FinalizedFailures(i)
  {
    failures := [];
    var custody := false;
    if i.submitted.Some? {
      custody := TransitionLocalCustody(i.custody, i.account, i.submitted.value);
    }
    hide KeysPresent, CustodyHeld, TemporalMatches, SameText;
    if !i.bonded || !i.intent {
      failures := failures + [BondAndCandidacy];
    }
    if !KeysPresent(i) || !KeysMatch(i) || !custody {
      failures := failures + [TupleNotMatched];
    }
    if KeysPresent(i) && !TemporalMatches(i) {
      failures := failures + [TemporalKeyMismatch];
    }
  }

  method ReadinessGates(i: Inputs) returns (failures: seq<Failure>)
    ensures failures == ReadinessFailures(i)
  {
    hide SameText;
    var r := i.report;
    failures := [];
    if r.candidateAccount.Some? && !SameText(r.candidateAccount.value, i.account) {
      failures := failures + [WrongCandidate];
    }
    if r.majorSyncing != Some(false) || !r.validatorRoleConfigured {
      failures := failures + [NotSyncedOrNoRole];
    }
    if r.minimumTemporalSources < 2 {
      failures := failures + [TimeSourcePolicy];
    }
    if r.mappedTemporalPeers < 2 || r.mappedTemporalPeers < r.minimumTemporalSources {
      failures := failures + [TooFewTemporalPeers];
    }
    if !r.nextKeysMatch || !r.candidateIntent || r.matchedSessionKeyCount != 7 {
      failures := failures + [ReadinessDisagrees];
    }
  }

  method KeyGates(i: Inputs) returns (failures: seq<Failure>)
    requires ValidInputs(i) && KeysPresent(i)
    ensures failures == KeyFailures(i, KEY_COUNT)
  {
    hide InLower, Lower, HexBytes, EncodedKeys, Slice, ValidQueuedSet;
    failures := [];
    var offset := 2;
    for k := 0 to KEY_COUNT
      invariant offset == Offset(k) && failures == KeyFailures(i, k)
    {
      var entry := i.report.sessionKeys[k];
      var public := "0x" + Lower(Slice(i.nextKeys.value, offset, offset + Width(k)));
      offset := offset + Width(k);
      assert public == PublicKey(i.nextKeys.value, k);
      if entry.expectedPublic.None? || Lower(entry.expectedPublic.value) != public
         || !entry.matchesExpected || !InLower(public, entry.observedPublic)
      {
        failures := failures + [PublicKeyMismatch(entry.name)];
      }
    }
  }

  /** `queued_set_evidence`, with the comparison loop run in place. */
  method QueuedGates(i: Inputs) returns (evidence: Evidence, failures: seq<QueuedFailure>)
    requires ValidInputs(i)
    ensures (evidence, failures) == QueuedSetEvidence(i.report.rawSets, i.account, i.submitted)
  {
    hide FindEntry, Mismatched, Lower, WellFormedEntry;
    if i.report.rawSets.None? {
      return Evidence(None, None, None), [];
    }
    var queued, active := i.report.rawSets.value.queued, i.report.rawSets.value.active;
    var entry := FindEntry(queued, i.account);
    var inActive := exists k :: 0 <= k < |active| && Lower(active[k]) == Lower(i.account);
    evidence, failures := Evidence(entry, None, Some(inActive)), [];
    if entry.None? || i.submitted.None? { return; }
    FoundWellFormed(queued, active, i.account);
    var mismatched := CompareTuple(entry.value, i.submitted.value);
    evidence := evidence.(matchesLocal := Some(mismatched == []));
    if mismatched != [] {
      failures := [TupleMismatch(mismatched)];
    } else if !entry.value.matchesCandidate {
      failures := [EntryFlagged];
    }
  }

  lemma FoundWellFormed(queued: seq<Entry>, active: seq<string>, account: string)
    requires ValidQueuedSet(queued, active)
    ensures FindEntry(queued, account).Some? ==> |FindEntry(queued, account).value.sessionKeys| == KEY_COUNT
  {
    FindEntryFinds(queued, account);
    hide FindEntry, Lower, WellFormedKey;
  }

  method ActiveGates(i: Inputs) returns (failures: seq<Failure>)
    ensures failures == ActiveFailures(i)
  {
    hide MappingAgrees, Authored, ActiveMember;
    failures := [];
    var active := ActiveMember(i);
    if active && !MappingAgrees(i.report) {
      failures := failures + [AuthorityMapping];
    }
    if active && (i.report.convergenceState != "Converged" || !i.report.readyToAuthor) {
      failures := failures + [NotConverged];
    }
    if active && !Authored(i) {
      failures := failures + [AuthorshipMissing];
    }
  }
}
