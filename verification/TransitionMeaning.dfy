/** The transition gates said once more in the fields of the inputs alone. */
module TransitionMeaning {
  import opened KeyTuple
  import opened QueuedSet
  import opened Results
  import opened Text
  import opened TransitionGate

  /** Where each of the seven keys starts in a tuple, and where the last one ends. */
  const STARTS: seq<nat> := [2, 66, 130, 194, 258, 322, 388, 454]

  /** Seven keys of 226 bytes in all, in hexadecimal. */
  predicate WholeTuple(t: string) {
    && |t| == 454 && t[0] == '0' && (t[1] == 'x' || t[1] == 'X')
    && forall k :: 2 <= k < 454 ==> '0' <= t[k] <= '9' || 'a' <= t[k] <= 'f' || 'A' <= t[k] <= 'F'
  }

  function KeyText(t: string, k: nat): string
    requires |t| == 454 && k < 7
  {
    "0x" + Lower(t[STARTS[k]..STARTS[k + 1]])
  }

  predicate Contains(values: seq<string>, lower: string) {
    exists k :: 0 <= k < |values| && Lower(values[k]) == lower
  }

  /** The finalized tuple is whole, and the one submitted up to case. */
  predicate Registered(i: Inputs) {
    && i.nextKeys.Some? && WholeTuple(i.nextKeys.value)
    && i.submitted.Some? && Lower(i.submitted.value) == Lower(i.nextKeys.value)
  }

  /** The node holds the tuple: by its own answer, or, where that call is disabled, because it reports this account or
      none and has observed all seven keys, with none expected to be another. */
  ghost predicate Held(i: Inputs)
    requires Registered(i)
  {
    match i.custody
    case Answered(held) => held
    case PolicyDisabled(report) =>
      && (report.candidateAccount.Some? ==> Lower(report.candidateAccount.value) == Lower(i.account))
      && |report.sessionKeys| == 7
      && forall k :: 0 <= k < 7 ==>
           var record, key := report.sessionKeys[k], KeyText(i.nextKeys.value, k);
           && Contains(record.observedPublic, key)
           && (record.expectedPublic.Some? ==> Lower(record.expectedPublic.value) == key && record.matchesExpected)
  }

  /** All seven records of the report expect and have observed the registered key; the temporal key too. */
  ghost predicate Reported(i: Inputs)
    requires Registered(i)
  {
    && |i.report.sessionKeys| == 7
    && (forall k :: 0 <= k < 7 ==>
          var record, key := i.report.sessionKeys[k], KeyText(i.nextKeys.value, k);
          && record.expectedPublic.Some? && Lower(record.expectedPublic.value) == key
          && record.matchesExpected && Contains(record.observedPublic, key))
    && i.report.expectedTemporalPublic.Some?
    && Lower(i.report.expectedTemporalPublic.value) == KeyText(i.nextKeys.value, 6)
    && Contains(i.report.observedTemporalPublic, KeyText(i.nextKeys.value, 6))
  }

  /** Every queued entry of this account is the registered tuple. */
  ghost predicate QueuedAlike(i: Inputs)
    requires Registered(i)
  {
    i.report.rawSets.Some? ==>
      forall e :: e in i.report.rawSets.value.queued && Lower(e.account) == Lower(i.account) ==>
        && e.matchesCandidate && |e.sessionKeys| == 7
        && forall k :: 0 <= k < 7 ==> Lower(e.sessionKeys[k].public) == KeyText(i.nextKeys.value, k)
  }

  predicate InActiveSet(i: Inputs) {
    Contains(i.activeSet, Lower(i.account))
  }

  predicate Mapped(r: Report) {
    match r.activeBabeAuthorityIndex
    case None => false
    case Some(index) =>
      r.activeSessionMatch && r.activeTemporalAuthorityIndex == Some(index) && r.producerAuthorityIndex == Some(index)
  }

  /** The proof's block is finalized, the chain has its hash at that height, and the producer authored it. */
  predicate Proven(i: Inputs) {
    match i.report.authorshipProof
    case None => false
    case Some(Proof(height, hash, authority)) =>
      height <= i.finalizedHeight && i.hashAtProof == Some(hash) && i.report.producerAuthorityIndex == Some(authority)
  }

  /** Everything a handoff needs: the finalized tuple is registered, held, reported and queued alike, the report agrees,
      and an active member is mapped, converged and proven. */
  ghost predicate Ready(i: Inputs) {
    && i.bonded && i.intent && Registered(i) && Held(i) && Reported(i) && QueuedAlike(i)
    && (i.report.candidateAccount.Some? ==> Lower(i.report.candidateAccount.value) == Lower(i.account))
    && i.report.majorSyncing == Some(false) && i.report.validatorRoleConfigured
    && 2 <= i.report.minimumTemporalSources <= i.report.mappedTemporalPeers
    && i.report.nextKeysMatch && i.report.candidateIntent && i.report.matchedSessionKeyCount == 7
    && (InActiveSet(i) ==>
          Mapped(i.report) && i.report.convergenceState == "Converged" && i.report.readyToAuthor && Proven(i))
  }

  // ---------- the same as the gates ----------

  lemma CharsLowered(s: string)
    ensures |Lower(s)| == |s|
    ensures forall k :: 0 <= k < |s| ==>
      Lower(s)[k] == if 'A' <= s[k] <= 'Z' then s[k] - 'A' + 'a' else s[k]
  {
  }

  lemma KeyTextIs(t: string, k: nat)
    requires |t| == 454 && k < 7
    ensures PublicKey(t, k) == KeyText(t, k)
  {
    Offsets();
    NextOffset(k);
    hide Offset, Width, Lower;
  }

  lemma RegisteredIff(i: Inputs)
    ensures Registered(i) <==> KeysMatch(i)
  {
    hide Lower;
  }

  lemma ActiveIff(i: Inputs)
    ensures InActiveSet(i) <==> ActiveMember(i)
    ensures Mapped(i.report) <==> MappingAgrees(i.report)
    ensures Authored(i) <==> InActiveSet(i) && Proven(i)
  {
    hide Lower;
  }

  lemma SameKeys(a: string, b: string, k: nat)
    requires |a| == |b| == 454 && Lower(a) == Lower(b) && k < 7
    ensures PublicKey(a, k) == KeyText(b, k)
  {
    KeyTextIs(a, k);
    LowerSlice(a, STARTS[k], STARTS[k + 1]);
    LowerSlice(b, STARTS[k], STARTS[k + 1]);
    hide Lower, PublicKey;
  }

  lemma HeldIff(i: Inputs)
    requires ValidInputs(i) && Registered(i)
    ensures Held(i) <==> LocalCustody(i)
  {
    if i.custody.PolicyDisabled? {
      assert |Lower(i.submitted.value)| == |Lower(i.nextKeys.value)| == 454;
      forall k: nat | k < 7
        ensures PublicKey(i.submitted.value, k) == KeyText(i.nextKeys.value, k)
      {
        SameKeys(i.submitted.value, i.nextKeys.value, k);
      }
      hide Lower, PublicKey, KeyText, PublicKeyShape, ValidQueuedSet, WholeTuple;
      HeldByReport(i, i.custody.fallback);
    }
  }

  lemma HeldByReport(i: Inputs, report: Report)
    requires ValidReport(report) && Registered(i)
    requires forall k: nat :: k < 7 ==> PublicKey(i.submitted.value, k) == KeyText(i.nextKeys.value, k)
    ensures (forall k :: 0 <= k < KEY_COUNT ==> KeyHeld(report.sessionKeys[k], PublicKey(i.submitted.value, k))) <==>
      forall k :: 0 <= k < 7 ==>
        var record, key := report.sessionKeys[k], KeyText(i.nextKeys.value, k);
        && Contains(record.observedPublic, key)
        && (record.expectedPublic.Some? ==> Lower(record.expectedPublic.value) == key && record.matchesExpected)
  {
    hide Lower, PublicKey, KeyText, PublicKeyShape;
    forall k | 0 <= k < 7
      ensures KeyHeld(report.sessionKeys[k], PublicKey(i.submitted.value, k)) <==>
        var record, key := report.sessionKeys[k], KeyText(i.nextKeys.value, k);
        && Contains(record.observedPublic, key)
        && (record.expectedPublic.Some? ==> Lower(record.expectedPublic.value) == key && record.matchesExpected)
    {
    }
    hide KeyHeld, Contains;
  }

  lemma PresentIff(i: Inputs)
    ensures KeysPresent(i) <==> i.nextKeys.Some? && WholeTuple(i.nextKeys.value)
  {
  }

  lemma TemporalIff(i: Inputs)
    requires i.nextKeys.Some? && WholeTuple(i.nextKeys.value)
    ensures TemporalMatches(i) <==>
      && i.report.expectedTemporalPublic.Some?
      && Lower(i.report.expectedTemporalPublic.value) == KeyText(i.nextKeys.value, 6)
      && Contains(i.report.observedTemporalPublic, KeyText(i.nextKeys.value, 6))
  {
    var t := i.nextKeys.value;
    assert t[TUPLE_LENGTH - 66..] == t[STARTS[6]..STARTS[7]];
    hide Lower;
  }

  lemma ReportedIff(i: Inputs)
    requires ValidInputs(i) && Registered(i)
    ensures Reported(i) <==>
      && TemporalMatches(i)
      && forall j :: 0 <= j < KEY_COUNT ==> KeyMatches(i.report.sessionKeys[j], PublicKey(i.nextKeys.value, j))
  {
    TemporalIff(i);
    hide TemporalMatches, Lower, PublicKey, KeyText, ValidQueuedSet, PublicKeyShape, WholeTuple;
    forall k: nat | k < 7
      ensures PublicKey(i.nextKeys.value, k) == KeyText(i.nextKeys.value, k)
    {
      KeyTextIs(i.nextKeys.value, k);
    }
    forall k | 0 <= k < 7
      ensures KeyMatches(i.report.sessionKeys[k], PublicKey(i.nextKeys.value, k)) <==>
        var record, key := i.report.sessionKeys[k], KeyText(i.nextKeys.value, k);
        && record.expectedPublic.Some? && Lower(record.expectedPublic.value) == key
        && record.matchesExpected && Contains(record.observedPublic, key)
    {
    }
    hide KeyMatches, Contains;
  }

  lemma QueuedAlikeIff(i: Inputs)
    requires ValidInputs(i) && Registered(i)
    ensures QueuedAlike(i) <==> QueuedTupleAgrees(i)
  {
    assert |i.nextKeys.value| == 454;
    hide Lower, PublicKey, KeyText, PublicKeyShape, WholeTuple, Joined, Publics, WellFormedEntry;
    if i.report.rawSets.Some? {
      forall e | e in i.report.rawSets.value.queued
        ensures EntryAlike(i, e) <==> EntryJoins(i, e)
      {
        EntryAlikeIff(i, e);
      }
    }
  }

  ghost predicate EntryAlike(i: Inputs, e: Entry)
    requires Registered(i)
  {
    && |e.sessionKeys| == 7
    && forall k :: 0 <= k < 7 ==> Lower(e.sessionKeys[k].public) == KeyText(i.nextKeys.value, k)
  }

  ghost predicate EntryJoins(i: Inputs, e: Entry)
    requires Registered(i)
  {
    && (forall k :: 0 <= k < |Publics(e)| ==> |Publics(e)[k]| >= 2)
    && Joined(Publics(e)) == Lower(i.nextKeys.value)[2..]
  }

  lemma EntryAlikeIff(i: Inputs, e: Entry)
    requires ValidInputs(i) && Registered(i) && i.report.rawSets.Some? && e in i.report.rawSets.value.queued
    ensures EntryAlike(i, e) <==> EntryJoins(i, e)
  {
    assert |i.nextKeys.value| == 454;
    hide Lower, PublicKey, KeyText, PublicKeyShape, WholeTuple, Joined;
    assert WellFormedEntry(e);
    PublicsShape(e);
    AgreeIffJoined(e, i.nextKeys.value);
    forall k: nat | k < 7
      ensures PublicKey(i.nextKeys.value, k) == KeyText(i.nextKeys.value, k)
    {
      KeyTextIs(i.nextKeys.value, k);
    }
    hide Publics, WellFormedKey;
  }

  /** The failure list is empty exactly when the node is ready. */
  lemma CleanIffReady(i: Inputs)
    requires ValidInputs(i)
    ensures GateFailures(i) == [] <==> Ready(i)
  {
    CleanIffEveryGate(i);
    ActiveIff(i);
    RegisteredIff(i);
    if Registered(i) {
      HeldIff(i);
      ReportedIff(i);
      QueuedAlikeIff(i);
    }
    hide GateFailures, Registered, Held, Reported, QueuedAlike, LocalCustody, TemporalMatches, KeyMatches, PublicKey,
      QueuedTupleAgrees, MappingAgrees, Authored, ActiveMember, InActiveSet, Mapped, Proven, Lower, ValidInputs;
  }

  // ---------- which failure is listed when ----------

  lemma GateListed(failures: seq<Failure>, pass: bool, g: Failure)
    ensures forall f :: f in Gate(failures, pass, g) <==> f in failures || (!pass && f == g)
  {
  }

  lemma FinalizedListed(i: Inputs)
    requires ValidInputs(i)
    ensures forall f :: f in FinalizedFailures(i) <==>
      || (f == BondAndCandidacy && !(i.bonded && i.intent))
      || (f == TupleNotMatched && !(KeysMatch(i) && LocalCustody(i)))
      || (f == TemporalKeyMismatch && KeysPresent(i) && !TemporalMatches(i))
  {
    var bonded := Gate([], i.bonded && i.intent, BondAndCandidacy);
    var pass := KeysPresent(i) && KeysMatch(i) && LocalCustody(i);
    GateListed([], i.bonded && i.intent, BondAndCandidacy);
    GateListed(bonded, pass, TupleNotMatched);
    GateListed(Gate(bonded, pass, TupleNotMatched), KeysPresent(i) ==> TemporalMatches(i), TemporalKeyMismatch);
    hide Gate, KeysPresent, LocalCustody, TemporalMatches, ValidInputs;
  }

  lemma ReadinessListed(i: Inputs)
    ensures var r := i.report;
      forall f :: f in ReadinessFailures(i) <==>
      || (f == WrongCandidate && r.candidateAccount.Some? && Lower(r.candidateAccount.value) != Lower(i.account))
      || (f == NotSyncedOrNoRole && !(r.majorSyncing == Some(false) && r.validatorRoleConfigured))
      || (f == TimeSourcePolicy && r.minimumTemporalSources < 2)
      || (f == TooFewTemporalPeers && (r.mappedTemporalPeers < 2 || r.mappedTemporalPeers < r.minimumTemporalSources))
      || (f == ReadinessDisagrees && !(r.nextKeysMatch && r.candidateIntent && r.matchedSessionKeyCount == 7))
  {
    var r := i.report;
    var mine := r.candidateAccount.Some? ==> SameText(r.candidateAccount.value, i.account);
    var selected := Gate([], mine, WrongCandidate);
    var synced := Gate(selected, r.majorSyncing == Some(false) && r.validatorRoleConfigured, NotSyncedOrNoRole);
    var policy := Gate(synced, r.minimumTemporalSources >= 2, TimeSourcePolicy);
    var enough := r.mappedTemporalPeers >= 2 && r.mappedTemporalPeers >= r.minimumTemporalSources;
    var agrees := r.nextKeysMatch && r.candidateIntent && r.matchedSessionKeyCount == 7;
    GateListed([], mine, WrongCandidate);
    GateListed(selected, r.majorSyncing == Some(false) && r.validatorRoleConfigured, NotSyncedOrNoRole);
    GateListed(synced, r.minimumTemporalSources >= 2, TimeSourcePolicy);
    GateListed(policy, enough, TooFewTemporalPeers);
    GateListed(Gate(policy, enough, TooFewTemporalPeers), agrees, ReadinessDisagrees);
    hide Gate, Lower;
  }

  lemma ActiveListed(i: Inputs)
    ensures forall f :: f in ActiveFailures(i) <==>
      || (f == AuthorityMapping && InActiveSet(i) && !Mapped(i.report))
      || (f == NotConverged && InActiveSet(i) && !(i.report.convergenceState == "Converged" && i.report.readyToAuthor))
      || (f == AuthorshipMissing && InActiveSet(i) && !Proven(i))
  {
    ActiveIff(i);
    var active := ActiveMember(i);
    var mapped := Gate([], active ==> MappingAgrees(i.report), AuthorityMapping);
    var converged := active ==> i.report.convergenceState == "Converged" && i.report.readyToAuthor;
    GateListed([], active ==> MappingAgrees(i.report), AuthorityMapping);
    GateListed(mapped, converged, NotConverged);
    GateListed(Gate(mapped, converged, NotConverged), active ==> Authored(i), AuthorshipMissing);
    hide Gate, ActiveMember, InActiveSet, Mapped, MappingAgrees, Proven, Authored;
  }

  lemma {:induction false} KeyKinds(i: Inputs, k: nat)
    requires ValidInputs(i) && KeysPresent(i) && k <= KEY_COUNT
    ensures forall f :: f in KeyFailures(i, k) ==> f.PublicKeyMismatch?
  {
    hide KeyMatches, PublicKey, KeysPresent, ValidQueuedSet, PublicKeyShape;
    if k > 0 {
      KeyKinds(i, k - 1);
    }
  }

  lemma {:induction false} KeyListed(i: Inputs, k: nat, j: nat)
    requires ValidInputs(i) && KeysPresent(i) && k <= KEY_COUNT && j < KEY_COUNT
    ensures PublicKeyMismatch(KEY_TYPES[j]) in KeyFailures(i, k) <==>
      j < k && !KeyMatches(i.report.sessionKeys[j], PublicKey(i.nextKeys.value, j))
  {
    KeyNamesDistinct();
    hide KeyMatches, PublicKey, KeysPresent, ValidQueuedSet, PublicKeyShape;
    if k > 0 {
      KeyListed(i, k - 1, j);
      assert i.report.sessionKeys[k - 1].name == KEY_TYPES[k - 1];
    }
  }

  lemma OnlyFinalized(i: Inputs, f: Failure)
    requires ValidInputs(i) && (f.BondAndCandidacy? || f.TupleNotMatched? || f.TemporalKeyMismatch?)
    ensures f in GateFailures(i) <==> f in FinalizedFailures(i)
  {
    ReadinessListed(i);
    ActiveListed(i);
    ListedParts(i);
    hide GateFailures, FinalizedFailures, ReadinessFailures, ActiveFailures, InActiveSet, Mapped, Proven, Lower,
      ValidInputs;
  }

  /** Each failure is listed exactly for its own reason; first those of the finalized state. */
  lemma FinalizedListedIff(i: Inputs)
    requires ValidInputs(i)
    ensures BondAndCandidacy in GateFailures(i) <==> !(i.bonded && i.intent)
    ensures TupleNotMatched in GateFailures(i) <==> !(Registered(i) && Held(i))
    ensures TemporalKeyMismatch in GateFailures(i) <==>
      && i.nextKeys.Some? && WholeTuple(i.nextKeys.value)
      && !(&& i.report.expectedTemporalPublic.Some?
           && Lower(i.report.expectedTemporalPublic.value) == KeyText(i.nextKeys.value, 6)
           && Contains(i.report.observedTemporalPublic, KeyText(i.nextKeys.value, 6)))
  {
    FinalizedListed(i);
    OnlyFinalized(i, BondAndCandidacy);
    OnlyFinalized(i, TupleNotMatched);
    OnlyFinalized(i, TemporalKeyMismatch);
    RegisteredIff(i);
    PresentIff(i);
    if Registered(i) {
      HeldIff(i);
    }
    if KeysPresent(i) {
      TemporalIff(i);
    }
    hide GateFailures, FinalizedFailures, KeysPresent, KeysMatch, LocalCustody, TemporalMatches, Registered, Held,
      Lower, ValidInputs, KeyText, Contains, WholeTuple;
  }

  lemma OnlyReadiness(i: Inputs, f: Failure)
    requires ValidInputs(i)
    requires f.WrongCandidate? || f.NotSyncedOrNoRole? || f.TimeSourcePolicy? || f.TooFewTemporalPeers?
             || f.ReadinessDisagrees?
    ensures f in GateFailures(i) <==> f in ReadinessFailures(i)
  {
    FinalizedListed(i);
    ActiveListed(i);
    ListedParts(i);
    hide GateFailures, FinalizedFailures, ReadinessFailures, ActiveFailures, KeysPresent, KeysMatch, LocalCustody,
      TemporalMatches, InActiveSet, Mapped, Proven, ValidInputs;
  }

  /** Those of the readiness report. */
  lemma ReadinessListedIff(i: Inputs)
    requires ValidInputs(i)
    ensures var r, listed := i.report, GateFailures(i);
      && (WrongCandidate in listed <==>
            r.candidateAccount.Some? && Lower(r.candidateAccount.value) != Lower(i.account))
      && (NotSyncedOrNoRole in listed <==> !(r.majorSyncing == Some(false) && r.validatorRoleConfigured))
      && (TimeSourcePolicy in listed <==> r.minimumTemporalSources < 2)
      && (TooFewTemporalPeers in listed <==>
            r.mappedTemporalPeers < 2 || r.mappedTemporalPeers < r.minimumTemporalSources)
      && (ReadinessDisagrees in listed <==> !(r.nextKeysMatch && r.candidateIntent && r.matchedSessionKeyCount == 7))
  {
    ReadinessListed(i);
    OnlyReadiness(i, WrongCandidate);
    OnlyReadiness(i, NotSyncedOrNoRole);
    OnlyReadiness(i, TimeSourcePolicy);
    OnlyReadiness(i, TooFewTemporalPeers);
    OnlyReadiness(i, ReadinessDisagrees);
    hide GateFailures, ReadinessFailures, Lower, ValidInputs;
  }

  lemma OnlyActive(i: Inputs, f: Failure)
    requires ValidInputs(i) && (f.AuthorityMapping? || f.NotConverged? || f.AuthorshipMissing?)
    ensures f in GateFailures(i) <==> f in ActiveFailures(i)
  {
    FinalizedListed(i);
    ReadinessListed(i);
    ListedParts(i);
    hide GateFailures, FinalizedFailures, ReadinessFailures, ActiveFailures, KeysPresent, KeysMatch, LocalCustody,
      TemporalMatches, Lower, ValidInputs;
  }

  /** Those of an active member. */
  lemma ActiveListedIff(i: Inputs)
    requires ValidInputs(i)
    ensures var r, listed := i.report, GateFailures(i);
      && (AuthorityMapping in listed <==> InActiveSet(i) && !Mapped(r))
      && (NotConverged in listed <==> InActiveSet(i) && !(r.convergenceState == "Converged" && r.readyToAuthor))
      && (AuthorshipMissing in listed <==> InActiveSet(i) && !Proven(i))
  {
    ActiveListed(i);
    OnlyActive(i, AuthorityMapping);
    OnlyActive(i, NotConverged);
    OnlyActive(i, AuthorshipMissing);
    hide GateFailures, ActiveFailures, InActiveSet, Mapped, Proven, ValidInputs;
  }

  lemma ListedParts(i: Inputs)
    requires ValidInputs(i)
    ensures forall f: Failure :: !f.PublicKeyMismatch? && !f.Queued? ==>
      (f in GateFailures(i) <==> f in FinalizedFailures(i) || f in ReadinessFailures(i) || f in ActiveFailures(i))
  {
    var keys := if KeysPresent(i) then KeyFailures(i, KEY_COUNT) else [];
    if KeysPresent(i) {
      KeyKinds(i, KEY_COUNT);
    }
    var queued := QueuedFailures(QueuedSetEvidence(i.report.rawSets, i.account, i.submitted).1);
    assert forall f :: f in queued ==> f.Queued?;
    ListedSomewhere(FinalizedFailures(i), ReadinessFailures(i), keys, queued, ActiveFailures(i));
    hide FinalizedFailures, ReadinessFailures, ActiveFailures, KeyFailures, QueuedFailures, QueuedSetEvidence,
      KeysPresent, ValidInputs, KeyMatches, PublicKey;
  }

  lemma ListedSomewhere(a: seq<Failure>, b: seq<Failure>, c: seq<Failure>, d: seq<Failure>, e: seq<Failure>)
    ensures forall f :: f in a + b + c + d + e <==> f in a || f in b || f in c || f in d || f in e
  {
  }
}
