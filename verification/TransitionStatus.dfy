/** The status that `check_transition` builds over the gates, and the receipt that recomputes and seals its verdict. */
module TransitionStatus {
  import opened CanonicalJson
  import opened KeyTuple
  import opened QueuedSet
  import opened Receipt
  import opened Results
  import opened Text
  import opened TransitionGate
  import opened TransitionMeaning

  /** The operator's reviewed identities, and how the live chain compares with them. */
  datatype Qualification = Missing | Malformed | Compared(matches: bool, reviewed: Json, observed: Json)

  datatype GateError = MalformedAccount | MalformedTuple | MalformedQualification | ProhibitedReceiptField

  function QualificationFailures(q: Qualification): seq<Failure> {
    match q
    case Missing => [QualificationMissing]
    case Malformed => []
    case Compared(matches, _, _) => Gate([], matches, QualificationMismatch)
  }

  /** One seven-key tuple is registered, submitted, reported and queued, and this node holds it. */
  ghost predicate TupleHeld(i: Inputs)
    requires ValidInputs(i)
  {
    OneTuple(i) && LocalCustody(i) && QueuedTupleAgrees(i)
  }

  lemma CleanMeansHeld(i: Inputs)
    requires ValidInputs(i)
    ensures GateFailures(i) == [] ==> TupleHeld(i)
  {
    if GateFailures(i) == [] {
      CleanMeansOneTuple(i);
    }
  }

  function FailureText(f: Failure): string {
    match f
    case BondAndCandidacy => "Complete finalized bond and validator candidacy first."
    case TupleNotMatched => "Session tuple mismatch"
    case TemporalKeyMismatch => "Temporal public key mismatch"
    case WrongCandidate => "Select the candidate account reported by the local node."
    case NotSyncedOrNoRole => "Finish syncing and configure the validator role before handoff"
    case TimeSourcePolicy => "Time-source policy requires at least two mapped authorities"
    case TooFewTemporalPeers => "Connect at least two mapped active-authority temporal peers"
    case ReadinessDisagrees => "Resolve the Safe readiness RPC's candidacy and seven-key nextKeys mismatch."
    case PublicKeyMismatch(name) => "Public " + name + " key mismatch"
    case Queued(_) => "Queued session tuple mismatch"
    case AuthorityMapping => "Active authority mapping mismatch"
    case NotConverged => "Time quality not converged"
    case AuthorshipMissing => "Finalized authorship missing or mismatched"
    case QualificationMissing => "Qualification identity missing"
    case QualificationMismatch => "Qualification identity mismatch"
  }

  function Texts(values: seq<string>): Json {
    List(seq(|values|, k requires 0 <= k < |values| => Str(values[k])))
  }

  function OptionalText(value: Option<string>): Json {
    if value.Some? then Str(value.value) else Null
  }

  function OptionalNumber(value: Option<nat>): Json {
    if value.Some? then Number(value.value) else Null
  }

  function OptionalFlag(value: Option<bool>): Json {
    if value.Some? then Bool(value.value) else Null
  }

  function RecordJson(record: KeyRecord): Json {
    Object(map[
      "name" := Str(record.name), "expectedPublic" := OptionalText(record.expectedPublic),
      "observedPublic" := Texts(record.observedPublic), "matchesExpected" := Bool(record.matchesExpected)])
  }

  function EntryJson(entry: Option<Entry>): Json {
    match entry
    case None => Null
    case Some(e) =>
      var keys := seq(|e.sessionKeys|, k requires 0 <= k < |e.sessionKeys| =>
        Object(map["name" := Str(e.sessionKeys[k].name), "keyType" := Str(e.sessionKeys[k].keyType),
                   "public" := Str(Lower(e.sessionKeys[k].public))]));
      Object(map["account" := Str(Lower(e.account)), "sessionKeys" := List(keys),
                 "matchesCandidate" := Bool(e.matchesCandidate)])
  }

  function ProofJson(proof: Option<Proof>): Json {
    match proof
    case None => Null
    case Some(p) =>
      Object(map["blockNumber" := Number(p.blockNumber), "blockHash" := Str(p.blockHash),
                 "authorityIndex" := Number(p.authorityIndex)])
  }

  function QueuedSource(sets: Option<RawSets>, candidate: Option<Entry>): string {
    if sets.None? then "unavailable (node predates readiness queued set)"
    else
      "Safe readiness RPC queuedValidators/activeValidators (raw public sets)"
      + (if candidate.None? then "; candidate not yet queued" else "")
  }

  /** The public material behind the verdict. */
  function EvidenceJson(i: Inputs): Json
    requires ValidInputs(i)
  {
    var queued := QueuedSetEvidence(i.report.rawSets, i.account, i.submitted).0;
    var records := i.report.sessionKeys;
    Object(map[
      "submittedPublicTuple" := OptionalText(i.submitted),
      "finalizedNextKeys" := if KeysPresent(i) then OptionalText(i.nextKeys) else Null,
      "queuedSetEvidence" := Str(QueuedSource(i.report.rawSets, queued.candidate)),
      "queuedCandidate" := EntryJson(queued.candidate),
      "queuedTupleMatchesLocal" := OptionalFlag(queued.matchesLocal),
      "candidateInReadinessActiveSet" := OptionalFlag(queued.inActive),
      "activeSet" := Texts(i.activeSet),
      "activeBabeAuthorityIndex" := OptionalNumber(i.report.activeBabeAuthorityIndex),
      "activeTemporalAuthorityIndex" := OptionalNumber(i.report.activeTemporalAuthorityIndex),
      "producerAuthorityIndex" := OptionalNumber(i.report.producerAuthorityIndex),
      "expectedTemporalPublic" := OptionalText(i.report.expectedTemporalPublic),
      "observedTemporalPublic" := Texts(i.report.observedTemporalPublic),
      "sessionKeys" := List(seq(|records|, k requires 0 <= k < |records| => RecordJson(records[k]))),
      "mappedTemporalPeers" := Number(i.report.mappedTemporalPeers),
      "authorshipProof" := ProofJson(i.report.authorshipProof)])
  }

  predicate Shows(fields: Fields, key: string, flag: bool) {
    key in fields && fields[key] == Bool(flag)
  }

  function StateText(i: Inputs): string {
    if ActiveMember(i) then "active"
    else if i.intent then if KeysPresent(i) then "waiting" else "candidate"
    else if i.bonded then "bonded" else "not-started"
  }

  /** What the gates found, apart from their verdict. */
  function Facts(i: Inputs, active: bool, stages: seq<Failure>): Fields
    requires ValidInputs(i)
  {
    map["account" := Str(Lower(i.account)), "finalizedHeight" := Str(Decimal(i.finalizedHeight)),
        "state" := Str(StateText(i)), "bonded" := Bool(i.bonded), "validatorIntent" := Bool(i.intent),
        "sessionKeysPresent" := Bool(KeysPresent(i)), "sessionKeysMatch" := Bool(KeysMatch(i)),
        "localSessionCustody" := Bool(LocalCustody(i)), "active" := Bool(active),
        "mappedTemporalPeers" := Number(i.report.mappedTemporalPeers),
        "failedStages" := Texts(seq(|stages|, k requires 0 <= k < |stages| => FailureText(stages[k]))),
        "safeToRetireOldKeys" := Bool(false)]
  }

  predicate Has(fields: Fields, key: string, value: Json) {
    key in fields && fields[key] == value
  }

  ghost predicate FlagsOn(page: Fields, i: Inputs, active: bool)
    requires ValidInputs(i)
  {
    && Has(page, "bonded", Bool(i.bonded)) && Has(page, "validatorIntent", Bool(i.intent))
    && Has(page, "sessionKeysPresent", Bool(i.nextKeys.Some? && WholeTuple(i.nextKeys.value)))
    && Has(page, "sessionKeysMatch", Bool(Registered(i)))
    && Has(page, "localSessionCustody", Bool(LocalCustody(i)))
    && Has(page, "active", Bool(active)) && Has(page, "safeToRetireOldKeys", Bool(false))
  }

  /** Each fact stands under its own name, and every listed failure under `failedStages`. */
  ghost predicate FactsOn(page: Fields, i: Inputs, active: bool, stages: seq<Failure>)
    requires ValidInputs(i)
  {
    && FlagsOn(page, i, active)
    && Has(page, "account", Str(Lower(i.account)))
    && Has(page, "finalizedHeight", Str(Decimal(i.finalizedHeight)))
    && Has(page, "state", Str(StateText(i)))
    && Has(page, "mappedTemporalPeers", Number(i.report.mappedTemporalPeers))
    && "failedStages" in page && page["failedStages"].List? && |page["failedStages"].items| == |stages|
    && forall k :: 0 <= k < |stages| ==> page["failedStages"].items[k] == Str(FailureText(stages[k]))
  }

  lemma FactNamesApart()
    ensures var names := ["account", "finalizedHeight", "state", "bonded", "validatorIntent", "sessionKeysPresent",
                          "sessionKeysMatch", "localSessionCustody", "active", "mappedTemporalPeers", "failedStages",
                          "safeToRetireOldKeys"];
      forall j, k :: 0 <= j < k < |names| ==> names[j] != names[k]
  {
    assert |"account"| == 7 && |"finalizedHeight"| == 15 && |"state"| == 5 && |"bonded"| == 6;
    assert |"validatorIntent"| == 15 && |"sessionKeysPresent"| == 18 && |"sessionKeysMatch"| == 16;
    assert |"localSessionCustody"| == 19 && |"active"| == 6 && |"mappedTemporalPeers"| == 19;
    assert |"failedStages"| == 12 && |"safeToRetireOldKeys"| == 19;
    assert "finalizedHeight"[0] == 'f' && "validatorIntent"[0] == 'v' && "bonded"[0] == 'b' && "active"[0] == 'a';
    assert "localSessionCustody"[0] == 'l' && "mappedTemporalPeers"[0] == 'm' && "safeToRetireOldKeys"[0] == 's';
  }

  lemma FlagsShown(i: Inputs, active: bool, stages: seq<Failure>)
    requires ValidInputs(i)
    ensures FlagsOn(Facts(i, active, stages), i, active)
  {
    FactNamesApart();
    PresentIff(i);
    RegisteredIff(i);
    hide KeysPresent, KeysMatch, LocalCustody, StateText, Decimal, Lower, WholeTuple, Registered, ValidInputs,
      FailureText, Texts;
  }

  lemma StagesShown(i: Inputs, active: bool, stages: seq<Failure>)
    requires ValidInputs(i)
    ensures var page := Facts(i, active, stages);
      && "failedStages" in page && page["failedStages"].List? && |page["failedStages"].items| == |stages|
      && forall k :: 0 <= k < |stages| ==> page["failedStages"].items[k] == Str(FailureText(stages[k]))
  {
    FactNamesApart();
    hide KeysPresent, KeysMatch, LocalCustody, StateText, Decimal, Lower, ValidInputs, FailureText;
  }

  lemma TextsShown(i: Inputs, active: bool, stages: seq<Failure>)
    requires ValidInputs(i)
    ensures var page := Facts(i, active, stages);
      && Has(page, "account", Str(Lower(i.account)))
      && Has(page, "finalizedHeight", Str(Decimal(i.finalizedHeight))) && Has(page, "state", Str(StateText(i)))
      && Has(page, "mappedTemporalPeers", Number(i.report.mappedTemporalPeers))
  {
    FactNamesApart();
    hide KeysPresent, KeysMatch, LocalCustody, StateText, Decimal, Lower, ValidInputs, FailureText, Texts;
  }

  lemma FactsShown(i: Inputs, active: bool, stages: seq<Failure>)
    requires ValidInputs(i)
    ensures FactsOn(Facts(i, active, stages), i, active, stages)
  {
    hide Facts, Has, StateText, Decimal, Lower, ValidInputs, FailureText, FlagsOn;
    FlagsShown(i, active, stages);
    StagesShown(i, active, stages);
    TextsShown(i, active, stages);
  }

  function Page(fields: Fields, safeToEnable: bool, safeToAuthor: bool, authorshipProven: bool): Fields {
    fields["safeToEnableValidatorMode" := Bool(safeToEnable)]["safeToAuthor" := Bool(safeToAuthor)]
          ["authorshipProven" := Bool(authorshipProven)]["schema" := Str(SCHEMA)]
  }

  lemma Overwrite(a: Fields, b: Fields, key: string, value: Json)
    ensures a + b[key := value] == (a + b)[key := value]
  {
  }

  /** The verdict stands on the page whatever else does, and leaves room for a seal. */
  lemma PageShows(fields: Fields, safeToEnable: bool, safeToAuthor: bool, authorshipProven: bool, seal: Json)
    ensures var page := Page(fields, safeToEnable, safeToAuthor, authorshipProven);
      && Shows(page, "safeToEnableValidatorMode", safeToEnable) && Shows(page, "safeToAuthor", safeToAuthor)
      && Shows(page, "authorshipProven", authorshipProven) && HasSchema(page)
      && Page(fields["integrity" := seal], safeToEnable, safeToAuthor, authorshipProven) == page["integrity" := seal]
  {
    assert |"integrity"| == 9 && |"schema"| == 6 && |"safeToAuthor"| == 12 && |"authorshipProven"| == 16;
    assert |"safeToEnableValidatorMode"| == 25;
  }

  /** The names that the verdict and the receipt add. */
  const ADDED_NAMES: set<string> := {
    "evidence", "qualification", "observedIdentity", "integrity",
    "safeToEnableValidatorMode", "safeToAuthor", "authorshipProven", "schema"
  }

  lemma FlagNamesFree()
    ensures "bonded" !in ADDED_NAMES && "validatorIntent" !in ADDED_NAMES && "sessionKeysPresent" !in ADDED_NAMES
    ensures "sessionKeysMatch" !in ADDED_NAMES && "localSessionCustody" !in ADDED_NAMES && "active" !in ADDED_NAMES
    ensures "safeToRetireOldKeys" !in ADDED_NAMES
  {
    AddedNameLengths();
    assert |"bonded"| == 6 && |"validatorIntent"| == 15 && |"sessionKeysPresent"| == 18 && |"sessionKeysMatch"| == 16;
    assert |"localSessionCustody"| == 19 && |"active"| == 6 && |"safeToRetireOldKeys"| == 19;
    assert "schema"[0] == 's' && "bonded"[0] == 'b' && "active"[0] == 'a';
    assert "sessionKeysMatch"[0] == 's' && "observedIdentity"[0] == 'o' && "authorshipProven"[0] == 'a';
  }

  lemma FactNamesFree()
    ensures "account" !in ADDED_NAMES && "finalizedHeight" !in ADDED_NAMES && "state" !in ADDED_NAMES
    ensures "mappedTemporalPeers" !in ADDED_NAMES && "failedStages" !in ADDED_NAMES
  {
    AddedNameLengths();
    assert |"account"| == 7 && |"finalizedHeight"| == 15 && |"state"| == 5 && |"mappedTemporalPeers"| == 19;
    assert |"failedStages"| == 12 && "failedStages"[0] == 'f' && "safeToAuthor"[0] == 's';
  }

  lemma AddedNameLengths()
    ensures |"evidence"| == 8 && |"qualification"| == 13 && |"observedIdentity"| == 16 && |"integrity"| == 9
    ensures |"safeToEnableValidatorMode"| == 25 && |"safeToAuthor"| == 12 && |"authorshipProven"| == 16
    ensures |"schema"| == 6
  {
  }

  lemma Untouched(facts: Fields, added: Fields, key: string, enable: bool, author: bool, proven: bool)
    requires key !in ADDED_NAMES && added.Keys <= ADDED_NAMES
    ensures var page := Page(facts + added, enable, author, proven);
      (key in page <==> key in facts) && (key in facts ==> page[key] == facts[key])
  {
  }

  lemma FactsSurvive(facts: Fields, added: Fields, enable: bool, author: bool, proven: bool,
                     i: Inputs, active: bool, stages: seq<Failure>)
    requires ValidInputs(i) && added.Keys <= ADDED_NAMES && FactsOn(facts, i, active, stages)
    ensures FactsOn(Page(facts + added, enable, author, proven), i, active, stages)
  {
    FactNamesFree();
    FlagNamesFree();
    forall key | key !in ADDED_NAMES
      ensures var page := Page(facts + added, enable, author, proven);
        (key in page <==> key in facts) && (key in facts ==> page[key] == facts[key])
    {
      Untouched(facts, added, key, enable, author, proven);
    }
    hide Page, KeysPresent, LocalCustody, StateText, Decimal, Lower, WholeTuple, Registered, ValidInputs, FailureText,
      ADDED_NAMES;
  }

  class Status {
    const inputs: Inputs
    const active: bool
    const authored: bool
    var failedStages: seq<Failure>
    var safeToEnable: bool
    var safeToAuthor: bool
    var authorshipProven: bool
    // evidence, qualification, observedIdentity and integrity, once the receipt has them
    var added: Fields

    constructor (inputs: Inputs, active: bool, authored: bool, failures: seq<Failure>)
      ensures this.inputs == inputs && this.active == active && this.authored == authored && failedStages == failures
      ensures safeToEnable == (failures == [])
      ensures safeToAuthor == (failures == [] && active && inputs.report.readyToAuthor)
      ensures authorshipProven == (failures == [] && authored)
      ensures added == map[]
    {
      this.inputs, this.active, this.authored, failedStages := inputs, active, authored, failures;
      safeToEnable := failures == [];
      safeToAuthor := failures == [] && active && inputs.report.readyToAuthor;
      authorshipProven := failures == [] && authored;
      added := map[];
    }

    /** The whole status, as the receipt shows it. */
    function Document(): Fields
      reads this
      requires ValidInputs(inputs)
    {
      Page(Facts(inputs, active, failedStages) + added, safeToEnable, safeToAuthor, authorshipProven)
    }

    /** The status as the gates left it. */
    ghost predicate Gated()
      reads this
    {
      && ValidInputs(inputs) && failedStages == GateFailures(inputs)
      && active == ActiveMember(inputs) && authored == Authored(inputs)
      && safeToEnable == (failedStages == [])
      && safeToAuthor == (failedStages == [] && active && inputs.report.readyToAuthor)
      && authorshipProven == (failedStages == [] && authored)
      && added == map[]
    }

    /** `transition_receipt`: qualification joins the same failure list, the flags are recomputed in place, and the
        status is sealed and verified. A receipt that says safe has one seven-key tuple behind it, held locally, and
        its verdicts on an active validator coincide, readiness to author included. */
    method TransitionReceipt(qualification: Qualification, sha256: string -> string)
      returns (r: Result<Fields, GateError>)
      requires Gated()
      modifies this
      ensures r.Ok? <==> !qualification.Malformed? && Clean(Object(Document() - {"integrity"}))
      ensures r.Ok? ==>
        && failedStages == old(failedStages) + QualificationFailures(qualification)
        && safeToEnable == (GateFailures(inputs) == [] && qualification.Compared? && qualification.matches)
        && (safeToEnable ==> TupleHeld(inputs))
        && (safeToEnable <==> Ready(inputs) && qualification.Compared? && qualification.matches)
        && (authorshipProven ==> InActiveSet(inputs) && Proven(inputs))
        && safeToAuthor == authorshipProven == (safeToEnable && active)
        && safeToAuthor == (safeToEnable && active && inputs.report.readyToAuthor)
      ensures r.Ok? ==>
        && r.value == Document() && VerifyReceipt(sha256, r.value) == Ok(r.value)
        && Shows(r.value, "safeToEnableValidatorMode", safeToEnable)
        && Shows(r.value, "safeToAuthor", safeToAuthor) && Shows(r.value, "authorshipProven", authorshipProven)
        && FactsOn(r.value, inputs, active, failedStages)
    {
      hide GateFailures, TupleHeld, Ready, InActiveSet, Proven, ActiveMember, Authored, EvidenceJson, Document,
        Clean, VerifyReceipt, ValidInputs, Shows, FactsOn;
      GatedActive();
      ReadyActive();
      CleanMeansHeld(inputs);
      added := added["evidence" := EvidenceJson(inputs)];
      match qualification {
        case Missing =>
          added := added["qualification" := Null]["observedIdentity" := Null];
          failedStages := failedStages + [QualificationMissing];
        case Malformed =>
          return Err(MalformedQualification);
        case Compared(matches, reviewed, observed) =>
          added := added["qualification" := reviewed]["observedIdentity" := observed];
          if !matches {
            failedStages := failedStages + [QualificationMismatch];
          }
      }
      safeToEnable := failedStages == [];
      safeToAuthor := safeToEnable && active;
      authorshipProven := safeToAuthor && authorshipProven;
      var sealed := SealDocument(sha256);
      if sealed.Err? {
        return Err(ProhibitedReceiptField);
      }
      DocumentFacts();
      r := Ok(sealed.value);
    }

    lemma DocumentFacts()
      requires ValidInputs(inputs) && added.Keys <= ADDED_NAMES
      ensures FactsOn(Document(), inputs, active, failedStages)
    {
      hide Facts, FactsOn, Page, ADDED_NAMES, ValidInputs;
      FactsShown(inputs, active, failedStages);
      FactsSurvive(Facts(inputs, active, failedStages), added, safeToEnable, safeToAuthor, authorshipProven,
                   inputs, active, failedStages);
    }

    /** The last two lines: the seal is written into the status, which is then verified whole. */
    method SealDocument(sha256: string -> string) returns (r: Result<Fields, ReceiptError>)
      requires ValidInputs(inputs)
      modifies this`added
      ensures Document() == Seal(sha256, old(Document())) && added.Keys == old(added).Keys + {"integrity"}
      ensures r == VerifyReceipt(sha256, Document()) && (r.Ok? ==> r.value == Document())
      ensures r.Ok? <==> Clean(Object(Document() - {"integrity"}))
      ensures Shows(Document(), "safeToEnableValidatorMode", safeToEnable)
      ensures Shows(Document(), "safeToAuthor", safeToAuthor)
      ensures Shows(Document(), "authorshipProven", authorshipProven)
    {
      hide Facts, Clean, Integrity, Shows, HasSchema, Page, ValidInputs;
      ghost var unsealed, fields := Document(), Facts(inputs, active, failedStages) + added;
      var seal := Integrity(sha256, Document());
      added := added["integrity" := seal];
      Overwrite(Facts(inputs, active, failedStages), old(added), "integrity", seal);
      PageShows(fields, safeToEnable, safeToAuthor, authorshipProven, seal);
      PageShows(fields["integrity" := seal], safeToEnable, safeToAuthor, authorshipProven, seal);
      SealVerifiesIff(sha256, unsealed);
      assert Document() - {"integrity"} == unsealed - {"integrity"};
      r := VerifyReceipt(sha256, Document());
    }

    /** The same in the fields of the inputs. */
    lemma ReadyActive()
      requires Gated()
      ensures failedStages == [] <==> Ready(inputs)
      ensures failedStages == [] && active ==> InActiveSet(inputs) && Proven(inputs)
    {
      CleanIffReady(inputs);
      ActiveIff(inputs);
      hide Registered, Held, Reported, QueuedAlike, GateFailures, Proven, InActiveSet, ActiveMember;
    }

    /** The gates already demand readiness and authorship of an active member. */
    lemma GatedActive()
      requires Gated()
      ensures failedStages == [] && active ==> inputs.report.readyToAuthor && authored
    {
      if failedStages == [] {
        CleanIffEveryGate(inputs);
      }
    }
  }

  method CheckTransition(i: Inputs) returns (r: Result<Status, GateError>)
    requires ValidInputs(i)
    ensures r.Err? <==> !AccountId(i.account) || (i.submitted.Some? && !EncodedKeys(i.submitted.value))
    ensures r.Ok? ==> fresh(r.value) && r.value.Gated() && r.value.inputs == i
  {
    hide KeysPresent, KeysMatch, LocalCustody, TemporalMatches, KeyMatches, PublicKey, QueuedSetEvidence,
      MappingAgrees, Authored, ActiveMember, SameText, ReadinessFailures, ActiveFailures;
    if !AccountId(i.account) { return Err(MalformedAccount); }
    if i.submitted.Some? && !EncodedKeys(i.submitted.value) { return Err(MalformedTuple); }
    var failures := FinalizedGates(i);
    var readinessFailures := ReadinessGates(i);
    failures := failures + readinessFailures;
    if KeysPresent(i) {
      var keyFailures := KeyGates(i);
      failures := failures + keyFailures;
    }
    var evidence, queuedFailures := QueuedGates(i);
    failures := failures + QueuedFailures(queuedFailures);
    var active, authored := ActiveMember(i), Authored(i);
    var activeFailures := ActiveGates(i);
    failures := failures + activeFailures;
    assert failures == GateFailures(i);
    var status := new Status(i, active, authored, failures);
    r := Ok(status);
  }
}
