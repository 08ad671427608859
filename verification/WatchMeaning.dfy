/** The recovery verdict said once more in the fields of the samples alone. */
module WatchMeaning {
  import opened Results
  import opened ValidatorWatch
  import SetFacts

  predicate IsCount(v: Value) {
    v.Int? && 0 <= v.n
  }

  predicate IsHash(v: Value) {
    && v.Text? && |v.s| == 66 && v.s[..2] == "0x"
    && forall i :: 2 <= i < 66 ==> '0' <= v.s[i] <= '9' || 'a' <= v.s[i] <= 'f' || 'A' <= v.s[i] <= 'F'
  }

  /** What Python takes for white space in a string. */
  predicate Blank(c: char) {
    || '\t' <= c <= '\r' || '\U{001C}' <= c <= ' ' || c == '\U{0085}' || c == '\U{00A0}' || c == '\U{1680}'
    || '\U{2000}' <= c <= '\U{200A}' || '\U{2028}' <= c <= '\U{2029}' || c == '\U{202F}' || c == '\U{205F}'
    || c == '\U{3000}'
  }

  predicate IsName(v: Value) {
    v.Text? && exists i :: 0 <= i < |v.s| && !Blank(v.s[i])
  }

  /** One finalized height, the same from both sources, with its hash. */
  predicate ShowsHeight(s: Sample) {
    && IsCount(s.finalizedBlock) && IsHash(s.finalizedHash)
    && match s.readinessFinalizedBlock
       case None => true
       case Some(readiness) => readiness == s.finalizedBlock
  }

  /** The node is synced, matched to its session and ready, has its quorum of time sources, one finalized height, a
      session, an account and an authority index. */
  predicate ShowsReady(s: Sample) {
    && s.majorSyncing == Bool(false) && s.activeSessionMatch == Bool(true) && s.readyToAuthor == Bool(true)
    && IsCount(s.minimumTemporalSources) && s.minimumTemporalSources.n >= 1
    && IsCount(s.mappedTemporalPeers) && s.mappedTemporalPeers.n >= s.minimumTemporalSources.n
    && IsCount(s.contributingTemporalPeers) && s.contributingTemporalPeers.n >= s.minimumTemporalSources.n
    && ShowsHeight(s) && IsCount(s.sessionIndex) && IsName(s.candidateAccount) && IsCount(s.activeBabeAuthorityIndex)
  }

  /** The last `k` samples are ready and the one before is not. */
  ghost predicate ReadyEnd(ss: seq<Sample>, k: nat) {
    && k <= |ss| && (forall i :: |ss| - k <= i < |ss| ==> ShowsReady(ss[i]))
    && (k < |ss| ==> !ShowsReady(ss[|ss| - k - 1]))
  }

  ghost predicate OneHistory(ss: seq<Sample>) {
    && (forall i :: 0 <= i < |ss| ==> ShowsHeight(ss[i]) && IsCount(ss[i].sessionIndex))
    && forall i, j :: 0 <= i < j < |ss| ==>
         && ss[i].finalizedBlock.n <= ss[j].finalizedBlock.n
         && ss[i].sessionIndex.n <= ss[j].sessionIndex.n
         && (ss[i].finalizedBlock.n == ss[j].finalizedBlock.n ==>
               ss[i].finalizedHash == ss[j].finalizedHash && ss[i].sessionIndex == ss[j].sessionIndex)
  }

  ghost predicate OneAccount(ss: seq<Sample>) {
    exists k :: 0 <= k < |ss| && IsName(ss[k].candidateAccount) && OnlyAccount(ss, ss[k].candidateAccount)
  }

  ghost predicate OneAuthority(ss: seq<Sample>) {
    forall i, j :: 0 <= i < |ss| && 0 <= j < |ss|
         && ss[i].activeSessionMatch == Bool(true) && ss[j].activeSessionMatch == Bool(true)
         && IsCount(ss[i].sessionIndex) && ss[i].sessionIndex == ss[j].sessionIndex
         && IsCount(ss[i].activeBabeAuthorityIndex) && IsCount(ss[j].activeBabeAuthorityIndex)
      ==> ss[i].activeBabeAuthorityIndex == ss[j].activeBabeAuthorityIndex
  }

  ghost predicate OnlyAccount(ss: seq<Sample>, account: Value) {
    forall i :: 0 <= i < |ss| ==> ss[i].candidateAccount == Null || ss[i].candidateAccount == account
  }

  /** Sample `i` carries a canonical proof of a finalized block by the authority of its session, above the height at
      which sample `f` first showed that session among those from `start` on. */
  ghost predicate ProvesAuthorship(ss: seq<Sample>, start: nat, f: nat, i: nat, boundary: bool) {
    && start <= f <= i < |ss| && ss[i].authorshipProof.Some? && ss[i].authorshipProofCanonical == Bool(true)
    && var proof := ss[i].authorshipProof.value;
    && IsCount(proof.blockNumber) && IsCount(proof.authorityIndex) && IsHash(proof.blockHash)
    && ss[f].finalizedBlock.Int? && ss[i].finalizedBlock.Int?
    && ss[f].finalizedBlock.n < proof.blockNumber.n <= ss[i].finalizedBlock.n
    && proof.authorityIndex == ss[i].activeBabeAuthorityIndex
    && ss[f].sessionIndex == ss[i].sessionIndex
    && (forall g :: start <= g < f ==> ss[g].sessionIndex != ss[i].sessionIndex)
    && (boundary ==> ss[i].sessionIndex == ss[|ss| - 1].sessionIndex)
  }

  /** The whole verdict over a ready end of `k` samples. */
  ghost predicate Recovered(ss: seq<Sample>, k: nat, required: int, authorship: bool, boundary: bool) {
    && ReadyEnd(ss, k) && k >= required && k >= 2
    && ss[|ss| - k].finalizedBlock.n < ss[|ss| - 1].finalizedBlock.n
    && OneHistory(ss) && OneAccount(ss) && OneAuthority(ss)
    && (boundary ==> exists i, j :: |ss| - k <= i < j < |ss| && ss[i].sessionIndex != ss[j].sessionIndex)
    && (authorship ==> ShowsProof(ss, |ss| - k, boundary))
  }

  ghost predicate ShowsProof(ss: seq<Sample>, start: nat, boundary: bool) {
    exists f: nat, i: nat :: ProvesAuthorship(ss, start, f, i, boundary)
  }

  // ---------- the same as the verdict of `evaluate` ----------

  lemma ReadyIsOperational(s: Sample)
    ensures ShowsReady(s) <==> Operational(s)
    ensures ShowsHeight(s) <==> ValidHeight(s)
    ensures IsName(s.candidateAccount) <==> Account(s.candidateAccount)
  {
  }

  lemma ReadyEndIsWindow(ss: seq<Sample>, k: nat)
    ensures ReadyEnd(ss, k) <==> k == EndingRun(ss)
  {
    hide ShowsReady, Operational;
    forall i | 0 <= i < |ss|
      ensures ShowsReady(ss[i]) <==> Operational(ss[i])
    {
      ReadyIsOperational(ss[i]);
    }
    if k <= |ss| {
      SuffixReady(ss, k);
    }
    if k < |ss| {
      SuffixReady(ss, k + 1);
    }
    if k + 1 < |ss| && k < EndingRun(ss) {
      SuffixReady(ss, k + 1);
    }
    hide EndingRun;
    if ReadyEnd(ss, k) && k < |ss| {
      assert !ShowsReady(ss[|ss| - (k + 1)]);
    }
  }

  lemma SuffixReady(ss: seq<Sample>, k: nat)
    requires k <= |ss|
    ensures (forall i :: |ss| - k <= i < |ss| ==> Operational(ss[i])) <==> k <= EndingRun(ss)
  {
    hide Operational;
    EndingRunIsLongestSuffix(ss, k);
    var suffix := ss[|ss| - k..];
    hide EndingRun;
    assert forall i :: 0 <= i < k ==> suffix[i] == ss[|ss| - k + i];
    assert forall i :: |ss| - k <= i < |ss| ==> ss[i] == suffix[i - (|ss| - k)];
  }

  lemma OneHistoryIff(ss: seq<Sample>)
    ensures OneHistory(ss) <==> OrderedHistory(ss)
  {
    forall i | 0 <= i < |ss|
      ensures ShowsHeight(ss[i]) <==> ValidHeight(ss[i])
      ensures ShowsHeight(ss[i]) ==> ss[i].finalizedBlock.Int?
    {
      ReadyIsOperational(ss[i]);
    }
    hide ShowsHeight, ValidHeight;
  }

  lemma OneAuthorityIff(ss: seq<Sample>)
    ensures OneAuthority(ss) <==> OneAuthorityPerSession(ss)
  {
  }

  lemma OneAccountIff(ss: seq<Sample>)
    ensures OneAccount(ss) <==> CandidatesWellFormed(ss) && |Candidates(ss)| == 1
  {
    forall i | 0 <= i < |ss|
      ensures IsName(ss[i].candidateAccount) <==> Account(ss[i].candidateAccount)
      ensures IsName(ss[i].candidateAccount) ==> ss[i].candidateAccount.Text?
    {
      ReadyIsOperational(ss[i]);
    }
    hide IsName, Account;
    if OneAccount(ss) {
      OneAccountAlone(ss);
    }
    if CandidatesWellFormed(ss) && |Candidates(ss)| == 1 {
      AloneOneAccount(ss);
    }
    hide *;
  }

  lemma OneAccountAlone(ss: seq<Sample>)
    requires OneAccount(ss)
    requires forall i :: 0 <= i < |ss| ==>
      (IsName(ss[i].candidateAccount) <==> Account(ss[i].candidateAccount))
      && (IsName(ss[i].candidateAccount) ==> ss[i].candidateAccount.Text?)
    ensures CandidatesWellFormed(ss) && |Candidates(ss)| == 1
  {
    hide IsName, Account;
    var k :| 0 <= k < |ss| && IsName(ss[k].candidateAccount) && OnlyAccount(ss, ss[k].candidateAccount);
    assert Candidates(ss) == {ss[k].candidateAccount.s};
  }

  lemma AloneOneAccount(ss: seq<Sample>)
    requires CandidatesWellFormed(ss) && |Candidates(ss)| == 1
    requires forall i :: 0 <= i < |ss| ==>
      (IsName(ss[i].candidateAccount) <==> Account(ss[i].candidateAccount))
      && (IsName(ss[i].candidateAccount) ==> ss[i].candidateAccount.Text?)
    ensures OneAccount(ss)
  {
    hide IsName, Account;
    SetFacts.TheOnlyElement(Candidates(ss));
    var a :| a in Candidates(ss) && Candidates(ss) == {a};
    var k :| 0 <= k < |ss| && Account(ss[k].candidateAccount) && ss[k].candidateAccount.s == a;
    forall i | 0 <= i < |ss| && ss[i].candidateAccount != Null
      ensures ss[i].candidateAccount == ss[k].candidateAccount
    {
      assert ss[i].candidateAccount.s in Candidates(ss);
    }
    assert OnlyAccount(ss, ss[k].candidateAccount);
  }

  lemma CrossesIff(ss: seq<Sample>, w: seq<Sample>)
    requires AllOperational(w) && |w| <= |ss| && w == ss[|ss| - |w|..]
    ensures CrossesSession(w) <==>
      exists i, j :: |ss| - |w| <= i < j < |ss| && ss[i].sessionIndex != ss[j].sessionIndex
  {
    OperationalUnsignedAll(w);
    hide Operational;
    var start := |ss| - |w|;
    if CrossesSession(w) {
      var i, j :| 0 <= i < j < |w| && Session(w[i]) != Session(w[j]);
      SessionsDiffer(ss, w, i, j);
    }
    if i, j :| start <= i < j < |ss| && ss[i].sessionIndex != ss[j].sessionIndex {
      SessionsDiffer(ss, w, i - start, j - start);
    }
    hide Session;
  }

  lemma SessionsDiffer(ss: seq<Sample>, w: seq<Sample>, i: nat, j: nat)
    requires AllOperational(w) && |w| <= |ss| && w == ss[|ss| - |w|..] && i < |w| && j < |w|
    ensures Session(w[i]) != Session(w[j]) <==>
      ss[|ss| - |w| + i].sessionIndex != ss[|ss| - |w| + j].sessionIndex
  {
    OperationalUnsignedAll(w);
    hide Operational;
    assert w[i] == ss[|ss| - |w| + i] && w[j] == ss[|ss| - |w| + j];
  }

  lemma OperationalUnsignedAll(w: seq<Sample>)
    requires AllOperational(w)
    ensures forall i :: 0 <= i < |w| ==> w[i].sessionIndex.Int? && w[i].finalizedBlock.Int?
  {
  }

  lemma FreshIff(ss: seq<Sample>, w: seq<Sample>, f: nat, i: nat, boundary: bool)
    requires AllOperational(w) && |w| <= |ss| && w == ss[|ss| - |w|..] && f < |w| && i < |w|
    ensures ProvesAuthorship(ss, |ss| - |w|, |ss| - |w| + f, |ss| - |w| + i, boundary) <==>
      && Fresh(w, i, boundary) && FirstOfSession(w, f, Session(w[i])) && Height(w[f]) < ProofBlock(w[i])
  {
    FirstIff(ss, w, f, i);
    OperationalUnsignedAll(w);
    hide Operational, FirstOfSession;
    var start := |ss| - |w|;
    assert w[f] == ss[start + f] && w[i] == ss[start + i] && w[|w| - 1] == ss[|ss| - 1];
    ShapeIff(w[i]);
    hide IsHash, BlockHash, WellFormedProof;
    if FirstOfSession(w, f, Session(w[i])) && WellFormedProof(w[i]) && Height(w[f]) < ProofBlock(w[i]) {
      assert AboveBaseline(w, i);
    }
    hide AboveBaseline;
  }

  lemma ShapeIff(s: Sample)
    ensures WellFormedProof(s) <==>
      && s.authorshipProof.Some? && s.authorshipProofCanonical == Bool(true)
      && IsCount(s.authorshipProof.value.blockNumber) && IsCount(s.authorshipProof.value.authorityIndex)
      && IsHash(s.authorshipProof.value.blockHash)
  {
    if s.authorshipProof.Some? {
      HashIff(s.authorshipProof.value.blockHash);
    }
    hide IsHash, BlockHash;
  }

  lemma NameIff(v: Value)
    ensures IsName(v) <==> Account(v)
  {
  }

  lemma HashIff(v: Value)
    ensures IsHash(v) <==> BlockHash(v)
  {
  }

  lemma FirstIff(ss: seq<Sample>, w: seq<Sample>, f: nat, i: nat)
    requires AllOperational(w) && |w| <= |ss| && w == ss[|ss| - |w|..] && f < |w| && i < |w|
    ensures var start := |ss| - |w|;
      FirstOfSession(w, f, Session(w[i])) <==>
      && f <= i && ss[start + f].sessionIndex == ss[start + i].sessionIndex
      && forall g :: start <= g < start + f ==> ss[g].sessionIndex != ss[start + i].sessionIndex
  {
    OperationalUnsignedAll(w);
    hide Operational;
    var start := |ss| - |w|;
    assert forall g :: 0 <= g < |w| ==> w[g] == ss[start + g];
    assert forall g :: start <= g < |ss| ==> ss[g] == w[g - start];
  }

  lemma ShowsProofIff(ss: seq<Sample>, w: seq<Sample>, boundary: bool)
    requires AllOperational(w) && |w| <= |ss| && w == ss[|ss| - |w|..]
    ensures ShowsProof(ss, |ss| - |w|, boundary) <==> ShowsAuthorship(w, boundary)
  {
    hide Operational, ProvesAuthorship, Fresh;
    var start := |ss| - |w|;
    if ShowsAuthorship(w, boundary) {
      var i: nat :| Fresh(w, i, boundary);
      var f := FreshBaseline(w, i, boundary);
      FreshIff(ss, w, f, i, boundary);
    }
    if ShowsProof(ss, start, boundary) {
      var f: nat, i: nat :| ProvesAuthorship(ss, start, f, i, boundary);
      ProofPlaces(ss, start, f, i, boundary);
      FreshIff(ss, w, f - start, i - start, boundary);
    }
  }

  lemma FreshBaseline(w: seq<Sample>, i: nat, boundary: bool) returns (f: nat)
    requires AllOperational(w) && Fresh(w, i, boundary)
    ensures i < |w| && f < |w| && FirstOfSession(w, f, Session(w[i])) && WellFormedProof(w[i])
    ensures Height(w[f]) < ProofBlock(w[i])
  {
    hide Operational, WellFormedProof;
    f :| FirstOfSession(w, f, Session(w[i])) && Height(w[f]) < ProofBlock(w[i]);
  }

  lemma ProofPlaces(ss: seq<Sample>, start: nat, f: nat, i: nat, boundary: bool)
    requires ProvesAuthorship(ss, start, f, i, boundary)
    ensures start <= f <= i < |ss|
  {
  }

  /** The verdict is what the samples show, and `EndingRun` counts the ready end. */
  lemma AcceptsIffRecovered(ss: seq<Sample>, required: int, authorship: bool, boundary: bool)
    ensures Accepts(ss, required, authorship, boundary) <==>
      Recovered(ss, EndingRun(ss), required, authorship, boundary)
  {
    hide Operational, ReadyEnd, OneHistory, OrderedHistory, OneAccount, OneAuthority, OneAuthorityPerSession,
      CandidatesWellFormed, Candidates, ShowsProof, ShowsAuthorship, CrossesSession, EndingRun, Window;
    var w, k := Window(ss), EndingRun(ss);
    WindowOf(ss);
    ReadyEndIsWindow(ss, k);
    OneHistoryIff(ss);
    OneAccountIff(ss);
    OneAuthorityIff(ss);
    CrossesIff(ss, w);
    ShowsProofIff(ss, w, boundary);
    GainsIff(ss, w);
  }

  lemma WindowOf(ss: seq<Sample>)
    ensures |Window(ss)| <= |ss| && Window(ss) == ss[|ss| - |Window(ss)|..]
  {
    hide Operational;
  }

  lemma GainsIff(ss: seq<Sample>, w: seq<Sample>)
    requires AllOperational(w) && |w| <= |ss| && w == ss[|ss| - |w|..]
    ensures GainsHeight(w) <==>
      |w| >= 2 && ss[|ss| - |w|].finalizedBlock.Int? && ss[|ss| - 1].finalizedBlock.Int?
      && ss[|ss| - |w|].finalizedBlock.n < ss[|ss| - 1].finalizedBlock.n
    ensures |w| > 0 ==> ss[|ss| - |w|].finalizedBlock.Int? && ss[|ss| - 1].finalizedBlock.Int?
  {
    OperationalUnsignedAll(w);
    hide Operational;
    assert |w| > 0 ==> w[0] == ss[|ss| - |w|] && w[|w| - 1] == ss[|ss| - 1];
  }

  // ---------- the reported counts ----------

  predicate ShowsQuorum(s: Sample) {
    && s.minimumTemporalSources.Int? && s.minimumTemporalSources.n >= 1
    && s.mappedTemporalPeers.Int? && s.mappedTemporalPeers.n >= s.minimumTemporalSources.n
    && s.contributingTemporalPeers.Int? && s.contributingTemporalPeers.n >= s.minimumTemporalSources.n
  }

  function WithQuorum(ss: seq<Sample>): set<nat> {
    set i | 0 <= i < |ss| && ShowsQuorum(ss[i])
  }

  lemma {:induction false} QuorumCounted(ss: seq<Sample>)
    ensures QuorumCount(ss) == |WithQuorum(ss)|
  {
    if ss != [] {
      var n := |ss| - 1;
      QuorumCounted(ss[..n]);
      QuorumIs(ss[n]);
      OneMoreQuorum(ss);
      hide WithQuorum, Quorum, ShowsQuorum;
    }
  }

  lemma OneMoreQuorum(ss: seq<Sample>)
    requires ss != []
    ensures var n := |ss| - 1;
      n !in WithQuorum(ss[..n]) && WithQuorum(ss) == WithQuorum(ss[..n]) + (if ShowsQuorum(ss[n]) then {n} else {})
  {
    hide ShowsQuorum;
    var n := |ss| - 1;
    assert forall i :: 0 <= i < n ==> ss[..n][i] == ss[i];
  }

  lemma QuorumIs(s: Sample)
    ensures Quorum(s) <==> ShowsQuorum(s)
  {
  }

  ghost predicate ReadyBetween(ss: seq<Sample>, i: nat, j: nat)
    requires i <= j <= |ss|
  {
    forall k :: i <= k < j ==> ShowsReady(ss[k])
  }

  /** No stretch of ready samples is longer than the reported maximum, and one is as long. */
  lemma LongestReadyStretch(ss: seq<Sample>) returns (lo: nat, hi: nat)
    ensures forall i: nat, j: nat :: i <= j <= |ss| && ReadyBetween(ss, i, j) ==> j - i <= LongestRun(ss)
    ensures lo <= hi <= |ss| && ReadyBetween(ss, lo, hi) && hi - lo == LongestRun(ss)
  {
    lo, hi := LongestRunIsMaximum(ss);
    hide LongestRun;
    forall i: nat, j: nat | i <= j <= |ss|
      ensures ReadyBetween(ss, i, j) <==> AllOperational(ss[i..j])
    {
      StretchReady(ss, i, j);
    }
    hide ReadyBetween, AllOperational;
  }

  lemma StretchReady(ss: seq<Sample>, i: nat, j: nat)
    requires i <= j <= |ss|
    ensures ReadyBetween(ss, i, j) <==> AllOperational(ss[i..j])
  {
    hide ShowsReady, Operational;
    forall k | 0 <= k < |ss|
      ensures ShowsReady(ss[k]) <==> Operational(ss[k])
    {
      ReadyIsOperational(ss[k]);
    }
    assert forall k :: i <= k < j ==> ss[k] == ss[i..j][k - i];
  }
}
