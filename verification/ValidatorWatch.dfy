/** Recovery acceptance: what `evaluate` concludes from a list of samples. */
module ValidatorWatch {
  import opened Results
  import Strings = Text

  // ---------- samples ----------

  /** A JSON value as Python sees it; `Other` stands for lists and objects. */
  datatype Value = Null | Bool(b: bool) | Int(n: int) | Float(r: real) | Text(s: string) | Other(tag: int)

  datatype ProofRecord = ProofRecord(blockNumber: Value, blockHash: Value, authorityIndex: Value)

  /** One observation; a missing key reads as `Null`, except where the source gives another default. */
  datatype Sample = Sample(
    finalizedBlock: Value, finalizedHash: Value, readinessFinalizedBlock: Option<Value>, sessionIndex: Value,
    candidateAccount: Value, activeBabeAuthorityIndex: Value,
    minimumTemporalSources: Value, mappedTemporalPeers: Value, contributingTemporalPeers: Value,
    majorSyncing: Value, activeSessionMatch: Value, readyToAuthor: Value,
    authorshipProof: Option<ProofRecord>, authorshipProofCanonical: Value)

  predicate Unsigned(v: Value) {
    v.Int? && v.n >= 0
  }

  predicate BlockHash(v: Value) {
    v.Text? && |v.s| == 66 && v.s[0] == '0' && v.s[1] == 'x' && forall i :: 2 <= i < 66 ==> Strings.HexDigit(v.s[i])
  }

  predicate Space(c: char) {
    var u := c as int;
    9 <= u <= 13 || 28 <= u <= 32 || u == 133 || u == 160 || u == 5760 || 8192 <= u <= 8202
    || u == 8232 || u == 8233 || u == 8239 || u == 8287 || u == 12288
  }

  /** A string with something left after `strip()`. */
  predicate Account(v: Value) {
    v.Text? && exists i :: 0 <= i < |v.s| && !Space(v.s[i])
  }

  function AsNumber(v: Value): Option<real> {
    match v
    case Bool(b) => Some(if b then 1.0 else 0.0)
    case Int(n) => Some(n as real)
    case Float(r) => Some(r)
    case _ => None
  }

  /** Python's `==`, under which numbers of different types can be equal. */
  predicate PythonEqual(a: Value, b: Value) {
    if AsNumber(a).Some? && AsNumber(b).Some? then AsNumber(a) == AsNumber(b) else a == b
  }

  predicate Quorum(s: Sample) {
    var minimum, mapped, contributing := s.minimumTemporalSources, s.mappedTemporalPeers, s.contributingTemporalPeers;
    Unsigned(minimum) && minimum.n > 0 && Unsigned(mapped) && Unsigned(contributing)
    && mapped.n >= minimum.n && contributing.n >= minimum.n
  }

  function ReadinessHeight(s: Sample): Value {
    if s.readinessFinalizedBlock.Some? then s.readinessFinalizedBlock.value else s.finalizedBlock
  }

  predicate ValidHeight(s: Sample) {
    Unsigned(s.finalizedBlock) && Unsigned(ReadinessHeight(s))
    && ReadinessHeight(s).n == s.finalizedBlock.n && BlockHash(s.finalizedHash)
  }

  predicate Operational(s: Sample) {
    s.majorSyncing == Bool(false) && s.activeSessionMatch == Bool(true) && s.readyToAuthor == Bool(true)
    && Quorum(s) && ValidHeight(s) && Unsigned(s.sessionIndex) && Account(s.candidateAccount)
    && Unsigned(s.activeBabeAuthorityIndex)
  }

  /** The sample ties its session to an authority index. */
  predicate Bound(s: Sample) {
    Unsigned(s.sessionIndex) && s.activeSessionMatch == Bool(true) && Unsigned(s.activeBabeAuthorityIndex)
  }

  // ---------- the checks on neighbouring samples ----------

  predicate FinalityStep(before: Sample, after: Sample) {
    var height, heightBefore := after.finalizedBlock, before.finalizedBlock;
    var readiness, readinessBefore := ReadinessHeight(after), ReadinessHeight(before);
    && (Unsigned(height) && Unsigned(heightBefore) ==>
          height.n >= heightBefore.n
          && (height.n == heightBefore.n ==> PythonEqual(after.finalizedHash, before.finalizedHash)))
    && (Unsigned(readiness) && Unsigned(readinessBefore) ==> readiness.n >= readinessBefore.n)
  }

  predicate SessionStep(before: Sample, after: Sample) {
    var session, sessionBefore := after.sessionIndex, before.sessionIndex;
    var readiness, readinessBefore := ReadinessHeight(after), ReadinessHeight(before);
    && (Unsigned(readiness) && Unsigned(readinessBefore) && !PythonEqual(session, sessionBefore) ==>
          readiness.n > readinessBefore.n)
    && (Unsigned(session) && Unsigned(sessionBefore) ==> session.n >= sessionBefore.n)
  }

  ghost predicate FinalityMonotonic(ss: seq<Sample>) {
    && (forall i :: 0 <= i < |ss| ==> ValidHeight(ss[i]))
    && (forall i, j :: 0 <= i && j == i + 1 && j < |ss| ==> FinalityStep(ss[i], ss[j]))
  }

  ghost predicate SessionMonotonic(ss: seq<Sample>) {
    && (forall i :: 0 <= i < |ss| ==> Unsigned(ss[i].sessionIndex))
    && (forall i, j :: 0 <= i && j == i + 1 && j < |ss| ==> SessionStep(ss[i], ss[j]))
  }

  ghost predicate CandidatesWellFormed(ss: seq<Sample>) {
    forall i :: 0 <= i < |ss| ==> ss[i].candidateAccount == Null || Account(ss[i].candidateAccount)
  }

  /** One authority index per session, over every sample that ties the two. */
  ghost predicate OneAuthorityPerSession(ss: seq<Sample>) {
    forall i, j :: 0 <= i < |ss| && 0 <= j < |ss| && Bound(ss[i]) && Bound(ss[j])
                   && ss[i].sessionIndex == ss[j].sessionIndex
                   ==> ss[i].activeBabeAuthorityIndex == ss[j].activeBabeAuthorityIndex
  }

  function Candidates(ss: seq<Sample>): set<string> {
    set i | 0 <= i < |ss| && Account(ss[i].candidateAccount) :: ss[i].candidateAccount.s
  }

  function Sessions(ss: seq<Sample>): set<int> {
    set i | 0 <= i < |ss| && Unsigned(ss[i].sessionIndex) :: ss[i].sessionIndex.n
  }

  ghost predicate IdentityStable(ss: seq<Sample>) {
    CandidatesWellFormed(ss) && OneAuthorityPerSession(ss) && |Candidates(ss)| == 1
  }

  function QuorumCount(ss: seq<Sample>): nat {
    if ss == [] then 0 else QuorumCount(ss[..|ss| - 1]) + (if Quorum(ss[|ss| - 1]) then 1 else 0)
  }

  /** Length of the longest all-operational suffix (see `EndingRunIsLongestSuffix`). */
  function EndingRun(ss: seq<Sample>): (n: nat)
    ensures n <= |ss|
  {
    if ss == [] || !Operational(ss[|ss| - 1]) then 0 else EndingRun(ss[..|ss| - 1]) + 1
  }

  function LongestRun(ss: seq<Sample>): nat {
    if ss == [] then 0
    else
      var before, ending := LongestRun(ss[..|ss| - 1]), EndingRun(ss);
      if ending > before then ending else before
  }

  /** The ending ready window: the longest all-operational suffix. */
  function Window(ss: seq<Sample>): (w: seq<Sample>)
    ensures AllOperational(w) && |w| == EndingRun(ss)
  {
    EndingRunOperational(ss);
    ss[|ss| - EndingRun(ss)..]
  }

  ghost predicate AllOperational(ss: seq<Sample>) {
    forall i :: 0 <= i < |ss| ==> Operational(ss[i])
  }

  lemma {:induction false} EndingRunOperational(ss: seq<Sample>)
    ensures AllOperational(ss[|ss| - EndingRun(ss)..])
  {
    if EndingRun(ss) > 0 {
      var n, init := |ss|, ss[..|ss| - 1];
      EndingRunOperational(init);
      assert ss[n - EndingRun(ss)..] == init[n - 1 - EndingRun(init)..] + [ss[n - 1]];
    }
  }

  // ---------- fresh authorship ----------

  function Height(s: Sample): int
    requires Operational(s)
  {
    s.finalizedBlock.n
  }

  function Session(s: Sample): int
    requires Operational(s)
  {
    s.sessionIndex.n
  }

  /** `f` is where the window first shows the session: its height is that session's baseline. */
  ghost predicate FirstOfSession(w: seq<Sample>, f: nat, session: int)
    requires AllOperational(w)
  {
    f < |w| && Session(w[f]) == session && forall g :: 0 <= g < f ==> Session(w[g]) != session
  }

  predicate WellFormedProof(s: Sample) {
    s.authorshipProof.Some? && s.authorshipProofCanonical == Bool(true)
    && Unsigned(s.authorshipProof.value.blockNumber) && Unsigned(s.authorshipProof.value.authorityIndex)
    && BlockHash(s.authorshipProof.value.blockHash)
  }

  function ProofBlock(s: Sample): int
    requires WellFormedProof(s)
  {
    s.authorshipProof.value.blockNumber.n
  }

  function ProofHash(s: Sample): string
    requires WellFormedProof(s)
  {
    s.authorshipProof.value.blockHash.s
  }

  ghost predicate AboveBaseline(w: seq<Sample>, i: nat)
    requires AllOperational(w) && i < |w| && WellFormedProof(w[i])
  {
    exists f: nat :: FirstOfSession(w, f, Session(w[i])) && Height(w[f]) < ProofBlock(w[i])
  }

  /** Sample `i` of the window carries a proof above its session's baseline, by the session's own authority. */
  ghost predicate Fresh(w: seq<Sample>, i: nat, requireSessionBoundary: bool)
    requires AllOperational(w)
  {
    && i < |w| && WellFormedProof(w[i]) && AboveBaseline(w, i)
    && ProofBlock(w[i]) <= Height(w[i])
    && w[i].authorshipProof.value.authorityIndex == w[i].activeBabeAuthorityIndex
    && (requireSessionBoundary ==> Session(w[i]) == Session(w[|w| - 1]))
  }

  // ---------- the declarative verdict ----------

  /** Heights never fall, at any distance; one height has one hash and one session; a new session is higher. */
  ghost predicate OrderedHistory(ss: seq<Sample>) {
    && (forall i :: 0 <= i < |ss| ==> ValidHeight(ss[i]) && Unsigned(ss[i].sessionIndex))
    && forall i, j :: 0 <= i < j < |ss| ==>
         && ss[i].finalizedBlock.n <= ss[j].finalizedBlock.n
         && ss[i].sessionIndex.n <= ss[j].sessionIndex.n
         && (ss[i].finalizedBlock.n == ss[j].finalizedBlock.n ==>
               ss[i].finalizedHash == ss[j].finalizedHash && ss[i].sessionIndex == ss[j].sessionIndex)
  }

  ghost predicate GainsHeight(w: seq<Sample>)
    requires AllOperational(w)
  {
    |w| > 0 && Height(w[0]) < Height(w[|w| - 1])
  }

  ghost predicate CrossesSession(w: seq<Sample>)
    requires AllOperational(w)
  {
    exists i, j :: 0 <= i < j < |w| && Session(w[i]) != Session(w[j])
  }

  ghost predicate ShowsAuthorship(w: seq<Sample>, requireSessionBoundary: bool)
    requires AllOperational(w)
  {
    exists i: nat :: Fresh(w, i, requireSessionBoundary)
  }

  /** What a pass means, said of the whole list of samples and its longest all-operational suffix. */
  ghost predicate Accepts(ss: seq<Sample>, requiredReady: int, requireAuthorship: bool, requireSessionBoundary: bool) {
    var w := Window(ss);
    && |w| >= requiredReady
    && GainsHeight(w)
    && OrderedHistory(ss)
    && IdentityStable(ss)
    && (requireSessionBoundary ==> CrossesSession(w))
    && (requireAuthorship ==> ShowsAuthorship(w, requireSessionBoundary))
  }

  /** The window is the longest operational suffix: whatever precedes it is not operational. */
  lemma {:induction false} EndingRunIsLongestSuffix(ss: seq<Sample>, k: nat)
    requires k <= |ss|
    ensures AllOperational(ss[|ss| - k..]) <==> k <= EndingRun(ss)
  {
    var n := |ss|;
    if k > 0 {
      var init := ss[..n - 1];
      EndingRunIsLongestSuffix(init, k - 1);
      assert ss[n - k..] == init[n - 1 - (k - 1)..] + [ss[n - 1]];
      assert ss[n - k..][k - 1] == ss[n - 1];
    }
  }

  /** The maximum streak bounds every operational stretch and is reached by one. */
  lemma {:induction false} LongestRunIsMaximum(ss: seq<Sample>) returns (lo: nat, hi: nat)
    ensures forall i, j :: 0 <= i <= j <= |ss| && AllOperational(ss[i..j]) ==> j - i <= LongestRun(ss)
    ensures lo <= hi <= |ss| && AllOperational(ss[lo..hi]) && hi - lo == LongestRun(ss)
  {
    hide Operational;
    var n := |ss|;
    if n == 0 {
      lo, hi := 0, 0;
    } else {
      var init := ss[..n - 1];
      lo, hi := LongestRunIsMaximum(init);
      assert init[lo..hi] == ss[lo..hi];
      forall i, j | 0 <= i <= j <= n && AllOperational(ss[i..j])
        ensures j - i <= LongestRun(ss)
      {
        if j == n {
          EndingRunIsLongestSuffix(ss, n - i);
          assert ss[i..j] == ss[i..];
        } else {
          assert init[i..j] == ss[i..j];
        }
      }
      if EndingRun(ss) > LongestRun(init) {
        lo, hi := n - EndingRun(ss), n;
        assert ss[lo..hi] == Window(ss);
      }
    }
  }
}
