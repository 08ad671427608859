/** `evaluate` itself, and what an accepted run establishes. */
module WatchEvaluation {
  import opened Results
  import opened ValidatorWatch
  import opened WatchMeaning
  import SetFacts

  datatype Scan = Scan(
    finalityMonotonic: bool, sessionMonotonic: bool, identityStable: bool,
    candidates: set<string>, sessions: set<int>, quorumSamples: nat, readyStreak: nat, maximumReadyStreak: nat)

  datatype Summary = Summary(
    passed: bool, acceptancePassed: bool,
    finalityAdvanced: bool, finalityMonotonic: bool, sessionMonotonic: bool, stableCandidateAccount: bool,
    requiredConsecutiveReadySamplesMet: bool, finalizedAuthorshipObserved: bool, sessionBoundaryObserved: bool,
    sampleCount: nat, sessionIndexes: set<int>, quorumSampleCount: nat,
    maximumConsecutiveReadySamples: nat, endingConsecutiveReadySamples: nat,
    candidateAccount: Option<string>, authorshipProofs: map<string, ProofRecord>)

  datatype EvaluateError = NothingToEvaluate

  // ---------- one more sample ----------

  lemma FinalitySnoc(seen: seq<Sample>, item: Sample)
    ensures FinalityMonotonic(seen + [item]) <==>
            FinalityMonotonic(seen) && ValidHeight(item)
            && (seen != [] ==> FinalityStep(seen[|seen| - 1], item))
  {
    hide FinalityStep, ValidHeight;
    var all, n := seen + [item], |seen|;
    if FinalityMonotonic(all) {
      assert all[n] == item;
      forall i | 0 <= i < n
        ensures ValidHeight(seen[i])
        ensures i + 1 < n ==> FinalityStep(seen[i], seen[i + 1])
      {
        assert all[i] == seen[i];
        if i + 1 < n {
          assert FinalityStep(all[i], all[i + 1]);
        }
      }
      if n > 0 {
        assert FinalityStep(all[n - 1], all[n]);
      }
    }
  }

  lemma SessionSnoc(seen: seq<Sample>, item: Sample)
    ensures SessionMonotonic(seen + [item]) <==>
            SessionMonotonic(seen) && Unsigned(item.sessionIndex)
            && (seen != [] ==> SessionStep(seen[|seen| - 1], item))
  {
    hide SessionStep, Unsigned;
    var all, n := seen + [item], |seen|;
    if SessionMonotonic(all) {
      assert all[n] == item;
      forall i | 0 <= i < n
        ensures Unsigned(seen[i].sessionIndex)
        ensures i + 1 < n ==> SessionStep(seen[i], seen[i + 1])
      {
        assert all[i] == seen[i];
        if i + 1 < n {
          assert SessionStep(all[i], all[i + 1]);
        }
      }
      if n > 0 {
        assert SessionStep(all[n - 1], all[n]);
      }
    }
  }

  lemma NamesSnoc(seen: seq<Sample>, item: Sample)
    ensures Candidates(seen + [item])
         == Candidates(seen) + (if Account(item.candidateAccount) then {item.candidateAccount.s} else {})
    ensures Sessions(seen + [item])
         == Sessions(seen) + (if Unsigned(item.sessionIndex) then {item.sessionIndex.n} else {})
    ensures CandidatesWellFormed(seen + [item]) <==>
            CandidatesWellFormed(seen) && (item.candidateAccount == Null || Account(item.candidateAccount))
  {
    hide Account, Unsigned;
    var all, n := seen + [item], |seen|;
    assert all[n] == item;
    forall i | 0 <= i < n
      ensures all[i] == seen[i]
    {
    }
    if CandidatesWellFormed(all) {
      forall i | 0 <= i < n
        ensures seen[i].candidateAccount == Null || Account(seen[i].candidateAccount)
      {
        assert all[i] == seen[i];
      }
    }
  }

  lemma RunsSnoc(seen: seq<Sample>, item: Sample)
    ensures QuorumCount(seen + [item]) == QuorumCount(seen) + (if Quorum(item) then 1 else 0)
    ensures EndingRun(seen + [item]) == if Operational(item) then EndingRun(seen) + 1 else 0
    ensures LongestRun(seen + [item])
         == if EndingRun(seen + [item]) > LongestRun(seen) then EndingRun(seen + [item]) else LongestRun(seen)
  {
    assert (seen + [item])[..|seen|] == seen;
  }

  /** What `session_authorities` holds: for each session tied so far, the index of some sample that ties it. */
  ghost predicate Recorded(ss: seq<Sample>, m: map<int, int>) {
    && (forall i :: 0 <= i < |ss| && Bound(ss[i]) ==> ss[i].sessionIndex.n in m)
    && (forall session :: session in m ==> Witnessed(ss, session, m[session]))
  }

  ghost predicate Witnessed(ss: seq<Sample>, session: int, authority: int) {
    exists i :: 0 <= i < |ss| && Bound(ss[i]) && ss[i].sessionIndex.n == session
                && ss[i].activeBabeAuthorityIndex.n == authority
  }

  lemma WitnessedExtends(seen: seq<Sample>, item: Sample, session: int, authority: int)
    requires Witnessed(seen, session, authority)
    ensures Witnessed(seen + [item], session, authority)
  {
    var i :| 0 <= i < |seen| && Bound(seen[i]) && seen[i].sessionIndex.n == session
             && seen[i].activeBabeAuthorityIndex.n == authority;
    assert (seen + [item])[i] == seen[i];
  }

  lemma RecordedSnoc(seen: seq<Sample>, item: Sample, m: map<int, int>)
    requires Recorded(seen, m)
    ensures !Bound(item) ==> Recorded(seen + [item], m)
    ensures Bound(item) ==>
      Recorded(seen + [item], m[item.sessionIndex.n := item.activeBabeAuthorityIndex.n])
  {
    var all := seen + [item];
    var m' := if Bound(item) then m[item.sessionIndex.n := item.activeBabeAuthorityIndex.n] else m;
    assert all[|seen|] == item;
    forall session | session in m'
      ensures Witnessed(all, session, m'[session])
    {
      if !Bound(item) || session != item.sessionIndex.n {
        WitnessedExtends(seen, item, session, m[session]);
      }
    }
    forall i | 0 <= i < |all| && Bound(all[i])
      ensures all[i].sessionIndex.n in m'
    {
      if i < |seen| {
        assert all[i] == seen[i];
      }
    }
  }

  lemma AuthoritySnoc(seen: seq<Sample>, item: Sample, m: map<int, int>)
    requires Recorded(seen, m)
    ensures OneAuthorityPerSession(seen + [item]) <==>
            OneAuthorityPerSession(seen)
            && (Bound(item) && item.sessionIndex.n in m ==> m[item.sessionIndex.n] == item.activeBabeAuthorityIndex.n)
  {
    var all, n := seen + [item], |seen|;
    assert all[n] == item;
    assert forall i :: 0 <= i < n ==> all[i] == seen[i];
    var agrees := Bound(item) && item.sessionIndex.n in m ==> m[item.sessionIndex.n] == item.activeBabeAuthorityIndex.n;
    if OneAuthorityPerSession(all) {
      AuthorityPrefix(seen, item);
      if Bound(item) && item.sessionIndex.n in m {
        var session := item.sessionIndex.n;
        assert Witnessed(seen, session, m[session]);
        var i :| 0 <= i < n && Bound(seen[i]) && seen[i].sessionIndex.n == session
                 && seen[i].activeBabeAuthorityIndex.n == m[session];
        assert all[i].sessionIndex == all[n].sessionIndex;
      }
    }
    if OneAuthorityPerSession(seen) && agrees {
      AuthorityExtends(seen, item, m);
    }
  }

  lemma AuthorityPrefix(seen: seq<Sample>, item: Sample)
    requires OneAuthorityPerSession(seen + [item])
    ensures OneAuthorityPerSession(seen)
  {
    var all := seen + [item];
    forall i, j | 0 <= i < |seen| && 0 <= j < |seen| && Bound(seen[i]) && Bound(seen[j])
                  && seen[i].sessionIndex == seen[j].sessionIndex
      ensures seen[i].activeBabeAuthorityIndex == seen[j].activeBabeAuthorityIndex
    {
      assert all[i] == seen[i] && all[j] == seen[j];
    }
  }

  lemma AuthorityExtends(seen: seq<Sample>, item: Sample, m: map<int, int>)
    requires Recorded(seen, m) && OneAuthorityPerSession(seen)
    requires Bound(item) && item.sessionIndex.n in m ==> m[item.sessionIndex.n] == item.activeBabeAuthorityIndex.n
    ensures OneAuthorityPerSession(seen + [item])
  {
    var all, n := seen + [item], |seen|;
    forall i | 0 <= i < n && Bound(seen[i]) && Bound(item) && seen[i].sessionIndex == item.sessionIndex
      ensures seen[i].activeBabeAuthorityIndex == item.activeBabeAuthorityIndex
    {
      var session := item.sessionIndex.n;
      assert Witnessed(seen, session, m[session]);
      var k :| 0 <= k < n && Bound(seen[k]) && seen[k].sessionIndex.n == session
               && seen[k].activeBabeAuthorityIndex.n == m[session];
      assert seen[k].sessionIndex == seen[i].sessionIndex;
    }
    forall i, j | 0 <= i < |all| && 0 <= j < |all| && Bound(all[i]) && Bound(all[j])
                  && all[i].sessionIndex == all[j].sessionIndex
      ensures all[i].activeBabeAuthorityIndex == all[j].activeBabeAuthorityIndex
    {
      assert i < n ==> all[i] == seen[i];
      assert j < n ==> all[j] == seen[j];
    }
  }

  // ---------- the two loops ----------

  method ScanSamples(samples: seq<Sample>) returns (scan: Scan)
    ensures scan.finalityMonotonic == FinalityMonotonic(samples)
    ensures scan.sessionMonotonic == SessionMonotonic(samples)
    ensures scan.identityStable == (CandidatesWellFormed(samples) && OneAuthorityPerSession(samples))
    ensures scan.candidates == Candidates(samples) && scan.sessions == Sessions(samples)
    ensures scan.quorumSamples == QuorumCount(samples)
    ensures scan.readyStreak == EndingRun(samples) && scan.maximumReadyStreak == LongestRun(samples)
  {
    hide FinalityMonotonic, SessionMonotonic, CandidatesWellFormed, OneAuthorityPerSession, Recorded,
      Candidates, Sessions, FinalityStep, SessionStep, Account, Quorum, Operational, ValidHeight;
    var readyStreak, maximumReadyStreak, quorumSamples := 0, 0, 0;
    var sessions, candidates, sessionAuthorities := {}, {}, map[];
    var finalityMonotonic, sessionMonotonic, identityStable := true, true, true;
    var previous: Option<Sample> := None;
    NothingSeen();
    for k := 0 to |samples|
      invariant previous == if k == 0 then None else Some(samples[k - 1])
      invariant finalityMonotonic == FinalityMonotonic(samples[..k])
      invariant sessionMonotonic == SessionMonotonic(samples[..k])
      invariant identityStable == (CandidatesWellFormed(samples[..k]) && OneAuthorityPerSession(samples[..k]))
      invariant Recorded(samples[..k], sessionAuthorities)
      invariant candidates == Candidates(samples[..k]) && sessions == Sessions(samples[..k])
      invariant quorumSamples == QuorumCount(samples[..k])
      invariant readyStreak == EndingRun(samples[..k]) && maximumReadyStreak == LongestRun(samples[..k])
    {
      var item := samples[k];
      ghost var seen := samples[..k];
      assert samples[..k + 1] == seen + [item];
      FinalitySnoc(seen, item);
      SessionSnoc(seen, item);
      NamesSnoc(seen, item);
      RunsSnoc(seen, item);
      AuthoritySnoc(seen, item, sessionAuthorities);
      RecordedSnoc(seen, item, sessionAuthorities);

      quorumSamples := quorumSamples + if Quorum(item) then 1 else 0;
      var session := item.sessionIndex;
      finalityMonotonic := finalityMonotonic && ValidHeight(item);
      sessionMonotonic := sessionMonotonic && Unsigned(session);
      if previous.Some? {
        finalityMonotonic := finalityMonotonic && FinalityStep(previous.value, item);
        sessionMonotonic := sessionMonotonic && SessionStep(previous.value, item);
      }
      AccountIsText(item.candidateAccount);
      var candidate, authority := item.candidateAccount, item.activeBabeAuthorityIndex;
      if candidate != Null {
        if Account(candidate) {
          candidates := candidates + {candidate.s};
        } else {
          identityStable := false;
        }
      }
      if Unsigned(session) {
        sessions := sessions + {session.n};
        if item.activeSessionMatch == Bool(true) && Unsigned(authority) {
          if session.n in sessionAuthorities && sessionAuthorities[session.n] != authority.n {
            identityStable := false;
          }
          sessionAuthorities := sessionAuthorities[session.n := authority.n];
        }
      }
      readyStreak := if Operational(item) then readyStreak + 1 else 0;
      maximumReadyStreak := if readyStreak > maximumReadyStreak then readyStreak else maximumReadyStreak;
      previous := Some(item);
    }
    assert samples[..|samples|] == samples;
    scan := Scan(finalityMonotonic, sessionMonotonic, identityStable, candidates, sessions,
                 quorumSamples, readyStreak, maximumReadyStreak);
  }

  lemma NothingSeen()
    ensures FinalityMonotonic([]) && SessionMonotonic([]) && CandidatesWellFormed([]) && OneAuthorityPerSession([])
    ensures Recorded([], map[]) && Candidates([]) == {} && Sessions([]) == {}
  {
  }

  lemma AccountIsText(v: Value)
    ensures Account(v) ==> v.Text?
  {
  }

  /** What the proof table holds after the first `k` samples of the window. */
  ghost predicate ProofTable(w: seq<Sample>, k: nat, boundary: bool, proofs: map<string, ProofRecord>)
    requires AllOperational(w)
  {
    && (forall i: nat :: i < k && Fresh(w, i, boundary) ==> ProofHash(w[i]) in proofs)
    && (forall hash :: hash in proofs ==> LastFresh(w, k, boundary, hash, proofs[hash]))
  }

  /** The record kept for a hash is the one of the last fresh sample that shows it. */
  ghost predicate LastFresh(w: seq<Sample>, k: nat, boundary: bool, hash: string, proof: ProofRecord)
    requires AllOperational(w)
  {
    exists i: nat :: i < k && Fresh(w, i, boundary) && ProofHash(w[i]) == hash
      && w[i].authorshipProof == Some(proof)
      && forall j: nat :: i < j < k && Fresh(w, j, boundary) ==> ProofHash(w[j]) != hash
  }

  /** `session_baselines` after the first `k` samples: first height of each session shown so far. */
  ghost predicate Baselines(w: seq<Sample>, k: nat, baselines: map<int, int>)
    requires AllOperational(w) && k <= |w|
  {
    && (forall i :: 0 <= i < k ==> Session(w[i]) in baselines)
    && (forall session :: session in baselines ==>
          exists f: nat :: f < k && FirstOfSession(w, f, session) && Height(w[f]) == baselines[session])
  }

  lemma BaselineSnoc(w: seq<Sample>, k: nat, baselines: map<int, int>)
    requires AllOperational(w) && k < |w| && Baselines(w, k, baselines)
    ensures var s := Session(w[k]);
      Baselines(w, k + 1, if s in baselines then baselines else baselines[s := Height(w[k])])
  {
    hide Operational;
    var s := Session(w[k]);
    var next := if s in baselines then baselines else baselines[s := Height(w[k])];
    forall session | session in next
      ensures exists f: nat :: f < k + 1 && FirstOfSession(w, f, session) && Height(w[f]) == next[session]
    {
      if session == s && s !in baselines {
        assert FirstOfSession(w, k, s);
      } else {
        var f: nat :| f < k && FirstOfSession(w, f, session) && Height(w[f]) == baselines[session];
      }
    }
  }

  lemma FreshByBaseline(w: seq<Sample>, k: nat, baselines: map<int, int>, boundary: bool)
    requires AllOperational(w) && k < |w| && Baselines(w, k + 1, baselines)
    ensures Session(w[k]) in baselines
    ensures Fresh(w, k, boundary) <==>
            WellFormedProof(w[k])
            && baselines[Session(w[k])] < ProofBlock(w[k]) <= Height(w[k])
            && w[k].authorshipProof.value.authorityIndex == w[k].activeBabeAuthorityIndex
            && (!boundary || Session(w[k]) == Session(w[|w| - 1]))
  {
    hide Operational, WellFormedProof, ProofBlock;
    var s := Session(w[k]);
    var f: nat :| f < k + 1 && FirstOfSession(w, f, s) && Height(w[f]) == baselines[s];
    if Fresh(w, k, boundary) {
      var f': nat :| FirstOfSession(w, f', s) && Height(w[f']) < ProofBlock(w[k]);
      FirstUnique(w, f, f', s);
    }
  }

  lemma FirstUnique(w: seq<Sample>, f: nat, f': nat, session: int)
    requires AllOperational(w) && FirstOfSession(w, f, session) && FirstOfSession(w, f', session)
    ensures f == f'
  {
    hide Operational;
    assert Session(w[f]) == session && Session(w[f']) == session;
  }

  lemma ProofSnoc(w: seq<Sample>, k: nat, boundary: bool, proofs: map<string, ProofRecord>)
    requires AllOperational(w) && k < |w| && ProofTable(w, k, boundary, proofs)
    ensures !Fresh(w, k, boundary) ==> ProofTable(w, k + 1, boundary, proofs)
    ensures Fresh(w, k, boundary) ==>
      ProofTable(w, k + 1, boundary, proofs[ProofHash(w[k]) := w[k].authorshipProof.value])
  {
    hide LastFresh, Fresh;
    var counted := Fresh(w, k, boundary);
    if counted {
      LastFreshNow(w, k, boundary);
    }
    forall hash | hash in proofs && !(counted && hash == ProofHash(w[k]))
      ensures LastFresh(w, k + 1, boundary, hash, proofs[hash])
    {
      LastFreshKept(w, k, boundary, hash, proofs[hash]);
    }
    hide Operational, WellFormedProof;
  }

  lemma LastFreshNow(w: seq<Sample>, k: nat, boundary: bool)
    requires AllOperational(w) && Fresh(w, k, boundary)
    ensures WellFormedProof(w[k])
    ensures LastFresh(w, k + 1, boundary, ProofHash(w[k]), w[k].authorshipProof.value)
  {
    hide Operational, FirstOfSession, BlockHash, AboveBaseline;
    assert k < k + 1 && w[k].authorshipProof == Some(w[k].authorshipProof.value);
  }

  lemma LastFreshKept(w: seq<Sample>, k: nat, boundary: bool, hash: string, proof: ProofRecord)
    requires AllOperational(w) && k < |w| && LastFresh(w, k, boundary, hash, proof)
    requires Fresh(w, k, boundary) ==> ProofHash(w[k]) != hash
    ensures LastFresh(w, k + 1, boundary, hash, proof)
  {
    hide Operational, FirstOfSession, BlockHash, AboveBaseline;
    var i: nat :| i < k && Fresh(w, i, boundary) && ProofHash(w[i]) == hash && w[i].authorshipProof == Some(proof)
      && forall j: nat :: i < j < k && Fresh(w, j, boundary) ==> ProofHash(w[j]) != hash;
    assert forall j: nat :: i < j < k + 1 && Fresh(w, j, boundary) ==> ProofHash(w[j]) != hash;
  }

  method CollectProofs(w: seq<Sample>, requireSessionBoundary: bool) returns (proofs: map<string, ProofRecord>)
    requires AllOperational(w)
    ensures ProofTable(w, |w|, requireSessionBoundary, proofs)
  {
    hide Operational, Fresh, ProofTable, Baselines;
    var baselines: map<int, int> := map[];
    proofs := map[];
    EmptyTables(w, requireSessionBoundary);
    for k := 0 to |w|
      invariant Baselines(w, k, baselines)
      invariant ProofTable(w, k, requireSessionBoundary, proofs)
    {
      var item := w[k];
      BaselineSnoc(w, k, baselines);
      var session := Session(item);
      if session !in baselines {
        baselines := baselines[session := Height(item)];
      }
      FreshByBaseline(w, k, baselines, requireSessionBoundary);
      ProofSnoc(w, k, requireSessionBoundary, proofs);
      if WellFormedProof(item)
         && baselines[session] < ProofBlock(item) <= Height(item)
         && item.authorshipProof.value.authorityIndex == item.activeBabeAuthorityIndex
         && (!requireSessionBoundary || session == Session(w[|w| - 1]))
      {
        proofs := proofs[ProofHash(item) := item.authorshipProof.value];
      }
    }
  }

  lemma EmptyTables(w: seq<Sample>, boundary: bool)
    requires AllOperational(w)
    ensures Baselines(w, 0, map[]) && ProofTable(w, 0, boundary, map[])
  {
  }

  lemma ProofsObserved(w: seq<Sample>, boundary: bool, proofs: map<string, ProofRecord>)
    requires AllOperational(w) && ProofTable(w, |w|, boundary, proofs)
    ensures proofs != map[] <==> ShowsAuthorship(w, boundary)
  {
    if proofs != map[] {
      var hash :| hash in proofs;
      assert LastFresh(w, |w|, boundary, hash, proofs[hash]);
    }
    if ShowsAuthorship(w, boundary) {
      var i: nat :| Fresh(w, i, boundary);
      assert ProofHash(w[i]) in proofs;
    }
  }

  lemma SessionsOfWindow(w: seq<Sample>)
    requires AllOperational(w)
    ensures |Sessions(w)| > 1 <==> CrossesSession(w)
  {
    hide Operational;
    var all := Sessions(w);
    assert forall i :: 0 <= i < |w| ==> Unsigned(w[i].sessionIndex) && Session(w[i]) in all by {
      OperationalUnsigned(w);
    }
    if CrossesSession(w) {
      var i, j :| 0 <= i < j < |w| && Session(w[i]) != Session(w[j]);
      SetFacts.AtLeastTwo(all, Session(w[i]), Session(w[j]));
    }
    if |all| > 1 {
      var x, y := SetFacts.TwoElements(all);
      var i :| 0 <= i < |w| && Session(w[i]) == x;
      var j :| 0 <= j < |w| && Session(w[j]) == y;
      var lo, hi := if i < j then i else j, if i < j then j else i;
      assert Session(w[lo]) != Session(w[hi]);
    }
  }

  lemma OperationalUnsigned(w: seq<Sample>)
    requires AllOperational(w)
    ensures forall i :: 0 <= i < |w| ==> Unsigned(w[i].sessionIndex)
  {
  }

  // ---------- the verdict ----------

  /** The neighbour checks of the first loop say exactly that the whole history is ordered. */
  lemma NeighboursIffOrdered(ss: seq<Sample>)
    ensures FinalityMonotonic(ss) && SessionMonotonic(ss) <==> OrderedHistory(ss)
  {
    hide BlockHash;
    if FinalityMonotonic(ss) && SessionMonotonic(ss) {
      forall i, j | 0 <= i < j < |ss|
        ensures OrderedPair(ss[i], ss[j])
      {
        OrderedAtDistance(ss, i, j);
      }
    }
    if OrderedHistory(ss) {
      forall i, j | 0 <= i && j == i + 1 && j < |ss|
        ensures FinalityStep(ss[i], ss[j]) && SessionStep(ss[i], ss[j])
      {
        OrderedNeighbours(ss[i], ss[j]);
      }
    }
  }

  ghost predicate OrderedPair(a: Sample, b: Sample)
    requires ValidHeight(a) && ValidHeight(b) && Unsigned(a.sessionIndex) && Unsigned(b.sessionIndex)
  {
    && a.finalizedBlock.n <= b.finalizedBlock.n
    && a.sessionIndex.n <= b.sessionIndex.n
    && (a.finalizedBlock.n == b.finalizedBlock.n ==>
          a.finalizedHash == b.finalizedHash && a.sessionIndex == b.sessionIndex)
  }

  lemma OrderedNeighbours(a: Sample, b: Sample)
    requires ValidHeight(a) && ValidHeight(b) && Unsigned(a.sessionIndex) && Unsigned(b.sessionIndex)
    ensures FinalityStep(a, b) && SessionStep(a, b) <==> OrderedPair(a, b)
  {
  }

  lemma {:induction false} OrderedAtDistance(ss: seq<Sample>, i: nat, j: nat)
    requires FinalityMonotonic(ss) && SessionMonotonic(ss) && i < j < |ss|
    ensures OrderedPair(ss[i], ss[j])
  {
    OrderedNeighbours(ss[j - 1], ss[j]);
    hide BlockHash, FinalityMonotonic, SessionMonotonic;
    if i < j - 1 {
      OrderedAtDistance(ss, i, j - 1);
    }
  }

  method Evaluate(samples: seq<Sample>, requiredReady: int, requireAuthorship: bool, requireSessionBoundary: bool)
    returns (r: Result<Summary, EvaluateError>)
    ensures r.Err? <==> samples == [] || requiredReady < 1
    ensures r.Ok? ==> var s, w := r.value, Window(samples);
      && (s.passed <==> Accepts(samples, requiredReady, requireAuthorship, requireSessionBoundary))
      && ReadyEnd(samples, s.endingConsecutiveReadySamples)
      && (s.passed <==> Recovered(samples, s.endingConsecutiveReadySamples, requiredReady,
                                  requireAuthorship, requireSessionBoundary))
      && (s.acceptancePassed <==> s.passed && requireAuthorship)
      && (s.finalityAdvanced <==> GainsHeight(w))
      && (s.finalityMonotonic && s.sessionMonotonic <==> OrderedHistory(samples))
      && (s.stableCandidateAccount <==> IdentityStable(samples))
      && (s.requiredConsecutiveReadySamplesMet <==> |w| >= requiredReady)
      && (s.finalizedAuthorshipObserved <==> ShowsAuthorship(w, requireSessionBoundary))
      && (s.sessionBoundaryObserved <==> CrossesSession(w))
      && ProofTable(w, |w|, requireSessionBoundary, s.authorshipProofs)
      && s.sampleCount == |samples| && s.sessionIndexes == Sessions(samples)
      && s.quorumSampleCount == QuorumCount(samples)
      && s.maximumConsecutiveReadySamples == LongestRun(samples) && s.endingConsecutiveReadySamples == |w|
      && (forall a :: s.candidateAccount == Some(a) <==> Candidates(samples) == {a})
  {
    hide Operational, OneAuthorityPerSession, CandidatesWellFormed, FinalityMonotonic, SessionMonotonic,
      OrderedHistory, ProofTable, ShowsAuthorship, CrossesSession, Candidates, Sessions, ReadyEnd, Recovered;
    if samples == [] || requiredReady < 1 {
      return Err(NothingToEvaluate);
    }
    var scan := ScanSamples(samples);
    var identityStable := scan.identityStable && |scan.candidates| == 1;
    var w := if scan.readyStreak > 0 then samples[|samples| - scan.readyStreak..] else [];
    assert w == Window(samples);
    var finalityAdvanced := |w| >= 2 && Height(w[|w| - 1]) > Height(w[0]);
    var windowSessions := set i | 0 <= i < |w| :: Session(w[i]);
    SessionsAre(w, windowSessions);
    SessionsOfWindow(w);
    var crossedSession := |windowSessions| > 1;
    var proofs := CollectProofs(w, requireSessionBoundary);
    ProofsObserved(w, requireSessionBoundary, proofs);
    NeighboursIffOrdered(samples);
    var diagnosticPassed := finalityAdvanced && scan.finalityMonotonic && scan.sessionMonotonic
                            && identityStable && scan.readyStreak >= requiredReady
                            && (!requireSessionBoundary || crossedSession);
    var passed := diagnosticPassed && (proofs != map[] || !requireAuthorship);
    var account := OnlyCandidate(scan.candidates);
    AcceptsIffRecovered(samples, requiredReady, requireAuthorship, requireSessionBoundary);
    ReadyEndIsWindow(samples, scan.readyStreak);
    r := Ok(Summary(
              passed, passed && requireAuthorship,
              finalityAdvanced, scan.finalityMonotonic, scan.sessionMonotonic, identityStable,
              scan.readyStreak >= requiredReady, proofs != map[], crossedSession,
              |samples|, scan.sessions, scan.quorumSamples,
              scan.maximumReadyStreak, scan.readyStreak, account, proofs));
  }

  lemma SessionsAre(w: seq<Sample>, sessions: set<int>)
    requires AllOperational(w) && sessions == set i | 0 <= i < |w| :: Session(w[i])
    ensures sessions == Sessions(w)
  {
    hide Operational;
    OperationalUnsigned(w);
  }

  method OnlyCandidate(candidates: set<string>) returns (account: Option<string>)
    ensures forall a :: account == Some(a) <==> candidates == {a}
  {
    if |candidates| == 1 {
      SetFacts.TheOnlyElement(candidates);
      var a :| a in candidates;
      account := Some(a);
    } else {
      account := None;
    }
  }

  // ---------- what a pass establishes ----------

  /** Demanding less never turns a pass into a failure. */
  lemma WeakerDemandsStillPass(
      ss: seq<Sample>, required: int, authorship: bool, boundary: bool,
      required': int, authorship': bool, boundary': bool)
    requires Accepts(ss, required, authorship, boundary)
    requires required' <= required && (authorship' ==> authorship) && (boundary' ==> boundary)
    ensures Accepts(ss, required', authorship', boundary')
  {
    hide Operational, OrderedHistory, IdentityStable;
    var w := Window(ss);
    if authorship' {
      var i: nat :| Fresh(w, i, boundary);
      assert Fresh(w, i, boundary');
    }
  }

  /** What the window shows is what the history shows at the same distance from its end. */
  lemma WindowPlaces(ss: seq<Sample>)
    ensures var w := Window(ss);
      && |w| <= |ss|
      && forall i :: 0 <= i < |w| ==> w[i] == ss[|ss| - |w| + i]
  {
    hide Operational;
  }

  lemma OrderedAt(ss: seq<Sample>, i: nat, j: nat)
    requires OrderedHistory(ss) && i < |ss| && j < |ss|
    ensures i <= j ==>
      ss[i].finalizedBlock.n <= ss[j].finalizedBlock.n && ss[i].sessionIndex.n <= ss[j].sessionIndex.n
    ensures i <= j && ss[i].sessionIndex.n < ss[j].sessionIndex.n ==>
      ss[i].finalizedBlock.n < ss[j].finalizedBlock.n
  {
    hide ValidHeight;
  }

  lemma BaselineOf(w: seq<Sample>, i: nat, boundary: bool) returns (f: nat)
    requires AllOperational(w) && Fresh(w, i, boundary)
    ensures f <= i < |w| && WellFormedProof(w[i]) && Session(w[f]) == Session(w[i])
    ensures Height(w[f]) < ProofBlock(w[i]) <= Height(w[i])
  {
    hide Operational, WellFormedProof, ProofBlock;
    f :| FirstOfSession(w, f, Session(w[i])) && Height(w[f]) < ProofBlock(w[i]);
  }

  lemma BlockStaysInItsSession(ss: seq<Sample>, w: seq<Sample>, f: nat, i: nat, block: int, k: nat)
    requires OrderedHistory(ss) && AllOperational(w) && |w| <= |ss|
    requires forall j :: 0 <= j < |w| ==> w[j] == ss[|ss| - |w| + j]
    requires f <= i < |w| && Session(w[f]) == Session(w[i]) && Height(w[f]) < block <= Height(w[i]) && k < |ss|
    ensures ss[k].sessionIndex.n < Session(w[i]) ==> ss[k].finalizedBlock.n < block
    ensures ss[k].sessionIndex.n > Session(w[i]) ==> block < ss[k].finalizedBlock.n
    ensures Height(w[0]) < block <= Height(w[|w| - 1])
  {
    hide Operational, OrderedHistory;
    var start := |ss| - |w|;
    OrderedAt(ss, start, start + f);
    OrderedAt(ss, start + i, |ss| - 1);
    OrderedAt(ss, k, start + f);
    OrderedAt(ss, start + f, k);
    OrderedAt(ss, start + i, k);
    OrderedAt(ss, k, start + i);
  }

  /** In an accepted run a counted proof lies above every height of every earlier session, wherever observed,
      above the window's first height, and not above any height of a later session. */
  lemma ProofStaysInItsSession(ss: seq<Sample>, required: int, authorship: bool, boundary: bool, i: nat, k: nat)
    requires Accepts(ss, required, authorship, boundary)
    requires Fresh(Window(ss), i, boundary) && k < |ss|
    ensures var w := Window(ss);
      && (ss[k].sessionIndex.n < Session(w[i]) ==> ss[k].finalizedBlock.n < ProofBlock(w[i]))
      && (ss[k].sessionIndex.n > Session(w[i]) ==> ProofBlock(w[i]) < ss[k].finalizedBlock.n)
      && Height(w[0]) < ProofBlock(w[i]) <= Height(w[|w| - 1])
  {
    hide Window, Operational, OrderedHistory, Fresh, IdentityStable, WellFormedProof, ProofBlock, CrossesSession,
      ShowsAuthorship;
    WindowPlaces(ss);
    var f := BaselineOf(Window(ss), i, boundary);
    BlockStaysInItsSession(ss, Window(ss), f, i, ProofBlock(Window(ss)[i]), k);
  }

  /** Proofs of different sessions lie in disjoint height intervals, ordered as the sessions are. */
  lemma ProofIntervalsOrdered(ss: seq<Sample>, required: int, authorship: bool, boundary: bool, i: nat, j: nat)
    requires Accepts(ss, required, authorship, boundary)
    requires Fresh(Window(ss), i, boundary) && Fresh(Window(ss), j, boundary)
    requires Session(Window(ss)[i]) < Session(Window(ss)[j])
    ensures ProofBlock(Window(ss)[i]) <= Height(Window(ss)[i]) < ProofBlock(Window(ss)[j])
    ensures !boundary
  {
    hide Quorum, Account, BlockHash, IdentityStable, WellFormedProof, ProofBlock, OrderedHistory, FirstOfSession;
    var w := Window(ss);
    var k := |ss| - |w| + i;
    assert ss[k] == w[i];
    ProofStaysInItsSession(ss, required, authorship, boundary, j, k);
  }
}
