/** How samples are taken: the checks of `sample_once`, the retry of `sample`, and what they spare `evaluate`. */
module WatchSampling {
  import opened Results
  import opened Text
  import opened ValidatorWatch
  import opened WatchMeaning

  /** The fields of one pair of RPC batches that reach the verdict, before any check.
      `headerNumber` is `None` when the finalized header has no hexadecimal number;
      `proof` is `Err` when the reported proof is not an object. */
  datatype Replies = Replies(
    finalizedHash: Value, finalizedBlock: Value, sessionIndex: Value,
    minimumTemporalSources: Value, mappedTemporalPeers: Value, contributingTemporalPeers: Value,
    majorSyncing: Value, activeSessionMatch: Value, readyToAuthor: Value,
    candidateAccount: Value, activeBabeAuthorityIndex: Value,
    proof: Result<Option<ProofRecord>, ()>, headerNumber: Option<nat>, canonicalHash: Value)

  datatype SampleError = SnapshotChanged | Malformed | ChangedOnAllAttempts

  predicate WellFormedReplies(r: Replies) {
    && BlockHash(r.finalizedHash)
    && Unsigned(r.finalizedBlock) && Unsigned(r.sessionIndex)
    && Unsigned(r.minimumTemporalSources) && Unsigned(r.mappedTemporalPeers) && Unsigned(r.contributingTemporalPeers)
    && r.majorSyncing.Bool? && r.activeSessionMatch.Bool? && r.readyToAuthor.Bool?
    && (r.candidateAccount == Null || Account(r.candidateAccount))
    && (r.activeBabeAuthorityIndex == Null || Unsigned(r.activeBabeAuthorityIndex))
    && r.proof.Ok?
    && (r.proof.value.Some? ==>
          var p := r.proof.value.value;
          Unsigned(p.blockNumber) && Unsigned(p.authorityIndex) && BlockHash(p.blockHash))
    && r.headerNumber.Some?
  }

  /** The proof's block is canonical, finalized, and by the authority the session binds to this account. */
  predicate ProofVerified(r: Replies)
    requires WellFormedReplies(r) && (r.canonicalHash == Null || BlockHash(r.canonicalHash))
  {
    && r.proof.value.Some?
    && var p := r.proof.value.value;
    && r.canonicalHash.Text? && Lower(r.canonicalHash.s) == Lower(p.blockHash.s)
    && p.blockNumber.n <= r.headerNumber.value
    && Unsigned(r.activeBabeAuthorityIndex) && p.authorityIndex == r.activeBabeAuthorityIndex
    && r.activeSessionMatch == Bool(true) && Account(r.candidateAccount)
  }

  function SampleOnce(r: Replies): Result<Sample, SampleError> {
    if !WellFormedReplies(r) then Err(Malformed)
    else if r.finalizedBlock.n != r.headerNumber.value then Err(SnapshotChanged)
    else if r.proof.value.Some? && r.canonicalHash != Null && !BlockHash(r.canonicalHash) then Err(Malformed)
    else Ok(Sample(
              Int(r.headerNumber.value), Text(Lower(r.finalizedHash.s)), Some(r.finalizedBlock), r.sessionIndex,
              r.candidateAccount, r.activeBabeAuthorityIndex,
              r.minimumTemporalSources, r.mappedTemporalPeers, r.contributingTemporalPeers,
              r.majorSyncing, r.activeSessionMatch, r.readyToAuthor,
              r.proof.value, Bool(r.proof.value.Some? && ProofVerified(r))))
  }

  /** `sample`: up to three attempts, repeated only while the finalized head moved under the snapshot. */
  method TakeSample(attempts: nat -> Replies) returns (r: Result<Sample, SampleError>)
    ensures r == Err(ChangedOnAllAttempts) <==>
      forall k: nat :: k < 3 ==> SampleOnce(attempts(k)) == Err(SnapshotChanged)
    ensures r != Err(ChangedOnAllAttempts) ==>
      exists k: nat :: k < 3 && r == SampleOnce(attempts(k)) && r != Err(SnapshotChanged)
        && forall j: nat :: j < k ==> SampleOnce(attempts(j)) == Err(SnapshotChanged)
  {
    hide SampleOnce;
    NeverGivesUp(attempts);
    for k := 0 to 3
      invariant forall j: nat :: j < k ==> SampleOnce(attempts(j)) == Err(SnapshotChanged)
    {
      r := SampleOnce(attempts(k));
      if r != Err(SnapshotChanged) {
        return;
      }
    }
    r := Err(ChangedOnAllAttempts);
  }

  lemma NeverGivesUp(attempts: nat -> Replies)
    ensures forall k: nat :: SampleOnce(attempts(k)) != Err(ChangedOnAllAttempts)
  {
    forall k: nat
      ensures SampleOnce(attempts(k)) != Err(ChangedOnAllAttempts)
    {
    }
  }

  ghost predicate Sampled(s: Sample) {
    exists r :: SampleOnce(r) == Ok(s)
  }

  lemma LowerHash(v: Value)
    requires BlockHash(v)
    ensures BlockHash(Text(Lower(v.s)))
  {
    forall i | 2 <= i < 66
      ensures HexDigit(Lower(v.s)[i])
    {
    }
  }

  /** Everything `sample_once` lets through has one finalized height, a session, and checked identities; a proof it
      marks canonical is well-formed, finalized, and by the session's authority. */
  lemma SampledFacts(s: Sample)
    requires Sampled(s)
    ensures ValidHeight(s) && Unsigned(s.sessionIndex)
    ensures s.candidateAccount == Null || Account(s.candidateAccount)
    ensures s.authorshipProofCanonical == Bool(true) ==>
      WellFormedProof(s) && Bound(s) && ProofBlock(s) <= s.finalizedBlock.n
      && s.authorshipProof.value.authorityIndex == s.activeBabeAuthorityIndex
  {
    hide Account, BlockHash, Lower;
    var r :| SampleOnce(r) == Ok(s);
    LowerHash(r.finalizedHash);
  }

  /** A sample comes out exactly of replies with counts, flags, hashes and a header number of the right shape, when the
      readiness height is the header's and the chain's answer for a proof is a hash or nothing. */
  lemma SampleOnceIff(r: Replies)
    ensures SampleOnce(r).Ok? <==>
      && IsHash(r.finalizedHash) && IsCount(r.sessionIndex)
      && r.headerNumber.Some? && r.finalizedBlock == Int(r.headerNumber.value)
      && IsCount(r.minimumTemporalSources) && IsCount(r.mappedTemporalPeers) && IsCount(r.contributingTemporalPeers)
      && r.majorSyncing.Bool? && r.activeSessionMatch.Bool? && r.readyToAuthor.Bool?
      && (r.candidateAccount == Null || IsName(r.candidateAccount))
      && (r.activeBabeAuthorityIndex == Null || IsCount(r.activeBabeAuthorityIndex))
      && match r.proof
         case Err(_) => false
         case Ok(None) => true
         case Ok(Some(ProofRecord(height, hash, authority))) =>
           && IsCount(height) && IsCount(authority) && IsHash(hash)
           && (r.canonicalHash == Null || IsHash(r.canonicalHash))
    ensures SampleOnce(r) == Err(SnapshotChanged) <==>
      WellFormedReplies(r) && r.finalizedBlock.n != r.headerNumber.value
  {
    HashIff(r.finalizedHash);
    HashIff(r.canonicalHash);
    NameIff(r.candidateAccount);
    if r.proof.Ok? && r.proof.value.Some? {
      HashIff(r.proof.value.value.blockHash);
    }
    hide BlockHash, IsHash, Account, IsName, Lower;
  }

  /** A sample comes out exactly of replies with one finalized height, and is marked canonical exactly when its proof is
      of a finalized block, has the chain's hash at that height up to case, and is by the authority that the matched
      session binds to a named account. */
  lemma CanonicalIff(r: Replies)
    requires SampleOnce(r).Ok?
    ensures var s := SampleOnce(r).value;
      && s.finalizedBlock == Int(r.headerNumber.value) && s.readinessFinalizedBlock == Some(s.finalizedBlock)
      && s.authorshipProof == r.proof.value
      && (s.authorshipProofCanonical == Bool(true) || s.authorshipProofCanonical == Bool(false))
      && (s.authorshipProofCanonical == Bool(true) <==>
            match r.proof.value
            case None => false
            case Some(ProofRecord(height, hash, authority)) =>
              && height.Int? && height.n <= r.headerNumber.value
              && r.canonicalHash.Text? && hash.Text? && Lower(r.canonicalHash.s) == Lower(hash.s)
              && r.activeBabeAuthorityIndex == authority
              && r.activeSessionMatch == Bool(true) && r.candidateAccount != Null)
  {
    hide Lower;
    assert r.proof.value.Some? ==> r.proof.value.value.blockHash.Text?;
  }

  /** On sampled input the two record-by-record gates of `evaluate` never decide anything: finality is the
      neighbour comparison alone, and a canonical proof above its session's
      baseline is fresh whatever its height and authority index. */
  lemma SampledHistories(ss: seq<Sample>)
    requires forall i :: 0 <= i < |ss| ==> Sampled(ss[i])
    ensures CandidatesWellFormed(ss)
    ensures FinalityMonotonic(ss) <==>
      forall i, j :: 0 <= i && j == i + 1 && j < |ss| ==> FinalityStep(ss[i], ss[j])
    ensures forall i: nat, boundary :: i < |Window(ss)| ==>
      (Fresh(Window(ss), i, boundary) <==>
        var w := Window(ss);
        && WellFormedProof(w[i]) && AboveBaseline(w, i)
        && (boundary ==> Session(w[i]) == Session(w[|w| - 1])))
  {
    hide FinalityStep, Sampled, ValidHeight, Account, WellFormedProof, ProofBlock, AboveBaseline, Operational;
    forall i | 0 <= i < |ss|
      ensures ValidHeight(ss[i]) && (ss[i].candidateAccount == Null || Account(ss[i].candidateAccount))
    {
      SampledFacts(ss[i]);
    }
    var w := Window(ss);
    forall i: nat, boundary | i < |w|
      ensures Fresh(w, i, boundary) <==>
        && WellFormedProof(w[i]) && AboveBaseline(w, i)
        && (boundary ==> Session(w[i]) == Session(w[|w| - 1]))
    {
      assert w[i] == ss[|ss| - |w| + i];
      SampledFacts(w[i]);
      CanonicalIsPartOfShape(w[i]);
      OperationalValid(w[i]);
    }
  }

  lemma CanonicalIsPartOfShape(s: Sample)
    ensures WellFormedProof(s) ==> s.authorshipProofCanonical == Bool(true)
  {
  }

  lemma OperationalValid(s: Sample)
    ensures Operational(s) ==> ValidHeight(s)
  {
  }
}
