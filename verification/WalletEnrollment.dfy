/** The resumable enrollment of `wallet/cli.mjs`: four chain calls over finalized state, across any number of runs. */
module WalletEnrollment {
  import opened Results
  import opened Text

  /** The finalized state the wallet reads for its account. */
  datatype State = State(pw: nat, bonded: bool, active: nat, keys: Option<string>, intent: bool)

  datatype Call = Lock(amount: nat) | Bond(amount: nat) | SetKeys(keys: string) | Validate

  datatype StepError = KeysDiffer | BondBelowStake

  function NextStep(state: State, stake: nat, keys: string): Result<Option<Call>, StepError> {
    if state.keys.Some? && Lower(state.keys.value) != Lower(keys) then Err(KeysDiffer)
    else if state.bonded && state.active < stake then Err(BondBelowStake)
    else if !state.bonded then
      if state.pw < stake then Ok(Some(Lock(stake - state.pw))) else Ok(Some(Bond(stake)))
    else if state.keys.None? then Ok(Some(SetKeys(keys)))
    else if !state.intent then Ok(Some(Validate))
    else Ok(None)
  }

  /** What a successfully finalized call does to the state. */
  function Apply(state: State, call: Call): State {
    match call
    case Lock(amount) => state.(pw := state.pw + amount)
    case Bond(amount) => state.(bonded := true, active := amount)
    case SetKeys(keys) => state.(keys := Some(Lower(keys)))
    case Validate => state.(intent := true)
  }

  function ApplyAll(state: State, calls: seq<Call>): State {
    if calls == [] then state else Apply(ApplyAll(state, calls[..|calls| - 1]), calls[|calls| - 1])
  }

  predicate Conflicted(state: State, stake: nat, keys: string) {
    (state.keys.Some? && Lower(state.keys.value) != Lower(keys)) || (state.bonded && state.active < stake)
  }

  /** Everything still to be done from a state, in the documented order. */
  function Plan(state: State, stake: nat, keys: string): seq<Call> {
    (if !state.bonded && state.pw < stake then [Lock(stake - state.pw)] else [])
    + (if !state.bonded then [Bond(stake)] else [])
    + (if state.keys.None? then [SetKeys(keys)] else [])
    + (if !state.intent then [Validate] else [])
  }

  function Rank(call: Call): nat {
    match call
    case Lock(_) => 0
    case Bond(_) => 1
    case SetKeys(_) => 2
    case Validate => 3
  }

  function TotalLocked(calls: seq<Call>): nat {
    if calls == [] then 0
    else TotalLocked(calls[..|calls| - 1]) + (match calls[|calls| - 1] case Lock(amount) => amount case _ => 0)
  }

  // ---------- one step against the plan ----------

  /** `nextStep` refuses exactly the conflicted states, stops exactly when a bonded state has nothing left to do, and
      otherwise takes the head of the plan, after which the rest of the plan remains. */
  lemma NextStepFollowsPlan(state: State, stake: nat, keys: string)
    ensures NextStep(state, stake, keys).Err? <==> Conflicted(state, stake, keys)
    ensures NextStep(state, stake, keys) == Ok(None) ==>
              && state.bonded && state.active >= stake && state.intent
              && state.keys.Some? && Lower(state.keys.value) == Lower(keys)
    ensures !Conflicted(state, stake, keys) ==>
      match NextStep(state, stake, keys).value
      case None => Plan(state, stake, keys) == []
      case Some(call) =>
        Plan(state, stake, keys) == [call] + Plan(Apply(state, call), stake, keys)
        && !Conflicted(Apply(state, call), stake, keys)
  {
    LowerIdempotent(keys);
  }

  /** Every answer of `nextStep` with the states that get it: conflicting keys come before a low bond, a lock is for
      exactly what is missing, and nothing is left only when all four are done. */
  lemma NextStepCases(state: State, stake: nat, keys: string)
    ensures var step := NextStep(state, stake, keys);
      var otherKeys := state.keys.Some? && Lower(state.keys.value) != Lower(keys);
      var lowBond := state.bonded && state.active < stake;
      && (step == Err(KeysDiffer) <==> otherKeys)
      && (step == Err(BondBelowStake) <==> !otherKeys && lowBond)
      && (step.Err? <==> otherKeys || lowBond)
      && (forall amount :: step == Ok(Some(Lock(amount))) <==>
            !otherKeys && !state.bonded && state.pw < stake && state.pw + amount == stake)
      && (forall amount :: step == Ok(Some(Bond(amount))) <==>
            !otherKeys && !state.bonded && state.pw >= stake && amount == stake)
      && (forall k :: step == Ok(Some(SetKeys(k))) <==>
            state.bonded && !lowBond && state.keys.None? && k == keys)
      && (step == Ok(Some(Validate)) <==> !otherKeys && state.bonded && !lowBond && state.keys.Some? && !state.intent)
      && (step == Ok(None) <==> !otherKeys && state.bonded && !lowBond && state.keys.Some? && state.intent)
  {
    hide Lower;
  }

  lemma PlanOrder(state: State, stake: nat, keys: string)
    ensures |Plan(state, stake, keys)| <= 4
    ensures forall i, j :: 0 <= i < j < |Plan(state, stake, keys)| ==>
      Rank(Plan(state, stake, keys)[i]) < Rank(Plan(state, stake, keys)[j])
  {
  }

  /** A plan locks only first and only what is missing, bonds the stake, and never touches registered keys. */
  lemma PlanContents(state: State, stake: nat, keys: string, i: nat)
    requires i < |Plan(state, stake, keys)|
    ensures var call := Plan(state, stake, keys)[i];
      && (call.Lock? ==> i == 0 && !state.bonded && state.pw < stake && call.amount == stake - state.pw)
      && (call.Bond? ==> !state.bonded && call.amount == stake)
      && (call.SetKeys? ==> state.keys.None? && call.keys == keys)
      && (i == 0 && !state.bonded && state.pw < stake ==> call.Lock?)
  {
  }

  /** The finalized calls are a prefix of the initial plan and the state is what they make of the initial state. */
  ghost predicate Consistent(initial: State, stake: nat, keys: string, calls: seq<Call>, chain: State) {
    && chain == ApplyAll(initial, calls)
    && (Conflicted(initial, stake, keys) ==> calls == [])
    && (!Conflicted(initial, stake, keys) ==>
          !Conflicted(chain, stake, keys) && Plan(initial, stake, keys) == calls + Plan(chain, stake, keys))
  }

  lemma NothingDone(initial: State, calls: seq<Call>)
    ensures calls == [] ==> ApplyAll(initial, calls) == initial
  {
  }

  lemma FinalizeKeepsConsistent(initial: State, stake: nat, keys: string, calls: seq<Call>, chain: State, call: Call)
    requires Consistent(initial, stake, keys, calls, chain) && NextStep(chain, stake, keys) == Ok(Some(call))
    ensures Consistent(initial, stake, keys, calls + [call], Apply(chain, call))
  {
    NextStepFollowsPlan(chain, stake, keys);
    NothingDone(initial, calls);
    assert (calls + [call])[..|calls|] == calls;
    assert calls + ([call] + Plan(Apply(chain, call), stake, keys))
        == (calls + [call]) + Plan(Apply(chain, call), stake, keys);
  }

  // ---------- what that means ----------

  ghost predicate RisingRanks(calls: seq<Call>) {
    forall i, j :: 0 <= i < j < |calls| ==> Rank(calls[i]) < Rank(calls[j])
  }

  /** Every call takes effect at most once and in order. */
  lemma PlanPrefixOnce(initial: State, stake: nat, keys: string, calls: seq<Call>, chain: State)
    requires Consistent(initial, stake, keys, calls, chain)
    ensures |calls| <= 4 && RisingRanks(calls)
  {
    hide Conflicted;
    if !Conflicted(initial, stake, keys) {
      PlanOrder(initial, stake, keys);
      assert forall i :: 0 <= i < |calls| ==> Plan(initial, stake, keys)[i] == calls[i];
    }
  }

  /** The total locked is what was missing from the initial balance, once anything has been done, and nothing when the
      account started bonded. */
  lemma PlanPrefixLocks(initial: State, stake: nat, keys: string, calls: seq<Call>, chain: State)
    requires Consistent(initial, stake, keys, calls, chain)
    ensures chain.pw == initial.pw + TotalLocked(calls)
    ensures TotalLocked(calls) ==
      if initial.bonded || calls == [] || initial.pw >= stake then 0 else stake - initial.pw
    ensures chain.bonded && !initial.bonded ==>
      TotalLocked(calls) == (if initial.pw < stake then stake - initial.pw else 0) && chain.active == stake
  {
    hide Conflicted;
    LockedSum(initial, calls);
    if !Conflicted(initial, stake, keys) {
      PlannedCalls(initial, stake, keys, calls, chain);
      hide Plan, Consistent;
      OnlyFirstLocks(calls);
      BondedWith(initial, stake, calls);
    }
  }

  lemma PlannedCalls(initial: State, stake: nat, keys: string, calls: seq<Call>, chain: State)
    requires Consistent(initial, stake, keys, calls, chain)
    ensures forall i :: 0 <= i < |calls| ==>
      && (calls[i].Lock? ==> i == 0 && !initial.bonded && initial.pw < stake && calls[i].amount == stake - initial.pw)
      && (calls[i].Bond? ==> !initial.bonded && calls[i].amount == stake)
      && (i == 0 && !initial.bonded && initial.pw < stake ==> calls[i].Lock?)
  {
    hide Conflicted, Plan;
    forall i | 0 <= i < |calls|
      ensures i < |Plan(initial, stake, keys)| && Plan(initial, stake, keys)[i] == calls[i]
    {
      assert (calls + Plan(chain, stake, keys))[i] == calls[i];
    }
    forall i: nat | i < |calls| {
      PlanContents(initial, stake, keys, i);
    }
  }

  lemma {:induction false} LockedSum(initial: State, calls: seq<Call>)
    ensures ApplyAll(initial, calls).pw == initial.pw + TotalLocked(calls)
  {
    if calls != [] {
      LockedSum(initial, calls[..|calls| - 1]);
    }
  }

  lemma {:induction false} OnlyFirstLocks(calls: seq<Call>)
    requires forall i :: 0 < i < |calls| ==> !calls[i].Lock?
    ensures TotalLocked(calls) == if calls != [] && calls[0].Lock? then calls[0].amount else 0
  {
    if calls != [] {
      OnlyFirstLocks(calls[..|calls| - 1]);
    }
  }

  lemma {:induction false} BondedWith(initial: State, stake: nat, calls: seq<Call>)
    requires forall i :: 0 <= i < |calls| && calls[i].Bond? ==> calls[i].amount == stake
    ensures var s := ApplyAll(initial, calls);
      if exists i :: 0 <= i < |calls| && calls[i].Bond? then s.bonded && s.active == stake
      else s.bonded == initial.bonded && s.active == initial.active
  {
    if calls != [] {
      var init := calls[..|calls| - 1];
      BondedWith(initial, stake, init);
      assert forall i :: 0 <= i < |init| ==> init[i] == calls[i];
      assert forall i :: 0 <= i < |calls| ==> i == |init| || calls[i] == init[i];
    }
  }

  // ---------- progress, whatever else was included ----------

  /** Nothing that was done is undone. */
  predicate Grows(before: State, after: State) {
    && before.pw <= after.pw
    && (before.bonded ==> after.bonded)
    && (before.keys.Some? ==> after.keys.Some?)
    && (before.intent ==> after.intent)
  }

  lemma GrowthShortensPlan(before: State, after: State, stake: nat, keys: string)
    requires Grows(before, after)
    ensures |Plan(after, stake, keys)| <= |Plan(before, stake, keys)|
  {
  }

  /** A call read off one state closes its item of that state's plan, in whatever later state it is included. */
  lemma IncludedCallShortensPlan(read: State, later: State, stake: nat, keys: string, call: Call)
    requires NextStep(read, stake, keys) == Ok(Some(call)) && Grows(read, later)
    ensures |Plan(Apply(later, call), stake, keys)| < |Plan(read, stake, keys)|
  {
  }
}
