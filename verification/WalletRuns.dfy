/** The runs of `wallet/cli.mjs` on one account: every run is a schedule of the actions in `WalletSchedules`. */
module WalletRuns {
  import opened Results
  import opened SetFacts
  import opened Text
  import opened WalletEnrollment
  import opened WalletSchedules

  /** How `finalized` ends: success, failure on chain, or not knowing. */
  datatype Fate = Finalized | DispatchFailed | GaveUp

  datatype Outcome = Registered | Planned | Refused | Unfinalized | Conflict | SubmissionFailed | NotConverged

  class Account {
    const terms: Terms
    var chain: State
    var nonce: nat
    var alive: set<Submission>
    var calls: seq<Call>
    var decided: Option<Call>
    ghost var trace: seq<Action>

    function World(): World
      reads this
    {
      WalletSchedules.World(chain, nonce, alive, calls, decided)
    }

    ghost predicate Valid()
      reads this
    {
      After(terms, Start(terms), trace) == Some(World())
    }

    /** The account has only ever been read while no call signed earlier could still be included. */
    ghost predicate CarefulSoFar()
      reads this
    {
      Careful(terms, Start(terms), trace)
    }

    /** What is still to be done. */
    function ToDo(): seq<Call>
      reads this
    {
      Plan(chain, terms.stake, terms.keys)
    }

    constructor (terms: Terms)
      ensures Valid() && CarefulSoFar() && this.terms == terms && World() == Start(terms)
    {
      this.terms := terms;
      chain, nonce, alive, calls, decided := terms.initial, terms.nonce, {}, [], None;
      trace := [];
    }

    ghost method Record(before: World, a: Action)
      requires After(terms, Start(terms), trace) == Some(before)
      requires Enabled(terms, before, a) && Next(terms, before, a) == World()
      modifies this`trace
      ensures Valid() && trace == old(trace) + [a] && Grows(before.chain, chain)
      ensures old(CarefulSoFar()) && (a.Read? ==> Idle(before)) ==> CarefulSoFar()
    {
      hide Careful, Enabled, Next, Idle, Sound;
      SoundAlong(terms, trace);
      SoundStep(terms, before, a);
      AfterSnoc(terms, Start(terms), trace, a);
      if CarefulSoFar() && (a.Read? ==> Idle(before)) {
        CarefulSnoc(terms, Start(terms), trace, a);
      }
      trace := trace + [a];
    }

    /** A signed call is finalized, successfully or not. */
    method IncludeCall(s: Submission, ok: bool)
      requires Valid() && s in alive && s.nonce == nonce
      modifies this
      ensures Valid() && trace == old(trace) + [Include(s, ok)]
      ensures World() == Next(terms, old(World()), Include(s, ok)) && Grows(old(chain), chain)
      ensures old(CarefulSoFar()) ==> CarefulSoFar()
    {
      ghost var before := World();
      nonce := nonce + 1;
      if ok {
        chain, calls := Apply(chain, s.call), calls + [s.call];
      }
      Record(before, Include(s, ok));
    }

    /** A signed call can no longer be included. */
    method LetExpire(s: Submission)
      requires Valid() && s in alive
      modifies this`alive, this`trace
      ensures Valid() && trace == old(trace) + [Expire(s)] && alive == old(alive) - {s}
      ensures old(CarefulSoFar()) ==> CarefulSoFar()
    {
      ghost var before := World();
      alive := alive - {s};
      Record(before, Expire(s));
    }

    /** Time passes: signed calls are included or expire, in any number. Over an idle account nothing is included. */
    method Wait()
      requires Valid()
      modifies this
      ensures Valid() && old(trace) <= trace && alive <= old(alive) && decided == old(decided)
      ensures Grows(old(chain), chain) && |ToDo()| <= |old(ToDo())|
      ensures old(CarefulSoFar()) ==> CarefulSoFar()
      ensures old(Idle(World())) ==>
        Idle(World()) && chain == old(chain) && nonce == old(nonce) && calls == old(calls)
    {
      var rounds: int := *;
      while rounds > 0
        invariant Valid() && old(trace) <= trace && alive <= old(alive) && decided == old(decided)
        invariant Grows(old(chain), chain)
        invariant old(CarefulSoFar()) ==> CarefulSoFar()
        invariant old(Idle(World())) ==>
          Idle(World()) && chain == old(chain) && nonce == old(nonce) && calls == old(calls)
      {
        rounds := rounds - 1;
        var expires: bool := *;
        if expires && alive != {} {
          var s :| s in alive;
          LetExpire(s);
        } else if exists s :: s in alive && s.nonce == nonce {
          var s :| s in alive && s.nonce == nonce;
          var ok: bool := *;
          IncludeCall(s, ok);
        }
      }
      GrowthShortensPlan(old(chain), chain, terms.stake, terms.keys);
    }

    /** The node counts up from the finalized nonce over the signed calls that its pool remembers. */
    method AskNextIndex(forgetful: bool) returns (n: nat)
      ensures NextIndex(World(), n)
      ensures !forgetful ==> HonestIndex(World(), n)
    {
      n := nonce;
      var later := set s | s in alive && s.nonce >= n;
      while exists s :: s in later && s.nonce == n
        invariant NextIndex(World(), n)
        invariant later == set s | s in alive && s.nonce >= n
        decreases |later|
      {
        if forgetful {
          var forgot: bool := *;
          if forgot {
            break;
          }
        }
        var s :| s in later && s.nonce == n;
        assert Signed(World(), n);
        ghost var before := later;
        later := set s | s in later && s.nonce > n;
        SmallerWithout(later, before, s);
        n := n + 1;
      }
    }

    /** `finalized`: signs the decided call with the next index, read again, and waits for what comes of it. */
    method Submit(forgetful: bool, faults: bool) returns (fate: Fate)
      requires Valid() && decided.Some? && NextStep(chain, terms.stake, terms.keys) == Ok(decided)
      modifies this
      ensures Valid() && old(trace) <= trace && decided == None && Grows(old(chain), chain)
      ensures old(CarefulSoFar()) ==> CarefulSoFar()
      ensures fate.Finalized? ==> |ToDo()| < |old(ToDo())|
      ensures fate.Finalized? && old(Idle(World())) ==> Idle(World())
      ensures !faults && old(Idle(World())) ==> fate.Finalized?
    {
      hide After, Careful, NextStep, Plan, Apply;
      if faults {
        Wait();
      }
      var n := AskNextIndex(forgetful);
      assert Idle(World()) && n > nonce ==> Signed(World(), nonce);
      var mine := Submission(n, decided.value);
      ghost var before := World();
      alive, decided := alive + {mine}, None;
      Record(before, Sign(n));
      fate := GaveUp;
      if faults {
        Wait();
        var given: Fate := *;
        fate := given;
      } else {
        fate := Finalized;
      }
      if nonce != n || mine !in alive || fate.GaveUp? {
        return GaveUp;
      }
      ghost var later := chain;
      IncludeCall(mine, fate.Finalized?);
      if fate.Finalized? {
        IncludedCallShortensPlan(old(chain), later, terms.stake, terms.keys, mine.call);
      }
    }

    /** A next index that equals the finalized nonce: always over an idle account, and only there if the pool shows
        every signed call. */
    lemma GateByIdle(n: nat)
      requires Valid() && NextIndex(World(), n)
      ensures Idle(World()) ==> n == nonce
      ensures HonestIndex(World(), n) && n == nonce && CarefulSoFar() ==> Idle(World())
    {
      if CarefulSoFar() {
        HonestGateIffIdle(terms, trace);
      }
      assert nonce < n ==> Signed(World(), nonce);
    }

    /** The account conflicts with the request exactly if it did from the start, and then nothing was done. */
    lemma ConflictIsInitial()
      requires Valid()
      ensures Conflicted(chain, terms.stake, terms.keys) <==> Conflicted(terms.initial, terms.stake, terms.keys)
      ensures Conflicted(chain, terms.stake, terms.keys) ==> chain == terms.initial
    {
      hide Conflicted, After, ApplyAll, Lower;
      SoundAlong(terms, trace);
      AllowedEffects(terms, calls);
    }

    /** Past the gate: the run takes the next step of what it read. */
    method Decide()
      requires Valid() && decided == None
      requires NextStep(chain, terms.stake, terms.keys).Ok? && NextStep(chain, terms.stake, terms.keys).value.Some?
      modifies this`decided, this`trace
      ensures Valid() && trace == old(trace) + [Read] && Ok(decided) == NextStep(chain, terms.stake, terms.keys)
      ensures Idle(World()) == old(Idle(World()))
      ensures old(CarefulSoFar()) && old(Idle(World())) ==> CarefulSoFar()
    {
      ghost var before := World();
      decided := NextStep(chain, terms.stake, terms.keys).value;
      Record(before, Read);
    }

    /** The run ends before signing. */
    method CutShort()
      requires Valid() && decided.Some?
      modifies this`decided, this`trace
      ensures Valid() && trace == old(trace) + [Abandon] && decided == None
      ensures old(CarefulSoFar()) ==> CarefulSoFar()
    {
      ghost var before := World();
      decided := None;
      Record(before, Abandon);
    }

    /** `enroll`, or `plan`, which signs nothing. Every gate may close when there are faults; a pool that is not
        forgetful shows every signed call. */
    method Run(plan: bool, forgetful: bool, faults: bool) returns (outcome: Outcome)
      requires Valid() && decided == None
      modifies this
      ensures Valid() && old(trace) <= trace && decided == None && !outcome.NotConverged?
      ensures outcome.Registered? ==>
        ToDo() == [] && chain.bonded && chain.active >= terms.stake && chain.intent
        && chain.keys.Some? && Lower(chain.keys.value) == Lower(terms.keys)
      ensures outcome.Conflict? ==> Conflicted(terms.initial, terms.stake, terms.keys) && chain == terms.initial
      ensures plan ==> alive <= old(alive)
      ensures old(CarefulSoFar()) && (old(Idle(World())) || !forgetful) ==> CarefulSoFar()
      ensures !faults && old(Idle(World())) && !plan && !Conflicted(terms.initial, terms.stake, terms.keys) ==>
        outcome.Registered?
      ensures old(CarefulSoFar()) && !faults && !forgetful && !old(Idle(World())) ==>
        outcome.Unfinalized? && World() == old(World())
    {
      hide After, Careful, Plan, Apply, Idle, NextIndex, HonestIndex, NextStep, Grows, Valid, CarefulSoFar,
        Conflicted, Lower;
      PlanOrder(chain, terms.stake, terms.keys);
      for iteration := 0 to 5
        invariant Valid() && old(trace) <= trace && decided == None
        invariant iteration + |ToDo()| <= 4
        invariant plan ==> alive <= old(alive)
        invariant old(CarefulSoFar()) && (old(Idle(World())) || !forgetful) ==> CarefulSoFar()
        invariant old(Idle(World())) ==> Idle(World())
        invariant old(CarefulSoFar()) && !faults && !forgetful && !old(Idle(World())) ==> World() == old(World())
      {
        if faults {
          Wait();
          var open: bool := *;
          if !open {
            return Refused;
          }
        }
        var pending := AskNextIndex(forgetful);
        GateByIdle(pending);
        if pending != nonce {
          return Unfinalized;
        }
        var step := NextStep(chain, terms.stake, terms.keys);
        ConflictIsInitial();
        NextStepFollowsPlan(chain, terms.stake, terms.keys);
        if step.Err? {
          return Conflict;
        }
        if step.value.None? {
          return Registered;
        }
        Decide();
        if faults {
          var funded: bool := *;
          if !funded {
            CutShort();
            return Refused;
          }
        }
        if plan {
          CutShort();
          return Planned;
        }
        var fate := Submit(forgetful, faults);
        if !fate.Finalized? {
          return SubmissionFailed;
        }
      }
      return NotConverged;
    }
  }

  /** How one run goes: with what pool, and whether the operator first makes sure that no call signed earlier can
      still be included. */
  datatype Setup = Setup(plan: bool, forgetful: bool, patient: bool)

  /** Any number of runs over one account, each of them cut short anywhere. */
  method Lifetime(account: Account, setups: seq<Setup>)
    requires account.Valid() && account.decided == None
    modifies account
    ensures account.Valid() && account.decided == None && old(account.trace) <= account.trace
    ensures var t := account.terms;
      && (t.initial.keys.Some? ==> account.chain.keys == t.initial.keys)
      && (t.initial.keys.None? ==> account.chain.keys == None || account.chain.keys == Some(Lower(t.keys)))
    ensures old(account.CarefulSoFar()) && (forall i :: 0 <= i < |setups| ==>
              setups[i].patient || !setups[i].forgetful) ==>
      var t := account.terms;
      && Consistent(t.initial, t.stake, t.keys, account.calls, account.chain)
      && |account.calls| <= 4 && RisingRanks(account.calls)
      && account.chain.pw == t.initial.pw + TotalLocked(account.calls)
      && TotalLocked(account.calls) == (if t.initial.bonded || account.calls == [] || t.initial.pw >= t.stake then 0
                                        else t.stake - t.initial.pw)
  {
    hide After, Careful, Plan, Apply, Idle, Consistent, ApplyAll, RisingRanks, TotalLocked, Lower, Conflicted;
    for i := 0 to |setups|
      invariant account.Valid() && account.decided == None && old(account.trace) <= account.trace
      invariant (old(account.CarefulSoFar())
                 && forall j :: 0 <= j < i ==> setups[j].patient || !setups[j].forgetful) ==>
        account.CarefulSoFar()
    {
      account.Wait();
      if !setups[i].patient || Idle(account.World()) {
        var outcome := account.Run(setups[i].plan, setups[i].forgetful, true);
      }
    }
    account.Wait();
    KeysNeverReplaced(account.terms, account.trace);
    if account.CarefulSoFar() {
      CarefulRunsFollowPlan(account.terms, account.trace);
    }
  }
}
