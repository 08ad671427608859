/** Everything the wallet and the chain can do to one account, in any order: reading, signing, giving up, including. */
module WalletSchedules {
  import opened Results
  import opened Text
  import opened WalletEnrollment

  /** One enrollment: the account as it was found, and what the operator asks for in every run. */
  datatype Terms = Terms(initial: State, nonce: nat, stake: nat, keys: string)

  /** A signed call: it can be included only while its nonce is the account's next one. */
  datatype Submission = Submission(nonce: nat, call: Call)

  /** Finalized state and nonce, the signed calls that have not expired, the calls finalized successfully, and the call
      a run has decided on but not signed yet. */
  datatype World = World(chain: State, nonce: nat, alive: set<Submission>, calls: seq<Call>, decided: Option<Call>)

  datatype Action =
    | Read                           // a run passes the pending-nonce gate and takes the next step of what it read
    | Sign(nonce: nat)               // it signs with the account's next index, read again
    | Abandon                        // it is cut short before signing
    | Include(s: Submission, ok: bool)
    | Expire(s: Submission)          // a signed call outlives its era

  function Start(t: Terms): World {
    World(t.initial, t.nonce, {}, [], None)
  }

  predicate Signed(w: World, n: nat) {
    exists s :: s in w.alive && s.nonce == n
  }

  /** An answer a node can give for the account's next index: past the finalized nonce only over signed calls that can
      still be included, of which its pool may have forgotten any. */
  predicate NextIndex(w: World, n: nat) {
    w.nonce <= n && forall k :: w.nonce <= k < n ==> Signed(w, k)
  }

  /** The answer of a pool that shows every signed call. */
  predicate HonestIndex(w: World, n: nat) {
    NextIndex(w, n) && !Signed(w, n)
  }

  /** No call signed earlier can still be included. */
  predicate Idle(w: World) {
    forall s :: s in w.alive ==> s.nonce < w.nonce
  }

  predicate Enabled(t: Terms, w: World, a: Action) {
    match a
    case Read =>
      && w.decided.None? && NextIndex(w, w.nonce)
      && NextStep(w.chain, t.stake, t.keys).Ok? && NextStep(w.chain, t.stake, t.keys).value.Some?
    case Sign(n) => w.decided.Some? && NextIndex(w, n)
    case Abandon => w.decided.Some?
    case Include(s, _) => s in w.alive && s.nonce == w.nonce
    case Expire(s) => s in w.alive
  }

  function Next(t: Terms, w: World, a: Action): World
    requires Enabled(t, w, a)
  {
    match a
    case Read => w.(decided := NextStep(w.chain, t.stake, t.keys).value)
    case Sign(n) => w.(alive := w.alive + {Submission(n, w.decided.value)}, decided := None)
    case Abandon => w.(decided := None)
    case Include(s, ok) =>
      if ok then w.(nonce := w.nonce + 1, chain := Apply(w.chain, s.call), calls := w.calls + [s.call])
      else w.(nonce := w.nonce + 1)
    case Expire(s) => w.(alive := w.alive - {s})
  }

  /** The world after a schedule, if every action was possible when it was taken. */
  ghost function After(t: Terms, w: World, actions: seq<Action>): Option<World> {
    if actions == [] then Some(w)
    else
      var before, last := After(t, w, actions[..|actions| - 1]), actions[|actions| - 1];
      if before.Some? && Enabled(t, before.value, last) then Some(Next(t, before.value, last)) else None
  }

  ghost predicate Executes(t: Terms, w: World, actions: seq<Action>) {
    After(t, w, actions).Some?
  }

  /** The account is read only when no call signed earlier can still be included. */
  ghost predicate Careful(t: Terms, w: World, actions: seq<Action>) {
    forall i :: 0 <= i < |actions| && actions[i].Read? && Executes(t, w, actions[..i]) ==>
      Idle(After(t, w, actions[..i]).value)
  }

  lemma AfterSnoc(t: Terms, w: World, actions: seq<Action>, a: Action)
    ensures After(t, w, actions + [a]) ==
      if Executes(t, w, actions) && Enabled(t, After(t, w, actions).value, a)
      then Some(Next(t, After(t, w, actions).value, a)) else None
  {
    assert (actions + [a])[..|actions|] == actions;
  }

  lemma {:induction false} AfterConcat(t: Terms, w: World, a: seq<Action>, b: seq<Action>)
    requires Executes(t, w, a)
    ensures After(t, w, a + b) == After(t, After(t, w, a).value, b)
  {
    hide Enabled, Next;
    if b == [] {
      assert a + b == a;
    } else {
      AfterConcat(t, w, a, b[..|b| - 1]);
      assert (a + b)[..|a + b| - 1] == a + b[..|b| - 1];
    }
  }

  lemma CarefulSnoc(t: Terms, w: World, actions: seq<Action>, a: Action)
    requires Careful(t, w, actions) && Executes(t, w, actions)
    requires a.Read? ==> Idle(After(t, w, actions).value)
    ensures Careful(t, w, actions + [a])
  {
    hide After;
    var all := actions + [a];
    forall i | 0 <= i < |all| && all[i].Read? && Executes(t, w, all[..i])
      ensures Idle(After(t, w, all[..i]).value)
    {
      if i < |actions| {
        assert all[..i] == actions[..i] && all[i] == actions[i];
      } else {
        assert all[..i] == actions;
      }
    }
  }

  lemma CarefulInit(t: Terms, w: World, actions: seq<Action>)
    requires actions != [] && Careful(t, w, actions)
    ensures Careful(t, w, actions[..|actions| - 1])
  {
    hide After;
    var init := actions[..|actions| - 1];
    forall i | 0 <= i < |init| && init[i].Read? && Executes(t, w, init[..i])
      ensures Idle(After(t, w, init[..i]).value)
    {
      assert init[..i] == actions[..i];
    }
  }

  // ---------- what holds on every schedule ----------

  /** The calls an enrollment can ever sign. */
  predicate Allowed(t: Terms, call: Call) {
    && !Conflicted(t.initial, t.stake, t.keys)
    && match call
       case Lock(_) => !t.initial.bonded
       case Bond(amount) => !t.initial.bonded && amount == t.stake
       case SetKeys(keys) => t.initial.keys.None? && keys == t.keys
       case Validate => true
  }

  ghost predicate Sound(t: Terms, w: World) {
    && w.chain == ApplyAll(t.initial, w.calls)
    && (forall i :: 0 <= i < |w.calls| ==> Allowed(t, w.calls[i]))
    && (forall s :: s in w.alive ==> Allowed(t, s.call))
    && (w.decided.Some? ==> Allowed(t, w.decided.value))
  }

  /** Allowed calls, in any order and number, keep what was there and never make the account conflict. */
  lemma {:induction false} AllowedEffects(t: Terms, calls: seq<Call>)
    requires forall i :: 0 <= i < |calls| ==> Allowed(t, calls[i])
    ensures var s := ApplyAll(t.initial, calls);
      && Grows(t.initial, s)
      && (t.initial.bonded ==> s.active == t.initial.active && s.pw == t.initial.pw)
      && (!t.initial.bonded && s.bonded ==> s.active == t.stake)
      && (t.initial.keys.Some? ==> s.keys == t.initial.keys)
      && (t.initial.keys.None? ==> s.keys == None || s.keys == Some(Lower(t.keys)))
      && (!Conflicted(t.initial, t.stake, t.keys) ==> !Conflicted(s, t.stake, t.keys))
      && (Conflicted(t.initial, t.stake, t.keys) ==> calls == [] && s == t.initial)
  {
    LowerIdempotent(t.keys);
    if calls != [] {
      assert Allowed(t, calls[|calls| - 1]);
      AllowedEffects(t, calls[..|calls| - 1]);
      hide Lower;
    }
  }

  lemma SoundStep(t: Terms, w: World, a: Action)
    requires Sound(t, w) && Enabled(t, w, a)
    ensures Sound(t, Next(t, w, a)) && Grows(w.chain, Next(t, w, a).chain)
  {
    AllowedEffects(t, w.calls);
    var next := Next(t, w, a);
    match a
    case Read =>
      NextStepFollowsPlan(w.chain, t.stake, t.keys);
    case Sign(n) =>
      hide Allowed, ApplyAll, Conflicted, NextIndex, Signed;
    case Abandon =>
      hide Allowed, ApplyAll, Conflicted;
    case Include(s, ok) =>
      assert ok ==> next.calls[..|w.calls|] == w.calls;
      hide Allowed, Conflicted;
    case Expire(s) =>
      hide Allowed, ApplyAll, Conflicted;
  }

  lemma {:induction false} SoundAlong(t: Terms, actions: seq<Action>)
    requires Executes(t, Start(t), actions)
    ensures Sound(t, After(t, Start(t), actions).value)
  {
    hide Sound, Enabled, Next;
    if actions == [] {
      StartSound(t);
    } else {
      SoundAlong(t, actions[..|actions| - 1]);
      SoundStep(t, After(t, Start(t), actions[..|actions| - 1]).value, actions[|actions| - 1]);
    }
  }

  lemma StartSound(t: Terms)
    ensures Sound(t, Start(t))
  {
  }

  /** Registered keys are never replaced, whatever is forgotten, repeated or late. */
  lemma KeysNeverReplaced(t: Terms, actions: seq<Action>)
    requires Executes(t, Start(t), actions)
    ensures var w := After(t, Start(t), actions).value;
      && (t.initial.keys.Some? ==> w.chain.keys == t.initial.keys && forall s :: s in w.alive ==> !s.call.SetKeys?)
      && (t.initial.keys.None? ==> w.chain.keys == None || w.chain.keys == Some(Lower(t.keys)))
  {
    SoundAlong(t, actions);
    AllowedEffects(t, After(t, Start(t), actions).value.calls);
    hide After, ApplyAll, Lower, Conflicted;
  }

  // ---------- what holds when the account is read only while idle ----------

  ghost predicate Good(t: Terms, w: World) {
    && Consistent(t.initial, t.stake, t.keys, w.calls, w.chain)
    && (forall s :: s in w.alive ==>
          s.nonce <= w.nonce && (s.nonce == w.nonce ==> NextStep(w.chain, t.stake, t.keys) == Ok(Some(s.call))))
    && (w.decided.Some? ==> Idle(w) && NextStep(w.chain, t.stake, t.keys) == Ok(w.decided))
  }

  lemma GoodStep(t: Terms, w: World, a: Action)
    requires Good(t, w) && Enabled(t, w, a) && (a.Read? ==> Idle(w))
    ensures Good(t, Next(t, w, a))
  {
    hide Consistent, NextStep;
    match a
    case Read =>
    case Sign(n) =>
      assert w.nonce < n ==> Signed(w, w.nonce);
    case Abandon =>
    case Include(s, ok) =>
      if ok {
        FinalizeKeepsConsistent(t.initial, t.stake, t.keys, w.calls, w.chain, s.call);
      }
    case Expire(s) =>
  }

  lemma {:induction false} GoodAlong(t: Terms, w: World, actions: seq<Action>)
    requires Good(t, w) && Executes(t, w, actions) && Careful(t, w, actions)
    ensures Good(t, After(t, w, actions).value)
  {
    hide Good, Enabled, Next;
    if actions != [] {
      var init := actions[..|actions| - 1];
      CarefulInit(t, w, actions);
      GoodAlong(t, w, init);
      GoodStep(t, After(t, w, init).value, actions[|actions| - 1]);
    }
  }

  lemma StartGood(t: Terms)
    ensures Good(t, Start(t))
  {
    assert [] + Plan(t.initial, t.stake, t.keys) == Plan(t.initial, t.stake, t.keys);
  }

  /** Where the pool shows every signed call, the pending-nonce gate opens exactly when none can still be included. */
  lemma HonestGateIffIdle(t: Terms, actions: seq<Action>)
    requires Executes(t, Start(t), actions) && Careful(t, Start(t), actions)
    ensures var w := After(t, Start(t), actions).value;
      HonestIndex(w, w.nonce) <==> Idle(w)
  {
    StartGood(t);
    GoodAlong(t, Start(t), actions);
  }

  /** Over all runs read while idle: each call takes effect at most once and in order, following the initial plan, and
      the total locked is the initial shortfall. */
  lemma CarefulRunsFollowPlan(t: Terms, actions: seq<Action>)
    requires Executes(t, Start(t), actions) && Careful(t, Start(t), actions)
    ensures var w := After(t, Start(t), actions).value;
      && Consistent(t.initial, t.stake, t.keys, w.calls, w.chain)
      && |w.calls| <= 4 && RisingRanks(w.calls)
      && w.chain.pw == t.initial.pw + TotalLocked(w.calls)
      && TotalLocked(w.calls) == (if t.initial.bonded || w.calls == [] || t.initial.pw >= t.stake then 0
                                  else t.stake - t.initial.pw)
  {
    StartGood(t);
    GoodAlong(t, Start(t), actions);
    var w := After(t, Start(t), actions).value;
    PlanPrefixOnce(t.initial, t.stake, t.keys, w.calls, w.chain);
    PlanPrefixLocks(t.initial, t.stake, t.keys, w.calls, w.chain);
    hide After, Consistent;
  }

  // ---------- exactly when a run is safe ----------

  ghost predicate NoRead(actions: seq<Action>) {
    forall i :: 0 <= i < |actions| ==> !actions[i].Read?
  }

  /** What can come of one reading: the run that reads, and all that may be included before the next reading. */
  ghost predicate Follows(t: Terms, w: World, actions: seq<Action>) {
    Executes(t, w, [Read] + actions) && NoRead(actions)
  }

  lemma IdleReadIsCareful(t: Terms, w: World, actions: seq<Action>)
    requires Idle(w) && NoRead(actions)
    ensures Careful(t, w, [Read] + actions)
  {
    var all := [Read] + actions;
    forall i | 0 < i < |all|
      ensures !all[i].Read?
    {
      assert all[i] == actions[i - 1];
    }
  }

  /** The schedule that repeats a call: the account is read over a signed copy the pool forgot, the copy is included,
      and the call is signed again behind it. */
  function Repeat(w: World, s: Submission): seq<Action> {
    [Include(s, true), Sign(w.nonce + 1), Include(Submission(w.nonce + 1, s.call), true)]
  }

  lemma RepeatExecutes(t: Terms, w: World, s: Submission)
    requires w.decided.None? && s in w.alive && s.nonce == w.nonce
    requires NextStep(w.chain, t.stake, t.keys) == Ok(Some(s.call))
    ensures Follows(t, w, Repeat(w, s))
    ensures var after := After(t, w, [Read] + Repeat(w, s)).value;
      after.calls == w.calls + [s.call, s.call] && after.chain == Apply(Apply(w.chain, s.call), s.call)
  {
    hide NextStep, Apply;
    var again := Submission(w.nonce + 1, s.call);
    AfterSnoc(t, w, [], Read);
    AfterSnoc(t, w, [Read], Include(s, true));
    AfterSnoc(t, w, [Read, Include(s, true)], Sign(w.nonce + 1));
    AfterSnoc(t, w, [Read, Include(s, true), Sign(w.nonce + 1)], Include(again, true));
    assert [] + [Read] == [Read];
    assert [Read] + [Include(s, true)] == [Read, Include(s, true)];
    assert [Read, Include(s, true)] + [Sign(w.nonce + 1)] == [Read, Include(s, true), Sign(w.nonce + 1)];
    assert [Read, Include(s, true), Sign(w.nonce + 1)] + [Include(again, true)] == [Read] + Repeat(w, s);
  }

  /** Where there is a next step, whatever can come of reading the account now applies each call at most once exactly
      when no call signed earlier can still be included. */
  lemma OnceIffIdle(t: Terms, history: seq<Action>)
    requires Executes(t, Start(t), history) && Careful(t, Start(t), history)
    requires var w := After(t, Start(t), history).value; Enabled(t, w, Read)
    ensures var w := After(t, Start(t), history).value;
      Idle(w) <==> forall actions :: Follows(t, w, actions) ==>
                     RisingRanks(After(t, w, [Read] + actions).value.calls)
  {
    StartGood(t);
    GoodAlong(t, Start(t), history);
    var w := After(t, Start(t), history).value;
    if Idle(w) {
      forall actions | Follows(t, w, actions)
        ensures RisingRanks(After(t, w, [Read] + actions).value.calls)
      {
        IdleReadGood(t, w, actions);
      }
    } else {
      var s := StaleIsNext(t, w);
      RepeatExecutes(t, w, s);
      var calls := After(t, w, [Read] + Repeat(w, s)).value.calls;
      assert calls[|w.calls|] == calls[|w.calls| + 1];
    }
  }

  /** In money: from a state that needs a lock, the balance stays within the stake exactly when the account is idle. */
  lemma BalanceWithinStakeIffIdle(t: Terms, history: seq<Action>)
    requires Executes(t, Start(t), history) && Careful(t, Start(t), history)
    requires var w := After(t, Start(t), history).value;
      Enabled(t, w, Read) && NextStep(w.chain, t.stake, t.keys).value.value.Lock?
    ensures var w := After(t, Start(t), history).value;
      Idle(w) <==> forall actions :: Follows(t, w, actions) ==>
                     After(t, w, [Read] + actions).value.chain.pw <= t.stake
  {
    StartGood(t);
    GoodAlong(t, Start(t), history);
    var w := After(t, Start(t), history).value;
    if Idle(w) {
      forall actions | Follows(t, w, actions)
        ensures After(t, w, [Read] + actions).value.chain.pw <= t.stake
      {
        IdleReadGood(t, w, actions);
        PlanPrefixLocks(t.initial, t.stake, t.keys, w.calls, w.chain);
      }
    } else {
      var s := StaleIsNext(t, w);
      RepeatExecutes(t, w, s);
      assert Follows(t, w, Repeat(w, s));
    }
  }

  lemma IdleReadGood(t: Terms, w: World, actions: seq<Action>)
    requires Good(t, w) && Idle(w) && Follows(t, w, actions)
    ensures var after := After(t, w, [Read] + actions).value;
      && RisingRanks(after.calls)
      && after.chain.pw == t.initial.pw + TotalLocked(after.calls)
      && (t.initial.bonded || t.initial.pw >= t.stake ==> TotalLocked(after.calls) == 0)
      && (!t.initial.bonded && t.initial.pw < t.stake ==> t.initial.pw + TotalLocked(after.calls) <= t.stake)
  {
    IdleReadIsCareful(t, w, actions);
    GoodAlong(t, w, [Read] + actions);
    var after := After(t, w, [Read] + actions).value;
    PlanPrefixOnce(t.initial, t.stake, t.keys, after.calls, after.chain);
    PlanPrefixLocks(t.initial, t.stake, t.keys, after.calls, after.chain);
    hide After, Consistent;
  }

  lemma StaleIsNext(t: Terms, w: World) returns (s: Submission)
    requires Good(t, w) && !Idle(w)
    ensures s in w.alive && s.nonce == w.nonce && NextStep(w.chain, t.stake, t.keys) == Ok(Some(s.call))
  {
    s :| s in w.alive && s.nonce >= w.nonce;
  }

  /** A run that locks twice. The first run signs the lock and gives up; the second passes the gate while the pool has
      forgotten that call, which is then included; the second signs the lock again, behind it. */
  lemma LockedTwice()
    ensures var t := Terms(State(0, false, 0, None, false), 0, 10, "0xab");
      var first, second := Submission(0, Lock(10)), Submission(1, Lock(10));
      var actions := [Read, Sign(0)] + ([Read] + [Include(first, true), Sign(1), Include(second, true)]);
      && Executes(t, Start(t), actions) && !Careful(t, Start(t), actions)
      && After(t, Start(t), actions).value.calls == [Lock(10), Lock(10)]
      && After(t, Start(t), actions).value.chain.pw == 20
  {
    var t := Terms(State(0, false, 0, None, false), 0, 10, "0xab");
    var first := Submission(0, Lock(10));
    AfterSnoc(t, Start(t), [], Read);
    AfterSnoc(t, Start(t), [Read], Sign(0));
    assert [] + [Read] == [Read] && [Read] + [Sign(0)] == [Read, Sign(0)];
    var w := World(t.initial, 0, {first}, [], None);
    assert After(t, Start(t), [Read]) == Some(Start(t).(decided := Some(Lock(10))));
    assert {} + {first} == {first};
    assert After(t, Start(t), [Read, Sign(0)]) == Some(w);
    RepeatExecutes(t, w, first);
    AfterConcat(t, Start(t), [Read, Sign(0)], [Read] + Repeat(w, first));
    hide After, Executes;
    var actions := [Read, Sign(0)] + ([Read] + Repeat(w, first));
    assert actions[2].Read? && actions[..2] == [Read, Sign(0)] && first in w.alive;
  }
}
