/** The guarded session-key window of `bin/roko-session-key-window`, from the traps to the exit status.
    Every command may fail, and INT or TERM may arrive between any two commands outside the recovery code. */
module KeyWindow {
  import opened Results
  import opened KeyWindowTrace

  datatype Mode = Safe | Unsafe

  datatype Service = Down | Up(mode: Mode)

  /** How a stretch of the script ended: it went on, or the shell exits with this status through the EXIT trap. */
  datatype Flow = Continue | ExitWith(rc: int)

  const SAFE_LINE := "ROKO_RPC_METHODS=Safe"
  const UNSAFE_FILE := "ROKO_RPC_METHODS=Unsafe\n"

  /** `tr -d '\r'`. */
  function WithoutReturns(s: string): string {
    if s == [] then [] else (if s[0] == '\r' then [] else [s[0]]) + WithoutReturns(s[1..])
  }

  /** Command substitution drops trailing newlines. */
  function Substituted(s: string): string {
    if s != [] && s[|s| - 1] == '\n' then Substituted(s[..|s| - 1]) else s
  }

  /** The file is in the exact Safe state. */
  predicate ReadsSafe(content: string) {
    Substituted(WithoutReturns(content)) == SAFE_LINE
  }

  /** A file reads safe exactly when, carriage returns apart, it is the line and nothing but line ends after it. */
  lemma ReadsSafeIff(content: string)
    ensures ReadsSafe(content) <==> exists n: nat :: WithoutReturns(content) == "ROKO_RPC_METHODS=Safe" + LineEnds(n)
    ensures '\r' !in WithoutReturns(content)
  {
    OnlyReturnsGo(content);
    var s := WithoutReturns(content);
    var n := SubstitutedEnds(s);
    if k: nat :| s == SAFE_LINE + LineEnds(k) {
      EndsSubstituted(SAFE_LINE, k);
    }
    hide WithoutReturns, Substituted, LineEnds;
  }

  function LineEnds(n: nat): string {
    if n == 0 then [] else LineEnds(n - 1) + ['\n']
  }

  lemma {:induction false} SubstitutedEnds(s: string) returns (n: nat)
    ensures s == Substituted(s) + LineEnds(n)
  {
    if s != [] && s[|s| - 1] == '\n' {
      n := SubstitutedEnds(s[..|s| - 1]);
      assert s == s[..|s| - 1] + ['\n'];
      n := n + 1;
    } else {
      n := 0;
    }
  }

  lemma {:induction false} EndsSubstituted(line: string, n: nat)
    requires line != [] && line[|line| - 1] != '\n'
    ensures Substituted(line + LineEnds(n)) == line
  {
    if n == 0 {
      assert line + LineEnds(0) == line;
    } else {
      EndsSubstituted(line, n - 1);
      assert (line + LineEnds(n))[..|line + LineEnds(n)| - 1] == line + LineEnds(n - 1);
    }
  }

  lemma {:induction false} OnlyReturnsGo(s: string)
    ensures '\r' !in WithoutReturns(s)
  {
    if s != [] {
      OnlyReturnsGo(s[1..]);
    }
  }

  /** The policy file as the helper writes it. */
  function FileFor(mode: Mode): string {
    "ROKO_RPC_METHODS=" + (if mode == Safe then "Safe" else "Unsafe") + "\n"
  }

  lemma UnsafeFileNotSafe()
    ensures FileFor(Unsafe) == UNSAFE_FILE && !ReadsSafe(UNSAFE_FILE)
  {
    hide WithoutReturns, Substituted;
    assert '\r' !in UNSAFE_FILE;
    NoReturns(UNSAFE_FILE);
    SubstitutedPrefix(UNSAFE_FILE);
    assert UNSAFE_FILE[17] == 'U' && SAFE_LINE[17] == 'S';
  }

  lemma UnsafeWritesNotSafe()
    ensures !ReadsSafe(FileFor(Unsafe))
  {
    UnsafeFileNotSafe();
    hide ReadsSafe;
  }

  lemma {:induction false} SubstitutedPrefix(s: string)
    ensures Substituted(s) <= s
  {
    if s != [] && s[|s| - 1] == '\n' {
      SubstitutedPrefix(s[..|s| - 1]);
    }
  }

  lemma {:induction false} NoReturns(s: string)
    requires '\r' !in s
    ensures WithoutReturns(s) == s
  {
    if s != [] {
      NoReturns(s[1..]);
    }
  }

  lemma FirstRestart(ok: bool)
    ensures PhaseOf([Restart(false, ok)]) == if ok then Opening else Used(NotRun)
  {
    PhaseSnoc([], Restart(false, ok));
    assert [] + [Restart(false, ok)] == [Restart(false, ok)];
  }

  // ---------- what the outside world does ----------

  datatype Signal = Interrupt | Terminate

  /** How the steps of writing the temporary policy go. */
  datatype Writing = Writing(made: bool, printed: bool, owned: bool, moded: bool, moved: bool)

  /** How recovery goes: the copy, what it holds, the comparison, the restart. */
  datatype Recovery = Recovery(made: bool, copied: bool, content: string, moved: bool, compared: bool, restarted: bool)

  /** What `--check-rpc-policy` meets, and the status it would give. */
  datatype Answer = Answer(service: Service, rc: int)

  /** Everything the run has no say in: the signal at the `k`-th boundary between commands, the service and the status
      at the `k`-th check, and whether each command succeeds. */
  datatype World = World(
    signals: nat -> Option<Signal>, writing: Writing, restarted: bool, checks: nat -> Answer, enrollment: int,
    recovery: Recovery, reported: bool, finished: bool)

  /** A check gives 0 only on a Safe service and 2 only on an Unsafe one, but may fail on either. */
  function Seen(a: Answer): int {
    if (a.rc == 0 && a.service != Up(Safe)) || (a.rc == 2 && a.service != Up(Unsafe)) then 1 else a.rc
  }

  function StatusOf(mode: Mode): int {
    if mode == Safe then 0 else 2
  }

  /** One of the checks from the `from`-th on, as many as there are attempts, sees this mode. */
  ghost predicate SeenWithin(w: World, mode: Mode, from: nat, attempts: Option<nat>) {
    attempts.Some? && exists k: nat :: from <= k < from + attempts.value && Seen(w.checks(k)) == StatusOf(mode)
  }

  ghost predicate NoSignal(w: World, boundaries: nat) {
    forall k: nat :: k < boundaries ==> w.signals(k).None?
  }

  lemma SomeAttempts(w: World, mode: Mode, from: nat, attempts: Option<nat>)
    requires SeenWithin(w, mode, from, attempts)
    ensures attempts.Some?
  {
  }

  /** No signal comes and nothing fails: an Unsafe service is seen among the first attempts and a Safe one among those
      that follow any check. */
  ghost predicate GoesThrough(w: World, backup: string, attempts: Option<nat>) {
    && (forall k: nat :: w.signals(k).None?) && WindowOpens(w, 0, attempts) && w.enrollment == 0
    && (forall from: nat :: 0 < from ==> RecoveryWorks(w, backup, from, attempts)) && w.reported && w.finished
  }

  /** Such a world there is, for every backup that reads Safe. */
  lemma SomeWorldGoesThrough(backup: string) returns (w: World)
    requires ReadsSafe(backup)
    ensures GoesThrough(w, backup, Some(1))
  {
    w := World(
      (k: nat) => None, Writing(true, true, true, true, true), true,
      (k: nat) => if k == 0 then Answer(Up(Unsafe), 2) else Answer(Up(Safe), 0), 0,
      Recovery(true, true, backup, true, true, true), true, true);
    hide ReadsSafe;
    assert Seen(w.checks(0)) == StatusOf(Unsafe);
    forall from: nat | 0 < from
      ensures RecoveryWorks(w, backup, from, Some(1))
    {
      assert Seen(w.checks(from)) == StatusOf(Safe);
    }
  }

  /** INT exits with 130 and TERM with 143. */
  function Trapped(w: World, boundary: nat): Flow {
    match w.signals(boundary)
    case None => Continue
    case Some(Interrupt) => ExitWith(130)
    case Some(Terminate) => ExitWith(143)
  }

  /** The two exit statuses tell which signal it was. */
  lemma SignalStatuses(w: World, boundary: nat)
    ensures Trapped(w, boundary) == ExitWith(130) <==> w.signals(boundary) == Some(Interrupt)
    ensures Trapped(w, boundary) == ExitWith(143) <==> w.signals(boundary) == Some(Terminate)
  {
  }

  predicate Written(w: Writing) {
    w.made && w.printed && w.owned && w.moded && w.moved
  }

  /** The backup is copied back, compares equal and reads Safe, and the service restarts and is seen Safe. */
  ghost predicate RecoveryWorks(w: World, backup: string, from: nat, attempts: Option<nat>) {
    var r := w.recovery;
    && r.made && r.copied && r.moved && r.compared && r.content == backup && ReadsSafe(backup)
    && r.restarted && SeenWithin(w, Safe, from, attempts)
  }

  /** No signal before the window opens for the enrollment, and every command up to there succeeds. */
  ghost predicate WindowOpens(w: World, boundaries: nat, attempts: Option<nat>) {
    NoSignal(w, boundaries) && Written(w.writing) && w.restarted && SeenWithin(w, Unsafe, 0, attempts)
  }

  class Helper {
    var policy: string
    const backup: string
    var service: Service
    var restoreRequired: bool
    var log: seq<Event>
    const world: World
    var boundaries: nat // passed so far
    var asked: nat      // checks made so far

    /** The window is to be opened over a service seen Safe, with the policy in Safe state and just backed up. */
    constructor (policy: string, world: World)
      requires ReadsSafe(policy)
      ensures this.policy == backup == policy && service == Up(Safe) && !restoreRequired && log == []
      ensures this.world == world && boundaries == asked == 0
    {
      this.policy, backup, this.world := policy, policy, world;
      service, restoreRequired, log, boundaries, asked := Up(Safe), false, [], 0, 0;
    }

    /** INT or TERM may have arrived; the trap turns it into an exit. */
    method Boundary() returns (flow: Flow)
      modifies `boundaries
      ensures boundaries == old(boundaries) + 1
      ensures flow == Trapped(world, old(boundaries)) && (flow.ExitWith? ==> flow.rc != 0)
      ensures NoSignal(world, old(boundaries)) ==> (flow.Continue? <==> NoSignal(world, boundaries))
    {
      var signal := world.signals(boundaries);
      boundaries := boundaries + 1;
      flow := match signal
      case None => Continue
      case Some(Interrupt) => ExitWith(130)
      case Some(Terminate) => ExitWith(143);
    }

    /** A command with no effect of its own: it may fail, and a signal may follow it. */
    method Plain(ok: bool) returns (flow: Flow)
      modifies `boundaries
      ensures flow.ExitWith? ==> flow.rc != 0
      ensures boundaries == old(boundaries) + (if ok then 1 else 0)
      ensures NoSignal(world, old(boundaries)) ==> (flow.Continue? <==> ok && NoSignal(world, boundaries))
    {
      if ok {
        flow := Boundary();
      } else {
        flow := ExitWith(1);
      }
    }

    method WritePolicy(mode: Mode) returns (flow: Flow)
      modifies `policy, `boundaries
      ensures flow.ExitWith? ==> flow.rc != 0
      ensures policy == old(policy) || policy == FileFor(mode)
      ensures flow.Continue? ==> policy == FileFor(mode)
      ensures old(boundaries) <= boundaries
      ensures NoSignal(world, old(boundaries)) ==>
        (flow.Continue? <==> Written(world.writing) && NoSignal(world, boundaries))
    {
      var w := world.writing;
      flow := Plain(w.made); // mktemp
      if flow.ExitWith? { return; }
      flow := Plain(w.printed); // printf
      if flow.ExitWith? { return; }
      var temporary := FileFor(mode);
      flow := Plain(w.owned); // chown
      if flow.ExitWith? { return; }
      flow := Plain(w.moded); // chmod
      if flow.ExitWith? { return; }
      if !w.moved { return ExitWith(1); }
      policy := temporary;
      flow := Boundary();
    }

    /** `systemctl restart`: the service may come up in any mode, or not at all. */
    method RestartService(ok: bool)
      modifies `service, `log
      ensures log == old(log) + [Restart(ReadsSafe(policy), ok)]
    {
      service := *;
      log := log + [Restart(ReadsSafe(policy), ok)];
    }

    /** `--check-rpc-policy`, on a service that may still be starting. */
    method CheckPolicy() returns (rc: int)
      modifies `service, `log, `asked
      ensures log == old(log) + [Check(rc)] && asked == old(asked) + 1 && rc == Seen(world.checks(old(asked)))
      ensures rc == 0 ==> service == Up(Safe)
      ensures rc == 2 ==> service == Up(Unsafe)
    {
      var answer := world.checks(asked);
      asked := asked + 1;
      service, rc := answer.service, answer.rc;
      if (rc == 0 && service != Up(Safe)) || (rc == 2 && service != Up(Unsafe)) {
        rc := 1;
      }
      log := log + [Check(rc)];
    }

    /** `attempts` is `None` when the environment override is not a number from 1 to 99.
        With `trapped`, a signal may end the wait; inside the recovery code it is taken not to arrive. */
    method WaitForPolicy(expected: Mode, attempts: Option<nat>, trapped: bool) returns (reached: bool, flow: Flow)
      requires if expected == Unsafe then PhaseOf(log) == Opening else PhaseOf(log).Closing?
      modifies `service, `log, `boundaries, `asked
      ensures flow.ExitWith? ==> trapped && flow.rc != 0
      ensures reached ==> service == Up(expected) && flow.Continue? && attempts.Some?
      ensures old(log) <= log && forall i :: |old(log)| <= i < |log| ==> log[i].Check?
      ensures |log| <= |old(log)| + (if attempts.None? then 0 else attempts.value)
      ensures expected == Unsafe ==> PhaseOf(log) == Opening || PhaseOf(log) == Observed
      ensures expected == Unsafe && reached ==> PhaseOf(log) == Observed
      ensures expected == Safe ==>
        PhaseOf(log) == if reached then Closed(PhaseOf(old(log)).e) else PhaseOf(old(log))
      ensures old(boundaries) <= boundaries && (!trapped ==> boundaries == old(boundaries))
      ensures flow.Continue? ==> (reached <==> SeenWithin(world, expected, old(asked), attempts))
      ensures old(asked) <= asked && (reached ==> old(asked) < asked)
      ensures NoSignal(world, old(boundaries)) ==> (flow.Continue? <==> NoSignal(world, boundaries))
    {
      hide PhaseOf, Seen;
      reached, flow := false, Continue;
      if attempts.None? { return; }
      for attempt := 0 to attempts.value
        invariant old(log) <= log && |log| == |old(log)| + attempt
        invariant forall i :: |old(log)| <= i < |log| ==> log[i].Check?
        invariant PhaseOf(log) == PhaseOf(old(log)) && flow == Continue && !reached
        invariant asked == old(asked) + attempt
        invariant old(boundaries) <= boundaries && (!trapped ==> boundaries == old(boundaries))
        invariant forall k: nat :: old(asked) <= k < asked ==> Seen(world.checks(k)) != StatusOf(expected)
        invariant NoSignal(world, old(boundaries)) ==> NoSignal(world, boundaries)
      {
        ghost var before := log;
        var rc := CheckPolicy();
        PhaseSnoc(before, Check(rc));
        if (expected == Safe && rc == 0) || (expected == Unsafe && rc == 2) {
          reached := true;
          return;
        }
        if trapped {
          flow := Boundary();
          if flow.ExitWith? { return; }
        }
      }
    }

    /** Copy the backup over the policy file. `cp` is not trusted: only `cmp` vouches for the bytes. */
    method RestorePriorPolicy() returns (ok: bool)
      modifies `policy
      ensures ok ==> policy == backup
      ensures var r := world.recovery;
        ok <==> r.made && r.copied && r.moved && r.compared && r.content == backup
    {
      var r := world.recovery;
      if !r.made { return false; }
      if !r.copied { return false; }
      if !r.moved { return false; }
      policy := r.content;
      ok := r.compared && backup == policy;
    }

    /** Safe again on disk and in the service, or the service stopped; done at most once a run. */
    ghost predicate Recovered()
      reads this
    {
      && !restoreRequired
      && ((policy == backup && service == Up(Safe) && (PhaseOf(log).Closed? || log == []))
          || PhaseOf(log) == Stopped)
    }

    /** The copy, the restart and the wait. */
    method TryRestore(attempts: Option<nat>) returns (restoreOk: bool)
      requires var p := PhaseOf(log); p.Untouched? || p.Opening? || p.Observed? || p.Used?
      modifies `policy, `service, `log, `boundaries, `asked
      ensures restoreOk <==> RecoveryWorks(world, backup, old(asked), attempts)
      ensures old(log) <= log && boundaries == old(boundaries)
      ensures restoreOk ==>
        policy == backup && service == Up(Safe) && PhaseOf(log) == Closed(EnrollmentOf(PhaseOf(old(log))))
      ensures !restoreOk ==> !PhaseOf(log).Closed? && !PhaseOf(log).Stopped? && !PhaseOf(log).Illegal?
      ensures |log| <= |old(log)| + 1 + (if attempts.None? then 0 else attempts.value)
      ensures forall i :: |old(log)| <= i < |log| ==> !log[i].Enroll? && (attempts.None? ==> !log[i].Check?)
    {
      hide PhaseOf, ReadsSafe, SeenWithin;
      ghost var start := log;
      restoreOk := RestorePriorPolicy();
      if restoreOk {
        restoreOk := ReadsSafe(policy);
      }
      if restoreOk {
        restoreOk := world.recovery.restarted;
        RestartService(restoreOk);
        PhaseSnoc(start, Restart(true, restoreOk));
        assert !restoreOk ==> PhaseOf(log) == ClosingFailed;
      }
      if restoreOk {
        var flow;
        restoreOk, flow := WaitForPolicy(Safe, attempts, false);
      }
    }

    /** Stops the service exactly when some step of recovery fails. */
    method RestoreSafe(attempts: Option<nat>) returns (ok: bool)
      requires restoreRequired ==> var p := PhaseOf(log); p.Untouched? || p.Opening? || p.Observed? || p.Used?
      requires !restoreRequired ==> Recovered()
      modifies this
      ensures Recovered() && old(log) <= log && boundaries == old(boundaries)
      ensures !old(restoreRequired) ==> ok && policy == old(policy) && service == old(service) && log == old(log)
      ensures old(restoreRequired) ==>
        (PhaseOf(log) == Stopped <==> !RecoveryWorks(world, backup, old(asked), attempts))
      ensures old(restoreRequired) ==> (ok <==> PhaseOf(log) != Stopped && world.reported)
      ensures old(restoreRequired) && PhaseOf(log) != Stopped ==>
        PhaseOf(log) == Closed(EnrollmentOf(PhaseOf(old(log))))
      ensures |log| <= |old(log)| + 2 + (if attempts.None? then 0 else attempts.value)
      ensures forall i :: |old(log)| <= i < |log| ==> !log[i].Enroll? && (attempts.None? ==> !log[i].Check?)
    {
      hide PhaseOf, RecoveryWorks;
      if !restoreRequired { return true; }
      var restoreOk := TryRestore(attempts);
      restoreRequired := false;
      if !restoreOk {
        ghost var before := log;
        service := *;
        log := log + [Stop];
        PhaseSnoc(before, Stop);
        return false;
      }
      ok := world.reported; // the closing message may fail to print
    }

    /** The EXIT trap. */
    method OnExit(rc: int, attempts: Option<nat>) returns (exit: int)
      requires rc != 0
      requires restoreRequired ==> var p := PhaseOf(log); p.Untouched? || p.Opening? || p.Observed? || p.Used?
      requires !restoreRequired ==> Recovered()
      requires !restoreRequired && PhaseOf(log) == Stopped ==> rc == 1
      modifies this
      ensures Recovered() && exit != 0 && old(log) <= log && boundaries == old(boundaries)
      ensures PhaseOf(log) == Stopped ==> exit == 1
      ensures !old(restoreRequired) ==> log == old(log)
      ensures old(restoreRequired) ==>
        (PhaseOf(log) == Stopped <==> !RecoveryWorks(world, backup, old(asked), attempts))
      ensures |log| <= |old(log)| + 2 + (if attempts.None? then 0 else attempts.value)
      ensures forall i :: |old(log)| <= i < |log| ==> !log[i].Enroll? && (attempts.None? ==> !log[i].Check?)
    {
      var ok := RestoreSafe(attempts);
      exit := if ok then rc else 1;
    }

    method RunEnrollment(reuse: bool) returns (flow: Flow)
      requires PhaseOf(log) == Observed
      modifies `log, `boundaries
      ensures log == old(log) + [Enroll(reuse, world.enrollment == 0)]
      ensures PhaseOf(log) == Used(Ran(world.enrollment == 0)) && old(boundaries) <= boundaries
      ensures flow.ExitWith? ==> flow.rc != 0
      ensures NoSignal(world, old(boundaries)) ==>
        (flow.Continue? <==> world.enrollment == 0 && NoSignal(world, boundaries))
    {
      hide PhaseOf;
      var rc := world.enrollment;
      PhaseSnoc(log, Enroll(reuse, rc == 0));
      if reuse {
        log := log + [Enroll(true, rc == 0)];
      } else {
        log := log + [Enroll(false, rc == 0)];
      }
      if rc != 0 {
        flow := ExitWith(rc);
      } else {
        flow := Boundary();
      }
    }

    method RestartUnsafe()
      requires policy == FileFor(Unsafe) && log == []
      modifies `service, `log
      ensures log == [Restart(false, world.restarted)]
      ensures PhaseOf(log) == if world.restarted then Opening else Used(NotRun)
    {
      hide PhaseOf, ReadsSafe, FileFor;
      UnsafeWritesNotSafe();
      RestartService(world.restarted);
      FirstRestart(world.restarted);
      assert log == [Restart(false, world.restarted)];
    }

    /** From the traps to the restart on the Unsafe policy. */
    method StartUnsafe() returns (flow: Flow)
      requires policy == backup && ReadsSafe(backup) && service == Up(Safe) && !restoreRequired && log == []
      requires boundaries == asked == 0
      modifies this
      ensures flow.ExitWith? ==> flow.rc != 0
      ensures PhaseOf(log).Untouched? || PhaseOf(log).Opening? || PhaseOf(log).Used?
      ensures !restoreRequired ==> flow.ExitWith? && Recovered() && log == []
      ensures flow.Continue? ==> PhaseOf(log) == Opening && restoreRequired
      ensures |log| <= 1 && asked == 0 && forall i :: 0 <= i < |log| ==> log[i].Restart?
      ensures flow.Continue? <==> NoSignal(world, boundaries) && Written(world.writing) && world.restarted
    {
      assert NoSignal(world, 0);
      hide PhaseOf, ReadsSafe, Next, NoSignal, Written, FileFor, Trapped;
      PhaseEmpty();
      flow := Boundary();
      if flow.ExitWith? { return; }
      restoreRequired := true;
      flow := Boundary();
      if flow.ExitWith? { return; }
      flow := WritePolicy(Unsafe);
      if flow.ExitWith? { return; }
      RestartUnsafe();
      if !world.restarted { return ExitWith(1); }
      flow := Boundary();
    }

    /** From there to the observed Unsafe service, which is reached exactly when the window opens. */
    method OpenWindow(attempts: Option<nat>) returns (flow: Flow)
      requires policy == backup && ReadsSafe(backup) && service == Up(Safe) && !restoreRequired && log == []
      requires boundaries == asked == 0
      modifies this
      ensures flow.ExitWith? ==> flow.rc != 0
      ensures restoreRequired ==> var p := PhaseOf(log); p.Untouched? || p.Opening? || p.Observed? || p.Used?
      ensures !restoreRequired ==> flow.ExitWith? && Recovered() && log == []
      ensures flow.Continue? ==> PhaseOf(log) == Observed && restoreRequired && 0 < asked
      ensures |log| <= 1 + (if attempts.None? then 0 else attempts.value)
      ensures forall i :: 0 <= i < |log| ==> !log[i].Enroll? && (attempts.None? ==> !log[i].Check?)
      ensures flow.Continue? <==> WindowOpens(world, boundaries, attempts)
    {
      hide PhaseOf, ReadsSafe, SeenWithin, NoSignal, Written;
      flow := StartUnsafe();
      if flow.ExitWith? { return; }
      var reached;
      reached, flow := WaitForPolicy(Unsafe, attempts, true);
      if flow.ExitWith? { return; }
      if !reached { return ExitWith(1); }
      flow := Boundary();
    }

    /** What runs under the EXIT trap before recovery. An open window is left without enrolling only after a command
        failed or a signal came. */
    method OpenAndEnroll(attempts: Option<nat>, reuse: bool) returns (flow: Flow)
      requires policy == backup && ReadsSafe(backup) && service == Up(Safe) && !restoreRequired && log == []
      requires boundaries == asked == 0
      modifies this
      ensures flow.ExitWith? ==> flow.rc != 0
      ensures restoreRequired ==> var p := PhaseOf(log); p.Untouched? || p.Opening? || p.Observed? || p.Used?
      ensures !restoreRequired ==> flow.ExitWith? && Recovered() && log == []
      ensures flow.Continue? ==> PhaseOf(log) == Used(Ran(true)) && restoreRequired && 0 < asked
      ensures |log| <= 2 + (if attempts.None? then 0 else attempts.value)
      ensures forall i :: 0 <= i < |log| && log[i].Enroll? ==> log[i].reuse == reuse
      ensures attempts.None? ==> flow.ExitWith? && forall i :: 0 <= i < |log| ==> !log[i].Enroll? && !log[i].Check?
      ensures WindowOpens(world, boundaries, attempts) ==>
        |log| > 0 && log[|log| - 1] == Enroll(reuse, world.enrollment == 0)
      ensures flow.Continue? <==> WindowOpens(world, boundaries, attempts) && world.enrollment == 0
    {
      hide PhaseOf, ReadsSafe, SeenWithin, Written;
      flow := OpenWindow(attempts);
      if flow.ExitWith? { return; }
      SomeAttempts(world, Unsafe, 0, attempts);
      flow := RunEnrollment(reuse);
    }

    /** The whole window: however it is driven, it ends Safe or stopped; it stops only if recovery fails, and with no
        signal and no failure it enrolls, recovers and succeeds. */
    method Run(attempts: Option<nat>, reuse: bool) returns (exit: int)
      requires policy == backup && ReadsSafe(backup) && service == Up(Safe) && !restoreRequired && log == []
      requires boundaries == asked == 0
      modifies this
      ensures (policy == backup && service == Up(Safe)) || (PhaseOf(log) == Stopped && exit == 1)
      ensures Legal(log)
      ensures exit == 0 ==> PhaseOf(log) == Closed(Ran(true)) && policy == backup && service == Up(Safe)
      ensures |log| <= 4 + 2 * (if attempts.None? then 0 else attempts.value)
      ensures forall i :: 0 <= i < |log| && log[i].Enroll? ==> log[i].reuse == reuse
      ensures attempts.None? ==> exit != 0 && forall i :: 0 <= i < |log| ==> !log[i].Enroll? && !log[i].Check?
      ensures PhaseOf(log) == Stopped ==> exists from: nat :: !RecoveryWorks(world, backup, from, attempts)
      ensures WindowOpens(world, boundaries, attempts) ==> exists i :: 0 <= i < |log| && log[i].Enroll?
      ensures GoesThrough(world, backup, attempts) ==>
        exit == 0 && policy == backup && service == Up(Safe) && PhaseOf(log) == Closed(Ran(true))
    {
      hide PhaseOf, ReadsSafe, SeenWithin, RecoveryWorks, Written;
      PhaseEmpty();
      var flow := OpenAndEnroll(attempts, reuse);
      if flow.ExitWith? {
        exit := OnExit(flow.rc, attempts);
        return;
      }
      var ok := RestoreSafe(attempts);
      if !ok {
        exit := OnExit(1, attempts);
        return;
      }
      flow := Boundary();
      if flow.ExitWith? {
        exit := OnExit(flow.rc, attempts);
        return;
      }
      flow := Plain(world.finished); // traps removed; the last message
      exit := if flow.ExitWith? then flow.rc else 0;
    }
  }
}
