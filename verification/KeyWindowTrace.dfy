/** The trace of a guarded key window: which sequences of commands the helper may issue. */
module KeyWindowTrace {
  /** One external command that reached the service or the enrollment tool. */
  datatype Event =
    | Restart(safeOnDisk: bool, ok: bool)
    | Check(rc: int)
    | Enroll(reuse: bool, ok: bool)
    | Stop

  /** Where a run stands. `e` tells whether enrollment ran and, if so, whether it succeeded. */
  datatype Enrollment = NotRun | Ran(ok: bool)

  datatype Phase =
    | Untouched          // Safe service, nothing issued yet
    | Opening            // restarted on the Unsafe policy, Unsafe not yet observed
    | Observed           // the last check saw the Unsafe service
    | Used(e: Enrollment)      // the window has been used, or its restart failed
    | Closing(e: Enrollment)   // restarted on the Safe policy, Safe not yet observed
    | ClosingFailed            // the Safe restart failed
    | Closed(e: Enrollment)    // the last check saw the Safe service
    | Stopped
    | Illegal

  function EnrollmentOf(p: Phase): Enrollment {
    match p
    case Used(e) => e
    case Closing(e) => e
    case Closed(e) => e
    case _ => NotRun
  }

  function Next(p: Phase, event: Event): Phase {
    match event
    case Restart(true, ok) =>
      if p.Untouched? || p.Opening? || p.Observed? || p.Used?
      then (if ok then Closing(EnrollmentOf(p)) else ClosingFailed)
      else Illegal
    case Restart(false, ok) => if p.Untouched? then (if ok then Opening else Used(NotRun)) else Illegal
    case Check(rc) =>
      if p.Opening? then (if rc == 2 then Observed else Opening)
      else if p.Closing? then (if rc == 0 then Closed(p.e) else p)
      else Illegal
    case Enroll(_, ok) => if p.Observed? then Used(Ran(ok)) else Illegal
    case Stop => if p.Closed? || p.Stopped? || p.Illegal? then Illegal else Stopped
  }

  function PhaseOf(log: seq<Event>): Phase {
    if log == [] then Untouched else Next(PhaseOf(log[..|log| - 1]), log[|log| - 1])
  }

  ghost predicate Legal(log: seq<Event>) {
    PhaseOf(log) != Illegal
  }

  lemma PhaseSnoc(log: seq<Event>, event: Event)
    ensures PhaseOf(log + [event]) == Next(PhaseOf(log), event)
  {
    assert (log + [event])[..|log|] == log;
  }

  lemma PhaseEmpty()
    ensures PhaseOf([]) == Untouched
  {
  }

  function Restarts(log: seq<Event>): nat {
    if log == [] then 0 else Restarts(log[..|log| - 1]) + (if log[|log| - 1].Restart? then 1 else 0)
  }

  function Enrolls(log: seq<Event>): nat {
    if log == [] then 0 else Enrolls(log[..|log| - 1]) + (if log[|log| - 1].Enroll? then 1 else 0)
  }

  /** A legal trace restarts at most twice and enrolls at most once. */
  lemma {:induction false} LegalCounts(log: seq<Event>)
    requires Legal(log)
    ensures Restarts(log) <= 2 && Enrolls(log) <= 1
    ensures var p := PhaseOf(log);
      && (p.Untouched? ==> Restarts(log) == 0)
      && (p.Opening? || p.Observed? || p.Used? ==> Restarts(log) == 1)
      && (p.Untouched? || p.Opening? || p.Observed? ==> Enrolls(log) == 0)
      && (p.Used? && p.e.NotRun? ==> Enrolls(log) == 0)
  {
    if log != [] {
      LegalCounts(log[..|log| - 1]);
    }
  }

  /** Nothing follows a stop, so there is at most one. */
  lemma {:induction false} StopIsLast(log: seq<Event>, i: nat)
    requires Legal(log) && i < |log| && log[i].Stop?
    ensures i == |log| - 1 && PhaseOf(log) == Stopped
  {
    if i < |log| - 1 {
      StopIsLast(log[..|log| - 1], i);
    }
  }

  /** Enrollment follows at once on a check that saw Unsafe, with only checks since the restart that opened. */
  lemma {:induction false} EnrollAfterUnsafe(log: seq<Event>, i: nat) returns (r: nat)
    requires Legal(log) && i < |log| && log[i].Enroll?
    ensures r < i && log[i - 1] == Check(2)
    ensures log[r] == Restart(false, true) && forall k :: r < k < i ==> log[k].Check?
  {
    var init := log[..|log| - 1];
    if i < |log| - 1 {
      r := EnrollAfterUnsafe(init, i);
    } else {
      r := WindowOpened(init);
    }
    assert forall k :: 0 <= k < |init| ==> init[k] == log[k];
  }

  /** Before the window is used there was one restart on the Unsafe policy and only checks since. */
  lemma {:induction false} WindowOpened(log: seq<Event>) returns (r: nat)
    requires PhaseOf(log).Opening? || PhaseOf(log).Observed?
    ensures r < |log| && log[r] == Restart(false, true) && forall k :: r < k < |log| ==> log[k].Check?
    ensures PhaseOf(log).Observed? ==> log[|log| - 1] == Check(2)
  {
    var init, last := log[..|log| - 1], log[|log| - 1];
    if last.Restart? {
      r := |log| - 1;
    } else {
      r := WindowOpened(init);
    }
  }

  /** A closed window ends on a check that saw Safe, after a restart that found the Safe policy on disk, with only
      checks in between; and enrollment succeeded in it exactly when the phase says so. */
  lemma {:induction false} ClosedTrace(log: seq<Event>) returns (r: nat)
    requires PhaseOf(log).Closing? || PhaseOf(log).Closed?
    ensures r < |log| && log[r] == Restart(true, true) && forall k :: r < k < |log| ==> log[k].Check?
    ensures PhaseOf(log).Closed? ==> log[|log| - 1] == Check(0)
    ensures PhaseOf(log).e == Ran(true) <==> exists i :: 0 <= i < |log| && log[i].Enroll? && log[i].ok
  {
    var init, last := log[..|log| - 1], log[|log| - 1];
    if last.Restart? {
      r := |log| - 1;
      EnrolledBefore(init);
    } else {
      r := ClosedTrace(init);
    }
    assert forall i :: 0 <= i < |init| ==> init[i] == log[i];
  }

  lemma {:induction false} EnrolledBefore(log: seq<Event>)
    requires var p := PhaseOf(log); p.Untouched? || p.Opening? || p.Observed? || p.Used?
    ensures EnrollmentOf(PhaseOf(log)) == Ran(true) <==> exists i :: 0 <= i < |log| && log[i].Enroll? && log[i].ok
  {
    if log != [] {
      var init := log[..|log| - 1];
      EnrolledBefore(init);
      assert forall i :: 0 <= i < |init| ==> init[i] == log[i];
      assert PhaseOf(init) != Illegal;
      if log[|log| - 1].Enroll? {
        NoEnrollYet(init);
      }
    }
  }

  lemma {:induction false} NoEnrollYet(log: seq<Event>)
    requires var p := PhaseOf(log); p.Untouched? || p.Opening? || p.Observed?
    ensures forall i :: 0 <= i < |log| ==> !log[i].Enroll?
  {
    if log != [] {
      NoEnrollYet(log[..|log| - 1]);
    }
  }
}
