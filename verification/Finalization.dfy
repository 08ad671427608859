/** `finalized` of `wallet/logic.mjs`: one promise settled by status callbacks, a timer and a subscription. */
module Finalization {
  import opened Results

  /** A status callback, by the tests the source applies to it. */
  datatype Status = Status(isInvalid: bool, isDropped: bool, isUsurped: bool, isFinalized: bool, failed: bool)

  datatype Event = Callback(status: Status) | Timer | Subscribed | SubmissionRejected

  datatype Outcome = Finalized | DispatchFailure | RejectedOrReplaced | TimedOut | SubmissionFailed

  /** How an event ends the wait, if it does. */
  function Terminal(event: Event): Option<Outcome> {
    match event
    case Timer => Some(TimedOut)
    case SubmissionRejected => Some(SubmissionFailed)
    case Subscribed => None
    case Callback(s) =>
      if s.isInvalid || s.isDropped || s.isUsurped then Some(RejectedOrReplaced)
      else if !s.isFinalized then None
      else if s.failed then Some(DispatchFailure)
      else Some(Finalized)
  }

  function FirstTerminal(events: seq<Event>): Option<Outcome> {
    if events == [] then None
    else
      var earlier := FirstTerminal(events[..|events| - 1]);
      if earlier.Some? then earlier else Terminal(events[|events| - 1])
  }

  /** The outcome is that of the earliest event that ends the wait. */
  lemma {:induction false} FirstTerminalIsFirst(events: seq<Event>, o: Outcome)
    ensures FirstTerminal(events) == Some(o) <==>
      exists i: nat :: i < |events| && Terminal(events[i]) == Some(o)
        && forall j: nat :: j < i ==> Terminal(events[j]).None?
  {
    if events != [] {
      var n, init := |events| - 1, events[..|events| - 1];
      FirstTerminalIsFirst(init, o);
      NoneBefore(init);
      assert forall j: nat :: j < n ==> events[j] == init[j];
      if FirstTerminal(init).Some? && FirstTerminal(init) != Some(o) {
        FirstTerminalIsFirst(init, FirstTerminal(init).value);
      }
    }
  }

  lemma {:induction false} NoneBefore(events: seq<Event>)
    ensures FirstTerminal(events).None? <==> forall j: nat :: j < |events| ==> Terminal(events[j]).None?
  {
    if events != [] {
      var n, init := |events| - 1, events[..|events| - 1];
      NoneBefore(init);
      assert forall j: nat :: j < n ==> events[j] == init[j];
    }
  }

  // ---------- the same in the fields of the events ----------

  predicate Replaced(s: Status) {
    s.isInvalid || s.isDropped || s.isUsurped
  }

  /** A timer, a rejected submission, or a status that is invalid, dropped, usurped or finalized. */
  predicate EndsWait(event: Event) {
    event.Timer? || event.SubmissionRejected?
    || (event.Callback? && (Replaced(event.status) || event.status.isFinalized))
  }

  ghost predicate Earliest(events: seq<Event>, i: nat) {
    i < |events| && EndsWait(events[i]) && forall j: nat :: j < i ==> !EndsWait(events[j])
  }

  /** How the promise settles, if it does, by the earliest event that ends the wait. */
  ghost predicate SettlesBy(settled: seq<Outcome>, event: Event) {
    && (settled == [Finalized] <==>
          event.Callback? && event.status.isFinalized && !event.status.failed && !Replaced(event.status))
    && (settled == [DispatchFailure] <==>
          event.Callback? && event.status.isFinalized && event.status.failed && !Replaced(event.status))
    && (settled == [RejectedOrReplaced] <==> event.Callback? && Replaced(event.status))
    && (settled == [TimedOut] <==> event.Timer?)
    && (settled == [SubmissionFailed] <==> event.SubmissionRejected?)
    && |settled| == 1
  }

  lemma TerminalInFields(event: Event)
    ensures Terminal(event).Some? <==> EndsWait(event)
    ensures Terminal(event).Some? ==> SettlesBy([Terminal(event).value], event)
  {
  }

  lemma SettledInFields(events: seq<Event>, settled: seq<Outcome>)
    requires settled == match FirstTerminal(events) case None => [] case Some(o) => [o]
    ensures settled == [] <==> forall j: nat :: j < |events| ==> !EndsWait(events[j])
    ensures forall i: nat :: Earliest(events, i) ==> SettlesBy(settled, events[i])
  {
    hide Terminal, EndsWait, SettlesBy, FirstTerminal;
    forall j: nat | j < |events|
      ensures Terminal(events[j]).Some? <==> EndsWait(events[j])
      ensures Terminal(events[j]).Some? ==> SettlesBy([Terminal(events[j]).value], events[j])
    {
      TerminalInFields(events[j]);
    }
    NoneBefore(events);
    forall i: nat | Earliest(events, i)
      ensures SettlesBy(settled, events[i])
    {
      FirstTerminalIsFirst(events, Terminal(events[i]).value);
    }
  }

  predicate SeesCallback(events: seq<Event>) {
    exists i :: 0 <= i < |events| && events[i].Callback?
  }

  predicate IsAnswer(event: Event) {
    event.Subscribed? || event.SubmissionRejected?
  }

  /** The submission promise resolves or rejects at most once. */
  ghost predicate OneAnswer(events: seq<Event>) {
    forall i, j :: 0 <= i < j < |events| ==>
      !(IsAnswer(events[i]) && IsAnswer(events[j]))
  }

  class Promise {
    var unsubscribe: bool // the subscription handle has arrived
    var done: bool
    var reported: bool
    var settled: seq<Outcome> // every resolve or reject, in order
    var reports: nat
    var unsubscribes: nat

    constructor ()
      ensures !unsubscribe && !done && !reported && settled == [] && reports == 0 && unsubscribes == 0
    {
      unsubscribe, done, reported, settled, reports, unsubscribes := false, false, false, [], 0, 0;
    }

    /** Where the promise stands after these events. */
    ghost predicate Reflects(events: seq<Event>)
      reads this
    {
      && settled == (match FirstTerminal(events) case None => [] case Some(o) => [o])
      && done == FirstTerminal(events).Some?
      && reported == SeesCallback(events) && reports == (if reported then 1 else 0)
      && unsubscribe == (Subscribed in events)
      && unsubscribes == (if done && unsubscribe then 1 else 0)
    }

    method Finish(o: Outcome)
      modifies this
      ensures old(done) ==> settled == old(settled) && unsubscribes == old(unsubscribes)
      ensures !old(done) ==>
                && settled == old(settled) + [o]
                && unsubscribes == old(unsubscribes) + (if unsubscribe then 1 else 0)
      ensures done && unsubscribe == old(unsubscribe) && reported == old(reported) && reports == old(reports)
    {
      if done { return; }
      done := true;
      if unsubscribe {
        unsubscribes := unsubscribes + 1;
      }
      settled := settled + [o];
    }

    method OnCallback(s: Status)
      modifies this
      ensures reported && reports == old(reports) + (if old(reported) then 0 else 1)
      ensures unsubscribe == old(unsubscribe)
      ensures old(done) || Terminal(Callback(s)).None? ==>
        done == old(done) && settled == old(settled) && unsubscribes == old(unsubscribes)
      ensures !old(done) && Terminal(Callback(s)).Some? ==>
        && done && settled == old(settled) + [Terminal(Callback(s)).value]
        && unsubscribes == old(unsubscribes) + (if unsubscribe then 1 else 0)
      ensures !EndsWait(Callback(s)) ==> settled == old(settled)
      ensures !old(done) && old(settled) == [] && EndsWait(Callback(s)) ==> SettlesBy(settled, Callback(s))
    {
      TerminalInFields(Callback(s));
      if !reported {
        reported := true;
        reports := reports + 1;
      }
      if s.isInvalid || s.isDropped || s.isUsurped {
        Finish(RejectedOrReplaced);
        return;
      }
      if !s.isFinalized { return; }
      if s.failed {
        Finish(DispatchFailure);
        return;
      }
      Finish(Finalized);
    }

    method OnSubscribed()
      modifies this
      ensures unsubscribe && unsubscribes == old(unsubscribes) + (if done then 1 else 0)
      ensures done == old(done) && settled == old(settled) && reported == old(reported) && reports == old(reports)
    {
      unsubscribe := true;
      if done {
        unsubscribes := unsubscribes + 1;
      }
    }

    method Handle(ghost seen: seq<Event>, event: Event)
      requires Reflects(seen) && OneAnswer(seen + [event])
      modifies this
      ensures Reflects(seen + [event])
    {
      EventSnoc(seen, event);
      match event
      case Callback(s) => OnCallback(s);
      case Timer => Finish(TimedOut);
      case Subscribed => OnSubscribed();
      case SubmissionRejected => Finish(SubmissionFailed);
    }
  }

  lemma EventSnoc(seen: seq<Event>, event: Event)
    ensures FirstTerminal(seen + [event])
         == if FirstTerminal(seen).Some? then FirstTerminal(seen) else Terminal(event)
    ensures SeesCallback(seen + [event]) <==> SeesCallback(seen) || event.Callback?
    ensures Subscribed in seen + [event] <==> Subscribed in seen || event == Subscribed
    ensures OneAnswer(seen + [event]) && event == Subscribed ==> Subscribed !in seen
  {
    FirstTerminalSnoc(seen, event);
    hide FirstTerminal, Terminal;
    var all := seen + [event];
    assert all[|seen|] == event;
    assert forall i :: 0 <= i < |seen| ==> all[i] == seen[i];
  }

  lemma FirstTerminalSnoc(seen: seq<Event>, event: Event)
    ensures FirstTerminal(seen + [event])
         == if FirstTerminal(seen).Some? then FirstTerminal(seen) else Terminal(event)
  {
    assert (seen + [event])[..|seen|] == seen;
  }

  /** Whatever the interleaving, the promise settles once, as its first terminal event says; it reports submission
      at most once, and unsubscribes exactly once if it has both settled and got its subscription. */
  method Drive(events: seq<Event>) returns (p: Promise)
    requires OneAnswer(events)
    ensures fresh(p)
    ensures p.settled == (match FirstTerminal(events) case None => [] case Some(o) => [o])
    ensures p.settled == [] <==> forall j: nat :: j < |events| ==> !EndsWait(events[j])
    ensures forall i: nat :: Earliest(events, i) ==> SettlesBy(p.settled, events[i])
    ensures p.reports == (if SeesCallback(events) then 1 else 0)
    ensures p.unsubscribes == (if FirstTerminal(events).Some? && Subscribed in events then 1 else 0)
  {
    p := new Promise();
    for k := 0 to |events|
      invariant fresh(p) && p.Reflects(events[..k])
    {
      assert events[..k + 1] == events[..k] + [events[k]];
      assert OneAnswer(events[..k + 1]);
      p.Handle(events[..k], events[k]);
    }
    assert events[..|events|] == events;
    SettledInFields(events, p.settled);
  }
}
