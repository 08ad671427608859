/** Summarizing one candidate's samples: least delay, median offset, and what the median is worth. */
module SourceSummary {
  import opened Bytes
  import opened NtpProbe
  import opened Results

  const MIN_GOOD_SAMPLES: int := 2
  const LEAP_ALARM: int := 3

  datatype Reason = TooFewReplies | NotStratumOne | AskedToBackOff

  /** `reason` is `None` exactly for an eligible candidate; delay and offset need enough usable samples. */
  datatype Summary = Summary(reason: Option<Reason>, minDelay: Option<real>, offset: Option<real>)

  function Good(samples: seq<Reading>): seq<Reading> {
    if samples == [] then []
    else (if samples[0].leap != LEAP_ALARM then [samples[0]] else []) + Good(samples[1..])
  }

  function Insert(x: real, s: seq<real>): seq<real> {
    if s == [] || x <= s[0] then [x] + s else [s[0]] + Insert(x, s[1..])
  }

  function Sort(s: seq<real>): seq<real> {
    if s == [] then [] else Insert(s[0], Sort(s[1..]))
  }

  ghost predicate Ascending(s: seq<real>) {
    forall i, j :: 0 <= i < j < |s| ==> s[i] <= s[j]
  }

  lemma {:induction false} InsertPermutes(x: real, s: seq<real>)
    ensures multiset(Insert(x, s)) == multiset(s) + multiset{x}
    ensures |Insert(x, s)| == |s| + 1
    ensures forall y :: y in Insert(x, s) <==> y == x || y in s
  {
    if s != [] && x > s[0] {
      InsertPermutes(x, s[1..]);
      assert s == [s[0]] + s[1..];
    }
  }

  lemma {:induction false} InsertSorts(x: real, s: seq<real>)
    requires Ascending(s)
    ensures Ascending(Insert(x, s))
  {
    if s != [] && x > s[0] {
      var rest := Insert(x, s[1..]);
      InsertSorts(x, s[1..]);
      InsertPermutes(x, s[1..]);
      forall i | 0 <= i < |rest|
        ensures s[0] <= rest[i]
      {
        assert rest[i] in rest;
      }
    }
  }

  lemma {:induction false} SortSorts(s: seq<real>)
    ensures Ascending(Sort(s)) && multiset(Sort(s)) == multiset(s) && |Sort(s)| == |s|
  {
    if s != [] {
      SortSorts(s[1..]);
      InsertSorts(s[0], Sort(s[1..]));
      InsertPermutes(s[0], Sort(s[1..]));
      HeadAndRest(s);
      hide Ascending, Insert;
    }
  }

  lemma HeadAndRest(s: seq<real>)
    requires s != []
    ensures multiset(s) == multiset{s[0]} + multiset(s[1..])
  {
    assert s == [s[0]] + s[1..];
  }

  /** `statistics.median`: the middle of the sorted values, or the mean of the two middle ones. */
  function Median(s: seq<real>): real
    requires s != []
  {
    SortSorts(s);
    var sorted, n := Sort(s), |s|;
    if n % 2 == 1 then sorted[n / 2] else (sorted[n / 2 - 1] + sorted[n / 2]) / 2.0
  }

  /** The median is between any two bounds that hold of every value. */
  lemma MedianWithin(s: seq<real>, lo: real, hi: real)
    requires s != [] && forall i :: 0 <= i < |s| ==> lo <= s[i] <= hi
    ensures lo <= Median(s) <= hi
  {
    SortSorts(s);
    forall i | 0 <= i < |s|
      ensures lo <= Sort(s)[i] <= hi
    {
      assert Sort(s)[i] in multiset(s);
      assert Sort(s)[i] in s;
    }
  }

  function AtMost(s: seq<real>, x: real): nat {
    if s == [] then 0 else (if s[0] <= x then 1 else 0) + AtMost(s[1..], x)
  }

  function AtLeast(s: seq<real>, x: real): nat {
    if s == [] then 0 else (if s[0] >= x then 1 else 0) + AtLeast(s[1..], x)
  }

  lemma {:induction false} InsertCounts(y: real, s: seq<real>, x: real)
    ensures AtMost(Insert(y, s), x) == (if y <= x then 1 else 0) + AtMost(s, x)
    ensures AtLeast(Insert(y, s), x) == (if y >= x then 1 else 0) + AtLeast(s, x)
  {
    if s == [] || y <= s[0] {
      assert Insert(y, s) == [y] + s && ([y] + s)[1..] == s;
    } else {
      InsertCounts(y, s[1..], x);
      assert ([s[0]] + Insert(y, s[1..]))[1..] == Insert(y, s[1..]);
    }
  }

  lemma {:induction false} SortCounts(s: seq<real>, x: real)
    ensures AtMost(Sort(s), x) == AtMost(s, x) && AtLeast(Sort(s), x) == AtLeast(s, x)
  {
    if s != [] {
      SortCounts(s[1..], x);
      InsertCounts(s[0], Sort(s[1..]), x);
      hide Insert;
    }
  }

  lemma {:induction false} SortedCounts(s: seq<real>, k: nat)
    requires Ascending(s) && k < |s|
    ensures AtMost(s, s[k]) >= k + 1 && AtLeast(s, s[k]) >= |s| - k
  {
    if k > 0 {
      SortedCounts(s[1..], k - 1);
      assert s[1..][k - 1] == s[k];
    } else {
      AllAtLeast(s, s[0]);
    }
  }

  lemma {:induction false} AllAtLeast(s: seq<real>, x: real)
    requires forall i :: 0 <= i < |s| ==> s[i] >= x
    ensures AtLeast(s, x) == |s|
  {
    if s != [] {
      AllAtLeast(s[1..], x);
    }
  }

  /** The median is the mean of the two middle values, which these counts leave no choice of: at least half of all
      values are at most `lo` and more than half at least that; at least half are at least `hi` and more than half at
      most that. For an odd number they are one. */
  lemma MedianInTheMiddle(s: seq<real>) returns (lo: real, hi: real)
    requires s != []
    ensures lo in s && hi in s && lo <= hi && Median(s) == (lo + hi) / 2.0 && (|s| % 2 == 1 ==> lo == hi)
    ensures 2 * AtMost(s, lo) >= |s| && 2 * AtLeast(s, lo) > |s|
    ensures 2 * AtLeast(s, hi) >= |s| && 2 * AtMost(s, hi) > |s|
  {
    SortSorts(s);
    MiddleOf(s);
    var sorted, n := Sort(s), |s|;
    lo, hi := sorted[(n - 1) / 2], sorted[n / 2];
    SortedCounts(sorted, (n - 1) / 2);
    SortedCounts(sorted, n / 2);
    SortCounts(s, lo);
    SortCounts(s, hi);
    InSorted(s, (n - 1) / 2);
    InSorted(s, n / 2);
    hide Sort, AtMost, AtLeast, Median;
  }

  lemma MiddleOf(s: seq<real>)
    requires s != [] && |Sort(s)| == |s|
    ensures Median(s) == (Sort(s)[(|s| - 1) / 2] + Sort(s)[|s| / 2]) / 2.0
  {
    hide Sort;
  }

  lemma InSorted(s: seq<real>, k: nat)
    requires |Sort(s)| == |s| && k < |s|
    ensures Sort(s)[k] in s
  {
    SortSorts(s);
    hide Sort;
    assert Sort(s)[k] in multiset(Sort(s));
  }

  function Delays(s: seq<Reading>): seq<real> {
    seq(|s|, i requires 0 <= i < |s| => s[i].delay)
  }

  function Offsets(s: seq<Reading>): seq<real> {
    seq(|s|, i requires 0 <= i < |s| => s[i].offset)
  }

  function Least(s: seq<real>): (m: real)
    requires s != []
    ensures m in s && forall i :: 0 <= i < |s| ==> m <= s[i]
  {
    if |s| == 1 then s[0] else
      var m := Least(s[..|s| - 1]);
      if s[|s| - 1] < m then s[|s| - 1] else m
  }

  /** `summarize`, before rounding; `backOff` tells whether some error was a kiss-o'-death. */
  function Summarize(samples: seq<Reading>, backOff: bool): Summary {
    var good := Good(samples);
    if |good| < MIN_GOOD_SAMPLES then Summary(Some(TooFewReplies), None, None)
    else
      var delay, offset := Least(Delays(good)), Median(Offsets(good));
      var reason :=
        if exists i :: 0 <= i < |good| && good[i].stratum != 1 then Some(NotStratumOne)
        else if backOff then Some(AskedToBackOff)
        else None;
      Summary(reason, Some(delay), Some(offset))
  }

  /** One query and its reply: the packet, and what it really took to get there and back. */
  datatype Exchange = Exchange(data: seq<byte>, origin: nat, t1: real, t4: real, out: real, back: real)

  /** The server, ahead by `theta`, stamps the packet when it arrives and when it leaves. */
  ghost predicate Timed(e: Exchange, theta: real) {
    && |e.data| >= PACKET_SIZE && e.out >= 0.0 && e.back >= 0.0
    && FromNtp(FromBigEndian(e.data[32..40])) == e.t1 + e.out + theta
    && FromNtp(FromBigEndian(e.data[40..48])) == e.t4 - e.back + theta
  }

  function Reply(e: Exchange): Result<Reading, Rejection> {
    ParseReply(e.data, e.origin, e.t1, e.t4)
  }

  predicate Usable(reply: Result<Reading, Rejection>) {
    reply.Ok? && reply.value.leap != LEAP_ALARM
  }

  /** Whatever was queried and however many replies came, the reported offset is off by at most half the longest round
      trip among the usable replies, as long as the servers behind those keep one time; the others may say anything. */
  lemma SummaryOffsetBound(queries: seq<Query>, exchanges: seq<Exchange>, backOff: bool, theta: real, longest: real)
    requires |queries| == |exchanges|
    requires forall k :: 0 <= k < |queries| && queries[k].Answered? ==> queries[k].reply == Reply(exchanges[k])
    requires forall k :: 0 <= k < |queries| && queries[k].Answered? && Usable(queries[k].reply) ==>
      Timed(exchanges[k], theta) && exchanges[k].out + exchanges[k].back <= longest
    ensures var s := Summarize(Readings(queries), backOff);
      && (s.offset.Some? <==> s.minDelay.Some?)
      && (s.offset.Some? ==>
            -(longest / 2.0) <= s.offset.value - theta <= longest / 2.0 && 0.0 <= s.minDelay.value <= longest)
  {
    var samples := Readings(queries);
    var good := Good(samples);
    GoodFromSamples(samples);
    forall r | r in good
      ensures 0.0 <= r.delay <= longest && theta - longest / 2.0 <= r.offset <= theta + longest / 2.0
    {
      var k := ReadingFrom(queries, r);
      var e := exchanges[k];
      OffsetErrorBound(e.data, e.origin, e.t1, e.t4, theta, e.out, e.back);
    }
    if |good| >= MIN_GOOD_SAMPLES {
      var offsets, delays := Offsets(good), Delays(good);
      assert forall i :: 0 <= i < |good| ==> good[i] in good;
      MedianWithin(offsets, theta - longest / 2.0, theta + longest / 2.0);
      assert forall i :: 0 <= i < |delays| ==> 0.0 <= delays[i] <= longest;
      assert Least(delays) in delays;
    }
  }

  lemma {:induction false} ReadingFrom(queries: seq<Query>, r: Reading) returns (k: nat)
    requires r in Readings(queries)
    ensures k < |queries| && queries[k] == Answered(Ok(r))
  {
    var last := queries[|queries| - 1];
    if last == Answered(Ok(r)) {
      k := |queries| - 1;
    } else {
      k := ReadingFrom(queries[..|queries| - 1], r);
    }
  }

  lemma {:induction false} GoodFromSamples(samples: seq<Reading>)
    ensures forall r :: r in Good(samples) <==> r in samples && r.leap != LEAP_ALARM
  {
    if samples != [] {
      GoodFromSamples(samples[1..]);
      assert samples == [samples[0]] + samples[1..];
    }
  }

  /** What is reported of the usable replies: the least of their delays and the median of their offsets. */
  lemma SummaryValues(samples: seq<Reading>, backOff: bool)
    requires Summarize(samples, backOff).offset.Some?
    ensures var good, s := Good(samples), Summarize(samples, backOff);
      && good != [] && s.minDelay.Some? && s.offset.value == Median(Offsets(good))
      && (exists r :: r in samples && r.leap != LEAP_ALARM && r.delay == s.minDelay.value)
      && (forall r :: r in samples && r.leap != LEAP_ALARM ==> s.minDelay.value <= r.delay)
  {
    GoodFromSamples(samples);
    var good := Good(samples);
    var m := Least(Delays(good));
    hide Median, Good;
    var i :| 0 <= i < |Delays(good)| && Delays(good)[i] == m;
    assert good[i] in good && good[i].delay == m;
    forall r | r in good
      ensures m <= r.delay
    {
      var k :| 0 <= k < |good| && good[k] == r;
      assert Delays(good)[k] == r.delay;
    }
  }

  /** Eligible exactly with two usable replies, all of stratum 1, and no request to back off. */
  lemma EligibleIff(samples: seq<Reading>, backOff: bool)
    ensures Summarize(samples, backOff).reason.None? <==>
      && |Good(samples)| >= MIN_GOOD_SAMPLES && !backOff
      && forall r :: r in samples && r.leap != LEAP_ALARM ==> r.stratum == 1
    ensures Summarize(samples, backOff).reason.None? ==> Summarize(samples, backOff).minDelay.Some?
  {
    GoodFromSamples(samples);
    var good := Good(samples);
    assert forall i :: 0 <= i < |good| ==> good[i] in good;
    hide Median, Good;
    if |good| >= MIN_GOOD_SAMPLES && exists i :: 0 <= i < |good| && good[i].stratum != 1 {
      var i :| 0 <= i < |good| && good[i].stratum != 1;
      assert good[i] in samples;
    }
  }

  // ---------- sampling one candidate ----------

  /** What one query came to: a parsed reply or its rejection, or no answer at all. */
  datatype Query = Answered(reply: Result<Reading, Rejection>) | NoReply

  datatype SampleError = NotResolved | Refused(rejection: Rejection) | Silent

  datatype Measured = Measured(samples: seq<Reading>, errors: seq<SampleError>, queries: nat, pauses: nat)

  /** A rejection that asks the client to stop. */
  predicate StopsSampling(q: Query) {
    q.Answered? && q.reply.Err? && q.reply.error.KissOfDeath? && q.reply.error.stop
  }

  /** The first `n` answers, in order. */
  function Heard(network: nat -> Query, n: nat): (s: seq<Query>)
    ensures |s| == n
  {
    if n == 0 then [] else Heard(network, n - 1) + [network(n - 1)]
  }

  function Readings(queries: seq<Query>): seq<Reading> {
    if queries == [] then []
    else
      var last := queries[|queries| - 1];
      Readings(queries[..|queries| - 1])
      + (if last.Answered? && last.reply.Ok? then [last.reply.value] else [])
  }

  function Errors(queries: seq<Query>): seq<SampleError> {
    if queries == [] then []
    else
      var last := queries[|queries| - 1];
      Errors(queries[..|queries| - 1])
      + (match last
         case NoReply => [Silent]
         case Answered(Ok(_)) => []
         case Answered(Err(rejection)) => [Refused(rejection)])
  }

  lemma OnlyRejectionsStop(q: Query)
    ensures StopsSampling(q) ==> q.Answered? && q.reply.Err?
  {
  }

  lemma NothingHeard(network: nat -> Query)
    ensures Readings(Heard(network, 0)) == [] && Errors(Heard(network, 0)) == []
  {
  }

  lemma HeardNext(network: nat -> Query, n: nat)
    ensures var queries, query := Heard(network, n), network(n);
      && Readings(Heard(network, n + 1))
         == Readings(queries) + (if query.Answered? && query.reply.Ok? then [query.reply.value] else [])
      && Errors(Heard(network, n + 1))
         == Errors(queries) + (match query
                               case NoReply => [Silent]
                               case Answered(Ok(_)) => []
                               case Answered(Err(rejection)) => [Refused(rejection)])
  {
    assert Heard(network, n + 1)[..n] == Heard(network, n);
  }

  /** `measure_candidate`: at most `samples` queries, with a pause between any two, and none after a server has asked to
      be left alone. */
  method MeasureCandidate(resolved: bool, network: nat -> Query, samples: nat) returns (m: Measured)
    ensures !resolved ==> m == Measured([], [NotResolved], 0, 0)
    ensures resolved ==>
      && m.queries <= samples && m.pauses == (if m.queries == 0 then 0 else m.queries - 1)
      && m.samples == Readings(Heard(network, m.queries)) && m.errors == Errors(Heard(network, m.queries))
      && (forall k: nat :: k + 1 < m.queries ==> !StopsSampling(network(k)))
      && (m.queries < samples ==> m.queries > 0 && StopsSampling(network(m.queries - 1)))
  {
    if !resolved { return Measured([], [NotResolved], 0, 0); }
    NothingHeard(network);
    hide Heard, Readings, Errors, StopsSampling;
    var readings: seq<Reading>, errors: seq<SampleError> := [], [];
    var pauses := 0;
    for index := 0 to samples
      invariant readings == Readings(Heard(network, index)) && errors == Errors(Heard(network, index))
      invariant forall k: nat :: k < index ==> !StopsSampling(network(k))
      invariant pauses == if index == 0 then 0 else index - 1
    {
      if index > 0 { pauses := pauses + 1; }
      var query := network(index);
      HeardNext(network, index);
      OnlyRejectionsStop(query);
      match query {
        case NoReply =>
          errors := errors + [Silent];
        case Answered(Ok(reading)) =>
          readings := readings + [reading];
        case Answered(Err(rejection)) =>
          errors := errors + [Refused(rejection)];
          if StopsSampling(query) {
            return Measured(readings, errors, index + 1, pauses);
          }
      }
    }
    m := Measured(readings, errors, samples, pauses);
  }

  predicate BackOffAsked(errors: seq<SampleError>) {
    exists i :: 0 <= i < |errors| && errors[i].Refused? && errors[i].rejection.KissOfDeath?
  }

  lemma {:induction false} ErrorsRecordRejections(queries: seq<Query>, k: nat)
    requires k < |queries| && queries[k].Answered? && queries[k].reply.Err?
    ensures Refused(queries[k].reply.error) in Errors(queries)
  {
    if k < |queries| - 1 {
      ErrorsRecordRejections(queries[..|queries| - 1], k);
    }
  }

  /** Every query leaves one reading or one error, and silence is recorded exactly if there was some. */
  lemma {:induction false} EveryQueryRecorded(queries: seq<Query>)
    ensures |Readings(queries)| + |Errors(queries)| == |queries|
    ensures Silent in Errors(queries) <==> NoReply in queries
    ensures forall r :: Answered(Ok(r)) in queries <==> r in Readings(queries)
    ensures forall e :: Answered(Err(e)) in queries <==> Refused(e) in Errors(queries)
  {
    if queries != [] {
      var init, last := queries[..|queries| - 1], queries[|queries| - 1];
      EveryQueryRecorded(init);
      assert queries == init + [last];
    }
  }

  /** A candidate that answered any query with a kiss-o'-death is never eligible, however good its other replies. */
  lemma KissOfDeathNeverEligible(queries: seq<Query>, k: nat)
    requires k < |queries| && queries[k].Answered? && queries[k].reply.Err? && queries[k].reply.error.KissOfDeath?
    ensures Summarize(Readings(queries), BackOffAsked(Errors(queries))).reason.Some?
  {
    ErrorsRecordRejections(queries, k);
    var errors, e := Errors(queries), Refused(queries[k].reply.error);
    var i :| 0 <= i < |errors| && errors[i] == e;
    EligibleIff(Readings(queries), BackOffAsked(errors));
  }
}
