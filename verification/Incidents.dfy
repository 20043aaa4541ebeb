/** Monthly incident analytics of the report (`analyzeMonthEvents`): from
    the events of one trigger in one month it counts problems, pairs each
    problem with its resolving event to sample the resolution time in hours,
    counts acknowledged problems, and enriches every acknowledgment with the
    acting user's display name and a normalised message. The user directory
    is the parameter `lookup`; rounding to two decimals is not modelled. */
module Incidents {
  import opened Seqs
  import opened Text

  /** Zabbix `TRIGGER_VALUE_TRUE`: the event value of a problem event. */
  const TriggerValueTrue := 1
  const SecondsPerHour := 3600
  /** Display name used when the user lookup finds nobody. */
  const SystemUser := "System"
  /** Message shown for an acknowledgment without a comment. */
  const NoComment := "[No comment] Event acknowledged"

  datatype Ack = Ack(clock: int, userId: int, message: string)

  datatype Event = Event(eventId: int, clock: int, rEventId: int, value: int, acknowledges: seq<Ack>)

  datatype User = User(alias: string, name: string, surname: string)

  /** Outcome of the user directory query for one acknowledgment: it either
      throws or returns the (possibly empty) list of matching users. */
  datatype LookupResult = Throws | Users(users: seq<User>)

  datatype EnrichedAck = EnrichedAck(eventTime: int, ackTime: int, username: string, message: string, hasMessage: bool)

  datatype MonthlyStats = MonthlyStats(
    totalProblems: nat,
    avgResolutionTime: real,
    ackEvents: nat,
    ackPercentage: real,
    acks: seq<EnrichedAck>)

  datatype Option<T> = None | Some(value: T)

  predicate IsProblem(e: Event)
  {
    e.value == TriggerValueTrue
  }

  predicate IsAcknowledged(e: Event)
  {
    |e.acknowledges| > 0
  }

  /** The problem events, in list order. */
  function Problems(events: seq<Event>): (problems: seq<Event>)
    ensures |problems| == |IndicesWhere(events, IsProblem)|
    ensures forall i :: 0 <= i < |problems| ==> IsProblem(problems[i]) && problems[i] in events
    ensures forall i :: 0 <= i < |events| && IsProblem(events[i]) ==> events[i] in problems
  {
    FilterCountsIndices(events, IsProblem);
    FilterMembers(events, IsProblem);
    Filter(events, IsProblem)
  }

  /** `events[j]` is the first event in list order whose id is `id`. */
  predicate FirstWithId(events: seq<Event>, id: int, j: int)
  {
    0 <= j < |events| && events[j].eventId == id && forall k :: 0 <= k < j ==> events[k].eventId != id
  }

  /** Linear scan for the first event with the given id (the inner `foreach ... break`). */
  function FindEvent(events: seq<Event>, id: int): (r: Option<nat>)
    ensures r.Some? ==> FirstWithId(events, id, r.value)
    ensures r.None? ==> forall j :: 0 <= j < |events| ==> events[j].eventId != id
  {
    if |events| == 0 then None
    else if events[0].eventId == id then Some(0)
    else match FindEvent(events[1..], id)
      case None => None
      case Some(k) => Some(k + 1)
  }

  /** Hours between a problem and the event that resolved it. */
  function Latency(problem: Event, resolution: Event): (hours: real)
    ensures hours * 3600.0 == (resolution.clock - problem.clock) as real
    ensures problem.clock <= resolution.clock ==> 0.0 <= hours
  {
    (resolution.clock - problem.clock) as real / SecondsPerHour as real
  }

  /** The resolution-time sample of one problem, if its resolving event is in the list. */
  function ResolutionTime(problem: Event, events: seq<Event>): (r: Option<real>)
    ensures r.None? <==> forall j :: 0 <= j < |events| ==> events[j].eventId != problem.rEventId
    ensures r.Some? ==> exists j :: FirstWithId(events, problem.rEventId, j) && r.value == Latency(problem, events[j])
  {
    match FindEvent(events, problem.rEventId)
    case None => None
    case Some(j) => Some(Latency(problem, events[j]))
  }

  /** `t` is the sample of some problem, taken from that problem's first matching event. */
  ghost predicate IsSampleOf(t: real, problems: seq<Event>, events: seq<Event>)
  {
    exists i, j :: 0 <= i < |problems| && FirstWithId(events, problems[i].rEventId, j)
                   && t == Latency(problems[i], events[j])
  }

  /** The resolution times of all problems that have a resolving event, in problem order. */
  function ResolutionTimes(problems: seq<Event>, events: seq<Event>): (r: seq<real>)
    ensures |r| <= |problems|
    ensures forall k :: 0 <= k < |r| ==> IsSampleOf(r[k], problems, events)
    ensures (forall i :: 0 <= i < |problems| ==> ResolutionTime(problems[i], events).Some?) ==> |r| == |problems|
    ensures (forall i :: 0 <= i < |problems| ==> ResolutionTime(problems[i], events).None?) ==> r == []
  {
    if |problems| == 0 then []
    else
      var rest := ResolutionTimes(problems[1..], events);
      var first := match ResolutionTime(problems[0], events) case None => [] case Some(t) => [t];
      TailSamples(rest, problems, events);
      first + rest
  }

  /** A sample of the later problems is a sample of the whole list. */
  lemma TailSamples(rest: seq<real>, problems: seq<Event>, events: seq<Event>)
    requires |problems| > 0
    requires forall k :: 0 <= k < |rest| ==> IsSampleOf(rest[k], problems[1..], events)
    ensures forall k :: 0 <= k < |rest| ==> IsSampleOf(rest[k], problems, events)
  {
    forall k | 0 <= k < |rest| ensures IsSampleOf(rest[k], problems, events) {
      var i, j :| 0 <= i < |problems[1..]| && FirstWithId(events, problems[1..][i].rEventId, j)
                  && rest[k] == Latency(problems[1..][i], events[j]);
      assert problems[1..][i] == problems[i + 1];
    }
  }

  /** Arithmetic mean; 0 for no samples. */
  function Mean(samples: seq<real>): (avg: real)
    ensures |samples| == 0 ==> avg == 0.0
    ensures |samples| > 0 ==> avg * |samples| as real == Sum(samples)
  {
    if |samples| > 0 then Sum(samples) / |samples| as real else 0.0
  }

  /** The mean of samples all at least `lo` is at least `lo`. */
  lemma MeanAtLeast(samples: seq<real>, lo: real)
    requires |samples| > 0
    requires forall i :: 0 <= i < |samples| ==> lo <= samples[i]
    ensures lo <= Mean(samples)
  {
    SumAtLeast(samples, lo);
    var n := |samples| as real;
    assert Mean(samples) * n >= lo * n;
  }

  /** The mean of samples all at most `hi` is at most `hi`. */
  lemma MeanAtMost(samples: seq<real>, hi: real)
    requires |samples| > 0
    requires forall i :: 0 <= i < |samples| ==> samples[i] <= hi
    ensures Mean(samples) <= hi
  {
    SumAtMost(samples, hi);
    var n := |samples| as real;
    assert Mean(samples) * n <= hi * n;
  }

  /** `part` as a percentage of `whole`; 0 when `whole` is 0. */
  function Percentage(part: nat, whole: nat): (pct: real)
    ensures whole == 0 ==> pct == 0.0
    ensures whole > 0 ==> pct * whole as real == 100.0 * part as real
    ensures part <= whole ==> 0.0 <= pct <= 100.0
  {
    if whole > 0 then
      RatioAtMostOne(part, whole);
      part as real / whole as real * 100.0
    else 0.0
  }

  lemma RatioAtMostOne(part: nat, whole: nat)
    requires 0 < whole
    ensures 0.0 <= part as real / whole as real
    ensures part <= whole ==> part as real / whole as real <= 1.0
  {
  }

  /** Display name policy: nobody found gives "System"; a user whose name or
      surname is non-empty in PHP's sense gives the trimmed "name surname";
      otherwise the alias. */
  function DisplayName(users: seq<User>): (display: string)
    ensures |users| == 0 ==> display == SystemUser
    ensures |users| > 0 && (!PhpEmpty(users[0].name) || !PhpEmpty(users[0].surname)) ==>
      && (exists start :: Trimmed(users[0].name + " " + users[0].surname, display, start, IsPhpTrimChar))
      && (|display| == 0 || (!IsPhpTrimChar(display[0]) && !IsPhpTrimChar(display[|display| - 1])))
    ensures |users| > 0 && PhpEmpty(users[0].name) && PhpEmpty(users[0].surname) ==> display == users[0].alias
  {
    if |users| == 0 then SystemUser
    else
      var user := users[0];
      if !PhpEmpty(user.name) || !PhpEmpty(user.surname) then PhpTrim(user.name + " " + user.surname)
      else user.alias
  }

  /** Whether an acknowledgment carries a comment: it is neither "0" (empty
      for PHP) nor made only of characters PHP's `trim` removes. */
  function HasMessage(message: string): (has: bool)
    ensures has <==> message != "0" && exists k :: 0 <= k < |message| && !IsPhpTrimChar(message[k])
  {
    TrimByEmpty(message, IsPhpTrimChar);
    !PhpEmpty(message) && PhpTrim(message) != ""
  }

  /** The enriched record of one acknowledgment of `problem`, or nothing when the lookup throws. */
  function EnrichAck(problem: Event, ack: Ack, lookup: int -> LookupResult): (r: Option<EnrichedAck>)
    ensures r.None? <==> lookup(ack.userId).Throws?
    ensures r.Some? ==>
      && r.value.eventTime == problem.clock
      && r.value.ackTime == ack.clock
      && r.value.username == DisplayName(lookup(ack.userId).users)
      && r.value.hasMessage == HasMessage(ack.message)
      && r.value.message == (if r.value.hasMessage then ack.message else NoComment)
  {
    match lookup(ack.userId)
    case Throws => None
    case Users(users) =>
      var has := HasMessage(ack.message);
      Some(EnrichedAck(problem.clock, ack.clock, DisplayName(users), if has then ack.message else NoComment, has))
  }

  /** The enriched records of a list of acknowledgments of `problem`, in order,
      skipping those whose lookup throws. */
  function EnrichAcks(problem: Event, acks: seq<Ack>, lookup: int -> LookupResult): (r: seq<EnrichedAck>)
    ensures |r| <= |acks|
    ensures (forall i :: 0 <= i < |acks| ==> lookup(acks[i].userId).Users?) ==> |r| == |acks|
    ensures (forall i :: 0 <= i < |acks| ==> lookup(acks[i].userId).Throws?) ==> r == []
    ensures forall k :: 0 <= k < |r| ==> r[k].eventTime == problem.clock
  {
    if |acks| == 0 then []
    else
      AckRecord(problem, acks[0], lookup) + EnrichAcks(problem, acks[1..], lookup)
  }

  /** The records contributed by one acknowledgment: none or one. */
  function AckRecord(problem: Event, ack: Ack, lookup: int -> LookupResult): (r: seq<EnrichedAck>)
    ensures lookup(ack.userId).Throws? ==> r == []
    ensures lookup(ack.userId).Users? ==> r == [EnrichAck(problem, ack, lookup).value]
  {
    match EnrichAck(problem, ack, lookup)
    case None => []
    case Some(e) => [e]
  }

  /** Total number of acknowledgments attached to the given events. */
  function TotalAcks(events: seq<Event>): nat
  {
    if |events| == 0 then 0 else |events[0].acknowledges| + TotalAcks(events[1..])
  }

  /** The enriched acknowledgment records of all problems: problem order, then acknowledgment order. */
  function AckRecords(problems: seq<Event>, lookup: int -> LookupResult): (r: seq<EnrichedAck>)
    ensures |r| <= TotalAcks(problems)
    ensures forall k :: 0 <= k < |r| ==> exists i :: 0 <= i < |problems| && r[k].eventTime == problems[i].clock
  {
    if |problems| == 0 then []
    else
      var p := problems[0];
      var rest := AckRecords(problems[1..], lookup);
      assert forall k :: 0 <= k < |rest| ==> exists i :: 0 <= i < |problems| && rest[k].eventTime == problems[i].clock by {
        forall k | 0 <= k < |rest| ensures exists i :: 0 <= i < |problems| && rest[k].eventTime == problems[i].clock {
          var i :| 0 <= i < |problems[1..]| && rest[k].eventTime == problems[1..][i].clock;
          assert problems[1..][i] == problems[i + 1];
        }
      }
      (if IsAcknowledged(p) then EnrichAcks(p, p.acknowledges, lookup) else []) + rest
  }

  /** `analyzeMonthEvents`: the statistics of one month's events. */
  function AnalyzeMonthEvents(events: seq<Event>, lookup: int -> LookupResult): (stats: MonthlyStats)
    ensures stats.totalProblems == |IndicesWhere(events, IsProblem)|
    ensures stats.ackEvents == |IndicesWhere(Problems(events), IsAcknowledged)|
    ensures stats.ackEvents <= stats.totalProblems
    ensures 0.0 <= stats.ackPercentage <= 100.0
    ensures stats.totalProblems == 0 ==> stats.ackPercentage == 0.0 && stats.avgResolutionTime == 0.0 && stats.acks == []
    ensures |stats.acks| <= TotalAcks(Problems(events))
    ensures (forall p :: p in Problems(events) ==> ResolutionTime(p, events).None?) ==> stats.avgResolutionTime == 0.0
    ensures stats.avgResolutionTime == Mean(ResolutionTimes(Problems(events), events))
    ensures stats.ackPercentage == Percentage(stats.ackEvents, stats.totalProblems)
    ensures stats.acks == AckRecords(Problems(events), lookup)
  {
    var problems := Problems(events);
    var times := ResolutionTimes(problems, events);
    var ackEvents := |Filter(problems, IsAcknowledged)|;
    FilterCountsIndices(events, IsProblem);
    FilterCountsIndices(problems, IsAcknowledged);
    MonthlyStats(|problems|, Mean(times), ackEvents, Percentage(ackEvents, |problems|), AckRecords(problems, lookup))
  }
}
