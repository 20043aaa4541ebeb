/** Properties of the monthly incident analytics that relate several calls:
    what the counts do not depend on, how the records split over a
    concatenation, the sign of the average, and the behaviour on the two
    worked scenarios of the report. */
module IncidentProperties {
  import opened Seqs
  import opened Text
  import opened Incidents

  /** Non-problem events (resolutions, anything with another value) never
      change the problem count, wherever they are inserted. */
  lemma {:induction false} TotalProblemsIgnoresOtherEvents(
    before: seq<Event>, extra: seq<Event>, after: seq<Event>, lookup: int -> LookupResult)
    requires forall i :: 0 <= i < |extra| ==> !IsProblem(extra[i])
    ensures AnalyzeMonthEvents(before + extra + after, lookup).totalProblems
         == AnalyzeMonthEvents(before + after, lookup).totalProblems
  {
    FilterAppend(before + extra, after, IsProblem);
    FilterAppend(before, extra, IsProblem);
    FilterAppend(before, after, IsProblem);
    NoneKept(extra, IsProblem);
  }

  /** The user lookup affects only the acknowledgment records: the problem
      count, the average resolution time, the acknowledged-problem count and
      its percentage are the same whatever the lookup answers, even if it
      always throws. */
  lemma LookupOnlyAffectsRecords(events: seq<Event>, lookup1: int -> LookupResult, lookup2: int -> LookupResult)
    ensures var s1 := AnalyzeMonthEvents(events, lookup1);
      var s2 := AnalyzeMonthEvents(events, lookup2);
      && s1.totalProblems == s2.totalProblems
      && s1.avgResolutionTime == s2.avgResolutionTime
      && s1.ackEvents == s2.ackEvents
      && s1.ackPercentage == s2.ackPercentage
  {
  }

  /** When every lookup throws, no record is produced, yet each problem
      with acknowledgments is still counted once. */
  lemma {:induction false} ThrowingLookupDropsRecords(events: seq<Event>)
    ensures var stats := AnalyzeMonthEvents(events, _ => Throws);
      && stats.acks == []
      && stats.ackEvents == |IndicesWhere(Problems(events), IsAcknowledged)|
  {
    NoRecordsWhenThrowing(Problems(events));
  }

  lemma {:induction false} NoRecordsWhenThrowing(problems: seq<Event>)
    ensures AckRecords(problems, _ => Throws) == []
  {
    if |problems| > 0 {
      NoRecordsWhenThrowing(problems[1..]);
    }
  }

  /** When no lookup throws, every acknowledgment of every problem yields exactly one record. */
  lemma {:induction false} NonThrowingLookupKeepsAll(problems: seq<Event>, lookup: int -> LookupResult)
    requires forall u :: lookup(u).Users?
    ensures |AckRecords(problems, lookup)| == TotalAcks(problems)
  {
    if |problems| > 0 {
      NonThrowingLookupKeepsAll(problems[1..], lookup);
    }
  }

  lemma {:induction false} EnrichAcksAppend(problem: Event, a: seq<Ack>, b: seq<Ack>, lookup: int -> LookupResult)
    ensures EnrichAcks(problem, a + b, lookup) == EnrichAcks(problem, a, lookup) + EnrichAcks(problem, b, lookup)
  {
    if |a| == 0 {
      assert a + b == b;
    } else {
      var ab := a + b;
      assert ab[0] == a[0];
      assert ab[1..] == a[1..] + b;
      EnrichAcksAppend(problem, a[1..], b, lookup);
      var head := AckRecord(problem, a[0], lookup);
      var tailA := EnrichAcks(problem, a[1..], lookup);
      var allB := EnrichAcks(problem, b, lookup);
      assert EnrichAcks(problem, ab, lookup) == head + (tailA + allB);
      assert EnrichAcks(problem, a, lookup) == head + tailA;
      AppendAssoc(head, tailA, allB);
    }
  }

  /** Each record's `ackTime` is the clock of one of `acks`. */
  ghost predicate TimesFromAcks(r: seq<EnrichedAck>, acks: seq<Ack>)
  {
    forall k :: 0 <= k < |r| ==> IsAckTime(r[k].ackTime, acks)
  }

  /** `t` is the clock of one of `acks`. */
  ghost predicate IsAckTime(t: int, acks: seq<Ack>)
  {
    exists i :: 0 <= i < |acks| && t == acks[i].clock
  }

  /** Every record of a problem's acknowledgments carries the time of one of those acknowledgments. */
  lemma {:induction false} RecordTimesComeFromAcks(problem: Event, acks: seq<Ack>, lookup: int -> LookupResult)
    ensures TimesFromAcks(EnrichAcks(problem, acks, lookup), acks)
  {
    if |acks| > 0 {
      RecordTimesComeFromAcks(problem, acks[1..], lookup);
      var head := AckRecord(problem, acks[0], lookup);
      TimesFromAcksCons(head, EnrichAcks(problem, acks[1..], lookup), acks);
    }
  }

  lemma TimesFromAcksCons(head: seq<EnrichedAck>, rest: seq<EnrichedAck>, acks: seq<Ack>)
    requires |acks| > 0
    requires forall k :: 0 <= k < |head| ==> head[k].ackTime == acks[0].clock
    requires TimesFromAcks(rest, acks[1..])
    ensures TimesFromAcks(head + rest, acks)
  {
    var r := head + rest;
    forall k | 0 <= k < |r| ensures IsAckTime(r[k].ackTime, acks) {
      if k < |head| {
        assert r[k].ackTime == acks[0].clock;
      } else {
        var j := k - |head|;
        assert r[k] == rest[j];
        assert IsAckTime(rest[j].ackTime, acks[1..]);
        var i :| 0 <= i < |acks[1..]| && rest[j].ackTime == acks[1..][i].clock;
        assert acks[1..][i] == acks[i + 1];
        assert 0 <= i + 1 < |acks| && r[k].ackTime == acks[i + 1].clock;
      }
    }
  }

  lemma {:induction false} AckRecordsAppend(a: seq<Event>, b: seq<Event>, lookup: int -> LookupResult)
    ensures AckRecords(a + b, lookup) == AckRecords(a, lookup) + AckRecords(b, lookup)
  {
    if |a| == 0 {
      assert a + b == b;
    } else {
      assert (a + b)[0] == a[0];
      assert (a + b)[1..] == a[1..] + b;
      AckRecordsAppend(a[1..], b, lookup);
    }
  }

  /** Records follow event order: the records of a concatenation of two event
      lists are the records of the first followed by those of the second. */
  lemma AcksFollowEventOrder(a: seq<Event>, b: seq<Event>, lookup: int -> LookupResult)
    ensures AnalyzeMonthEvents(a + b, lookup).acks
         == AnalyzeMonthEvents(a, lookup).acks + AnalyzeMonthEvents(b, lookup).acks
  {
    FilterAppend(a, b, IsProblem);
    AckRecordsAppend(Problems(a), Problems(b), lookup);
  }

  /** Samples follow problem order: the samples of two concatenated problem
      lists are the samples of the first followed by those of the second. */
  lemma {:induction false} ResolutionTimesAppend(a: seq<Event>, b: seq<Event>, events: seq<Event>)
    ensures ResolutionTimes(a + b, events) == ResolutionTimes(a, events) + ResolutionTimes(b, events)
  {
    if |a| == 0 {
      assert a + b == b;
    } else {
      assert (a + b)[0] == a[0];
      assert (a + b)[1..] == a[1..] + b;
      ResolutionTimesAppend(a[1..], b, events);
      var first := match ResolutionTime(a[0], events) case None => [] case Some(t) => [t];
      var restA := ResolutionTimes(a[1..], events);
      var allB := ResolutionTimes(b, events);
      AppendAssoc(first, restA, allB);
    }
  }

  /** One problem contributes its own sample when it is resolved and nothing otherwise. */
  lemma ResolutionTimesSingle(p: Event, events: seq<Event>)
    ensures ResolutionTimes([p], events)
         == match ResolutionTime(p, events) case None => [] case Some(t) => [t]
  {
    assert [p][1..] == [];
  }

  /** The records of one problem: its own enriched acknowledgments when it
      has any, none otherwise. With `AckRecordsAppend` this fixes the records
      of every problem list. */
  lemma AckRecordsSingle(p: Event, lookup: int -> LookupResult)
    ensures AckRecords([p], lookup) == if IsAcknowledged(p) then EnrichAcks(p, p.acknowledges, lookup) else []
  {
    assert [p][1..] == [];
  }

  /** So the samples are exactly the per-problem samples in problem order:
      problems resolved after 1 h and 10 h give the samples 1.0 and 10.0. */
  lemma OneAndTenHours(t0: int)
    ensures var p1 := Event(1, t0, 3, 1, []);
      var p2 := Event(2, t0, 4, 1, []);
      var events := [p1, p2, Event(3, t0 + 3600, 0, 0, []), Event(4, t0 + 36000, 0, 0, [])];
      ResolutionTimes([p1, p2], events) == [1.0, 10.0]
  {
    var p1 := Event(1, t0, 3, 1, []);
    var p2 := Event(2, t0, 4, 1, []);
    var events := [p1, p2, Event(3, t0 + 3600, 0, 0, []), Event(4, t0 + 36000, 0, 0, [])];
    assert FirstWithId(events, 3, 2);
    assert FirstWithId(events, 4, 3);
    OneSample(p1, events, 2);
    OneSample(p2, events, 3);
    assert [p1, p2] == [p1] + [p2];
    ResolutionTimesAppend([p1], [p2], events);
  }

  lemma OneSample(p: Event, events: seq<Event>, j: int)
    requires FirstWithId(events, p.rEventId, j)
    ensures ResolutionTimes([p], events) == [Latency(p, events[j])]
  {
    ResolutionTimesSingle(p, events);
    var r := ResolutionTime(p, events);
    var k :| FirstWithId(events, p.rEventId, k) && r.value == Latency(p, events[k]);
    assert k == j;
  }

  /** Every resolution-time sample belongs to a problem whose first matching
      event does not precede it, so every sample is at least 0. */
  lemma {:induction false} SamplesNonNegative(problems: seq<Event>, events: seq<Event>)
    requires forall i, j :: 0 <= i < |problems| && 0 <= j < |events| && events[j].eventId == problems[i].rEventId
               ==> problems[i].clock <= events[j].clock
    ensures forall k :: 0 <= k < |ResolutionTimes(problems, events)| ==> 0.0 <= ResolutionTimes(problems, events)[k]
  {
    var times := ResolutionTimes(problems, events);
    forall k | 0 <= k < |times| ensures 0.0 <= times[k] {
      assert IsSampleOf(times[k], problems, events);
      var i, j :| 0 <= i < |problems| && FirstWithId(events, problems[i].rEventId, j)
                  && times[k] == Latency(problems[i], events[j]);
    }
  }

  /** If no problem's resolving event precedes it, the average resolution time is not negative. */
  lemma AverageNonNegative(events: seq<Event>, lookup: int -> LookupResult)
    requires forall p, e :: p in events && e in events && IsProblem(p) && e.eventId == p.rEventId ==> p.clock <= e.clock
    ensures 0.0 <= AnalyzeMonthEvents(events, lookup).avgResolutionTime
  {
    var problems := Problems(events);
    var times := ResolutionTimes(problems, events);
    SamplesNonNegative(problems, events);
    if |times| > 0 {
      MeanAtLeast(times, 0.0);
    }
  }

  /** A month without events, which is also what a failed event query
      yields, has all-zero statistics and no records. */
  lemma EmptyMonthStats(lookup: int -> LookupResult)
    ensures AnalyzeMonthEvents([], lookup) == MonthlyStats(0, 0.0, 0, 0.0, [])
  {
  }

  /** Scenario: one problem resolved two hours later, no acknowledgments. */
  lemma ResolvedAfterTwoHours(t0: int, lookup: int -> LookupResult)
    ensures var stats := AnalyzeMonthEvents([Event(1, t0, 2, 1, []), Event(2, t0 + 7200, 0, 0, [])], lookup);
      && stats.totalProblems == 1
      && stats.avgResolutionTime == 2.0
      && stats.ackEvents == 0
      && stats.ackPercentage == 0.0
      && stats.acks == []
  {
    var events := [Event(1, t0, 2, 1, []), Event(2, t0 + 7200, 0, 0, [])];
    assert events[1..][1..] == [];
    assert Filter(events[1..], IsProblem) == [];
    assert Problems(events) == [events[0]];
    assert FindEvent(events[1..], 2) == Some(0);
    assert FindEvent(events, 2) == Some(1);
    assert Latency(events[0], events[1]) == 2.0;
    assert ResolutionTimes([events[0]], events) == [2.0];
    assert Mean([2.0]) == 2.0;
  }

  /** A user directory that finds nobody. */
  function NobodyFound(userId: int): LookupResult
  {
    Users([])
  }

  /** Scenario: one problem with two acknowledgments, the second blank; the
      lookup finds nobody, so both are attributed to "System". */
  lemma TwoAcksOneBlank(t0: int)
    ensures var stats := AnalyzeMonthEvents(
        [Event(1, t0, 0, 1, [Ack(t0 + 60, 7, "restarting"), Ack(t0 + 120, 7, "  ")])], NobodyFound);
      && stats.totalProblems == 1
      && stats.ackEvents == 1
      && stats.ackPercentage == 100.0
      && |stats.acks| == 2
      && stats.acks[0] == EnrichedAck(t0, t0 + 60, SystemUser, "restarting", true)
      && stats.acks[1] == EnrichedAck(t0, t0 + 120, SystemUser, NoComment, false)
  {
    var p := Event(1, t0, 0, 1, [Ack(t0 + 60, 7, "restarting"), Ack(t0 + 120, 7, "  ")]);
    assert Problems([p]) == [p];
    assert Filter([p], IsAcknowledged) == [p];
    TwoAcksRecords(t0);
    assert [p][1..] == [];
    assert Percentage(1, 1) == 100.0;
  }

  lemma TwoAcksRecords(t0: int)
    ensures var p := Event(1, t0, 0, 1, [Ack(t0 + 60, 7, "restarting"), Ack(t0 + 120, 7, "  ")]);
      AckRecords([p], NobodyFound) == [EnrichedAck(t0, t0 + 60, SystemUser, "restarting", true),
                                       EnrichedAck(t0, t0 + 120, SystemUser, NoComment, false)]
  {
    var p := Event(1, t0, 0, 1, [Ack(t0 + 60, 7, "restarting"), Ack(t0 + 120, 7, "  ")]);
    TwoAcksEnriched(t0);
    assert [p][1..] == [];
  }

  lemma TwoAcksEnriched(t0: int)
    ensures var a1 := Ack(t0 + 60, 7, "restarting");
      var a2 := Ack(t0 + 120, 7, "  ");
      EnrichAcks(Event(1, t0, 0, 1, [a1, a2]), [a1, a2], NobodyFound)
        == [EnrichedAck(t0, t0 + 60, SystemUser, "restarting", true),
            EnrichedAck(t0, t0 + 120, SystemUser, NoComment, false)]
  {
    var a1 := Ack(t0 + 60, 7, "restarting");
    var a2 := Ack(t0 + 120, 7, "  ");
    var p := Event(1, t0, 0, 1, [a1, a2]);
    TwoAcksEach(t0);
    EnrichTwo(p, a1, a2, NobodyFound);
  }

  lemma EnrichTwo(problem: Event, a1: Ack, a2: Ack, lookup: int -> LookupResult)
    requires EnrichAck(problem, a1, lookup).Some? && EnrichAck(problem, a2, lookup).Some?
    ensures EnrichAcks(problem, [a1, a2], lookup)
         == [EnrichAck(problem, a1, lookup).value, EnrichAck(problem, a2, lookup).value]
  {
    EnrichOne(problem, a1, lookup);
    EnrichOne(problem, a2, lookup);
    assert [a1, a2] == [a1] + [a2];
    EnrichAcksAppend(problem, [a1], [a2], lookup);
  }

  lemma EnrichOne(problem: Event, ack: Ack, lookup: int -> LookupResult)
    requires EnrichAck(problem, ack, lookup).Some?
    ensures EnrichAcks(problem, [ack], lookup) == [EnrichAck(problem, ack, lookup).value]
  {
    assert [ack][1..] == [];
  }

  lemma TwoAcksEach(t0: int)
    ensures var a1 := Ack(t0 + 60, 7, "restarting");
      var a2 := Ack(t0 + 120, 7, "  ");
      var p := Event(1, t0, 0, 1, [a1, a2]);
      && EnrichAck(p, a1, NobodyFound) == Some(EnrichedAck(t0, t0 + 60, SystemUser, "restarting", true))
      && EnrichAck(p, a2, NobodyFound) == Some(EnrichedAck(t0, t0 + 120, SystemUser, NoComment, false))
  {
    KeptAndBlankMessages();
    NobodyIsSystem();
  }

  lemma KeptAndBlankMessages()
    ensures HasMessage("restarting")
    ensures !HasMessage("  ")
  {
    assert !IsPhpTrimChar("restarting"[0]);
  }

  /** PHP `empty()` makes a name of "0" count as missing, so the alias is shown. */
  lemma ZeroNameFallsBackToAlias()
    ensures DisplayName([User("admin", "0", "")]) == "admin"
  {
  }

  /** A name of spaces is not `empty()`, so it is used, and trims to the empty display name. */
  lemma BlankNameGivesEmptyDisplay()
    ensures DisplayName([User("admin", "  ", "")]) == ""
  {
    TrimByEmpty("  " + " " + "", IsPhpTrimChar);
  }

  /** A lookup that finds nobody attributes the acknowledgment to "System". */
  lemma NobodyIsSystem()
    ensures DisplayName([]) == SystemUser
  {
  }

  /** Messages that are blank, whitespace-only or "0" become the placeholder;
      anything else is kept verbatim. */
  lemma MessagePolicy(message: string)
    ensures var e := EnrichAck(Event(1, 0, 0, 1, []), Ack(0, 0, message), _ => Users([])).value;
      && (e.hasMessage <==> message != "0" && exists k :: 0 <= k < |message| && !IsPhpTrimChar(message[k]))
      && (e.hasMessage ==> e.message == message)
      && (!e.hasMessage ==> e.message == NoComment)
  {
  }
}
