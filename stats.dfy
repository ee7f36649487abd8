/** The dashboard figures computed from the call collection: the total,
    the count per status, overdue and upcoming follow-ups relative to `now`,
    the summed and average duration, and the follow-ups planned within a day
    of the call. The clock reading is a parameter. */
module Stats {
  import opened CallTypes
  import CallStore

  datatype Dashboard = Dashboard(
    totals: nat,
    byStatus: map<Status, nat>,
    overdue: nat,
    upcoming: nat,
    totalDuration: nat,
    averageDuration: nat,
    fastFollowUps: nat
  )

  // ---------------------------------------------------------------------
  // What is counted, call by call (each count peels off the last call)
  // ---------------------------------------------------------------------

  function CountStatus(calls: seq<CallLog>, s: Status): (n: nat)
    ensures n <= |calls|
  {
    if calls == [] then 0
    else CountStatus(calls[..|calls| - 1], s) + (if calls[|calls| - 1].status == s then 1 else 0)
  }

  function CountScheduled(calls: seq<CallLog>): (n: nat)
    ensures n <= |calls|
  {
    if calls == [] then 0
    else CountScheduled(calls[..|calls| - 1]) + (if calls[|calls| - 1].scheduledAt.Some? then 1 else 0)
  }

  /** A follow-up is overdue when the clock is strictly past it. */
  predicate IsOverdue(c: CallLog, now: int)
  {
    c.scheduledAt.Some? && now > c.scheduledAt.value
  }

  predicate IsUpcoming(c: CallLog, now: int)
  {
    c.scheduledAt.Some? && !(now > c.scheduledAt.value)
  }

  function CountOverdue(calls: seq<CallLog>, now: int): (n: nat)
    ensures n <= |calls|
  {
    if calls == [] then 0
    else CountOverdue(calls[..|calls| - 1], now) + (if IsOverdue(calls[|calls| - 1], now) then 1 else 0)
  }

  function CountUpcoming(calls: seq<CallLog>, now: int): (n: nat)
    ensures n <= |calls|
  {
    if calls == [] then 0
    else CountUpcoming(calls[..|calls| - 1], now) + (if IsUpcoming(calls[|calls| - 1], now) then 1 else 0)
  }

  /** The difference in whole hours between two instants, truncated toward
      zero, as the hour difference of the date library rounds. */
  function HoursBetween(later: int, earlier: int): (h: int)
    ensures later - earlier >= 0 ==> 0 <= h * HourMs <= later - earlier < h * HourMs + HourMs
    ensures later - earlier < 0 ==> h * HourMs - HourMs < later - earlier <= h * HourMs <= 0
  {
    var gap := later - earlier;
    if gap >= 0 then gap / HourMs else -((-gap) / HourMs)
  }

  /** A follow-up planned at most 24 whole hours after the call was created. */
  predicate IsFastFollowUp(c: CallLog)
  {
    c.scheduledAt.Some? && HoursBetween(c.scheduledAt.value, c.createdAt) <= 24
  }

  function CountFast(calls: seq<CallLog>): (n: nat)
    ensures n <= |calls|
  {
    if calls == [] then 0
    else CountFast(calls[..|calls| - 1]) + (if IsFastFollowUp(calls[|calls| - 1]) then 1 else 0)
  }

  /** The duration a call adds to the total: its minutes when present and non-zero. */
  function DurationOf(c: CallLog): nat
  {
    if c.durationMinutes.Some? && c.durationMinutes.value != 0 then c.durationMinutes.value else 0
  }

  function TotalDuration(calls: seq<CallLog>): nat
  {
    if calls == [] then 0 else TotalDuration(calls[..|calls| - 1]) + DurationOf(calls[|calls| - 1])
  }

  /** The total divided by the number of calls and rounded half up; 0 when
      there are no calls or no recorded minutes. */
  function Average(total: nat, n: nat): (r: nat)
    ensures n == 0 || total == 0 ==> r == 0
    ensures n > 0 && total > 0 ==> r * 2 * n <= 2 * total + n < r * 2 * n + 2 * n
  {
    if n == 0 || total == 0 then 0 else (2 * total + n) / (2 * n)
  }

  // ---------------------------------------------------------------------
  // The computation
  // ---------------------------------------------------------------------

  /** The dashboard: the per-status counts and the duration total are
      accumulated in one pass over the calls; the other figures are counts. */
  method ComputeDashboard(calls: seq<CallLog>, now: int) returns (d: Dashboard)
    ensures d.totals == |calls|
    ensures forall s :: s in d.byStatus && d.byStatus[s] == CountStatus(calls, s)
    ensures d.byStatus[New] + d.byStatus[InProgress] + d.byStatus[Scheduled] + d.byStatus[Completed] == d.totals
    ensures d.overdue == CountOverdue(calls, now) && d.upcoming == CountUpcoming(calls, now)
    ensures d.overdue + d.upcoming == CountScheduled(calls)
    ensures d.totalDuration == TotalDuration(calls)
    ensures d.averageDuration == Average(d.totalDuration, d.totals)
    ensures d.fastFollowUps == CountFast(calls) && d.fastFollowUps <= CountScheduled(calls)
  {
    var totals := |calls|;
    var byStatus := map[New := 0, InProgress := 0, Completed := 0, Scheduled := 0];
    var overdue := CountOverdue(calls, now);
    var upcoming := CountUpcoming(calls, now);
    var totalDuration := 0;
    var i := 0;
    assert calls[..0] == [];
    forall s: Status ensures s in byStatus && byStatus[s] == 0 {
      assert s.New? || s.InProgress? || s.Completed? || s.Scheduled?;
    }
    while i < |calls|
      invariant 0 <= i <= |calls|
      invariant forall s :: s in byStatus && byStatus[s] == CountStatus(calls[..i], s)
      invariant totalDuration == TotalDuration(calls[..i])
    {
      var c := calls[i];
      assert calls[..i + 1][..i] == calls[..i];
      byStatus := byStatus[c.status := byStatus[c.status] + 1];
      if c.durationMinutes.Some? && c.durationMinutes.value != 0 {
        totalDuration := totalDuration + c.durationMinutes.value;
      }
      i := i + 1;
    }
    assert calls[..i] == calls;
    var averageDuration := Average(totalDuration, totals);
    var fastFollowUps := CountFast(calls);
    StatusCountsSum(calls);
    OverdueUpcomingSplit(calls, now);
    FastAtMostScheduled(calls);
    d := Dashboard(totals, byStatus, overdue, upcoming, totalDuration, averageDuration, fastFollowUps);
  }

  // ---------------------------------------------------------------------
  // Properties of the figures
  // ---------------------------------------------------------------------

  /** Every call has exactly one status, so the four counts add up to the total. */
  lemma {:induction false} StatusCountsSum(calls: seq<CallLog>)
    ensures CountStatus(calls, New) + CountStatus(calls, InProgress)
          + CountStatus(calls, Scheduled) + CountStatus(calls, Completed) == |calls|
  {
    if calls != [] {
      StatusCountsSum(calls[..|calls| - 1]);
    }
  }

  /** Overdue and upcoming split the scheduled calls between them. */
  lemma {:induction false} OverdueUpcomingSplit(calls: seq<CallLog>, now: int)
    ensures CountOverdue(calls, now) + CountUpcoming(calls, now) == CountScheduled(calls)
  {
    if calls != [] {
      OverdueUpcomingSplit(calls[..|calls| - 1], now);
    }
  }

  /** No call is both overdue and upcoming, and every scheduled call is one of them. */
  lemma OverdueUpcomingDisjoint(c: CallLog, now: int)
    ensures !(IsOverdue(c, now) && IsUpcoming(c, now))
    ensures c.scheduledAt.Some? <==> IsOverdue(c, now) || IsUpcoming(c, now)
  {
  }

  /** Only scheduled calls can be fast follow-ups. */
  lemma {:induction false} FastAtMostScheduled(calls: seq<CallLog>)
    ensures CountFast(calls) <= CountScheduled(calls)
  {
    if calls != [] {
      FastAtMostScheduled(calls[..|calls| - 1]);
    }
  }

  /** Because the hour difference truncates, "at most 24 hours" admits any gap
      shorter than 25 hours, and every follow-up planned before the call. */
  lemma FastFollowUpWindow(c: CallLog)
    ensures IsFastFollowUp(c) <==> c.scheduledAt.Some? && c.scheduledAt.value - c.createdAt < 25 * HourMs
  {
    if c.scheduledAt.Some? {
      var gap := c.scheduledAt.value - c.createdAt;
      var h := HoursBetween(c.scheduledAt.value, c.createdAt);
      if gap >= 0 {
        assert h <= 24 ==> gap < 25 * HourMs;
        assert gap < 25 * HourMs ==> h * HourMs < 25 * HourMs;
      }
    }
  }

  /** The total is zero exactly when no call has a non-zero duration. */
  lemma {:induction false} TotalDurationZero(calls: seq<CallLog>)
    ensures TotalDuration(calls) == 0 <==> forall i :: 0 <= i < |calls| ==> DurationOf(calls[i]) == 0
  {
    if calls != [] {
      var init := calls[..|calls| - 1];
      TotalDurationZero(init);
      assert forall i :: 0 <= i < |init| ==> init[i] == calls[i];
    }
  }

  /** The figures of the example data, read at the moment it is created:
      two follow-ups upcoming and none overdue, 34 minutes in all over three
      calls (11 on average), and no follow-up within a day of its call. */
  lemma ExampleCallsFigures(now: int, id1: string, id2: string, id3: string)
    ensures var calls := CallStore.ExampleCalls(now, id1, id2, id3);
            && CountStatus(calls, InProgress) == 1 && CountStatus(calls, Scheduled) == 1
            && CountStatus(calls, Completed) == 1 && CountStatus(calls, New) == 0
            && CountOverdue(calls, now) == 0 && CountUpcoming(calls, now) == 2
            && TotalDuration(calls) == 34 && Average(TotalDuration(calls), |calls|) == 11
            && CountFast(calls) == 0
  {
    var calls := CallStore.ExampleCalls(now, id1, id2, id3);
    var two := [calls[0], calls[1]];
    assert calls[..|calls| - 1] == two;
    assert two[..|two| - 1] == [calls[0]];
    var one := [calls[0]];
    assert one[..0] == [];
    FastFollowUpWindow(calls[0]);
    FastFollowUpWindow(calls[1]);
    FastFollowUpWindow(calls[2]);
    forall s: Status
      ensures CountStatus(calls, s) == CountStatus(two, s) + (if s == Completed then 1 else 0)
      ensures CountStatus(two, s) == CountStatus(one, s) + (if s == Scheduled then 1 else 0)
      ensures CountStatus(one, s) == (if s == InProgress then 1 else 0)
    {
    }
    assert CountOverdue(one, now) == 0 && CountOverdue(two, now) == 0;
    assert CountUpcoming(one, now) == 1 && CountUpcoming(two, now) == 2;
    assert TotalDuration(one) == 12 && TotalDuration(two) == 12;
    assert CountFast(one) == 0 && CountFast(two) == 0;
  }
}
