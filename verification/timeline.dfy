/** The timeline normaliser of `loadAnalytics` in public/app.js: it turns the
    `/api/stats` response into the points the activity chart draws. With a
    window of one day it draws one point per minute since midnight and puts
    the day's totals on the last one; otherwise it draws one point per
    calendar day of the window, using the server's bucket for that day when
    there is one and zeros when there is not. When the request fails it
    draws the same window with every counter at 0.

    Days are day numbers as in `Stats`; minute points are minute offsets
    from local midnight. The clock is a parameter. */
module Timeline {
  import opened Optional
  import opened Stats

  /** The four series the chart draws. */
  const ChartTypes: set<string> := {WipeCreated, TicketCreated, TournamentRoleCreated, ChannelDeleted}

  /** One chart point: a day number or a minute offset, and its counters. */
  datatype Point = Point(at: int, counters: Counters)

  /** The two readings of `new Date()` the normaliser uses: today's day number
      and the milliseconds since local midnight. */
  datatype Clock = Clock(today: int, msSinceMidnight: nat)

  /** The counters of a gap: the four chart series at 0. */
  function ZeroCounters(): (m: Counters)
    ensures m.Keys == ChartTypes
    ensures forall t :: Get(m, t) == 0
  {
    map[WipeCreated := 0, TicketCreated := 0, TournamentRoleCreated := 0, ChannelDeleted := 0]
  }

  /** The four chart series read off the response (`data.x || 0`). */
  function Totals(data: Response): (m: Counters)
    ensures m.Keys == ChartTypes
    ensures forall t :: t in ChartTypes ==> Get(m, t) == Get(data.counters, t)
  {
    map[WipeCreated := Get(data.counters, WipeCreated),
        TicketCreated := Get(data.counters, TicketCreated),
        TournamentRoleCreated := Get(data.counters, TournamentRoleCreated),
        ChannelDeleted := Get(data.counters, ChannelDeleted)]
  }

  /** `Math.max(1, Math.floor(elapsed / 60000))`: whole minutes since
      midnight, at least 1. */
  function MinuteCount(msSinceMidnight: nat): (n: nat)
    ensures n >= 1
    ensures n > 1 ==> n * 60000 <= msSinceMidnight < (n + 1) * 60000
    ensures n == 1 ==> msSinceMidnight < 120000
  {
    var whole := msSinceMidnight / 60000;
    if whole < 1 then 1 else whole
  }

  /** The one-day chart: points for minutes `0..minutes`, all zero except the
      last, which carries `totals` when the request succeeded. */
  function MinuteWindow(totals: Option<Counters>, minutes: nat): (points: seq<Point>)
    ensures |points| == minutes + 1
    ensures forall i :: 0 <= i < |points| ==> points[i].at == i
    ensures forall i :: 0 <= i < minutes ==> points[i].counters == ZeroCounters()
    ensures points[minutes].counters == totals.ValueOr(ZeroCounters())
  {
    seq(minutes + 1, i requires 0 <= i <= minutes =>
      Point(i, if i == minutes then totals.ValueOr(ZeroCounters()) else ZeroCounters()))
  }

  /** `byDate.get(day)`: the bucket for `day`; the Map is built from the
      whole timeline, so a later bucket with the same date wins. */
  function ByDate(timeline: seq<DayBucket>, day: int): (r: Option<DayBucket>)
    ensures r.None? <==> forall j :: 0 <= j < |timeline| ==> timeline[j].date != day
    ensures r.Some? ==> r.value.date == day
    ensures r.Some? ==>
      exists j :: 0 <= j < |timeline| && timeline[j] == r.value && (forall k :: j < k < |timeline| ==> timeline[k].date != day)
    decreases |timeline|
  {
    if |timeline| == 0 then None
    else if Last(timeline).date == day then Some(Last(timeline))
    else ByDate(Init(timeline), day)
  }

  /** The first day of a window of `days` days ending today
      (`start.setDate(today.getDate() - (days - 1))`). */
  function WindowStart(days: int, today: int): int {
    today - (days - 1)
  }

  /** The multi-day chart: one point per day from the window start to today,
      the server's counters for that day or zeros. A window of zero or fewer
      days is empty. */
  function DayWindow(timeline: seq<DayBucket>, days: int, today: int): (points: seq<Point>)
    ensures |points| == if days > 0 then days else 0
    ensures forall i :: 0 <= i < |points| ==> points[i].at == WindowStart(days, today) + i
    ensures |points| > 0 ==> points[|points| - 1].at == today
    ensures forall i :: 0 <= i < |points| ==>
      points[i].counters == match ByDate(timeline, points[i].at)
        case Some(b) => b.counters
        case None => ZeroCounters()
  {
    var n := if days > 0 then days else 0;
    seq(n, i requires 0 <= i < n =>
      var day := WindowStart(days, today) + i;
      Point(day, match ByDate(timeline, day)
        case Some(b) => b.counters
        case None => ZeroCounters()))
  }

  /** The chart points for a window of `days` days; `data` is None when the
      request or the JSON decoding failed. */
  function Normalize(data: Option<Response>, days: int, clock: Clock): (points: seq<Point>)
    ensures days == 1 ==> |points| == MinuteCount(clock.msSinceMidnight) + 1 >= 2
    ensures days != 1 ==> |points| == if days > 0 then days else 0
  {
    if days == 1 then
      var totals := match data
        case None => None
        case Some(d) => Some(Totals(d));
      MinuteWindow(totals, MinuteCount(clock.msSinceMidnight))
    else
      var timeline := match data
        case None => []
        case Some(d) => d.timeline;
      DayWindow(timeline, days, clock.today)
  }

  // ---------------------------------------------------------------------

  /** A failed request draws exactly what an empty response would: the same
      window, every counter 0. */
  lemma FailureLooksEmpty(days: int, clock: Clock)
    ensures Normalize(None, days, clock) == Normalize(Some(Response(map[], [], 0)), days, clock)
    ensures forall i, t :: 0 <= i < |Normalize(None, days, clock)| ==>
      Get(Normalize(None, days, clock)[i].counters, t) == 0
  {
    assert Totals(Response(map[], [], 0)) == ZeroCounters();
    var points := Normalize(None, days, clock);
    if days != 1 {
      forall i | 0 <= i < |points| ensures points[i].counters == ZeroCounters() {
        assert ByDate([], points[i].at) == None;
      }
    }
  }

  /** The days of the window appear in ascending order, each within the
      window, and there are as many points as days in the window: every day
      appears exactly once. */
  lemma DaysCoverWindow(data: Option<Response>, days: int, clock: Clock)
    requires days > 1
    ensures |Normalize(data, days, clock)| == clock.today - WindowStart(days, clock.today) + 1
    ensures forall i :: 0 <= i < |Normalize(data, days, clock)| ==>
      WindowStart(days, clock.today) <= Normalize(data, days, clock)[i].at <= clock.today
    ensures forall i, j :: 0 <= i < j < |Normalize(data, days, clock)| ==>
      Normalize(data, days, clock)[i].at < Normalize(data, days, clock)[j].at
  {
  }

  /** Fed with the server's response, each day of the window shows exactly
      the rows of that day: for every series, the number of that day's rows
      of that type, and 0 on days without rows. */
  lemma DaysShowRows(events: seq<Event>, days: int, clock: Clock)
    requires days != 1
    ensures forall i, t :: 0 <= i < |Normalize(Some(Aggregate(events)), days, clock)| && t in ChartTypes ==>
      var p := Normalize(Some(Aggregate(events)), days, clock)[i];
      Get(p.counters, t) == CountOn(events, p.at, t)
  {
    var points := Normalize(Some(Aggregate(events)), days, clock);
    forall i, t | 0 <= i < |points| && t in ChartTypes
      ensures Get(points[i].counters, t) == CountOn(events, points[i].at, t)
    {
      DayLookup(events, points[i].at, t);
    }
  }

  /** The counters the chart shows for one day, looked up in the server's
      timeline, count that day's rows. */
  lemma DayLookup(events: seq<Event>, day: int, t: string)
    requires t != MemberCount
    ensures var c := match ByDate(Aggregate(events).timeline, day)
        case Some(b) => b.counters
        case None => ZeroCounters();
      Get(c, t) == CountOn(events, day, t)
  {
    var tl := Aggregate(events).timeline;
    match ByDate(tl, day)
    case Some(b) =>
      var j :| 0 <= j < |tl| && tl[j] == b;
      DayBuckets(events);
      assert BucketMatches(events, tl[j]);
    case None =>
      OneBucketPerDay(events);
      assert day !in Dates(tl);
      AbsentDay(events, day);
  }

  /** Fed with the server's response, the one-day chart is flat at 0 and
      ends at the row count of each series, counted once. */
  lemma MinutesShowTotals(events: seq<Event>, clock: Clock)
    ensures var points := Normalize(Some(AggregateIntended(events)), 1, clock);
      && (forall i, t :: 0 <= i < |points| - 1 ==> Get(points[i].counters, t) == 0)
      && (forall t :: t in ChartTypes ==> Get(points[|points| - 1].counters, t) == CountType(events, t))
  {
    IntendedCountsOnce(events);
  }

  /** With the top-level counters as the server computes them, the one-day
      chart ends at twice the row count of each series. */
  lemma MinutesShowDoubledTotals(events: seq<Event>, clock: Clock)
    ensures var points := Normalize(Some(Aggregate(events)), 1, clock);
      forall t :: t in ChartTypes ==> Get(points[|points| - 1].counters, t) == 2 * CountType(events, t)
  {
    TopLevelCounters(events);
  }
}
