/** The `/api/stats` aggregation of server.js: a single pass over the event rows
    of the analytics table (already ordered by `created_at`) that produces the
    top-level counters, one bucket per calendar day, and the row count.

    A JavaScript object used as a counter table is modelled as a
    `map<string, int>`: reading a missing key gives 0 (`stats[t] || 0`), and
    writing a key that was absent creates it, as an unrecognised event type
    does in the original. */
module Stats {
  import opened Optional

  const WipeCreated: string := "wipe_created"
  const TicketCreated: string := "ticket_created"
  const TournamentRoleCreated: string := "tournament_role_created"
  const ChannelDeleted: string := "channel_deleted"
  const MemberCount: string := "member_count"

  /** The counters the response object and every day bucket start with. */
  const KnownTypes: set<string> :=
    {WipeCreated, TicketCreated, TournamentRoleCreated, ChannelDeleted, MemberCount}

  /** One analytics row: the UTC calendar day of `created_at` as a day number,
      `event_type`, and the `count` field of `event_data` (None when
      `event_data` or its `count` is missing or falsy). */
  datatype Event = Event(day: int, eventType: string, count: Option<int>)

  type Counters = map<string, int>

  /** One entry of the per-day map: the day and its counters. */
  datatype DayBucket = DayBucket(date: int, counters: Counters)

  /** The JSON body of a successful `/api/stats` response. */
  datatype Response = Response(counters: Counters, timeline: seq<DayBucket>, total: nat)

  /** The state carried through the loop: the response counters and the
      day map, whose insertion order is kept as a sequence. */
  datatype Acc = Acc(counters: Counters, timeline: seq<DayBucket>)

  function Max(a: int, b: int): int {
    if a < b then b else a
  }

  /** `m[key] || 0` for a counter table. */
  function Get(m: Counters, key: string): int {
    if key in m then m[key] else 0
  }

  /** The member count carried by an event; a missing or falsy count is 0. */
  function Payload(e: Event): int {
    e.count.ValueOr(0)
  }

  /** A fresh counter table: the five known counters at 0. */
  function Zeroed(): (m: Counters)
    ensures m.Keys == KnownTypes
    ensures forall t :: Get(m, t) == 0
  {
    map[WipeCreated := 0, TicketCreated := 0, TournamentRoleCreated := 0,
        ChannelDeleted := 0, MemberCount := 0]
  }

  /** `m[key] = (m[key] || 0) + 1`. */
  function Bump(m: Counters, key: string): (r: Counters)
    ensures r.Keys == m.Keys + {key}
    ensures Get(r, key) == Get(m, key) + 1
    ensures forall k :: k != key ==> Get(r, k) == Get(m, k)
  {
    m[key := Get(m, key) + 1]
  }

  /** What one event does to the top-level counters: every event first adds 1
      to the counter named by its type; a `member_count` event then raises that
      counter to at least its payload, any other event adds 1 a second time. */
  function Tally(counters: Counters, e: Event): (r: Counters)
    ensures r.Keys == counters.Keys + {e.eventType}
    ensures e.eventType != MemberCount ==> Get(r, e.eventType) == Get(counters, e.eventType) + 2
    ensures e.eventType == MemberCount ==> Get(r, MemberCount) == Max(Get(counters, MemberCount) + 1, Payload(e))
    ensures forall k :: k != e.eventType ==> Get(r, k) == Get(counters, k)
  {
    var once := Bump(counters, e.eventType);
    if e.eventType == MemberCount then
      once[MemberCount := Max(Get(once, MemberCount), Payload(e))]
    else
      Bump(once, e.eventType)
  }

  /** What one event does to the bucket of its day. */
  function Record(b: DayBucket, e: Event): (r: DayBucket)
    ensures r.date == b.date
    ensures r.counters.Keys == b.counters.Keys + {e.eventType}
    ensures e.eventType != MemberCount ==> Get(r.counters, e.eventType) == Get(b.counters, e.eventType) + 1
    ensures e.eventType == MemberCount ==> Get(r.counters, MemberCount) == Max(Get(b.counters, MemberCount), Payload(e))
    ensures forall k :: k != e.eventType ==> Get(r.counters, k) == Get(b.counters, k)
  {
    if e.eventType == MemberCount then
      DayBucket(b.date, b.counters[MemberCount := Max(Get(b.counters, MemberCount), Payload(e))])
    else
      DayBucket(b.date, Bump(b.counters, e.eventType))
  }

  /** The position of the bucket for `day` (`timelineMap.has` / `get`). */
  function IndexOfDay(timeline: seq<DayBucket>, day: int): (r: Option<nat>)
    ensures r.Some? ==> r.value < |timeline| && timeline[r.value].date == day
    ensures r.None? ==> forall j :: 0 <= j < |timeline| ==> timeline[j].date != day
    decreases |timeline|
  {
    if |timeline| == 0 then None
    else if timeline[0].date == day then Some(0)
    else
      match IndexOfDay(timeline[1..], day)
      case None => None
      case Some(i) => Some(i + 1)
  }

  /** One iteration of the loop body. */
  function Step(acc: Acc, e: Event): Acc {
    var counters := Tally(acc.counters, e);
    match IndexOfDay(acc.timeline, e.day)
    case Some(i) => Acc(counters, acc.timeline[i := Record(acc.timeline[i], e)])
    case None => Acc(counters, acc.timeline + [Record(DayBucket(e.day, Zeroed()), e)])
  }

  function Init<T>(s: seq<T>): seq<T>
    requires |s| > 0
  {
    s[..|s| - 1]
  }

  function Last<T>(s: seq<T>): T
    requires |s| > 0
  {
    s[|s| - 1]
  }

  /** The loop over all rows, in order. */
  function Fold(events: seq<Event>): Acc
    decreases |events|
  {
    if |events| == 0 then Acc(Zeroed(), [])
    else Step(Fold(Init(events)), Last(events))
  }

  /** The `/api/stats` response for the given rows. */
  function Aggregate(events: seq<Event>): (r: Response)
    ensures r.total == |events|
  {
    var acc := Fold(events);
    Response(acc.counters, acc.timeline, |events|)
  }

  // ---------------------------------------------------------------------
  // Reference definitions, each read off the rows directly

  /** Number of rows of type `t`. */
  ghost function CountType(events: seq<Event>, t: string): nat
    decreases |events|
  {
    if |events| == 0 then 0
    else CountType(Init(events), t) + (if Last(events).eventType == t then 1 else 0)
  }

  /** Number of rows of type `t` on day `d`. */
  ghost function CountOn(events: seq<Event>, d: int, t: string): nat
    decreases |events|
  {
    if |events| == 0 then 0
    else CountOn(Init(events), d, t) + (if Last(events).day == d && Last(events).eventType == t then 1 else 0)
  }

  /** The largest `member_count` payload on day `d`, or 0 when there is none larger. */
  ghost function DayMax(events: seq<Event>, d: int): int
    decreases |events|
  {
    if |events| == 0 then 0
    else if Last(events).day == d && Last(events).eventType == MemberCount then
      Max(DayMax(Init(events), d), Payload(Last(events)))
    else DayMax(Init(events), d)
  }

  /** The event types seen on day `d`. */
  ghost function TypesOn(events: seq<Event>, d: int): set<string>
    decreases |events|
  {
    if |events| == 0 then {}
    else TypesOn(Init(events), d) + (if Last(events).day == d then {Last(events).eventType} else {})
  }

  /** The event types seen at all. */
  ghost function TypesOf(events: seq<Event>): set<string>
    decreases |events|
  {
    if |events| == 0 then {}
    else TypesOf(Init(events)) + {Last(events).eventType}
  }

  /** The days on which some row falls. */
  ghost function DaysOf(events: seq<Event>): set<int>
    decreases |events|
  {
    if |events| == 0 then {}
    else DaysOf(Init(events)) + {Last(events).day}
  }

  /** The position of the first row on day `d`, or `|events|` when there is none. */
  ghost function FirstIndex(events: seq<Event>, d: int): nat
    decreases |events|
  {
    if |events| == 0 then 0
    else if events[0].day == d then 0
    else 1 + FirstIndex(events[1..], d)
  }

  /** The top-level `member_count`: each such row sets it to
      `max(previous + 1, payload)`. */
  ghost function MemberTotal(events: seq<Event>): int
    decreases |events|
  {
    if |events| == 0 then 0
    else if Last(events).eventType == MemberCount then
      Max(MemberTotal(Init(events)) + 1, Payload(Last(events)))
    else MemberTotal(Init(events))
  }

  ghost function Dates(timeline: seq<DayBucket>): set<int> {
    set j | 0 <= j < |timeline| :: timeline[j].date
  }

  ghost predicate DistinctDates(timeline: seq<DayBucket>) {
    forall i, j :: 0 <= i < j < |timeline| ==> timeline[i].date != timeline[j].date
  }

  /** A bucket holds exactly what the rows of its day say: its keys are the
      five known counters plus every type seen that day, `member_count` is the
      day's largest payload (at least 0), and every other counter is the number
      of that day's rows of that type. */
  ghost predicate BucketMatches(events: seq<Event>, b: DayBucket) {
    && b.counters.Keys == KnownTypes + TypesOn(events, b.date)
    && Get(b.counters, MemberCount) == DayMax(events, b.date)
    && forall t :: t != MemberCount ==> Get(b.counters, t) == CountOn(events, b.date, t)
  }

  /** The top-level counters: keys are the known counters plus every type seen,
      `member_count` is `MemberTotal`, and every other counter is twice the
      number of rows of its type. */
  ghost predicate TopMatches(events: seq<Event>, counters: Counters) {
    && counters.Keys == KnownTypes + TypesOf(events)
    && Get(counters, MemberCount) == MemberTotal(events)
    && forall t :: t != MemberCount ==> Get(counters, t) == 2 * CountType(events, t)
  }

  /** Buckets appear in the order of the first row of their day. */
  ghost predicate FirstOccurrenceOrder(events: seq<Event>, timeline: seq<DayBucket>) {
    forall i, j :: 0 <= i < j < |timeline| ==>
      FirstIndex(events, timeline[i].date) < FirstIndex(events, timeline[j].date)
  }

  ghost predicate Faithful(events: seq<Event>, acc: Acc) {
    && TopMatches(events, acc.counters)
    && DistinctDates(acc.timeline)
    && Dates(acc.timeline) == DaysOf(events)
    && (forall j :: 0 <= j < |acc.timeline| ==> BucketMatches(events, acc.timeline[j]))
    && FirstOccurrenceOrder(events, acc.timeline)
  }

  ghost predicate SortedByDay(events: seq<Event>) {
    forall i, j :: 0 <= i < j < |events| ==> events[i].day <= events[j].day
  }

  // ---------------------------------------------------------------------
  // Proofs

  lemma InitOfAppend(es: seq<Event>, e: Event)
    ensures Init(es + [e]) == es && Last(es + [e]) == e
  {
    assert (es + [e])[..|es|] == es;
  }

  /** A day without rows contributes nothing. */
  lemma {:induction false} AbsentDay(events: seq<Event>, d: int)
    requires d !in DaysOf(events)
    ensures TypesOn(events, d) == {}
    ensures DayMax(events, d) == 0
    ensures forall t :: CountOn(events, d, t) == 0
    ensures FirstIndex(events, d) == |events|
    decreases |events|
  {
    if |events| > 0 {
      AbsentDay(Init(events), d);
      FirstIndexAbsent(events, d);
    }
  }

  lemma {:induction false} FirstIndexAbsent(events: seq<Event>, d: int)
    requires d !in DaysOf(events)
    ensures FirstIndex(events, d) == |events|
    decreases |events|
  {
    if |events| > 0 {
      var es, e := Init(events), Last(events);
      assert events == es + [e];
      if |es| == 0 {
        assert events[0] == e;
      } else {
        assert events[1..] == es[1..] + [e];
        InitOfAppend(es[1..], e);
        assert events[0] == es[0];
        DaysOfHead(es);
        FirstIndexAbsent(events[1..], d);
      }
    }
  }

  /** The days of a non-empty sequence are its first day plus those of its tail. */
  lemma {:induction false} DaysOfHead(events: seq<Event>)
    requires |events| > 0
    ensures DaysOf(events) == {events[0].day} + DaysOf(events[1..])
    decreases |events|
  {
    if |events| > 1 {
      var es, e := Init(events), Last(events);
      assert events[1..] == es[1..] + [e];
      InitOfAppend(es[1..], e);
      DaysOfHead(es);
    }
  }

  /** Appending a row does not move the first row of a day already present. */
  lemma {:induction false} FirstIndexAppend(es: seq<Event>, e: Event, d: int)
    ensures FirstIndex(es + [e], d) ==
      if FirstIndex(es, d) < |es| then FirstIndex(es, d)
      else if e.day == d then |es| else |es| + 1
    decreases |es|
  {
    if |es| > 0 {
      assert (es + [e])[1..] == es[1..] + [e];
      FirstIndexAppend(es[1..], e, d);
    }
  }

  lemma {:induction false} FirstIndexBound(events: seq<Event>, d: int)
    ensures FirstIndex(events, d) <= |events|
    ensures FirstIndex(events, d) < |events| ==> events[FirstIndex(events, d)].day == d
    decreases |events|
  {
    if |events| > 0 && events[0].day != d {
      FirstIndexBound(events[1..], d);
    }
  }

  lemma {:induction false} FirstIndexPresent(events: seq<Event>, d: int)
    requires d in DaysOf(events)
    ensures FirstIndex(events, d) < |events|
    decreases |events|
  {
    var es, e := Init(events), Last(events);
    assert events == es + [e];
    FirstIndexAppend(es, e, d);
    if d in DaysOf(es) {
      FirstIndexPresent(es, d);
    }
  }

  lemma StepTop(es: seq<Event>, e: Event, counters: Counters)
    requires TopMatches(es, counters)
    ensures TopMatches(es + [e], Tally(counters, e))
  {
    InitOfAppend(es, e);
    var r := Tally(counters, e);
    forall t | t != MemberCount
      ensures Get(r, t) == 2 * CountType(es + [e], t)
    {
    }
  }

  lemma RecordMatches(es: seq<Event>, e: Event, b: DayBucket)
    requires b.date == e.day
    requires BucketMatches(es, b)
    ensures BucketMatches(es + [e], Record(b, e))
  {
    InitOfAppend(es, e);
    var r := Record(b, e);
    forall t | t != MemberCount
      ensures Get(r.counters, t) == CountOn(es + [e], b.date, t)
    {
    }
  }

  lemma OtherDayMatches(es: seq<Event>, e: Event, b: DayBucket)
    requires b.date != e.day
    requires BucketMatches(es, b)
    ensures BucketMatches(es + [e], b)
  {
    InitOfAppend(es, e);
    forall t | t != MemberCount
      ensures Get(b.counters, t) == CountOn(es + [e], b.date, t)
    {
    }
  }

  /** Appending a row leaves the first row of every day already present where it was. */
  lemma FirstIndexStable(es: seq<Event>, e: Event)
    ensures forall d :: d in DaysOf(es) ==> FirstIndex(es + [e], d) == FirstIndex(es, d) < |es|
  {
    forall d | d in DaysOf(es)
      ensures FirstIndex(es + [e], d) == FirstIndex(es, d) < |es|
    {
      FirstIndexPresent(es, d);
      FirstIndexAppend(es, e, d);
    }
  }

  /** The timeline part of `Faithful`. */
  ghost predicate TimelineFaithful(events: seq<Event>, timeline: seq<DayBucket>) {
    && DistinctDates(timeline)
    && Dates(timeline) == DaysOf(events)
    && (forall j :: 0 <= j < |timeline| ==> BucketMatches(events, timeline[j]))
    && FirstOccurrenceOrder(events, timeline)
  }

  lemma DatesInDays(es: seq<Event>, tl: seq<DayBucket>)
    requires Dates(tl) == DaysOf(es)
    ensures forall j :: 0 <= j < |tl| ==> tl[j].date in DaysOf(es)
  {
    forall j | 0 <= j < |tl| ensures tl[j].date in DaysOf(es) {
      assert tl[j].date in Dates(tl);
    }
  }

  /** Replacing a bucket by one of the same date keeps every date in place. */
  lemma SameDates(tl: seq<DayBucket>, i: nat, b: DayBucket)
    requires i < |tl| && b.date == tl[i].date
    ensures forall j :: 0 <= j < |tl| ==> tl[i := b][j].date == tl[j].date
    ensures Dates(tl[i := b]) == Dates(tl)
  {
    var tl' := tl[i := b];
    forall d | d in Dates(tl) ensures d in Dates(tl') {
      var j :| 0 <= j < |tl| && tl[j].date == d;
      assert tl'[j].date == d;
    }
  }

  /** A row on a day that already has a bucket updates that bucket in place. */
  lemma StepExisting(es: seq<Event>, e: Event, tl: seq<DayBucket>, i: nat)
    requires TimelineFaithful(es, tl)
    requires i < |tl| && tl[i].date == e.day
    ensures TimelineFaithful(es + [e], tl[i := Record(tl[i], e)])
  {
    var tl' := tl[i := Record(tl[i], e)];
    SameDates(tl, i, Record(tl[i], e));
    ExistingBuckets(es, e, tl, i, tl');
    assert e.day in Dates(tl);
    InitOfAppend(es, e);
    assert DaysOf(es + [e]) == DaysOf(es) + {e.day};
    ExistingOrder(es, e, tl, i);
  }

  lemma ExistingBuckets(es: seq<Event>, e: Event, tl: seq<DayBucket>, i: nat, tl': seq<DayBucket>)
    requires forall j :: 0 <= j < |tl| ==> BucketMatches(es, tl[j])
    requires i < |tl| && tl[i].date == e.day
    requires DistinctDates(tl)
    requires tl' == tl[i := Record(tl[i], e)]
    ensures forall j :: 0 <= j < |tl'| ==> BucketMatches(es + [e], tl'[j])
  {
    forall j | 0 <= j < |tl'|
      ensures BucketMatches(es + [e], tl'[j])
    {
      if j == i {
        RecordMatches(es, e, tl[i]);
      } else {
        OtherDayMatches(es, e, tl[j]);
      }
    }
  }

  lemma ExistingOrder(es: seq<Event>, e: Event, tl: seq<DayBucket>, i: nat)
    requires Dates(tl) == DaysOf(es) && FirstOccurrenceOrder(es, tl)
    requires i < |tl| && tl[i].date == e.day
    ensures FirstOccurrenceOrder(es + [e], tl[i := Record(tl[i], e)])
  {
    SameDates(tl, i, Record(tl[i], e));
    DatesInDays(es, tl);
    FirstIndexStable(es, e);
  }

  /** A row on a new day appends a fresh bucket for it. */
  lemma StepNew(es: seq<Event>, e: Event, tl: seq<DayBucket>)
    requires TimelineFaithful(es, tl)
    requires forall j :: 0 <= j < |tl| ==> tl[j].date != e.day
    ensures TimelineFaithful(es + [e], tl + [Record(DayBucket(e.day, Zeroed()), e)])
  {
    InitOfAppend(es, e);
    var tl' := tl + [Record(DayBucket(e.day, Zeroed()), e)];
    assert e.day !in Dates(tl);
    NewBuckets(es, e, tl);
    DatesOfSnoc(tl, Record(DayBucket(e.day, Zeroed()), e));
    assert DaysOf(es + [e]) == DaysOf(es) + {e.day};
    NewOrder(es, e, tl);
  }

  lemma NewBuckets(es: seq<Event>, e: Event, tl: seq<DayBucket>)
    requires forall j :: 0 <= j < |tl| ==> BucketMatches(es, tl[j])
    requires forall j :: 0 <= j < |tl| ==> tl[j].date != e.day
    requires e.day !in DaysOf(es)
    ensures forall j :: 0 <= j <= |tl| ==>
      BucketMatches(es + [e], (tl + [Record(DayBucket(e.day, Zeroed()), e)])[j])
  {
    var nb := DayBucket(e.day, Zeroed());
    var tl' := tl + [Record(nb, e)];
    AbsentDay(es, e.day);
    forall j | 0 <= j < |tl'|
      ensures BucketMatches(es + [e], tl'[j])
    {
      if j == |tl| {
        RecordMatches(es, e, nb);
      } else {
        OtherDayMatches(es, e, tl[j]);
      }
    }
  }

  lemma NewOrder(es: seq<Event>, e: Event, tl: seq<DayBucket>)
    requires Dates(tl) == DaysOf(es) && FirstOccurrenceOrder(es, tl)
    requires e.day !in DaysOf(es)
    ensures FirstOccurrenceOrder(es + [e], tl + [Record(DayBucket(e.day, Zeroed()), e)])
  {
    var tl' := tl + [Record(DayBucket(e.day, Zeroed()), e)];
    AbsentDay(es, e.day);
    FirstIndexAppend(es, e, e.day);
    DatesInDays(es, tl);
    FirstIndexStable(es, e);
    forall i, j | 0 <= i < j < |tl'|
      ensures FirstIndex(es + [e], tl'[i].date) < FirstIndex(es + [e], tl'[j].date)
    {
      assert tl'[i] == tl[i];
      if j < |tl| {
        assert tl'[j] == tl[j];
      }
    }
  }

  lemma StepFaithful(es: seq<Event>, e: Event, acc: Acc)
    requires Faithful(es, acc)
    ensures Faithful(es + [e], Step(acc, e))
  {
    StepTop(es, e, acc.counters);
    match IndexOfDay(acc.timeline, e.day)
    case Some(i) => StepExisting(es, e, acc.timeline, i);
    case None => StepNew(es, e, acc.timeline);
  }

  lemma {:induction false} FoldFaithful(events: seq<Event>)
    ensures Faithful(events, Fold(events))
    decreases |events|
  {
    if |events| == 0 {
      assert Dates([]) == {};
    } else {
      var es, e := Init(events), Last(events);
      assert events == es + [e];
      FoldFaithful(es);
      StepFaithful(es, e, Fold(es));
    }
  }

  // ---------------------------------------------------------------------
  // Properties of the response

  /** Every day bucket counts exactly the rows of its day: a `member_count`
      row never adds 1 to it but raises its `member_count` to the day's
      largest payload, every other row adds exactly 1 to the counter named by
      its type, creating that key if it is not one of the five. */
  lemma DayBuckets(events: seq<Event>)
    ensures forall j :: 0 <= j < |Aggregate(events).timeline| ==>
      BucketMatches(events, Aggregate(events).timeline[j])
  {
    FoldFaithful(events);
  }

  /** The top-level counters: each non-member counter ends at twice the number
      of its rows, `member_count` is `MemberTotal`, and unknown types appear as
      keys of their own. */
  lemma TopLevelCounters(events: seq<Event>)
    ensures TopMatches(events, Aggregate(events).counters)
  {
    FoldFaithful(events);
  }

  /** One bucket per distinct day, in the order of each day's first row. */
  lemma OneBucketPerDay(events: seq<Event>)
    ensures DistinctDates(Aggregate(events).timeline)
    ensures Dates(Aggregate(events).timeline) == DaysOf(events)
    ensures FirstOccurrenceOrder(events, Aggregate(events).timeline)
    ensures |Aggregate(events).timeline| == |DaysOf(events)|
  {
    FoldFaithful(events);
    DistinctCardinality(Aggregate(events).timeline);
  }

  lemma {:induction false} DistinctCardinality(timeline: seq<DayBucket>)
    requires DistinctDates(timeline)
    ensures |Dates(timeline)| == |timeline|
    decreases |timeline|
  {
    if |timeline| > 0 {
      var rest, b := Init(timeline), Last(timeline);
      assert forall j :: 0 <= j < |rest| ==> rest[j] == timeline[j];
      DistinctCardinality(rest);
      DatesOfSnoc(rest, b);
      assert timeline == rest + [b];
      assert b.date !in Dates(rest);
    }
  }

  lemma DatesOfSnoc(rest: seq<DayBucket>, b: DayBucket)
    ensures Dates(rest + [b]) == Dates(rest) + {b.date}
  {
    var tl := rest + [b];
    forall d | d in Dates(tl) ensures d in Dates(rest) + {b.date} {
      var j :| 0 <= j < |tl| && tl[j].date == d;
      if j < |rest| { assert rest[j].date == d; }
    }
    forall d | d in Dates(rest) ensures d in Dates(tl) {
      var j :| 0 <= j < |rest| && rest[j].date == d;
      assert tl[j].date == d;
    }
    assert tl[|rest|].date == b.date;
  }

  /** When the rows come ordered by time, as the query asks, the buckets come
      in strictly ascending date order. */
  lemma SortedTimeline(events: seq<Event>)
    requires SortedByDay(events)
    ensures forall i, j :: 0 <= i < j < |Aggregate(events).timeline| ==>
      Aggregate(events).timeline[i].date < Aggregate(events).timeline[j].date
  {
    var tl := Aggregate(events).timeline;
    OneBucketPerDay(events);
    forall i, j | 0 <= i < j < |tl|
      ensures tl[i].date < tl[j].date
    {
      assert tl[i].date in Dates(tl) && tl[j].date in Dates(tl);
      FirstIndexPresent(events, tl[i].date);
      FirstIndexPresent(events, tl[j].date);
      FirstIndexBound(events, tl[i].date);
      FirstIndexBound(events, tl[j].date);
    }
  }

  /** The day's `member_count` is the largest payload of that day's
      `member_count` rows, and 0 when there is none or all are negative. */
  lemma {:induction false} DayMaxIsMaximum(events: seq<Event>, d: int)
    ensures DayMax(events, d) >= 0
    ensures forall i :: 0 <= i < |events| && events[i].day == d && events[i].eventType == MemberCount ==>
      Payload(events[i]) <= DayMax(events, d)
    ensures DayMax(events, d) == 0 ||
      exists i :: 0 <= i < |events| && events[i].day == d &&
        events[i].eventType == MemberCount && Payload(events[i]) == DayMax(events, d)
    decreases |events|
  {
    if |events| > 0 {
      var es := Init(events);
      DayMaxIsMaximum(es, d);
      assert forall i :: 0 <= i < |es| ==> es[i] == events[i];
    }
  }

  /** A closed form of the top-level `member_count`: it is at least the number
      of `member_count` rows and at least each payload plus the number of such
      rows after it, and it equals one of these bounds. In particular it is at
      least the largest payload. */
  lemma {:induction false} MemberTotalClosedForm(events: seq<Event>)
    ensures MemberTotal(events) >= CountType(events, MemberCount)
    ensures forall i :: 0 <= i < |events| && events[i].eventType == MemberCount ==>
      MemberTotal(events) >= Payload(events[i]) + CountType(events[i + 1..], MemberCount)
    ensures MemberTotal(events) == CountType(events, MemberCount) ||
      exists i :: 0 <= i < |events| && events[i].eventType == MemberCount &&
        MemberTotal(events) == Payload(events[i]) + CountType(events[i + 1..], MemberCount)
    decreases |events|
  {
    if |events| > 0 {
      var es, e := Init(events), Last(events);
      assert events == es + [e];
      MemberTotalClosedForm(es);
      var bump := if e.eventType == MemberCount then 1 else 0;
      assert MemberTotal(events) >= MemberTotal(es) + bump;
      assert CountType(events, MemberCount) == CountType(es, MemberCount) + bump;
      forall i | 0 <= i < |events| && events[i].eventType == MemberCount
        ensures MemberTotal(events) >= Payload(events[i]) + CountType(events[i + 1..], MemberCount)
      {
        if i < |es| {
          SuffixCount(es, e, i);
        } else {
          assert events[i + 1..] == [];
        }
      }
      if MemberTotal(events) != CountType(events, MemberCount) {
        if e.eventType == MemberCount && MemberTotal(events) == Payload(e) {
          assert events[|es| + 1..] == [];
          assert events[|es|] == e;
        } else {
          var i :| 0 <= i < |es| && es[i].eventType == MemberCount &&
            MemberTotal(es) == Payload(es[i]) + CountType(es[i + 1..], MemberCount);
          SuffixCount(es, e, i);
        }
      }
    }
  }

  /** A suffix of `es + [e]` counts `e` on top of the same suffix of `es`. */
  lemma SuffixCount(es: seq<Event>, e: Event, i: nat)
    requires i < |es|
    ensures (es + [e])[i] == es[i]
    ensures CountType((es + [e])[i + 1..], MemberCount) ==
      CountType(es[i + 1..], MemberCount) + (if e.eventType == MemberCount then 1 else 0)
  {
    assert (es + [e])[i + 1..] == es[i + 1..] + [e];
    InitOfAppend(es[i + 1..], e);
  }

  /** The top-level `member_count` is at least every payload. */
  lemma MemberTotalAtLeastPayloads(events: seq<Event>)
    ensures forall i :: 0 <= i < |events| && events[i].eventType == MemberCount ==>
      Get(Aggregate(events).counters, MemberCount) >= Payload(events[i])
  {
    TopLevelCounters(events);
    MemberTotalClosedForm(events);
  }

  // ---------------------------------------------------------------------
  // The top-level counters as evidently intended

  /** One event counted once: `member_count` keeps the running maximum of the
      payloads, every other type adds 1. This is the loop body without the
      unconditional increment that precedes the branch. */
  function TallyIntended(counters: Counters, e: Event): Counters {
    if e.eventType == MemberCount then
      counters[MemberCount := Max(Get(counters, MemberCount), Payload(e))]
    else
      Bump(counters, e.eventType)
  }

  function IntendedCounters(events: seq<Event>): Counters
    decreases |events|
  {
    if |events| == 0 then Zeroed()
    else TallyIntended(IntendedCounters(Init(events)), Last(events))
  }

  /** The response with the top-level counters counted once per row; the
      day buckets are those of the original. */
  function AggregateIntended(events: seq<Event>): (r: Response)
    ensures r.total == |events|
    ensures r.timeline == Aggregate(events).timeline
  {
    Response(IntendedCounters(events), Fold(events).timeline, |events|)
  }

  /** The largest `member_count` payload of all rows, or 0 when there is none
      larger. */
  ghost function MaxPayload(events: seq<Event>): int
    decreases |events|
  {
    if |events| == 0 then 0
    else if Last(events).eventType == MemberCount then Max(MaxPayload(Init(events)), Payload(Last(events)))
    else MaxPayload(Init(events))
  }

  /** Counted once, each non-member counter is the number of its rows and
      `member_count` is the largest payload, as the day buckets already are. */
  lemma {:induction false} IntendedCountsOnce(events: seq<Event>)
    ensures IntendedCounters(events).Keys == KnownTypes + TypesOf(events)
    ensures Get(IntendedCounters(events), MemberCount) == MaxPayload(events)
    ensures forall t :: t != MemberCount ==> Get(IntendedCounters(events), t) == CountType(events, t)
    decreases |events|
  {
    if |events| > 0 {
      IntendedCountsOnce(Init(events));
    }
  }

  /** `MaxPayload` is the maximum of the payloads, floored at 0. */
  lemma {:induction false} MaxPayloadIsMaximum(events: seq<Event>)
    ensures MaxPayload(events) >= 0
    ensures forall i :: 0 <= i < |events| && events[i].eventType == MemberCount ==>
      Payload(events[i]) <= MaxPayload(events)
    ensures MaxPayload(events) == 0 ||
      exists i :: 0 <= i < |events| && events[i].eventType == MemberCount && Payload(events[i]) == MaxPayload(events)
    decreases |events|
  {
    if |events| > 0 {
      var es := Init(events);
      MaxPayloadIsMaximum(es);
      assert forall i :: 0 <= i < |es| ==> es[i] == events[i];
    }
  }

  /** Counted once, the top-level counter of a type and the day buckets count
      the same rows: the top-level value is the number of rows of that type,
      and each bucket holds the number of that day's rows of that type. */
  lemma IntendedMatchesDays(events: seq<Event>, t: string)
    requires t != MemberCount
    ensures Get(AggregateIntended(events).counters, t) == CountType(events, t)
    ensures forall j :: 0 <= j < |AggregateIntended(events).timeline| ==>
      Get(AggregateIntended(events).timeline[j].counters, t) == CountOn(events, AggregateIntended(events).timeline[j].date, t)
  {
    IntendedCountsOnce(events);
    DayBuckets(events);
  }

  /** As written, a single `wipe_created` row is reported as two. */
  lemma DoubleCountWitness()
    ensures var events := [Event(0, WipeCreated, None)];
      && CountType(events, WipeCreated) == 1
      && Get(Aggregate(events).counters, WipeCreated) == 2
      && Get(AggregateIntended(events).counters, WipeCreated) == 1
  {
    var events := [Event(0, WipeCreated, None)];
    assert Init(events) == [] && Last(events) == events[0];
    assert Fold(events).counters == Tally(Zeroed(), events[0]);
    assert IntendedCounters(events) == TallyIntended(Zeroed(), events[0]);
    assert CountType(events, WipeCreated) == CountType([], WipeCreated) + 1;
  }

  /** As written, two `member_count` rows each reporting 5 members give a
      top-level `member_count` of 6. */
  lemma MemberCountWitness()
    ensures var events := [Event(0, MemberCount, Some(5)), Event(1, MemberCount, Some(5))];
      && MaxPayload(events) == 5
      && Get(Aggregate(events).counters, MemberCount) == 6
      && Get(AggregateIntended(events).counters, MemberCount) == 5
  {
    var events := [Event(0, MemberCount, Some(5)), Event(1, MemberCount, Some(5))];
    var first := [events[0]];
    assert Init(events) == first && Last(events) == events[1];
    assert Init(first) == [] && Last(first) == events[0];
    assert Fold(first).counters == Tally(Zeroed(), events[0]);
    assert Get(Fold(first).counters, MemberCount) == 5;
    assert Fold(events).counters == Tally(Fold(first).counters, events[1]);
    assert IntendedCounters(first) == TallyIntended(Zeroed(), events[0]);
    assert IntendedCounters(events) == TallyIntended(IntendedCounters(first), events[1]);
    assert MaxPayload(first) == 5;
  }
}
