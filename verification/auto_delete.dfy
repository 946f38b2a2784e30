/** The countdown server.js adds to every active auto-delete channel:
    `time_left_seconds`, the whole seconds left until `delete_at`, never
    negative. Instants are milliseconds since the epoch; the clock reading
    `now` is a parameter. */
module AutoDelete {
  import opened Optional

  /** A row of the auto-delete table as far as the countdown is concerned:
      its id and `delete_at`, None when that field is not a valid date. */
  datatype Scheduled = Scheduled(id: string, deleteAt: Option<int>)

  /** A row as sent to the client: the row and its `time_left_seconds`,
      None where JavaScript computes NaN (sent as `null`). */
  datatype Countdown = Countdown(channel: Scheduled, timeLeft: Option<nat>)

  /** `Math.max(0, Math.floor((deleteAt - now) / 1000))` on whole milliseconds. */
  function TimeLeftSeconds(deleteAt: int, now: int): (r: nat)
    ensures r == 0 <==> deleteAt - now < 1000
    ensures r > 0 ==> r * 1000 <= deleteAt - now < (r + 1) * 1000
  {
    var seconds := (deleteAt - now) / 1000;
    if seconds < 0 then 0 else seconds
  }

  /** The `time_left_seconds` of one row: NaN stays NaN. */
  function TimeLeft(channel: Scheduled, now: int): (r: Option<nat>)
    ensures r.Some? <==> channel.deleteAt.Some?
    ensures r.Some? ==> r.value == TimeLeftSeconds(channel.deleteAt.value, now)
  {
    match channel.deleteAt
    case None => None
    case Some(at) => Some(TimeLeftSeconds(at, now))
  }

  /** The response of `/api/auto-delete-channels`: every row, in the order
      the query returned them, with its countdown. */
  function WithTimeLeft(channels: seq<Scheduled>, now: int): (r: seq<Countdown>)
    ensures |r| == |channels|
    ensures forall i :: 0 <= i < |r| ==> r[i].channel == channels[i]
    ensures forall i :: 0 <= i < |r| ==>
      (r[i].timeLeft.Some? <==> channels[i].deleteAt.Some?)
    ensures forall i :: 0 <= i < |r| ==> r[i].timeLeft == TimeLeft(channels[i], now)
  {
    seq(|channels|, i requires 0 <= i < |channels| => Countdown(channels[i], TimeLeft(channels[i], now)))
  }

  // ---------------------------------------------------------------------

  /** One second later the countdown is one lower, until it sticks at 0. */
  lemma Ticks(deleteAt: int, now: int)
    ensures TimeLeftSeconds(deleteAt, now + 1000) == Max0(TimeLeftSeconds(deleteAt, now) - 1)
  {
  }

  function Max0(x: int): nat {
    if x < 0 then 0 else x
  }

  /** A later clock reading never shows more time left. */
  lemma Monotone(deleteAt: int, now: int, later: int)
    requires now <= later
    ensures TimeLeftSeconds(deleteAt, later) <= TimeLeftSeconds(deleteAt, now)
  {
  }

  /** Deadlines in the same order keep their countdowns in the same order, so
      rows sorted by `delete_at` are also sorted by `time_left_seconds`. */
  lemma SortedCountdowns(channels: seq<Scheduled>, now: int)
    requires forall i, j :: 0 <= i < j < |channels| && channels[i].deleteAt.Some? && channels[j].deleteAt.Some? ==>
      channels[i].deleteAt.value <= channels[j].deleteAt.value
    ensures forall i, j :: 0 <= i < j < |channels| && channels[i].deleteAt.Some? && channels[j].deleteAt.Some? ==>
      WithTimeLeft(channels, now)[i].timeLeft.value <= WithTimeLeft(channels, now)[j].timeLeft.value
  {
    var r := WithTimeLeft(channels, now);
    forall i, j | 0 <= i < j < |channels| && channels[i].deleteAt.Some? && channels[j].deleteAt.Some?
      ensures r[i].timeLeft.value <= r[j].timeLeft.value
    {
      var a, b := channels[i].deleteAt.value, channels[j].deleteAt.value;
      assert r[i].timeLeft == Some(TimeLeftSeconds(a, now));
      assert r[j].timeLeft == Some(TimeLeftSeconds(b, now));
      DeadlineOrder(a, b, now);
    }
  }

  lemma DeadlineOrder(a: int, b: int, now: int)
    requires a <= b
    ensures TimeLeftSeconds(a, now) <= TimeLeftSeconds(b, now)
  {
  }
}
