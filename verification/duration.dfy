/** `formatTime` of public/app.js: a number of seconds written as hours,
    minutes and seconds, leaving out leading parts that are zero
    (`1ч 0м 5с`, `2м 30с`, `45с`). */
module Duration {
  import opened JsNumber

  datatype Unit = Hours | Minutes | Seconds

  /** One printed part: an amount and its unit letter. */
  datatype Segment = Segment(amount: int, unit: Unit)

  function Weight(u: Unit): nat {
    match u
    case Hours => 3600
    case Minutes => 60
    case Seconds => 1
  }

  /** The unit letters: `ч`, `м`, `с`. */
  function Letter(u: Unit): char {
    match u
    case Hours => '\U{447}'
    case Minutes => '\U{43C}'
    case Seconds => '\U{441}'
  }

  /** JavaScript `a % b` for a positive divisor: the remainder takes the sign
      of the dividend. */
  function JsRem(a: int, b: int): (r: int)
    requires b == 60 || b == 3600
    ensures a >= 0 ==> 0 <= r < b
    ensures a < 0 ==> -b < r <= 0
    ensures (a - r) % b == 0
  {
    if a >= 0 then
      MultipleRem(a / b, b);
      a % b
    else
      MultipleRem(-((-a) / b), b);
      -((-a) % b)
  }

  /** A multiple of `b` leaves no remainder. */
  lemma MultipleRem(k: int, b: int)
    requires b > 0
    ensures (k * b) % b == 0
  {
    var x := k * b;
    var d := k - x / b;
    assert d * b == x % b;
    ScaledAway(d, b);
  }

  /** A non-zero multiple of a positive `b` is at least `b` away from 0. */
  lemma ScaledAway(d: int, b: int)
    ensures b > 0 && d >= 1 ==> d * b >= b
    ensures b > 0 && d <= -1 ==> d * b <= -b
  {
    if b > 0 && d >= 1 {
      assert d * b == b + (d - 1) * b;
    }
    if b > 0 && d <= -1 {
      assert d * b == -b + (d + 1) * b;
    }
  }

  /** The parts `formatTime(seconds)` prints, in order. */
  function FormatTime(seconds: int): (parts: seq<Segment>)
    ensures 1 <= |parts| <= 3
    ensures parts[|parts| - 1].unit == Seconds
    ensures seconds < 0 ==> parts == [Segment(JsRem(seconds, 60), Seconds)]
  {
    var hours := seconds / 3600;
    var minutes := JsRem(seconds, 3600) / 60;
    var secs := JsRem(seconds, 60);
    if hours > 0 then [Segment(hours, Hours), Segment(minutes, Minutes), Segment(secs, Seconds)]
    else if minutes > 0 then [Segment(minutes, Minutes), Segment(secs, Seconds)]
    else [Segment(secs, Seconds)]
  }

  /** The number of seconds a list of parts stands for. */
  function Total(parts: seq<Segment>): int
    decreases |parts|
  {
    if |parts| == 0 then 0 else parts[0].amount * Weight(parts[0].unit) + Total(parts[1..])
  }

  /** The shape `formatTime` prints for a non-negative input: the units are
      a tail of hours, minutes, seconds; minutes and seconds are below 60; the
      first part is positive unless it is the only one; nothing is negative. */
  ghost predicate Canonical(parts: seq<Segment>) {
    && (|parts| == 1 || |parts| == 2 || |parts| == 3)
    && (|parts| == 3 ==> parts[0].unit == Hours && parts[1].unit == Minutes && parts[2].unit == Seconds)
    && (|parts| == 2 ==> parts[0].unit == Minutes && parts[1].unit == Seconds)
    && (|parts| == 1 ==> parts[0].unit == Seconds)
    && (forall i :: 0 <= i < |parts| ==> parts[i].amount >= 0)
    && (forall i :: 0 <= i < |parts| && parts[i].unit != Hours ==> parts[i].amount < 60)
    && (|parts| > 1 ==> parts[0].amount > 0)
  }

  /** One printed part: the decimal amount and the unit letter. */
  function Part(seg: Segment): (p: string)
    ensures |p| >= 2 && p[|p| - 1] == Letter(seg.unit)
    ensures multiset(p)[' '] == 0
  {
    NoSpaceInNumber(seg.amount);
    var p := IntToString(seg.amount, 10) + [Letter(seg.unit)];
    assert multiset(p) == multiset(IntToString(seg.amount, 10)) + multiset{Letter(seg.unit)};
    p
  }

  /** The printed text: the parts separated by single spaces. */
  function Render(parts: seq<Segment>): (s: string)
    ensures |parts| == 0 <==> s == []
    ensures |parts| > 0 ==> |s| >= 2 && s[|s| - 1] == Letter(parts[|parts| - 1].unit)
    ensures |parts| > 0 ==> multiset(s)[' '] == |parts| - 1
    decreases |parts|
  {
    if |parts| == 0 then ""
    else if |parts| == 1 then Part(parts[0])
    else
      var rest := Render(parts[1..]);
      Join(Part(parts[0]), [' '], rest);
      Part(parts[0]) + [' '] + rest
  }

  /** Two parts print as each part's amount and letter, with a single
      space between them. */
  lemma RenderTwo(a: Segment, b: Segment)
    ensures Render([a, b]) == Part(a) + " " + Part(b)
  {
    assert [a, b][1..] == [b];
    RenderCons([a, b]);
  }

  /** Three parts print as each part's amount and letter, with a single
      space between each two. */
  lemma RenderThree(a: Segment, b: Segment, c: Segment)
    ensures Render([a, b, c]) == Part(a) + " " + Part(b) + " " + Part(c)
  {
    assert [a, b, c][1..] == [b, c];
    RenderCons([a, b, c]);
    RenderTwo(b, c);
    SpaceJoin(Part(a), Render([b, c]), Part(b), Part(c));
  }

  /** Two or more parts print as the first part, a space and the rest. */
  lemma RenderCons(parts: seq<Segment>)
    requires |parts| >= 2
    ensures Render(parts) == Part(parts[0]) + [' '] + Render(parts[1..])
  {
  }

  /** The last character and the spaces of a printed part followed by the
      rest of the text. */
  lemma Join(first: string, mid: string, rest: string)
    requires |mid| >= 1
    ensures var s := first + mid + rest;
      && |s| == |first| + |mid| + |rest|
      && s[|s| - 1] == (if |rest| > 0 then rest[|rest| - 1] else mid[|mid| - 1])
      && multiset(s)[' '] == multiset(first)[' '] + multiset(mid)[' '] + multiset(rest)[' ']
  {
    var s := first + mid + rest;
    assert multiset(s) == multiset(first) + multiset(mid) + multiset(rest);
  }

  /** Joining with a space is associative. */
  lemma SpaceJoin(a: string, rest: string, b: string, c: string)
    ensures rest == b ==> a + [' '] + rest == a + " " + b
    ensures rest == b + " " + c ==> a + [' '] + rest == a + " " + b + " " + c
  {
  }

  /** A printed number holds no space. */
  lemma NoSpaceInNumber(n: int)
    ensures multiset(IntToString(n, 10))[' '] == 0
  {
    var s := IntToString(n, 10);
    assert ' ' !in s by {
      forall k | 0 <= k < |s| ensures s[k] != ' ' {
        assert k == 0 || IsLowerHexDigit(s[k]);
      }
    }
  }

  /** `formatTime(seconds)` as a string. */
  function Text(seconds: int): (s: string)
    ensures |s| >= 2 && s[|s| - 1] == Letter(Seconds)
  {
    Render(FormatTime(seconds))
  }

  // ---------------------------------------------------------------------

  lemma TotalOfThree(a: Segment, b: Segment, c: Segment)
    ensures Total([a, b, c]) == a.amount * Weight(a.unit) + b.amount * Weight(b.unit) + c.amount * Weight(c.unit)
  {
    assert [a, b, c][1..] == [b, c];
    TotalOfTwo(b, c);
  }

  lemma TotalOfTwo(a: Segment, b: Segment)
    ensures Total([a, b]) == a.amount * Weight(a.unit) + b.amount * Weight(b.unit)
  {
    assert [a, b][1..] == [b];
    assert [b][1..] == [];
    assert Total([b]) == b.amount * Weight(b.unit) + Total([]);
  }

  /** For a non-negative input the parts add up to it and are in the
      canonical shape: hours appear exactly from 3600 seconds on, minutes
      exactly from 60 seconds on. */
  lemma FormatTimeMeaning(seconds: int)
    requires seconds >= 0
    ensures Total(FormatTime(seconds)) == seconds
    ensures Canonical(FormatTime(seconds))
    ensures FormatTime(seconds)[0].unit == Hours <==> seconds >= 3600
    ensures |FormatTime(seconds)| >= 2 <==> seconds >= 60
  {
    var parts := FormatTime(seconds);
    Decompose(seconds);
    if |parts| == 3 {
      TotalOfThree(parts[0], parts[1], parts[2]);
    } else if |parts| == 2 {
      TotalOfTwo(parts[0], parts[1]);
    }
  }

  /** Whole hours, the minutes of the remainder and the seconds add up again. */
  lemma Decompose(seconds: int)
    requires seconds >= 0
    ensures seconds == (seconds / 3600) * 3600 + ((seconds % 3600) / 60) * 60 + seconds % 60
  {
    var h, r := seconds / 3600, seconds % 3600;
    assert r == (r / 60) * 60 + r % 60;
    assert r % 60 == seconds % 60 by {
      assert seconds == (h * 60 + r / 60) * 60 + r % 60;
    }
  }

  /** `formatTime` inverts `Total` on canonical parts: there is exactly one
      way to print a non-negative number of seconds. */
  lemma FormatTotal(parts: seq<Segment>)
    requires Canonical(parts)
    ensures FormatTime(Total(parts)) == parts
  {
    if |parts| == 3 {
      var h, m, s := parts[0].amount, parts[1].amount, parts[2].amount;
      assert parts == [Segment(h, Hours), Segment(m, Minutes), Segment(s, Seconds)];
      TotalOfThree(parts[0], parts[1], parts[2]);
      Split(h, m, s);
    } else if |parts| == 2 {
      var m, s := parts[0].amount, parts[1].amount;
      assert parts == [Segment(m, Minutes), Segment(s, Seconds)];
      TotalOfTwo(parts[0], parts[1]);
      Split(0, m, s);
    } else {
      var s := parts[0].amount;
      assert parts == [Segment(s, Seconds)];
      assert parts[1..] == [];
      Split(0, 0, s);
    }
  }

  /** Hours, minutes below 60 and seconds below 60 come back out of the
      divisions `formatTime` performs. */
  lemma Split(h: nat, m: nat, s: nat)
    requires m < 60 && s < 60
    ensures var t := h * 3600 + m * 60 + s;
      t / 3600 == h && (t % 3600) / 60 == m && t % 60 == s
  {
  }

  /** A negative input prints only its seconds part, with JavaScript's sign. */
  lemma NegativeInput(seconds: int)
    requires seconds < 0
    ensures Text(seconds) == IntToString(-((-seconds) % 60), 10) + [Letter(Seconds)]
  {
    var seg := Segment(JsRem(seconds, 60), Seconds);
    assert FormatTime(seconds) == [seg];
    assert Render([seg]) == Part(seg);
  }

  /** Less than a minute prints as the bare number of seconds. */
  lemma UnderAMinute(seconds: int)
    requires 0 <= seconds < 60
    ensures Text(seconds) == IntToString(seconds, 10) + [Letter(Seconds)]
  {
    var seg := Segment(seconds, Seconds);
    assert FormatTime(seconds) == [seg];
    assert Render([seg]) == Part(seg);
  }

  /** 3725 seconds are one hour, two minutes and five seconds. */
  lemma Example()
    ensures FormatTime(3725) == [Segment(1, Hours), Segment(2, Minutes), Segment(5, Seconds)]
  {
  }

  /** 3725 seconds print as `1ч 2м 5с`. */
  lemma ExampleText()
    ensures Text(3725) == ['1', '\U{447}', ' ', '2', '\U{43C}', ' ', '5', '\U{441}']
  {
    var parts := [Segment(1, Hours), Segment(2, Minutes), Segment(5, Seconds)];
    Example();
    assert Text(3725) == Render(parts);
    RenderThree(parts[0], parts[1], parts[2]);
    DigitPart(1, Hours);
    DigitPart(2, Minutes);
    DigitPart(5, Seconds);
    ThreePairs(Part(parts[0]), Part(parts[1]), Part(parts[2]));
  }

  /** A one-digit amount prints as its digit and the unit letter. */
  lemma DigitPart(d: nat, u: Unit)
    requires d < 10
    ensures Part(Segment(d, u)) == [('0' as int + d) as char, Letter(u)]
  {
    assert IntToString(d, 10) == [DigitChar(d)];
  }

  /** Three two-character parts joined by spaces, character by character. */
  lemma ThreePairs(a: string, b: string, c: string)
    requires |a| == 2 && |b| == 2 && |c| == 2
    ensures a + " " + b + " " + c == [a[0], a[1], ' ', b[0], b[1], ' ', c[0], c[1]]
  {
  }
}
