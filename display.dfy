/** The two display decisions of the per-minute refresh: clamping the
    minute counter and folding a next-day hour back onto the clock face. */
module Display {
  import opened DayTimes
  import opened Schedules
  import opened Arrival

  /** The big counter: an exact minute count, or the "60+m" sentinel. */
  datatype Counter = Minutes(count: int) | SixtyPlus

  /** The bottom line: route number, hour and minute of the next bus. */
  datatype Details = Details(route: string, hour: int, minute: int)

  datatype Screen = Screen(counter: Counter, details: Details)

  /** The counter shown for a minute count: the sentinel exactly when the
      count is above an hour, otherwise the count itself. */
  function CounterFor(mins: int): (c: Counter)
    ensures c == SixtyPlus <==> mins > 60
    ensures c.Minutes? ==> c.count == mins
  {
    if mins > 60 then SixtyPlus else Minutes(mins)
  }

  /** The hour shown for an arrival hour: a day is taken off only when the
      hour is above 24, so an hour of exactly 24 is shown as 24. */
  function ShownHour(hour: int): (h: int)
    ensures 0 <= hour < 48 ==> h == if hour == 24 then 24 else hour % 24
  {
    if hour > 24 then hour - 24 else hour
  }

  /** One refresh with the clock reading passed in: resolve the next
      arrival, count the minutes, pick the counter, fold the hour. */
  method UpdateContent(table: seq<DayTime>, now: DayTime) returns (s: Screen)
    requires |table| > 0
    ensures s.counter == CounterFor(MinutesBetween(now, ArrivalAfter(table, now)))
    ensures s.details == Details(BusNumber, ShownHour(ArrivalAfter(table, now).hour),
                                 ArrivalAfter(table, now).minute)
  {
    var a := NextArrival(table, now);
    var mins := MinutesDifference(a, now);
    var counter: Counter;
    if mins > 60 {
      counter := SixtyPlus;
    } else {
      counter := Minutes(mins);
    }
    if a.hour > 24 {
      a := a.(hour := a.hour - 24);
    }
    s := Screen(counter, Details(BusNumber, a.hour, a.minute));
  }

  /** For a usable table and a wall-clock now, the counter shows the exact
      count exactly when the bus is at most an hour away, that count is
      1..60, and the sentinel stands for 61..1440 minutes. */
  lemma CounterOfArrival(table: seq<DayTime>, now: DayTime)
    requires ValidTable(table) && ValidTime(now)
    ensures var d := MinutesBetween(now, ArrivalAfter(table, now));
      && (CounterFor(d) == Minutes(d) <==> d <= 60)
      && (CounterFor(d).Minutes? ==> 1 <= CounterFor(d).count <= 60)
      && (CounterFor(d).SixtyPlus? ==> 60 < d <= 1440)
  {
    ArrivalWithinADay(table, now);
  }

  /** For a usable table and a wall-clock now, the shown hour is the clock
      hour of the arrival, except that a wrap to a first departure in the
      midnight hour is shown as 24 rather than 0. */
  lemma ShownHourOfArrival(table: seq<DayTime>, now: DayTime)
    requires ValidTable(table) && ValidTime(now)
    ensures var a := ArrivalAfter(table, now);
      ShownHour(a.hour) == if NoneLater(table, now) && table[0].hour == 0 then 24 else a.hour % 24
    ensures 0 <= ShownHour(ArrivalAfter(table, now).hour) <= 24
  {
    var a := ArrivalAfter(table, now);
    assert ValidTime(table[0]);
    if !NoneLater(table, now) {
      var i :| IsFirstLater(table, now, i) && a == table[i];
      assert ValidTime(table[i]);
    }
  }

  /** The quirk on a concrete table whose first departure is at 0:18: after
      the last bus of the day the watch shows the next one at 24:18. */
  lemma MidnightHeadShownAsTwentyFour()
    ensures var table := [DayTime(0, 18), DayTime(5, 47)];
      var a := ArrivalAfter(table, DayTime(23, 30));
      a == DayTime(24, 18) && ShownHour(a.hour) == 24
  {
    var table := [DayTime(0, 18), DayTime(5, 47)];
    NoneLaterWraps(table, DayTime(23, 30));
  }
}
