/** Properties of the resolver and the display on the compiled-in route 700
    timetable. */
module ShippedChecks {
  import opened DayTimes
  import opened Schedules
  import opened Arrival
  import opened Display

  /** Strict selection: at 6:06, a departure time, the next bus is 6:25. */
  lemma AtDepartureTakesFollowing()
    ensures ArrivalAfter(Shipped, DayTime(6, 6)) == DayTime(6, 25)
  {
    FirstLaterIsArrival(Shipped, DayTime(6, 6), 2);
  }

  /** At 5:50 the next bus is 6:06, sixteen minutes away, and the watch
      shows "16m" and "700:  6:06". */
  lemma EarlyMorning()
    ensures ArrivalAfter(Shipped, DayTime(5, 50)) == DayTime(6, 6)
    ensures MinutesBetween(DayTime(5, 50), ArrivalAfter(Shipped, DayTime(5, 50))) == 16
    ensures CounterFor(MinutesBetween(DayTime(5, 50), ArrivalAfter(Shipped, DayTime(5, 50)))) == Minutes(16)
    ensures ShownHour(ArrivalAfter(Shipped, DayTime(5, 50)).hour) == 6
  {
    FirstLaterIsArrival(Shipped, DayTime(5, 50), 1);
  }

  /** At 23:59, the time of the last entry before the two after-midnight
      ones, nothing is later, so the scan wraps to 29:47: 348 minutes away,
      shown as "60+m" and "700:  5:47". */
  lemma LastBusWraps()
    ensures ArrivalAfter(Shipped, DayTime(23, 59)) == DayTime(29, 47)
    ensures MinutesBetween(DayTime(23, 59), ArrivalAfter(Shipped, DayTime(23, 59))) == 348
    ensures CounterFor(MinutesBetween(DayTime(23, 59), ArrivalAfter(Shipped, DayTime(23, 59)))) == SixtyPlus
    ensures ShownHour(ArrivalAfter(Shipped, DayTime(23, 59)).hour) == 5
  {
    ShippedValid();
    assert NoneLater(Shipped, DayTime(23, 59));
    NoneLaterWraps(Shipped, DayTime(23, 59));
  }

  /** The two after-midnight entries at the tail of the table are never
      returned, whatever the query time. */
  lemma TailNeverReturned(now: DayTime)
    ensures ArrivalAfter(Shipped, now) != DayTime(0, 18)
    ensures ArrivalAfter(Shipped, now) != DayTime(0, 37)
  {
    BelowHeadNeverReturned(Shipped, now, DayTime(0, 18));
    BelowHeadNeverReturned(Shipped, now, DayTime(0, 37));
  }

  /** With the first departure at 5:47 the shown hour is always a clock hour
      and the minutes until the next bus are 1..1440. */
  lemma ShippedDisplayInRange(now: DayTime)
    requires ValidTime(now)
    ensures 0 <= ShownHour(ArrivalAfter(Shipped, now).hour) < 24
    ensures 1 <= MinutesBetween(now, ArrivalAfter(Shipped, now)) <= 1440
  {
    ShippedValid();
    ShownHourOfArrival(Shipped, now);
    ArrivalWithinADay(Shipped, now);
  }
}
